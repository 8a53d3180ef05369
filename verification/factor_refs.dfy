/**
  `check_factor_cross_references`: the captures of
  `re.findall(r'Factor\s+(I{1,3}|IV|VI{0,3}|IX|XI{0,2})', content)`, each
  prefixed with `"Factor "`, without duplicates.

  After `Factor`, `\s+` must take the whole whitespace run, since the group
  starts with `I`, `V` or `X`. The alternatives are tried in order and the
  first that matches wins: on an `I` that is `I{1,3}` (greedy), so `IV` and
  `IX` are never reached and `Factor IV` and `Factor IX` capture `I`; on a `V`
  it is `V` with up to three `I`; on an `X`, `X` with up to two `I`.
  `list(set(...))` has no defined order, so the result is a set.
 */
module CrossReferences {
  import opened Wrappers
  import opened Strings
  import Slugs

  /** How many letters `I` follow at `from`, at most `max`. */
  function IRunLength(s: string, from: nat, max: nat): (k: nat)
    requires from <= |s|
    ensures k <= max && from + k <= |s|
    ensures forall j :: from <= j < from + k ==> s[j] == 'I'
    ensures k < max && from + k < |s| ==> s[from + k] != 'I'
    decreases max
  {
    if max == 0 || from == |s| || s[from] != 'I' then 0 else 1 + IRunLength(s, from + 1, max - 1)
  }

  /** Up to `max` letters `I` starting at `from`, as many as there are:
      what `I{0,max}` takes. */
  function IRun(s: string, from: nat, max: nat): (r: string)
    requires from <= |s|
    ensures |r| <= max && from + |r| <= |s|
    ensures forall j :: 0 <= j < |r| ==> r[j] == 'I' && s[from + j] == 'I'
    ensures |r| < max && from + |r| < |s| ==> s[from + |r|] != 'I'
  {
    seq(IRunLength(s, from, max), _ => 'I')
  }

  /** The group's capture at `q`, tried alternative by alternative. */
  function NumeralAt(s: string, q: nat): (r: Option<string>)
    requires q <= |s|
    ensures r.Some? ==> q + |r.value| <= |s| && OccursAt(s, r.value, q)
  {
    if q == |s| then None
    else if s[q] == 'I' then Some(IRun(s, q, 3))
    else if s[q] == 'V' then Some("V" + IRun(s, q + 1, 3))
    else if s[q] == 'X' then Some("X" + IRun(s, q + 1, 2))
    else None
  }

  /** A cross-reference match: where it starts, its numeral and where it ends. */
  datatype Reference = Reference(start: nat, numeral: string, stop: nat)

  /** The pattern tried at index `p`. */
  function ReferenceAt(s: string, p: nat): (r: Option<Reference>)
    requires p <= |s|
    ensures r.Some? ==> r.value.start == p < r.value.stop <= |s| && OccursAt(s, "Factor", p)
  {
    if !OccursAt(s, "Factor", p) then None
    else
      var w := Slugs.SpaceRun(s, p + 6);
      var q := p + 6 + w;
      if w == 0 then None
      else match NumeralAt(s, q)
        case Some(n) => Some(Reference(p, n, q + |n|))
        case None => None
  }

  /** The pattern matches at `p` exactly when `Factor`, a non-empty
      whitespace run and one of `I`, `V`, `X` follow there. */
  lemma ReferenceAtIff(s: string, p: nat)
    requires p <= |s|
    ensures ReferenceAt(s, p).Some? <==>
      && OccursAt(s, "Factor", p)
      && Slugs.SpaceRun(s, p + 6) > 0
      && p + 6 + Slugs.SpaceRun(s, p + 6) < |s|
      && s[p + 6 + Slugs.SpaceRun(s, p + 6)] in "IVX"
  {
  }

  /** `findall` from index `from`: every match, left to right, each search
      resuming where the previous match ended. */
  function ReferencesFrom(s: string, from: nat): (rs: seq<Reference>)
    requires from <= |s|
    ensures forall k :: 0 <= k < |rs| ==>
      from <= rs[k].start < |s| && ReferenceAt(s, rs[k].start) == Some(rs[k])
    ensures forall k :: 0 < k < |rs| ==> rs[k - 1].stop <= rs[k].start
    decreases |s| - from
  {
    if from == |s| then []
    else match ReferenceAt(s, from)
      case Some(r) => [r] + ReferencesFrom(s, r.stop)
      case None => ReferencesFrom(s, from + 1)
  }

  /** `check_factor_cross_references`. */
  function FactorReferences(content: string): (r: set<string>)
    ensures forall k :: 0 <= k < |ReferencesFrom(content, 0)| ==>
      "Factor " + ReferencesFrom(content, 0)[k].numeral in r
  {
    set m | m in ReferencesFrom(content, 0) :: "Factor " + m.numeral
  }

  /** Index `p` lies inside one of the matches `rs`. */
  predicate Covered(rs: seq<Reference>, p: nat) {
    exists k :: 0 <= k < |rs| && rs[k].start <= p < rs[k].stop
  }

  /** The numerals the pattern can capture. */
  predicate Captured(n: string) {
    n in ["I", "II", "III", "V", "VI", "VII", "VIII", "X", "XI", "XII"]
  }

  /** Every capture is one of I, II, III, V to VIII, X, XI or XII. */
  lemma NumeralAtShape(s: string, q: nat)
    requires q <= |s|
    ensures NumeralAt(s, q).Some? ==> Captured(NumeralAt(s, q).value)
  {
    if q < |s| {
      if s[q] == 'I' {
        IRunShape(s, q, 3);
      } else if s[q] == 'V' {
        IRunShape(s, q + 1, 3);
        assert "V" + "" == "V" && "V" + "I" == "VI" && "V" + "II" == "VII" && "V" + "III" == "VIII";
      } else if s[q] == 'X' {
        IRunShape(s, q + 1, 2);
        assert "X" + "" == "X" && "X" + "I" == "XI" && "X" + "II" == "XII";
      }
    }
  }

  /** A run of at most three `I` is one of four strings. */
  lemma IRunShape(s: string, from: nat, max: nat)
    requires from <= |s| && max <= 3
    ensures IRun(s, from, max) in ["", "I", "II", "III"]
    ensures max == 3 && from < |s| && s[from] == 'I' ==> IRun(s, from, max) in ["I", "II", "III"]
  {
    var r := IRun(s, from, max);
    if |r| == 1 { assert r == "I"; }
    if |r| == 2 { assert r == "II"; }
    if |r| == 3 { assert r == "III"; }
  }

  /** The numeral of a match is one the pattern can capture. */
  lemma ReferenceAtShape(s: string, p: nat)
    requires p <= |s| && ReferenceAt(s, p).Some?
    ensures Captured(ReferenceAt(s, p).value.numeral)
  {
    NumeralAtShape(s, p + 6 + Slugs.SpaceRun(s, p + 6));
  }

  /** Every numeral found is one the pattern can capture. */
  lemma ReferencesFromShape(s: string, from: nat)
    requires from <= |s|
    ensures forall k :: 0 <= k < |ReferencesFrom(s, from)| ==> Captured(ReferencesFrom(s, from)[k].numeral)
  {
    var rs := ReferencesFrom(s, from);
    forall k | 0 <= k < |rs|
      ensures Captured(rs[k].numeral)
    {
      ReferenceAtShape(s, rs[k].start);
    }
  }

  /** Every reference reported is the numeral of a match somewhere in the
      content. */
  lemma ReferencesSound(content: string, x: string)
    requires x in FactorReferences(content)
    ensures exists p ::
              && 0 <= p < |content| && ReferenceAt(content, p).Some?
              && x == "Factor " + ReferenceAt(content, p).value.numeral
  {
    var rs := ReferencesFrom(content, 0);
    var m :| m in rs && x == "Factor " + m.numeral;
    var k :| 0 <= k < |rs| && rs[k] == m;
    assert ReferenceAt(content, m.start) == Some(m);
  }

  /** `IV` and `IX` are not among the capturable numerals. */
  lemma CapturedNeverFourOrNine(n: string)
    requires Captured(n)
    ensures n != "IV" && n != "IX"
  {
  }

  /** One reported reference reads `Factor ` and a capturable numeral. */
  lemma ReferenceShape(content: string, x: string)
    requires x in FactorReferences(content)
    ensures exists n :: Captured(n) && x == "Factor " + n
    ensures x != "Factor IV" && x != "Factor IX"
  {
    ReferencesSound(content, x);
    var p :| 0 <= p < |content| && ReferenceAt(content, p).Some?
      && x == "Factor " + ReferenceAt(content, p).value.numeral;
    var n := ReferenceAt(content, p).value.numeral;
    ReferenceAtShape(content, p);
    CapturedNeverFourOrNine(n);
    assert x[7..] == n;
    assert "Factor IV"[7..] == "IV" && "Factor IX"[7..] == "IX";
  }

  /** Every reference reads `Factor ` and a numeral the pattern can capture;
      in particular `Factor IV` and `Factor IX` are never reported. */
  lemma ReferencesShape(content: string)
    ensures forall r :: r in FactorReferences(content) ==> exists n :: Captured(n) && r == "Factor " + n
    ensures "Factor IV" !in FactorReferences(content) && "Factor IX" !in FactorReferences(content)
  {
    forall x | x in FactorReferences(content)
      ensures exists n :: Captured(n) && x == "Factor " + n
      ensures x != "Factor IV" && x != "Factor IX"
    {
      ReferenceShape(content, x);
    }
  }

  /** The scan misses no match: every index at or after `from` where the
      pattern matches lies inside a reported match. */
  lemma {:induction false} ReferencesFromComplete(s: string, from: nat, p: nat)
    requires from <= p < |s| && ReferenceAt(s, p).Some?
    ensures Covered(ReferencesFrom(s, from), p)
    decreases |s| - from
  {
    var rs := ReferencesFrom(s, from);
    match ReferenceAt(s, from)
    case Some(m) =>
      var rest := ReferencesFrom(s, m.stop);
      assert rs == [m] + rest;
      if p < m.stop {
        assert rs[0].start <= p < rs[0].stop;
      } else {
        ReferencesFromComplete(s, m.stop, p);
        var k :| 0 <= k < |rest| && rest[k].start <= p < rest[k].stop;
        assert rs[k + 1] == rest[k];
      }
    case None =>
      assert p != from;
      assert rs == ReferencesFrom(s, from + 1);
      ReferencesFromComplete(s, from + 1, p);
  }

  /** A match at `p` is reported, unless it lies inside a reported match that
      started earlier: the match covering `p` has its numeral in the report. */
  lemma ReferencesComplete(content: string, p: nat)
    requires p < |content| && ReferenceAt(content, p).Some?
    ensures exists k ::
              && 0 <= k < |ReferencesFrom(content, 0)|
              && ReferencesFrom(content, 0)[k].start <= p < ReferencesFrom(content, 0)[k].stop
              && "Factor " + ReferencesFrom(content, 0)[k].numeral in FactorReferences(content)
  {
    ReferencesFromComplete(content, 0, p);
  }

  /** The content has a cross-reference exactly when the pattern matches
      somewhere in it. */
  lemma HasReferenceIff(content: string)
    ensures |FactorReferences(content)| > 0 <==> exists p :: 0 <= p < |content| && ReferenceAt(content, p).Some?
  {
    var rs := ReferencesFrom(content, 0);
    if p :| 0 <= p < |content| && ReferenceAt(content, p).Some? {
      ReferencesComplete(content, p);
    }
    if |FactorReferences(content)| > 0 {
      var x :| x in FactorReferences(content);
      ReferencesSound(content, x);
    }
  }

  /** `Factor IV` and `Factor IX` are read as `Factor I`. */
  lemma FourAndNineReadAsOne()
    ensures FactorReferences("Factor IV") == {"Factor I"}
    ensures FactorReferences("Factor IX") == {"Factor I"}
  {
    OnlyNumeral("Factor IV");
    OnlyNumeral("Factor IX");
  }

  /** A nine-character text `Factor I?` whose last letter is not `I` holds
      the single numeral `I`. */
  lemma OnlyNumeral(s: string)
    requires |s| == 9 && s[..8] == "Factor I" && s[8] != 'I'
    ensures FactorReferences(s) == {"Factor I"}
  {
    assert OccursAt(s, "Factor", 0);
    assert Slugs.SpaceRun(s, 6) == 1 by {
      assert IsSpace(s[6]) && !IsSpace(s[7]);
    }
    assert IRun(s, 7, 3) == "I" by {
      assert IRun(s, 8, 2) == "";
    }
    assert ReferenceAt(s, 0) == Some(Reference(0, "I", 8));
    forall p | 8 <= p <= 9 ensures ReferenceAt(s, p).None? {
      assert !OccursAt(s, "Factor", p);
    }
    assert ReferencesFrom(s, 9) == [];
    assert ReferencesFrom(s, 8) == [];
    assert ReferencesFrom(s, 0) == [Reference(0, "I", 8)];
    assert "Factor " + "I" == "Factor I";
  }
}
