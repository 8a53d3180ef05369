/**
  `count_anti_patterns`: for each of four literal markers, the number of
  matches `re.findall(marker, content, re.IGNORECASE)` returns, summed.
  `findall` on a literal scans left to right and resumes after each match, so
  matches never overlap. Case is ignored for ASCII letters only.
 */
module AntiPatterns {
  import opened Strings

  /** The markers as the patterns spell them: a cross mark, `Anti-pattern`,
      `**Wrong**:` and `Don't:`. */
  const Markers: seq<string> := ["\U{274C}", "Anti-pattern", "**Wrong**:", "Don't:"]

  /** The number of non-overlapping matches of `pattern` at or after `from`,
      ignoring case. */
  function CountFrom(s: string, pattern: string, from: nat): (n: nat)
    requires |pattern| > 0
    decreases |s| - from
  {
    if from + |pattern| > |s| then 0
    else if OccursAtIgnoreCase(s, pattern, from) then 1 + CountFrom(s, pattern, from + |pattern|)
    else CountFrom(s, pattern, from + 1)
  }

  /** The count is zero exactly when the pattern occurs nowhere at or after
      `from`. */
  lemma {:induction false} CountZeroIff(s: string, pattern: string, from: nat)
    requires |pattern| > 0
    ensures CountFrom(s, pattern, from) == 0 <==> forall i: nat :: from <= i ==> !OccursAtIgnoreCase(s, pattern, i)
    decreases |s| - from
  {
    if from + |pattern| <= |s| && !OccursAtIgnoreCase(s, pattern, from) {
      CountZeroIff(s, pattern, from + 1);
      forall i: nat | from <= i && OccursAtIgnoreCase(s, pattern, i)
        ensures from + 1 <= i
      {
      }
    }
  }

  /** Matches do not overlap: they fit, one after another, in what is left of
      the text. */
  lemma {:induction false} CountBounded(s: string, pattern: string, from: nat)
    requires |pattern| > 0
    ensures CountFrom(s, pattern, from) * |pattern| <= if from <= |s| then |s| - from else 0
    decreases |s| - from
  {
    if from + |pattern| <= |s| {
      if OccursAtIgnoreCase(s, pattern, from) {
        var rest := CountFrom(s, pattern, from + |pattern|);
        CountBounded(s, pattern, from + |pattern|);
        MultiplyStep(rest, |pattern|, |s| - (from + |pattern|));
      } else {
        CountBounded(s, pattern, from + 1);
      }
    }
  }

  /** One more match takes one more pattern's width. */
  lemma MultiplyStep(c: nat, width: nat, room: nat)
    requires c * width <= room
    ensures (1 + c) * width <= room + width
  {
  }

  /** The sum over the markers. */
  function Total(content: string, markers: seq<string>): nat
    requires forall k :: 0 <= k < |markers| ==> |markers[k]| > 0
    decreases |markers|
  {
    if |markers| == 0 then 0 else CountFrom(content, markers[0], 0) + Total(content, markers[1..])
  }

  /** `count_anti_patterns`. */
  function CountAntiPatterns(content: string): nat {
    Total(content, Markers)
  }

  /** A marker occurs at `i` of the content. */
  predicate MarkerAt(content: string, markers: seq<string>, k: nat, i: nat) {
    k < |markers| && OccursAtIgnoreCase(content, markers[k], i)
  }

  /** The total is zero exactly when no marker occurs anywhere. */
  lemma {:induction false} TotalZeroIff(content: string, markers: seq<string>)
    requires forall k :: 0 <= k < |markers| ==> |markers[k]| > 0
    ensures Total(content, markers) == 0 <==> forall k: nat, i: nat :: !MarkerAt(content, markers, k, i)
    decreases |markers|
  {
    if |markers| > 0 {
      var rest := markers[1..];
      CountZeroIff(content, markers[0], 0);
      TotalZeroIff(content, rest);
      if Total(content, markers) == 0 {
        forall k: nat, i: nat ensures !MarkerAt(content, markers, k, i) {
          if 0 < k < |markers| {
            assert markers[k] == rest[k - 1];
            assert !MarkerAt(content, rest, k - 1, i);
          }
        }
      } else {
        if CountFrom(content, markers[0], 0) > 0 {
          var i: nat :| OccursAtIgnoreCase(content, markers[0], i);
          assert MarkerAt(content, markers, 0, i);
        } else {
          var k: nat, i: nat :| MarkerAt(content, rest, k, i);
          assert markers[k + 1] == rest[k];
          assert MarkerAt(content, markers, k + 1, i);
        }
      }
    }
  }

  /** The anti-pattern count is zero exactly when none of the four markers
      occurs in the content. */
  lemma AntiPatternsZeroIff(content: string)
    ensures CountAntiPatterns(content) == 0 <==> forall k: nat, i: nat :: !MarkerAt(content, Markers, k, i)
  {
    TotalZeroIff(content, Markers);
  }

  /** A match ignoring case depends on the text only up to ASCII case. */
  lemma OccursIgnoresCase(s: string, t: string, pattern: string, from: nat)
    requires |s| == |t| && from + |pattern| <= |s|
    requires forall i :: 0 <= i < |s| ==> LowerChar(s[i]) == LowerChar(t[i])
    ensures OccursAtIgnoreCase(s, pattern, from) == OccursAtIgnoreCase(t, pattern, from)
  {
    var j := from + |pattern|;
    forall i | 0 <= i < |pattern| ensures Lower(s[from..j])[i] == Lower(t[from..j])[i] {
      assert s[from..j][i] == s[from + i] && t[from..j][i] == t[from + i];
    }
    assert Lower(s[from..j]) == Lower(t[from..j]);
  }

  /** Case is ignored: texts that agree up to ASCII case hold the same
      number of matches. */
  lemma {:induction false} CountIgnoresCase(s: string, t: string, pattern: string, from: nat)
    requires |pattern| > 0 && |s| == |t|
    requires forall i :: 0 <= i < |s| ==> LowerChar(s[i]) == LowerChar(t[i])
    ensures CountFrom(s, pattern, from) == CountFrom(t, pattern, from)
    decreases |s| - from
  {
    if from + |pattern| <= |s| {
      var j := from + |pattern|;
      OccursIgnoresCase(s, t, pattern, from);
      CountIgnoresCase(s, t, pattern, j);
      CountIgnoresCase(s, t, pattern, from + 1);
    }
  }
}
