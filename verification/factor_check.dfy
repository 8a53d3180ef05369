/**
  The compliance check of one factor document: which required sections its
  headings name, which pillars and laws it mentions, how many anti-pattern
  markers it has, which other factors it cites, whether it quotes metrics,
  and the score out of six with its tier.
 */
module FactorCheck {
  import opened Strings
  import FactorHeadings
  import AntiPatterns
  import CrossReferences
  import EvidenceMetrics

  /** The nine sections every factor document must have, in order. */
  const RequiredSections: seq<string> := [
    "Summary", "The Problem", "The Principle", "Why This Works", "Implementation",
    "Validation", "Real-World Evidence", "Anti-Patterns", "Relationship to Other Factors"
  ]

  /** The four pillars. */
  const Pillars: seq<string> := ["DevOps + SRE", "Learning Science", "Context Engineering", "Knowledge OS"]

  /** The five laws. */
  const Laws: seq<string> := ["Law 1", "Law 2", "Law 3", "Law 4", "Law 5"]

  /** The highest score. */
  const MaxScore: nat := 6

  /** `xs` is `ys` with some elements left out, the rest kept in order. */
  predicate Subsequence<T(==)>(xs: seq<T>, ys: seq<T>)
    decreases |ys|
  {
    if |ys| == 0 then |xs| == 0
    else (|xs| > 0 && xs[0] == ys[0] && Subsequence(xs[1..], ys[1..])) || Subsequence(xs, ys[1..])
  }

  /** No element appears twice. */
  predicate Distinct<T(==)>(s: seq<T>) {
    forall i, j :: 0 <= i < j < |s| ==> s[i] != s[j]
  }

  /** Putting an element that is not there yet in front keeps a sequence
      duplicate-free. */
  lemma DistinctCons<T>(x: T, s: seq<T>)
    requires x !in s && Distinct(s)
    ensures Distinct([x] + s)
  {
    var t := [x] + s;
    forall i, j | 0 <= i < j < |t|
      ensures t[i] != t[j]
    {
      if i == 0 {
        assert t[j] == s[j - 1] && t[j] in s;
      } else {
        assert t[i] == s[i - 1] && t[j] == s[j - 1];
      }
    }
  }

  /** Some heading contains the section name, both sides lower-cased. */
  predicate SectionPresent(section: string, headings: seq<string>) {
    exists k :: 0 <= k < |headings| && Contains(Lower(headings[k]), Lower(section))
  }

  /** `check_required_sections` on a list of sections: the present ones and
      the missing ones, each in the order of `sections`. */
  function Partition(sections: seq<string>, headings: seq<string>): (r: (seq<string>, seq<string>))
    ensures |r.0| + |r.1| == |sections|
    ensures forall s :: s in r.0 <==> s in sections && SectionPresent(s, headings)
    ensures forall s :: s in r.1 <==> s in sections && !SectionPresent(s, headings)
    ensures r.1 == [] <==> forall s :: s in sections ==> SectionPresent(s, headings)
    ensures Subsequence(r.0, sections) && Subsequence(r.1, sections)
    decreases |sections|
  {
    if |sections| == 0 then ([], [])
    else
      var rest := Partition(sections[1..], headings);
      assert forall s :: s in sections <==> s == sections[0] || s in sections[1..];
      if SectionPresent(sections[0], headings) then ([sections[0]] + rest.0, rest.1)
      else (rest.0, [sections[0]] + rest.1)
  }

  /** `check_required_sections`. */
  function CheckRequiredSections(headings: seq<string>): (r: (seq<string>, seq<string>))
    ensures |r.0| + |r.1| == |RequiredSections|
    ensures |r.0| == |RequiredSections| <==> r.1 == []
    ensures r.1 == [] <==> forall s :: s in RequiredSections ==> SectionPresent(s, headings)
    ensures forall s :: s in r.0 <==> s in RequiredSections && SectionPresent(s, headings)
    ensures forall s :: s in r.1 <==> s in RequiredSections && !SectionPresent(s, headings)
    ensures Subsequence(r.0, RequiredSections) && Subsequence(r.1, RequiredSections)
  {
    Partition(RequiredSections, headings)
  }

  /** The names that occur in `content`, in the order of `names`. */
  function FoundIn(names: seq<string>, content: string): (r: seq<string>)
    ensures forall n :: n in r <==> n in names && Contains(content, n)
    ensures Subsequence(r, names)
    ensures Distinct(names) ==> Distinct(r)
    decreases |names|
  {
    if |names| == 0 then []
    else
      var rest := FoundIn(names[1..], content);
      assert forall n :: n in names <==> n == names[0] || n in names[1..];
      if Contains(content, names[0]) then
        if Distinct(names) then
          assert names[0] !in names[1..] by {
            forall k | 0 <= k < |names[1..]| ensures names[1..][k] != names[0] {
              assert names[1..][k] == names[k + 1];
            }
          }
          assert Distinct(names[1..]) by {
            forall i, j | 0 <= i < j < |names[1..]| ensures names[1..][i] != names[1..][j] {
              assert names[1..][i] == names[i + 1] && names[1..][j] == names[j + 1];
            }
          }
          DistinctCons(names[0], rest);
          [names[0]] + rest
        else [names[0]] + rest
      else
        assert Distinct(names) ==> Distinct(names[1..]) by {
          if Distinct(names) {
            forall i, j | 0 <= i < j < |names[1..]| ensures names[1..][i] != names[1..][j] {
              assert names[1..][i] == names[i + 1] && names[1..][j] == names[j + 1];
            }
          }
        }
        rest
  }

  /** `check_pillar_references`. */
  function CheckPillarReferences(content: string): (r: seq<string>)
    ensures forall p :: p in r <==> p in Pillars && Contains(content, p)
    ensures Subsequence(r, Pillars)
  {
    FoundIn(Pillars, content)
  }

  /** `check_law_references`. */
  function CheckLawReferences(content: string): (r: seq<string>)
    ensures forall l :: l in r <==> l in Laws && Contains(content, l)
    ensures Subsequence(r, Laws)
  {
    FoundIn(Laws, content)
  }

  /** Each pillar and each law is reported at most once. */
  lemma ReferencesDistinct(content: string)
    ensures Distinct(CheckPillarReferences(content))
    ensures Distinct(CheckLawReferences(content))
  {
    PillarsDistinct();
    LawsDistinct();
  }

  /** The four pillars are different names. */
  lemma PillarsDistinct()
    ensures Distinct(Pillars)
  {
    var heads := seq(|Pillars|, k requires 0 <= k < |Pillars| => Pillars[k][0]);
    assert heads == "DLCK";
  }

  /** The five laws are different names. */
  lemma LawsDistinct()
    ensures Distinct(Laws)
  {
    var digits := seq(|Laws|, k requires 0 <= k < |Laws| => Laws[k][4]);
    assert digits == "12345";
  }

  /** The result of `validate_factor`; `file` is the file name. */
  datatype FactorReport = FactorReport(
    file: string,
    sectionsFound: seq<string>,
    sectionsMissing: seq<string>,
    pillars: seq<string>,
    laws: seq<string>,
    antiPatterns: nat,
    crossReferences: set<string>,
    hasMetrics: bool)

  /** `validate_factor` on a file named `file` with the given content. */
  function ValidateFactor(file: string, content: string): (r: FactorReport)
    ensures r.file == file
    ensures |r.sectionsFound| + |r.sectionsMissing| == |RequiredSections|
    ensures forall p :: p in r.pillars <==> p in Pillars && Contains(content, p)
    ensures forall l :: l in r.laws <==> l in Laws && Contains(content, l)
    ensures r.antiPatterns == AntiPatterns.CountAntiPatterns(content)
    ensures r.crossReferences == CrossReferences.FactorReferences(content)
    ensures r.hasMetrics <==> exists i: nat :: i < |content| && EvidenceMetrics.MetricAt(content, i)
  {
    var sections := CheckRequiredSections(FactorHeadings.ExtractHeadings(content));
    FactorReport(
      file, sections.0, sections.1,
      CheckPillarReferences(content), CheckLawReferences(content),
      AntiPatterns.CountAntiPatterns(content),
      CrossReferences.FactorReferences(content),
      EvidenceMetrics.HasMetrics(content))
  }

  /** A required section is reported found exactly when some heading of the
      document names it, and none is missing exactly when all are found. */
  lemma ValidateFactorSections(file: string, content: string)
    ensures var r := ValidateFactor(file, content);
      var headings := FactorHeadings.ExtractHeadings(content);
      && (forall s :: s in r.sectionsFound <==> s in RequiredSections && SectionPresent(s, headings))
      && (forall s :: s in r.sectionsMissing <==> s in RequiredSections && !SectionPresent(s, headings))
      && (r.sectionsMissing == [] <==> forall s :: s in RequiredSections ==> SectionPresent(s, headings))
  {
  }

  /** The six criteria of the compliance score. */
  function Criteria(r: FactorReport): seq<bool> {
    [ |r.sectionsFound| == |RequiredSections|,
      |r.pillars| > 0,
      |r.laws| > 0,
      r.hasMetrics,
      r.antiPatterns >= 3,
      |r.crossReferences| > 0 ]
  }

  /** How many of `bs` hold. */
  function CountTrue(bs: seq<bool>): nat
    decreases |bs|
  {
    if |bs| == 0 then 0 else (if bs[0] then 1 else 0) + CountTrue(bs[1..])
  }

  /** At most every flag holds, and all of them exactly when the count is full. */
  lemma {:induction false} CountTrueBounds(bs: seq<bool>)
    ensures CountTrue(bs) <= |bs|
    ensures CountTrue(bs) == |bs| <==> forall k :: 0 <= k < |bs| ==> bs[k]
    decreases |bs|
  {
    if |bs| > 0 {
      CountTrueBounds(bs[1..]);
      assert forall k :: 1 <= k < |bs| ==> bs[k] == bs[1..][k - 1];
    }
  }

  /** The compliance score: one point per criterion met. */
  function Score(r: FactorReport): (n: nat)
    ensures n == CountTrue(Criteria(r))
    ensures n <= MaxScore
    ensures n == MaxScore <==> forall k :: 0 <= k < |Criteria(r)| ==> Criteria(r)[k]
  {
    var c := Criteria(r);
    CountTrueBounds(c);
    assert CountTrue(c[5..]) == (if c[5] then 1 else 0);
    assert CountTrue(c[4..]) == (if c[4] then 1 else 0) + CountTrue(c[5..]);
    assert CountTrue(c[3..]) == (if c[3] then 1 else 0) + CountTrue(c[4..]);
    assert CountTrue(c[2..]) == (if c[2] then 1 else 0) + CountTrue(c[3..]);
    assert CountTrue(c[1..]) == (if c[1] then 1 else 0) + CountTrue(c[2..]);
    (if |r.sectionsFound| == |RequiredSections| then 1 else 0)
    + (if |r.pillars| > 0 then 1 else 0)
    + (if |r.laws| > 0 then 1 else 0)
    + (if r.hasMetrics then 1 else 0)
    + (if r.antiPatterns >= 3 then 1 else 0)
    + (if |r.crossReferences| > 0 then 1 else 0)
  }

  /** The verdict printed under the score. */
  datatype Tier = Excellent | Good | NeedsWork

  /** The tier of a score: a percentage of at least 90 is excellent, one of
      at least 70 good; compared without division as `score * 100` against
      `threshold * MaxScore`. */
  function TierOf(score: nat): (t: Tier)
    ensures t == Excellent <==> score >= MaxScore
    ensures t == Good <==> score == MaxScore - 1
    ensures t == NeedsWork <==> score <= MaxScore - 2
  {
    if score * 100 >= 90 * MaxScore then Excellent
    else if score * 100 >= 70 * MaxScore then Good
    else NeedsWork
  }

  /** A report is excellent exactly when it meets every criterion. */
  lemma ExcellentIffAllCriteria(r: FactorReport)
    requires |r.sectionsFound| + |r.sectionsMissing| == |RequiredSections|
    ensures TierOf(Score(r)) == Excellent <==>
      && r.sectionsMissing == [] && |r.sectionsFound| == |RequiredSections|
      && |r.pillars| > 0 && |r.laws| > 0 && r.hasMetrics
      && r.antiPatterns >= 3 && |r.crossReferences| > 0
  {
    var c := Criteria(r);
    assert c[0] && c[1] && c[2] && c[3] && c[4] && c[5] <==> forall k :: 0 <= k < |c| ==> c[k];
  }

  /** A report of the check is excellent exactly when every required section
      is present and every other criterion holds. */
  lemma ValidateExcellent(file: string, content: string)
    ensures var r := ValidateFactor(file, content);
      TierOf(Score(r)) == Excellent <==>
        && (forall s :: s in RequiredSections ==> SectionPresent(s, FactorHeadings.ExtractHeadings(content)))
        && |r.pillars| > 0 && |r.laws| > 0 && r.hasMetrics
        && r.antiPatterns >= 3 && |r.crossReferences| > 0
  {
    ExcellentIffAllCriteria(ValidateFactor(file, content));
    ValidateFactorSections(file, content);
  }

  /** The partial, case-blind match: a heading "Executive summary" names the
      section "Summary". */
  lemma PartialCaseBlindMatch()
    ensures SectionPresent("Summary", ["Executive summary"])
  {
    var heading := Lower("Executive summary");
    assert heading[10..17] == Lower("Summary");
    assert OccursAt(heading, Lower("Summary"), 10);
    assert Contains(Lower(["Executive summary"][0]), Lower("Summary"));
  }

  /** Laws are matched as plain substrings, so "Law 10" also counts as
      "Law 1". */
  lemma LawTenCountsAsLawOne()
    ensures CheckLawReferences("see Law 10") == ["Law 1"]
  {
    assert OccursAt("see Law 10", "Law 1", 4);
    forall l | l in ["Law 2", "Law 3", "Law 4", "Law 5"]
      ensures !Contains("see Law 10", l)
    {
      forall i: nat | i + |l| <= |"see Law 10"|
        ensures !OccursAt("see Law 10", l, i)
      {
        assert "see Law 10"[i..i + 5][4] != l[4] || "see Law 10"[i..i + 5][0] != l[0];
      }
    }
  }
}
