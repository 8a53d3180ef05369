/**
  `check_evidence_metrics`: whether any of seven patterns is found by
  `re.search(pattern, content, re.IGNORECASE)`: `\d+%`, `\d+x\s+\w+`,
  `\d+\s+sessions`, `Impact:`, `Result:`, `speedup` and `efficiency gain`.

  A pattern that starts with `\d+` matches somewhere exactly when it matches
  with a single digit, the last of the run, so each is stated from one
  digit. `\s+` must take the whole whitespace run, because what follows it (a
  word character, or the `s` of `sessions`) is not whitespace. Case is
  ignored for ASCII letters; `\d` and `\w` are taken as ASCII.
 */
module EvidenceMetrics {
  import opened Strings
  import Slugs

  /** `\d+%` matches ending at `i + 1`. */
  predicate PercentAt(s: string, i: nat) {
    i + 1 < |s| && IsDigit(s[i]) && s[i + 1] == '%'
  }

  /** `\d+x\s+\w+` matches with its last digit at `i`. */
  predicate TimesAt(s: string, i: nat) {
    && i + 2 < |s| && IsDigit(s[i]) && LowerChar(s[i + 1]) == 'x'
    && var w := Slugs.SpaceRun(s, i + 2);
       w > 0 && i + 2 + w < |s| && IsWordChar(s[i + 2 + w])
  }

  /** `\d+\s+sessions` matches with its last digit at `i`. */
  predicate SessionsAt(s: string, i: nat) {
    && i + 1 < |s| && IsDigit(s[i])
    && var w := Slugs.SpaceRun(s, i + 1);
       w > 0 && OccursAtIgnoreCase(s, "sessions", i + 1 + w)
  }

  /** One of the four literal patterns matches at `i`. */
  predicate PhraseAt(s: string, i: nat) {
    || OccursAtIgnoreCase(s, "Impact:", i)
    || OccursAtIgnoreCase(s, "Result:", i)
    || OccursAtIgnoreCase(s, "speedup", i)
    || OccursAtIgnoreCase(s, "efficiency gain", i)
  }

  /** Some pattern matches at `i`. */
  predicate MetricAt(s: string, i: nat) {
    PercentAt(s, i) || TimesAt(s, i) || SessionsAt(s, i) || PhraseAt(s, i)
  }

  /** The search from index `from`. */
  function HasMetricsFrom(s: string, from: nat): (r: bool)
    ensures r <==> exists i: nat :: from <= i < |s| && MetricAt(s, i)
    decreases |s| - from
  {
    if from >= |s| then false
    else MetricAt(s, from) || HasMetricsFrom(s, from + 1)
  }

  /** `check_evidence_metrics`. */
  function HasMetrics(content: string): (r: bool)
    ensures r <==> exists i: nat :: i < |content| && MetricAt(content, i)
  {
    HasMetricsFrom(content, 0)
  }

  /** A word character is never whitespace. */
  lemma WordCharNotSpace(c: char)
    ensures IsWordChar(c) ==> !IsSpace(c)
  {
  }

  /** The regular expression `\d+x\s+\w+` with its last digit at `i` and a
      whitespace run of `w` characters. */
  predicate TimesMatch(s: string, i: nat, w: nat) {
    && i + 2 + w < |s| && IsDigit(s[i]) && LowerChar(s[i + 1]) == 'x' && 0 < w
    && (forall j :: i + 2 <= j < i + 2 + w ==> IsSpace(s[j]))
    && IsWordChar(s[i + 2 + w])
  }

  /** The scanner's test holds exactly when the pattern matches with some
      whitespace run, and that run is the whole one. */
  lemma TimesAtIff(s: string, i: nat, w: nat)
    ensures TimesMatch(s, i, w) ==> TimesAt(s, i) && w == Slugs.SpaceRun(s, i + 2)
    ensures TimesAt(s, i) ==> TimesMatch(s, i, Slugs.SpaceRun(s, i + 2))
  {
    if TimesMatch(s, i, w) {
      var run := Slugs.SpaceRun(s, i + 2);
      WordCharNotSpace(s[i + 2 + w]);
      assert !IsSpace(s[i + 2 + w]);
      assert i + 2 + run < |s| ==> !IsSpace(s[i + 2 + run]);
    }
  }

  /** The regular expression `\d+\s+sessions` with its last digit at `i` and
      a whitespace run of `w` characters. */
  predicate SessionsMatch(s: string, i: nat, w: nat) {
    && i + 1 + w < |s| && IsDigit(s[i]) && 0 < w
    && (forall j :: i + 1 <= j < i + 1 + w ==> IsSpace(s[j]))
    && OccursAtIgnoreCase(s, "sessions", i + 1 + w)
  }

  /** The scanner's test holds exactly when the pattern matches with some
      whitespace run, and that run is the whole one. */
  lemma SessionsAtIff(s: string, i: nat, w: nat)
    ensures SessionsMatch(s, i, w) ==> SessionsAt(s, i) && w == Slugs.SpaceRun(s, i + 1)
    ensures SessionsAt(s, i) ==> SessionsMatch(s, i, Slugs.SpaceRun(s, i + 1))
  {
    if SessionsMatch(s, i, w) {
      var run := Slugs.SpaceRun(s, i + 1);
      var word := s[i + 1 + w..i + 1 + w + 8];
      assert LowerChar(word[0]) == Lower(word)[0] == Lower("sessions")[0] == 's';
      assert s[i + 1 + w] == word[0];
      assert !IsSpace(s[i + 1 + w]);
      assert i + 1 + run < |s| ==> !IsSpace(s[i + 1 + run]);
    }
  }

  /** A percentage is evidence. */
  lemma PercentExample()
    ensures HasMetrics("saves 95% of time")
  {
    assert PercentAt("saves 95% of time", 7);
  }
}
