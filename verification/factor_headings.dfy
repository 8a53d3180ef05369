/**
  `extract_headings` of the factor checker: `re.findall(r'^#{1,6}\s+(.+)$',
  content, re.MULTILINE)` over the whole document.

  Here `^` holds at the start of the text and after every `\n`, `$` before
  every `\n` and at the end, and `\s+` may run across line breaks. At a line
  start the `#` run must be 1 to 6 long and followed by whitespace. If a
  non-whitespace character ends the whitespace run, `(.+)` captures from it
  to the end of its line. If the whitespace runs to the end of the text,
  `\s+` gives characters back until the one after it is not a `\n`; the
  capture is then that single whitespace character, or there is no match
  when only line breaks follow the first whitespace character.
 */
module FactorHeadings {
  import opened Wrappers
  import opened Strings
  import Slugs

  /** `^` under `re.MULTILINE`. */
  predicate AtLineStart(s: string, p: nat)
    requires p <= |s|
  {
    p == 0 || s[p - 1] == '\n'
  }

  /** A heading match: where it starts, what it captures, where it ends. */
  datatype Heading = Heading(start: nat, text: string, stop: nat)

  /** The last index in `[lo, hi)` that does not hold a `\n`. */
  function LastNotNewline(s: string, lo: nat, hi: nat): (r: Option<nat>)
    requires lo <= hi <= |s|
    ensures r.Some? ==> lo <= r.value < hi && s[r.value] != '\n'
    ensures r.Some? ==> forall j :: r.value < j < hi ==> s[j] == '\n'
    ensures r.None? ==> forall j :: lo <= j < hi ==> s[j] == '\n'
    decreases hi - lo
  {
    if hi == lo then None
    else if s[hi - 1] != '\n' then Some(hi - 1)
    else LastNotNewline(s, lo, hi - 1)
  }

  /** The pattern tried at a line start `p`. */
  function HeadingAt(s: string, p: nat): (r: Option<Heading>)
    requires p <= |s|
    ensures r.Some? ==> r.value.start == p < r.value.stop <= |s|
  {
    var n := Slugs.HashRun(s, p);
    if n < 1 || 6 < n then None
    else
      var q := p + n;
      var w := Slugs.SpaceRun(s, q);
      if w == 0 then None
      else if q + w < |s| then
        var stop := FindChar(s, q + w, '\n');
        assert s[q + w] != '\n';
        Some(Heading(p, s[q + w..stop], stop))
      else
        match LastNotNewline(s, q + 1, q + w)
        case Some(j) => Some(Heading(p, [s[j]], j + 1))
        case None => None
  }

  /** A heading match starts with `#`, captures non-empty text without a
      line break that ends the match, and ends at a line end. */
  lemma HeadingAtShape(s: string, p: nat)
    requires p <= |s| && HeadingAt(s, p).Some?
    ensures var h := HeadingAt(s, p).value;
      && h.start == p < h.stop <= |s| && 0 < |h.text| <= h.stop - p
      && '\n' !in h.text && h.text == s[h.stop - |h.text|..h.stop]
      && (h.stop == |s| || s[h.stop] == '\n')
      && s[p] == '#'
  {
    var n := Slugs.HashRun(s, p);
    var q := p + n;
    var w := Slugs.SpaceRun(s, q);
    if q + w < |s| {
      assert s[q + w] != '\n';
    }
  }

  /** `findall` from index `from`: every match, left to right, each search
      resuming where the previous match ended. */
  function HeadingsFrom(s: string, from: nat): seq<Heading>
    requires from <= |s|
    decreases |s| - from
  {
    if from == |s| then []
    else if AtLineStart(s, from) && HeadingAt(s, from).Some? then
      var h := HeadingAt(s, from).value;
      [h] + HeadingsFrom(s, h.stop)
    else HeadingsFrom(s, from + 1)
  }

  /** `hs` holds matches at line starts at or after `from`, left to right,
      without overlap. */
  predicate ScanSound(s: string, from: nat, hs: seq<Heading>) {
    && (forall k :: 0 <= k < |hs| ==>
          && from <= hs[k].start < |s| && AtLineStart(s, hs[k].start)
          && HeadingAt(s, hs[k].start) == Some(hs[k]))
    && (forall k :: 0 < k < |hs| ==> hs[k - 1].stop <= hs[k].start)
  }

  /** A match at `from` in front of a sound scan from its end is sound. */
  lemma ScanSoundCons(s: string, from: nat, h: Heading, rest: seq<Heading>)
    requires from < |s| && AtLineStart(s, from) && HeadingAt(s, from) == Some(h)
    requires ScanSound(s, h.stop, rest)
    ensures ScanSound(s, from, [h] + rest)
  {
    var hs := [h] + rest;
    forall k | 0 < k < |hs|
      ensures hs[k] == rest[k - 1]
    {
    }
    assert hs[0] == h;
  }

  /** The scan is sound: it reports matches at line starts at or after
      `from`, left to right, without overlap. */
  lemma {:induction false} HeadingsFromSound(s: string, from: nat)
    requires from <= |s|
    ensures ScanSound(s, from, HeadingsFrom(s, from))
    decreases |s| - from
  {
    if from < |s| {
      if AtLineStart(s, from) && HeadingAt(s, from).Some? {
        var h := HeadingAt(s, from).value;
        HeadingsFromSound(s, h.stop);
        assert HeadingsFrom(s, from) == [h] + HeadingsFrom(s, h.stop);
        ScanSoundCons(s, from, h, HeadingsFrom(s, h.stop));
      } else {
        HeadingsFromSound(s, from + 1);
        assert HeadingsFrom(s, from) == HeadingsFrom(s, from + 1);
      }
    }
  }

  /** Index `p` lies inside one of the matches `hs`. */
  predicate Covered(hs: seq<Heading>, p: nat) {
    exists k :: 0 <= k < |hs| && hs[k].start <= p < hs[k].stop
  }

  /** A match at `from` covers what it spans, and the scan from its end
      covers the rest. */
  lemma CoverAtMatch(s: string, from: nat, p: nat)
    requires from < |s| && AtLineStart(s, from) && HeadingAt(s, from).Some?
    requires from <= p < HeadingAt(s, from).value.stop
      || Covered(HeadingsFrom(s, HeadingAt(s, from).value.stop), p)
    ensures Covered(HeadingsFrom(s, from), p)
  {
    var h := HeadingAt(s, from).value;
    assert HeadingsFrom(s, from) == [h] + HeadingsFrom(s, h.stop);
    CoveredCons(h, HeadingsFrom(s, h.stop), p);
  }

  /** A heading in front of a scan covers what it spans, and the scan behind
      it covers the rest. */
  lemma CoveredCons(h: Heading, rest: seq<Heading>, p: nat)
    requires h.start <= p < h.stop || Covered(rest, p)
    ensures Covered([h] + rest, p)
  {
    var hs := [h] + rest;
    if h.start <= p < h.stop {
      assert hs[0] == h;
    } else {
      var k :| 0 <= k < |rest| && rest[k].start <= p < rest[k].stop;
      assert hs[k + 1] == rest[k];
    }
  }

  /** Where nothing matches at `from`, the scan from `from` covers what the
      scan from the next index covers. */
  lemma CoverPastIndex(s: string, from: nat, p: nat)
    requires from < |s| && !(AtLineStart(s, from) && HeadingAt(s, from).Some?)
    requires Covered(HeadingsFrom(s, from + 1), p)
    ensures Covered(HeadingsFrom(s, from), p)
  {
    assert HeadingsFrom(s, from) == HeadingsFrom(s, from + 1);
  }

  /** The scan misses no match: every line start at or after `from` where
      the pattern matches lies inside a reported heading. */
  lemma {:induction false} HeadingsCoverEveryMatch(s: string, from: nat, p: nat)
    requires from <= p < |s| && AtLineStart(s, p) && HeadingAt(s, p).Some?
    ensures Covered(HeadingsFrom(s, from), p)
    decreases |s| - from
  {
    if AtLineStart(s, from) && HeadingAt(s, from).Some? {
      if HeadingAt(s, from).value.stop <= p {
        HeadingsCoverEveryMatch(s, HeadingAt(s, from).value.stop, p);
      }
      CoverAtMatch(s, from, p);
    } else {
      HeadingsCoverEveryMatch(s, from + 1, p);
      CoverPastIndex(s, from, p);
    }
  }

  /** `extract_headings`: the captured texts in document order. */
  function ExtractHeadings(content: string): (r: seq<string>)
    ensures forall k :: 0 <= k < |r| ==> |r[k]| > 0 && '\n' !in r[k]
    ensures |r| == |HeadingsFrom(content, 0)|
    ensures forall k :: 0 <= k < |r| ==> r[k] == HeadingsFrom(content, 0)[k].text
  {
    var hs := HeadingsFrom(content, 0);
    HeadingTextsShape(content);
    seq(|hs|, k requires 0 <= k < |hs| => hs[k].text)
  }

  /** Every captured text is non-empty and lies within one line. */
  lemma HeadingTextsShape(content: string)
    ensures forall k :: 0 <= k < |HeadingsFrom(content, 0)| ==>
      |HeadingsFrom(content, 0)[k].text| > 0 && '\n' !in HeadingsFrom(content, 0)[k].text
  {
    var hs := HeadingsFrom(content, 0);
    HeadingsFromSound(content, 0);
    forall k | 0 <= k < |hs|
      ensures |hs[k].text| > 0 && '\n' !in hs[k].text
    {
      HeadingAtShape(content, hs[k].start);
    }
  }

  /** Each extracted heading is the capture of a match at a line start. */
  lemma ExtractHeadingsSound(content: string, k: nat)
    requires k < |ExtractHeadings(content)|
    ensures exists q: nat ::
              && q < |content| && AtLineStart(content, q) && HeadingAt(content, q).Some?
              && HeadingAt(content, q).value.text == ExtractHeadings(content)[k]
  {
    HeadingsFromSound(content, 0);
    var h := HeadingsFrom(content, 0)[k];
    assert HeadingAt(content, h.start) == Some(h);
  }

  /** Every match at a line start lies inside a match whose capture is
      extracted; that is its own capture unless an earlier match runs over
      it. */
  lemma ExtractHeadingsComplete(content: string, p: nat)
    requires p < |content| && AtLineStart(content, p) && HeadingAt(content, p).Some?
    ensures exists k ::
              && 0 <= k < |ExtractHeadings(content)|
              && HeadingsFrom(content, 0)[k].start <= p < HeadingsFrom(content, 0)[k].stop
              && ExtractHeadings(content)[k] == HeadingsFrom(content, 0)[k].text
  {
    HeadingsCoverEveryMatch(content, 0, p);
  }

  /** A line start followed by seven `#` never starts a heading. */
  lemma SevenHashesNoHeading(s: string, p: nat)
    requires p + 7 <= |s| && forall j :: p <= j < p + 7 ==> s[j] == '#'
    ensures HeadingAt(s, p) == None
  {
    var n := Slugs.HashRun(s, p);
    assert p + n < |s| ==> s[p + n] != '#';
  }

  /** Without line breaks no index after the first is a line start. */
  lemma {:induction false} NoLaterLineStart(s: string, from: nat)
    requires '\n' !in s && 1 <= from <= |s|
    ensures HeadingsFrom(s, from) == []
    decreases |s| - from
  {
    if from < |s| {
      assert s[from - 1] in s;
      NoLaterLineStart(s, from + 1);
    }
  }

  /** On a single line the heading pattern agrees with the per-line match of
      the link validator's anchor extraction. */
  lemma SingleLineHeading(line: string)
    requires '\n' !in line
    ensures ExtractHeadings(line) == match Slugs.HeadingText(line)
      case Some(t) => [t]
      case None => []
  {
    HeadingAtSingleLine(line);
    var hs := HeadingsFrom(line, 0);
    match Slugs.HeadingText(line)
    case Some(t) =>
      assert hs == [Heading(0, t, |line|)] + HeadingsFrom(line, |line|);
      assert hs == [Heading(0, t, |line|)];
    case None =>
      if |line| > 0 {
        NoLaterLineStart(line, 1);
        assert hs == HeadingsFrom(line, 1);
      }
  }

  /** On a single line a match captures the per-line heading text and ends
      at the end of the line. */
  lemma HeadingAtSingleLine(line: string)
    requires '\n' !in line
    ensures HeadingAt(line, 0) == match Slugs.HeadingText(line)
      case Some(t) => Some(Heading(0, t, |line|))
      case None => None
  {
    var n := Slugs.HashRun(line, 0);
    var w := if n < |line| then Slugs.SpaceRun(line, n) else 0;
    if 1 <= n <= 6 && w > 0 {
      if n + w < |line| {
        HeadingAtRestOfLine(line, n, w);
      } else {
        HeadingAtTrailingSpace(line, n, w);
      }
    } else {
      HeadingAtNoRun(line, n, w);
    }
  }

  /** Without a `#` run of 1 to 6 followed by whitespace, neither pattern
      matches. */
  lemma HeadingAtNoRun(line: string, n: nat, w: nat)
    requires '\n' !in line
    requires n == Slugs.HashRun(line, 0) && w == (if n < |line| then Slugs.SpaceRun(line, n) else 0)
    requires !(1 <= n <= 6 && w > 0)
    ensures HeadingAt(line, 0) == None && Slugs.HeadingText(line) == None
  {
    assert n < |line| ==> w == Slugs.SpaceRun(line, 0 + n);
  }

  /** Whitespace reaching the end of the line: both patterns capture its last
      character when it is two or more long, and neither matches otherwise. */
  lemma HeadingAtTrailingSpace(line: string, n: nat, w: nat)
    requires '\n' !in line && 1 <= n <= 6 && 0 < w && n + w == |line|
    requires n == Slugs.HashRun(line, 0) && w == Slugs.SpaceRun(line, n)
    ensures HeadingAt(line, 0) == (if w >= 2 then Some(Heading(0, [line[|line| - 1]], |line|)) else None)
    ensures Slugs.HeadingText(line) == (if w >= 2 then Some([line[|line| - 1]]) else None)
  {
    NoNewlineLast(line, n + 1, n + w);
    assert line[|line| - 1..] == [line[|line| - 1]];
  }

  /** When text follows the whitespace, both patterns capture the rest of
      the line. */
  lemma HeadingAtRestOfLine(line: string, n: nat, w: nat)
    requires '\n' !in line && 1 <= n <= 6 && 0 < w && n + w < |line|
    requires n == Slugs.HashRun(line, 0) && w == Slugs.SpaceRun(line, n)
    ensures HeadingAt(line, 0) == Some(Heading(0, line[n + w..], |line|))
    ensures Slugs.HeadingText(line) == Some(line[n + w..])
  {
    MultilineRestOfLine(line, n, w);
    assert Slugs.HeadingText(line) == Some(line[n + w..]);
  }

  /** The multi-line pattern captures the rest of a single line. */
  lemma MultilineRestOfLine(line: string, n: nat, w: nat)
    requires '\n' !in line && 1 <= n <= 6 && 0 < w && n + w < |line|
    requires n == Slugs.HashRun(line, 0) && w == Slugs.SpaceRun(line, n)
    ensures HeadingAt(line, 0) == Some(Heading(0, line[n + w..], |line|))
  {
    FindCharAbsent(line, n + w, '\n');
    assert line[n + w..|line|] == line[n + w..];
  }

  /** Without line breaks the last index of a non-empty range is kept. */
  lemma NoNewlineLast(s: string, lo: nat, hi: nat)
    requires '\n' !in s && lo <= hi <= |s|
    ensures LastNotNewline(s, lo, hi) == if lo < hi then Some(hi - 1) else None
  {
    if lo < hi {
      assert s[hi - 1] in s;
    }
  }

  /** `\s+` crosses a line break: a lone `#` line takes the next line, its
      `#` included, as its heading text. */
  lemma HeadingAcrossLines()
    ensures ExtractHeadings("#\n## Foo") == ["## Foo"]
  {
    var s := "#\n## Foo";
    assert Slugs.HashRun(s, 0) == 1;
    assert Slugs.SpaceRun(s, 1) == 1;
    assert FindChar(s, 2, '\n') == 8;
    assert s[2..8] == "## Foo";
    var h := Heading(0, "## Foo", 8);
    assert HeadingAt(s, 0) == Some(h);
    assert HeadingsFrom(s, 8) == [];
  }
}
