/**
  The link extractor: `re.findall(r'\[([^\]]+)\]\(([^)]+)\)', line)` over
  every line of `content.split('\n')`, numbering lines from 1.

  The regular expression is matched by hand. The text capture is a maximal
  run of characters other than `]` and must be followed by `](`; the target
  capture is a maximal run of characters other than `)` and must be followed
  by `)`. Backtracking cannot help either run: a shorter run would have to be
  followed by the very character the run excludes. `findall` tries every index
  from the left and resumes after each match, so matches never overlap.
 */
module LinkExtract {
  import opened Wrappers
  import Strings

  /** One match in a line: both captures and the span `[start, stop)` it covers. */
  datatype Match = Match(text: string, target: string, start: nat, stop: nat)

  /** One extracted link: display text, raw target and 1-based line number. */
  datatype RawLink = RawLink(text: string, target: string, line: nat)

  /** The link syntax `[text](target)` written out. */
  function LinkSyntax(text: string, target: string): string {
    "[" + text + "](" + target + ")"
  }

  /** The captures a match can have: both non-empty, the text without `]`,
      the target without `)`. */
  predicate ValidCaptures(text: string, target: string) {
    |text| > 0 && ']' !in text && |target| > 0 && ')' !in target
  }

  /** `m` is an occurrence of the link syntax in `line`. */
  predicate Occurs(line: string, m: Match) {
    && m.start < m.stop <= |line|
    && ValidCaptures(m.text, m.target)
    && line[m.start..m.stop] == LinkSyntax(m.text, m.target)
  }

  /** The pattern tried at index `i` of `line`. */
  function MatchAt(line: string, i: nat): (r: Option<Match>)
    ensures r.Some? ==> r.value.start == i && Occurs(line, r.value)
  {
    if i >= |line| || line[i] != '[' then None
    else
      var close := Strings.FindChar(line, i + 1, ']');
      if close == i + 1 || close + 1 >= |line| || line[close + 1] != '(' then None
      else
        var end := Strings.FindChar(line, close + 2, ')');
        if end == close + 2 || end == |line| then None
        else
          var m := Match(line[i + 1..close], line[close + 2..end], i, end + 1);
          assert line[i..end + 1] == LinkSyntax(m.text, m.target);
          Some(m)
  }

  /** `FindChar` skips a piece free of `c` and stops at the `c` after it. */
  lemma FindCharSkips(s: string, from: nat, c: char, piece: string)
    requires Strings.OccursAt(s, piece, from) && c !in piece
    requires from + |piece| < |s| && s[from + |piece|] == c
    ensures Strings.FindChar(s, from, c) == from + |piece|
  {
    forall j | from <= j < from + |piece|
      ensures s[j] != c
    {
      assert s[j] == s[from..from + |piece|][j - from] == piece[j - from];
      assert piece[j - from] in piece;
    }
  }

  /** Where the pieces of `[text](target)` sit. */
  lemma SyntaxLayout(text: string, target: string)
    ensures var s := LinkSyntax(text, target); var n := |text|; var m := |target|;
      && |s| == n + m + 4
      && s[0] == '[' && s[1..1 + n] == text && s[1 + n] == ']'
      && s[2 + n] == '(' && s[3 + n..3 + n + m] == target && s[3 + n + m] == ')'
  {
  }

  /** Where the pieces of an occurrence of `[text](target)` sit in the line. */
  lemma LayoutInLine(line: string, i: nat, text: string, target: string)
    requires Strings.OccursAt(line, LinkSyntax(text, target), i)
    ensures var n := |text|; var m := |target|;
      && i + n + m + 4 <= |line|
      && line[i] == '[' && Strings.OccursAt(line, text, i + 1) && line[i + 1 + n] == ']'
      && line[i + 2 + n] == '(' && Strings.OccursAt(line, target, i + 3 + n)
      && line[i + 3 + n + m] == ')'
  {
    var syntax := LinkSyntax(text, target);
    SyntaxLayout(text, target);
    var n := |text|;
    var m := |target|;
    var window := line[i..i + |syntax|];
    assert window == syntax;
    assert line[i] == window[0];
    assert line[i + 1 + n] == window[1 + n];
    assert line[i + 2 + n] == window[2 + n];
    assert line[i + 3 + n + m] == window[3 + n + m];
    assert line[i + 1..i + 1 + n] == text by {
      forall j | 0 <= j < n
        ensures line[i + 1 + j] == text[j]
      {
        assert line[i + 1 + j] == window[1 + j] == syntax[1..1 + n][j];
      }
    }
    assert line[i + 3 + n..i + 3 + n + m] == target by {
      forall j | 0 <= j < m
        ensures line[i + 3 + n + j] == target[j]
      {
        assert line[i + 3 + n + j] == window[3 + n + j] == syntax[3 + n..3 + n + m][j];
      }
    }
  }

  /** The pattern matches at `i` whenever the link syntax with valid captures
      occurs there, and it then yields exactly those captures. */
  lemma MatchAtComplete(line: string, i: nat, text: string, target: string)
    requires ValidCaptures(text, target)
    requires Strings.OccursAt(line, LinkSyntax(text, target), i)
    ensures MatchAt(line, i) == Some(Match(text, target, i, i + |LinkSyntax(text, target)|))
  {
    LayoutInLine(line, i, text, target);
    SyntaxLayout(text, target);
    var close := i + 1 + |text|;
    var end := close + 2 + |target|;
    FindCharSkips(line, i + 1, ']', text);
    FindCharSkips(line, close + 2, ')', target);
    MatchAtFromLayout(line, i, close, end);
  }

  /** `MatchAt` once the positions of `]`, `(` and `)` are known. */
  lemma MatchAtFromLayout(line: string, i: nat, close: nat, end: nat)
    requires i + 1 < close && close + 2 < end < |line|
    requires line[i] == '[' && line[close + 1] == '('
    requires Strings.FindChar(line, i + 1, ']') == close
    requires Strings.FindChar(line, close + 2, ')') == end
    ensures MatchAt(line, i) == Some(Match(line[i + 1..close], line[close + 2..end], i, end + 1))
  {
  }

  /** `re.findall` of the link pattern on `line`, starting at index `from`. */
  function Scan(line: string, from: nat): seq<Match>
    decreases |line| - from
  {
    if from >= |line| then []
    else
      match MatchAt(line, from)
      case Some(m) => [m] + Scan(line, m.stop)
      case None => Scan(line, from + 1)
  }

  /** `ms` holds occurrences of the link syntax at or after `from`, left to
      right, without overlap. */
  predicate ScanSound(line: string, from: nat, ms: seq<Match>) {
    && (forall k :: 0 <= k < |ms| ==> from <= ms[k].start && Occurs(line, ms[k]))
    && (forall k :: 0 < k < |ms| ==> ms[k - 1].stop <= ms[k].start)
  }

  /** An occurrence at `from` in front of a sound scan from its end is sound. */
  lemma ScanSoundCons(line: string, from: nat, m: Match, rest: seq<Match>)
    requires m.start == from && Occurs(line, m) && ScanSound(line, m.stop, rest)
    ensures ScanSound(line, from, [m] + rest)
  {
    var ms := [m] + rest;
    forall k | 0 < k < |ms|
      ensures ms[k] == rest[k - 1]
    {
    }
    assert ms[0] == m;
  }

  /** `findall` is sound: it reports occurrences of the link syntax, left to
      right, without overlap. */
  lemma {:induction false} ScanIsSound(line: string, from: nat)
    ensures ScanSound(line, from, Scan(line, from))
    decreases |line| - from
  {
    if from < |line| {
      match MatchAt(line, from)
      case Some(m) =>
        ScanIsSound(line, m.stop);
        assert Scan(line, from) == [m] + Scan(line, m.stop);
        ScanSoundCons(line, from, m, Scan(line, m.stop));
      case None =>
        ScanIsSound(line, from + 1);
        assert Scan(line, from) == Scan(line, from + 1);
    }
  }

  /** The scan is complete: every index at or after `from` where the pattern
      matches lies inside (or at the start of) a reported match. */
  lemma {:induction false} ScanCoversEveryMatch(line: string, from: nat, p: nat)
    requires from <= p && MatchAt(line, p).Some?
    ensures exists k :: 0 <= k < |Scan(line, from)| && Scan(line, from)[k].start <= p < Scan(line, from)[k].stop
    decreases |line| - from
  {
    var ms := Scan(line, from);
    assert p < |line|;
    match MatchAt(line, from)
    case Some(m) =>
      if p < m.stop {
        assert ms[0] == m;
      } else {
        ScanCoversEveryMatch(line, m.stop, p);
        var rest := Scan(line, m.stop);
        var k :| 0 <= k < |rest| && rest[k].start <= p < rest[k].stop;
        assert ms[k + 1] == rest[k];
      }
    case None =>
      assert p != from;
      ScanCoversEveryMatch(line, from + 1, p);
  }

  /** Every match of one line, tagged with its line number. */
  function LineLinks(line: string, number: nat): seq<RawLink> {
    var ms := Scan(line, 0);
    seq(|ms|, k requires 0 <= k < |ms| => RawLink(ms[k].text, ms[k].target, number))
  }

  /** Every link of a line carries that line's number and the captures of a
      match. */
  lemma LineLinksShape(line: string, n: nat)
    ensures forall k :: 0 <= k < |LineLinks(line, n)| ==>
      LineLinks(line, n)[k].line == n && ValidCaptures(LineLinks(line, n)[k].text, LineLinks(line, n)[k].target)
  {
    var ms := Scan(line, 0);
    ScanIsSound(line, 0);
    assert forall k :: 0 <= k < |ms| ==> Occurs(line, ms[k]);
  }

  /** The links of consecutive lines, line by line, the first of them
      numbered `first`. */
  function LinksByLine(lines: seq<string>, first: nat): (r: seq<seq<RawLink>>)
    ensures |r| == |lines|
  {
    seq(|lines|, j requires 0 <= j < |lines| => LineLinks(lines[j], first + j))
  }

  /** The lists of `xss` one after the other. */
  function Flatten(xss: seq<seq<RawLink>>): seq<RawLink>
    decreases |xss|
  {
    if |xss| == 0 then [] else xss[0] + Flatten(xss[1..])
  }

  /** List `j` of `xss` holds links of line `first + j` with valid captures. */
  predicate Numbered(xss: seq<seq<RawLink>>, first: nat) {
    forall j: int, k: int :: 0 <= j < |xss| && 0 <= k < |xss[j]| ==>
      xss[j][k].line == first + j && ValidCaptures(xss[j][k].text, xss[j][k].target)
  }

  /** Every line's links carry that line's number and valid captures. */
  lemma LinksByLineNumbered(lines: seq<string>, first: nat)
    ensures Numbered(LinksByLine(lines, first), first)
  {
    var xss: seq<seq<RawLink>> := LinksByLine(lines, first);
    forall j | 0 <= j < |xss|
      ensures forall k: int :: 0 <= k < |xss[j]| ==>
        xss[j][k].line == first + j && ValidCaptures(xss[j][k].text, xss[j][k].target)
    {
      LineLinksShape(lines[j], first + j);
    }
  }

  /** Dropping the first line of a numbered run leaves a run numbered from the
      next line. */
  lemma NumberedTail(xss: seq<seq<RawLink>>, first: nat)
    requires |xss| > 0 && Numbered(xss, first)
    ensures Numbered(xss[1..], first + 1)
  {
    forall j: int, k: int | 0 <= j < |xss[1..]| && 0 <= k < |xss[1..][j]|
      ensures xss[1..][j][k].line == first + 1 + j
    {
      assert xss[1..][j] == xss[j + 1];
    }
  }

  /** The links of a numbered run have line numbers within the run and valid
      captures, and line numbers never decrease. */
  lemma {:induction false} FlattenShape(xss: seq<seq<RawLink>>, first: nat)
    requires Numbered(xss, first)
    ensures forall k :: 0 <= k < |Flatten(xss)| ==>
      && first <= Flatten(xss)[k].line < first + |xss|
      && ValidCaptures(Flatten(xss)[k].text, Flatten(xss)[k].target)
    ensures forall k :: 0 < k < |Flatten(xss)| ==> Flatten(xss)[k - 1].line <= Flatten(xss)[k].line
    decreases |xss|
  {
    if |xss| > 0 {
      var here := xss[0];
      var rest := Flatten(xss[1..]);
      NumberedTail(xss, first);
      FlattenShape(xss[1..], first + 1);
      var r := here + rest;
      assert Flatten(xss) == r;
      assert forall k :: 0 <= k < |here| ==> here[k].line == first && ValidCaptures(here[k].text, here[k].target);
      forall k | 0 <= k < |r|
        ensures first <= r[k].line < first + |xss| && ValidCaptures(r[k].text, r[k].target)
      {
        if k >= |here| {
          assert r[k] == rest[k - |here|];
        }
      }
      forall k | 0 < k < |r|
        ensures r[k - 1].line <= r[k].line
      {
        if k - 1 >= |here| {
          assert r[k] == rest[k - |here|] && r[k - 1] == rest[k - 1 - |here|];
        } else if k >= |here| {
          assert r[k] == rest[k - |here|];
        }
      }
    }
  }

  /** `extract_links_from_file` on a readable file's content. */
  function ExtractLinks(content: string): (r: seq<RawLink>)
    ensures forall k :: 0 <= k < |r| ==>
      1 <= r[k].line <= |Strings.Split(content, '\n')| && ValidCaptures(r[k].text, r[k].target)
    ensures forall k :: 0 < k < |r| ==> r[k - 1].line <= r[k].line
  {
    LinksByLineNumbered(Strings.Split(content, '\n'), 1);
    FlattenShape(LinksByLine(Strings.Split(content, '\n'), 1), 1);
    Flatten(LinksByLine(Strings.Split(content, '\n'), 1))
  }

  /** The links of `links` on line `n`, in order. */
  function OnLine(links: seq<RawLink>, n: nat): (r: seq<RawLink>)
    ensures |r| <= |links|
    ensures forall k :: 0 <= k < |r| ==> r[k].line == n
    decreases |links|
  {
    if |links| == 0 then []
    else (if links[0].line == n then [links[0]] else []) + OnLine(links[1..], n)
  }

  /** Filtering a concatenation filters both parts. */
  lemma {:induction false} OnLineAppend(a: seq<RawLink>, b: seq<RawLink>, n: nat)
    ensures OnLine(a + b, n) == OnLine(a, n) + OnLine(b, n)
    decreases |a|
  {
    if |a| == 0 {
      assert a + b == b;
    } else {
      assert (a + b)[0] == a[0];
      assert (a + b)[1..] == a[1..] + b;
      OnLineAppend(a[1..], b, n);
    }
  }

  /** Links that all sit on line `n` are kept whole. */
  lemma {:induction false} OnLineAll(links: seq<RawLink>, n: nat)
    requires forall k :: 0 <= k < |links| ==> links[k].line == n
    ensures OnLine(links, n) == links
    decreases |links|
  {
    if |links| > 0 {
      OnLineAll(links[1..], n);
      assert links == [links[0]] + links[1..];
    }
  }

  /** Links none of which sit on line `n` are all dropped. */
  lemma {:induction false} OnLineNone(links: seq<RawLink>, n: nat)
    requires forall k :: 0 <= k < |links| ==> links[k].line != n
    ensures OnLine(links, n) == []
    decreases |links|
  {
    if |links| > 0 {
      OnLineNone(links[1..], n);
    }
  }

  /** On its first line, a numbered run yields exactly its first list. */
  lemma FlattenFirstLine(xss: seq<seq<RawLink>>, first: nat)
    requires Numbered(xss, first) && |xss| > 0
    ensures OnLine(Flatten(xss), first) == xss[0]
  {
    var rest := xss[1..];
    NumberedTail(xss, first);
    FlattenShape(rest, first + 1);
    assert Flatten(xss) == xss[0] + Flatten(rest);
    OnLineAppend(xss[0], Flatten(rest), first);
    OnLineAll(xss[0], first);
    OnLineNone(Flatten(rest), first);
  }

  /** On a later line, a numbered run yields what its tail yields there. */
  lemma FlattenLaterLine(xss: seq<seq<RawLink>>, first: nat, n: nat)
    requires Numbered(xss, first) && |xss| > 0 && first < n
    ensures OnLine(Flatten(xss), n) == OnLine(Flatten(xss[1..]), n)
  {
    assert Flatten(xss) == xss[0] + Flatten(xss[1..]);
    OnLineAppend(xss[0], Flatten(xss[1..]), n);
    OnLineNone(xss[0], n);
  }

  /** In a numbered run, the links on line `first + j` are exactly list `j`,
      in order. */
  lemma {:induction false} FlattenPerLine(xss: seq<seq<RawLink>>, first: nat, j: nat)
    requires Numbered(xss, first) && j < |xss|
    ensures OnLine(Flatten(xss), first + j) == xss[j]
    decreases j
  {
    if j == 0 {
      FlattenFirstLine(xss, first);
    } else {
      FlattenLaterLine(xss, first, first + j);
      NumberedTail(xss, first);
      FlattenPerLine(xss[1..], first + 1, j - 1);
      assert xss[1..][j - 1] == xss[j];
    }
  }

  /** The links extracted on line `n` are exactly the matches of the `n`-th
      line of the content, in order. */
  lemma ExtractLinksPerLine(content: string, n: nat)
    requires 1 <= n <= |Strings.Split(content, '\n')|
    ensures OnLine(ExtractLinks(content), n) == LineLinks(Strings.Split(content, '\n')[n - 1], n)
  {
    var lines := Strings.Split(content, '\n');
    var xss: seq<seq<RawLink>> := LinksByLine(lines, 1);
    LinksByLineNumbered(lines, 1);
    FlattenPerLine(xss, 1, n - 1);
    assert ExtractLinks(content) == Flatten(xss);
    assert xss[n - 1] == LineLinks(lines[n - 1], n);
  }

  /** Every match starts at a `[`, so a line with matches contains one. */
  lemma ScanNeedsBracket(line: string)
    ensures |Scan(line, 0)| > 0 ==> '[' in line
  {
    var ms := Scan(line, 0);
    ScanIsSound(line, 0);
    if |ms| > 0 {
      assert line[ms[0].start] == LinkSyntax(ms[0].text, ms[0].target)[0];
    }
  }

  /** Lines with no `[` yield no links. */
  lemma {:induction false} NoBracketNoLinks(lines: seq<string>, first: nat)
    requires forall i :: 0 <= i < |lines| ==> '[' !in lines[i]
    ensures Flatten(LinksByLine(lines, first)) == []
  {
    var xss: seq<seq<RawLink>> := LinksByLine(lines, first);
    forall j | 0 <= j < |xss|
      ensures xss[j] == []
    {
      ScanNeedsBracket(lines[j]);
    }
    FlattenEmpty(xss);
  }

  lemma {:induction false} FlattenEmpty(xss: seq<seq<RawLink>>)
    requires forall j :: 0 <= j < |xss| ==> xss[j] == []
    ensures Flatten(xss) == []
    decreases |xss|
  {
    if |xss| > 0 {
      FlattenEmpty(xss[1..]);
    }
  }
}
