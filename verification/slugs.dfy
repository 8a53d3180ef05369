/**
  The anchor slugger: which lines are headings (`re.match(r'^#{1,6}\s+(.+)$',
  line)` on one line of `content.split('\n')`), how a heading's text becomes
  its anchor, and the set of anchors a document exposes.

  Matching a single line (it holds no `\n`): `#{1,6}` can only take the whole
  run of leading `#` and that run must be 1 to 6 long, since a shorter take
  leaves a `#` where `\s` is needed. `\s+` then takes the whole whitespace run
  after it; if something follows, `(.+)` captures the rest of the line. If the
  whitespace reaches the end of the line, `\s+` gives one character back when
  it can (a run of two or more) and `(.+)` captures that last whitespace
  character; with a run of one there is no match.

  The slug of a heading text: drop every character other than an ASCII letter,
  an ASCII digit, whitespace or `-`; strip whitespace at both ends; replace
  every single `' '` by `-` (runs are not collapsed and other whitespace is
  kept); lower-case.
 */
module Slugs {
  import opened Wrappers
  import opened Strings

  /** The number of `#` in a row starting at `from`. */
  function HashRun(s: string, from: nat): (n: nat)
    requires from <= |s|
    ensures from + n <= |s|
    ensures forall j :: from <= j < from + n ==> s[j] == '#'
    ensures from + n < |s| ==> s[from + n] != '#'
    decreases |s| - from
  {
    if from < |s| && s[from] == '#' then 1 + HashRun(s, from + 1) else 0
  }

  /** The number of whitespace characters in a row starting at `from`. */
  function SpaceRun(s: string, from: nat): (w: nat)
    requires from <= |s|
    ensures from + w <= |s|
    ensures forall j :: from <= j < from + w ==> IsSpace(s[j])
    ensures from + w < |s| ==> !IsSpace(s[from + w])
    decreases |s| - from
  {
    if from < |s| && IsSpace(s[from]) then 1 + SpaceRun(s, from + 1) else 0
  }

  /** `line` reads as `n` times `#`, then `w` whitespace characters, then at
      least one more character: one way for the heading pattern to match,
      capturing `line[n + w..]`. */
  predicate Splits(line: string, n: nat, w: nat) {
    && 1 <= n <= 6 && 1 <= w && n + w < |line|
    && (forall j :: 0 <= j < n ==> line[j] == '#')
    && (forall j :: n <= j < n + w ==> IsSpace(line[j]))
  }

  /** The heading text captured from one line, if the line is a heading. */
  function HeadingText(line: string): (r: Option<string>)
    requires '\n' !in line
    ensures r.None? <==> forall n: nat, w: nat :: !Splits(line, n, w)
    ensures r.Some? ==> exists n: nat, w: nat :: Splits(line, n, w) && r.value == line[n + w..]
    ensures r.Some? ==> forall n: nat, w: nat :: Splits(line, n, w) ==> |r.value| <= |line| - n - w
  {
    var n := HashRun(line, 0);
    var w := if n < |line| then SpaceRun(line, n) else 0;
    assert forall n': nat, w': nat :: Splits(line, n', w') ==> n' == n && w' <= w by {
      forall n': nat, w': nat | Splits(line, n', w')
        ensures n' == n && w' <= w
      {
        assert line[n'] != '#' by {
          assert IsSpace(line[n']);
        }
      }
    }
    if n < 1 || 6 < n || w == 0 then None
    else if n + w < |line| then
      assert Splits(line, n, w);
      Some(line[n + w..])
    else if w >= 2 then
      assert Splits(line, n, w - 1);
      Some(line[|line| - 1..])
    else None
  }

  /** A line that starts with seven or more `#` is never a heading. */
  lemma SevenHashesNoHeading(line: string)
    requires '\n' !in line
    requires |line| >= 7 && forall j :: 0 <= j < 7 ==> line[j] == '#'
    ensures HeadingText(line) == None
  {
    forall n: nat, w: nat
      ensures !Splits(line, n, w)
    {
      if n <= 6 {
        assert line[n] == '#' && !IsSpace(line[n]);
      }
    }
  }

  /** The characters the slug keeps from a heading: `[a-zA-Z0-9\s-]`. */
  predicate Kept(c: char) {
    IsAsciiLetter(c) || IsDigit(c) || IsSpace(c) || c == '-'
  }

  /** `re.sub(r'[^a-zA-Z0-9\s-]', '', text)` */
  function DropSpecial(s: string): string
  {
    if |s| == 0 then ""
    else if Kept(s[0]) then [s[0]] + DropSpecial(s[1..])
    else DropSpecial(s[1..])
  }

  /** Dropping keeps only kept characters of the input. */
  lemma {:induction false} DropSpecialKeeps(s: string)
    ensures forall c :: c in DropSpecial(s) ==> Kept(c) && c in s
    decreases |s|
  {
    if |s| > 0 {
      DropSpecialKeeps(s[1..]);
    }
  }

  /** A string of kept characters loses nothing. */
  lemma {:induction false} DropSpecialOfKept(s: string)
    requires forall i :: 0 <= i < |s| ==> Kept(s[i])
    ensures DropSpecial(s) == s
    decreases |s|
  {
    if |s| > 0 {
      DropSpecialOfKept(s[1..]);
    }
  }

  lemma {:induction false} DropSpecialAppend(a: string, b: string)
    ensures DropSpecial(a + b) == DropSpecial(a) + DropSpecial(b)
    decreases |a|
  {
    if |a| == 0 {
      assert a + b == b;
    } else {
      assert (a + b)[1..] == a[1..] + b;
      DropSpecialAppend(a[1..], b);
      if Kept(a[0]) {
        assert [a[0]] + DropSpecial(a[1..]) + DropSpecial(b) == [a[0]] + (DropSpecial(a[1..]) + DropSpecial(b));
      }
    }
  }

  /** `text.replace(' ', '-')` */
  function Hyphenate(s: string): (r: string)
    ensures |r| == |s|
    ensures forall i :: 0 <= i < |s| ==> r[i] == (if s[i] == ' ' then '-' else s[i])
  {
    seq(|s|, i requires 0 <= i < |s| => if s[i] == ' ' then '-' else s[i])
  }

  /** The anchor identifier of a heading text. */
  function Slug(heading: string): string {
    Lower(Hyphenate(Strip(DropSpecial(heading))))
  }

  /** A character a slug may hold: a lower-case ASCII letter, an ASCII digit,
      `-`, or whitespace other than `' '`. */
  predicate SlugChar(c: char) {
    IsAsciiLower(c) || IsDigit(c) || c == '-' || (IsSpace(c) && c != ' ')
  }

  /** The shape of every slug: slug characters only, no whitespace at either end. */
  predicate IsSlug(s: string) {
    && (forall i :: 0 <= i < |s| ==> SlugChar(s[i]))
    && (|s| > 0 ==> !IsSpace(s[0]) && !IsSpace(s[|s| - 1]))
  }

  /** What hyphenating and lower-casing do to one character. */
  function SlugOfChar(c: char): char {
    LowerChar(if c == ' ' then '-' else c)
  }

  /** A kept character becomes a slug character, and whitespace stays
      whitespace. */
  lemma SlugOfCharShape(c: char)
    requires Kept(c)
    ensures SlugChar(SlugOfChar(c))
    ensures IsSpace(SlugOfChar(c)) <==> IsSpace(c) && c != ' '
  {
  }

  /** Slug characters are kept and unchanged by hyphenating and lower-casing. */
  lemma SlugCharFixed(c: char)
    requires SlugChar(c)
    ensures Kept(c) && c != ' ' && LowerChar(c) == c && SlugOfChar(c) == c
  {
  }

  /** Every slug has the slug shape. */
  lemma SlugShape(heading: string)
    ensures IsSlug(Slug(heading))
  {
    var kept := DropSpecial(heading);
    DropSpecialKeeps(heading);
    var stripped := Strip(kept);
    StripSpec(kept);
    var r := Slug(heading);
    assert |r| == |stripped|;
    forall i | 0 <= i < |r|
      ensures r[i] == SlugOfChar(stripped[i]) && SlugChar(r[i])
      ensures IsSpace(r[i]) ==> IsSpace(stripped[i])
    {
      assert stripped[i] in stripped;
      SlugOfCharShape(stripped[i]);
    }
  }

  /** A string of slug shape is its own slug. */
  lemma SlugOfSlug(s: string)
    requires IsSlug(s)
    ensures Slug(s) == s
  {
    forall i | 0 <= i < |s|
      ensures Kept(s[i]) && s[i] != ' ' && LowerChar(s[i]) == s[i]
    {
      SlugCharFixed(s[i]);
    }
    DropSpecialOfKept(s);
    StripOfTrimmed(s);
    assert Hyphenate(s) == s;
    assert Lower(s) == s;
  }

  /** Slugging is idempotent. */
  lemma SlugIdempotent(heading: string)
    ensures Slug(Slug(heading)) == Slug(heading)
  {
    SlugShape(heading);
    SlugOfSlug(Slug(heading));
  }

  /** The ASCII letters and digits of a string, in order. */
  function Alnum(s: string): string {
    if |s| == 0 then ""
    else (if IsAsciiLetter(s[0]) || IsDigit(s[0]) then [s[0]] else []) + Alnum(s[1..])
  }

  lemma {:induction false} AlnumAppend(a: string, b: string)
    ensures Alnum(a + b) == Alnum(a) + Alnum(b)
    decreases |a|
  {
    if |a| == 0 {
      assert a + b == b;
    } else {
      assert (a + b)[1..] == a[1..] + b;
      AlnumAppend(a[1..], b);
    }
  }

  /** Whitespace holds no letters or digits. */
  lemma {:induction false} AlnumOfSpaces(s: string)
    requires forall i :: 0 <= i < |s| ==> IsSpace(s[i])
    ensures Alnum(s) == ""
    decreases |s|
  {
    if |s| > 0 {
      AlnumOfSpaces(s[1..]);
    }
  }

  lemma {:induction false} AlnumDropSpecial(s: string)
    ensures Alnum(DropSpecial(s)) == Alnum(s)
    decreases |s|
  {
    if |s| > 0 {
      AlnumDropSpecial(s[1..]);
      if Kept(s[0]) {
        AlnumAppend([s[0]], DropSpecial(s[1..]));
      }
    }
  }

  lemma AlnumTrimStart(s: string)
    ensures Alnum(TrimStart(s)) == Alnum(s)
  {
    var t := TrimStart(s);
    var k := |s| - |t|;
    assert s == s[..k] + t;
    AlnumOfSpaces(s[..k]);
    AlnumAppend(s[..k], t);
  }

  lemma AlnumTrimEnd(t: string)
    ensures Alnum(TrimEnd(t)) == Alnum(t)
  {
    var r := TrimEnd(t);
    assert t == r + t[|r|..];
    AlnumOfSpaces(t[|r|..]);
    AlnumAppend(r, t[|r|..]);
  }

  lemma AlnumStrip(s: string)
    ensures Alnum(Strip(s)) == Alnum(s)
  {
    AlnumTrimStart(s);
    AlnumTrimEnd(TrimStart(s));
  }

  lemma LowerAppend(a: string, b: string)
    ensures Lower(a + b) == Lower(a) + Lower(b)
  {
  }

  /** Hyphenating and lower-casing keep the letters and digits, lower-cased. */
  lemma {:induction false} AlnumSlugOfChars(s: string)
    ensures Alnum(Lower(Hyphenate(s))) == Lower(Alnum(s))
    decreases |s|
  {
    if |s| > 0 {
      var head := SlugOfChar(s[0]);
      assert Lower(Hyphenate(s)) == [head] + Lower(Hyphenate(s[1..]));
      AlnumAppend([head], Lower(Hyphenate(s[1..])));
      AlnumSlugOfChars(s[1..]);
      var keep := if IsAsciiLetter(s[0]) || IsDigit(s[0]) then [s[0]] else [];
      LowerAppend(keep, Alnum(s[1..]));
      assert Alnum([head]) == Lower(keep);
    }
  }

  /** The slug keeps exactly the heading's ASCII letters and digits, in order
      and lower-cased; everything else in it is `-` or whitespace. */
  lemma SlugKeepsLettersAndDigits(heading: string)
    ensures Alnum(Slug(heading)) == Lower(Alnum(heading))
  {
    var kept := DropSpecial(heading);
    AlnumDropSpecial(heading);
    AlnumStrip(kept);
    AlnumSlugOfChars(Strip(kept));
  }

  /** The anchor a single line contributes, if it is a heading. */
  function SlugOfLine(line: string): Option<string>
    requires '\n' !in line
  {
    match HeadingText(line)
    case Some(h) => Some(Slug(h))
    case None => None
  }

  /** The values present in a sequence of optional values. */
  function Present(xs: seq<Option<string>>): set<string>
    decreases |xs|
  {
    if |xs| == 0 then {}
    else (match xs[0] case Some(a) => {a} case None => {}) + Present(xs[1..])
  }

  /** A value is present exactly when some entry holds it. */
  lemma {:induction false} PresentSpec(xs: seq<Option<string>>, a: string)
    ensures a in Present(xs) <==> exists i :: 0 <= i < |xs| && xs[i] == Some(a)
    decreases |xs|
  {
    if |xs| > 0 {
      var tail := xs[1..];
      PresentSpec(tail, a);
      if a in Present(tail) {
        var i :| 0 <= i < |tail| && tail[i] == Some(a);
        assert xs[i + 1] == Some(a);
      }
      if exists i :: 1 <= i < |xs| && xs[i] == Some(a) {
        var i :| 1 <= i < |xs| && xs[i] == Some(a);
        assert tail[i - 1] == Some(a);
      }
    }
  }

  /** The anchors of a sequence of lines. */
  function AnchorsOfLines(lines: seq<string>): set<string>
    requires forall i :: 0 <= i < |lines| ==> '\n' !in lines[i]
  {
    Present(seq(|lines|, i requires 0 <= i < |lines| => SlugOfLine(lines[i])))
  }

  /** A string is an anchor of some lines exactly when one of them is a
      heading whose slug it is. */
  lemma AnchorsOfLinesSpec(lines: seq<string>, a: string)
    requires forall i :: 0 <= i < |lines| ==> '\n' !in lines[i]
    ensures a in AnchorsOfLines(lines) <==> exists i :: 0 <= i < |lines| && SlugOfLine(lines[i]) == Some(a)
  {
    if a in AnchorsOfLines(lines) {
      AnchorFromLine(lines, a);
    }
    if exists i :: 0 <= i < |lines| && SlugOfLine(lines[i]) == Some(a) {
      var i :| 0 <= i < |lines| && SlugOfLine(lines[i]) == Some(a);
      LineGivesAnchor(lines, a, i);
    }
  }

  /** Every anchor comes from a heading line. */
  lemma AnchorFromLine(lines: seq<string>, a: string)
    requires forall i :: 0 <= i < |lines| ==> '\n' !in lines[i]
    requires a in AnchorsOfLines(lines)
    ensures exists i :: 0 <= i < |lines| && SlugOfLine(lines[i]) == Some(a)
  {
    var slugs := seq(|lines|, i requires 0 <= i < |lines| => SlugOfLine(lines[i]));
    PresentSpec(slugs, a);
    var i :| 0 <= i < |slugs| && slugs[i] == Some(a);
    assert SlugOfLine(lines[i]) == Some(a);
  }

  /** Every heading line gives its anchor. */
  lemma LineGivesAnchor(lines: seq<string>, a: string, i: nat)
    requires forall i :: 0 <= i < |lines| ==> '\n' !in lines[i]
    requires i < |lines| && SlugOfLine(lines[i]) == Some(a)
    ensures a in AnchorsOfLines(lines)
  {
    var slugs := seq(|lines|, i requires 0 <= i < |lines| => SlugOfLine(lines[i]));
    PresentSpec(slugs, a);
    assert slugs[i] == Some(a);
  }

  /** `extract_anchors_from_file` on a readable file's content: the slugs of
      its heading lines, duplicates collapsed. */
  function AnchorSet(content: string): (r: set<string>)
    ensures forall a :: a in r ==> IsSlug(a)
  {
    var lines := Split(content, '\n');
    var r := AnchorsOfLines(lines);
    assert forall a :: a in r ==> IsSlug(a) by {
      forall a | a in r
        ensures IsSlug(a)
      {
        AnchorsOfLinesSpec(lines, a);
        var i :| 0 <= i < |lines| && SlugOfLine(lines[i]) == Some(a);
        SlugShape(HeadingText(lines[i]).value);
      }
    }
    r
  }

  /** An anchor holding a character no slug holds, `#` or `' '` for one, is
      never exposed. */
  lemma NonSlugCharNeverAnAnchor(content: string, anchor: string, i: nat)
    requires i < |anchor| && !SlugChar(anchor[i])
    ensures anchor !in AnchorSet(content)
  {
  }
}
