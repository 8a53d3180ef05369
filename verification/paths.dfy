/**
  A lexical model of the `pathlib` operations the link validator uses:
  `Path.parent`, `Path.name`, `str(path)` and `(directory / text).resolve()`.
  A location is absolute and is kept as the list of its segments below `/`;
  symbolic links are not followed, so resolving is pure `.`/`..` folding.
 */
module Paths {
  import Strings

  /** An absolute location, as its segments below the root `/`. */
  type Path = seq<string>

  /** What `Path.resolve()` yields: no empty, `.` or `..` segment and no
      segment holding a `/`. */
  predicate IsNormal(p: Path) {
    forall i :: 0 <= i < |p| ==> p[i] != "" && p[i] != "." && p[i] != ".." && '/' !in p[i]
  }

  /** `Path.parent`; the root is its own parent. */
  function Parent(p: Path): (r: Path)
    ensures IsNormal(p) ==> IsNormal(r)
  {
    if |p| == 0 then p else p[..|p| - 1]
  }

  /** `Path.name`: the last segment, or "" for the root. */
  function Name(p: Path): string {
    if |p| == 0 then "" else p[|p| - 1]
  }

  /** The effect of one segment of a relative path. */
  function Step(p: Path, segment: string): (r: Path)
    ensures IsNormal(p) && '/' !in segment ==> IsNormal(r)
  {
    if segment == "" || segment == "." then p
    else if segment == ".." then Parent(p)
    else p + [segment]
  }

  /** Reads `segments` from `base`, folding `.` and `..` away. */
  function Normalize(base: Path, segments: seq<string>): (r: Path)
    requires IsNormal(base)
    requires forall i :: 0 <= i < |segments| ==> '/' !in segments[i]
    ensures IsNormal(r)
    decreases |segments|
  {
    if |segments| == 0 then base
    else Normalize(Step(base, segments[0]), segments[1..])
  }

  /** `(directory / text).resolve()` without symbolic links: a text that
      starts with `/` replaces the directory. */
  function Locate(directory: Path, text: string): (r: Path)
    requires IsNormal(directory)
    ensures IsNormal(r)
  {
    var segments := Strings.Split(text, '/');
    if Strings.StartsWith(text, "/") then Normalize([], segments) else Normalize(directory, segments)
  }

  /** `str(path)` for an absolute path. */
  function Render(p: Path): string {
    if |p| == 0 then "/" else Strings.Join([""] + p, '/')
  }

  /** Reading plain names from a directory just appends them. */
  lemma {:induction false} NormalizePlain(base: Path, segments: seq<string>)
    requires IsNormal(base) && IsNormal(segments)
    ensures Normalize(base, segments) == base + segments
    decreases |segments|
  {
    if |segments| > 0 {
      NormalizePlain(base + [segments[0]], segments[1..]);
      assert base + [segments[0]] + segments[1..] == base + segments;
    }
  }

  /** Normalising in two parts is normalising the whole. */
  lemma {:induction false} NormalizeAppend(base: Path, xs: seq<string>, ys: seq<string>)
    requires IsNormal(base)
    requires forall i :: 0 <= i < |xs| ==> '/' !in xs[i]
    requires forall i :: 0 <= i < |ys| ==> '/' !in ys[i]
    ensures Normalize(base, xs + ys) == Normalize(Normalize(base, xs), ys)
    decreases |xs|
  {
    if |xs| == 0 {
      assert xs + ys == ys;
    } else {
      assert (xs + ys)[1..] == xs[1..] + ys;
      NormalizeAppend(Step(base, xs[0]), xs[1..], ys);
    }
  }

  /** Rendering a normal path and resolving the text gives the path back,
      from whatever directory. */
  lemma LocateRender(directory: Path, p: Path)
    requires IsNormal(directory) && IsNormal(p)
    ensures Locate(directory, Render(p)) == p
  {
    var text := Render(p);
    if |p| == 0 {
      assert text == Strings.Join(["", ""], '/');
      Strings.SplitJoin(["", ""], '/');
      assert Strings.Split(text, '/') == ["", ""];
      assert Strings.StartsWith(text, "/");
    } else {
      var pieces := [""] + p;
      assert forall i :: 0 <= i < |pieces| ==> '/' !in pieces[i] by {
        forall i | 0 <= i < |pieces| ensures '/' !in pieces[i] {
          if i > 0 {
            assert pieces[i] == p[i - 1];
          }
        }
      }
      Strings.SplitJoin(pieces, '/');
      assert text == "" + ['/'] + Strings.Join(p, '/');
      assert Strings.StartsWith(text, "/");
      NormalizePlain([], p);
    }
  }

  /** `./x` resolves like `x`. */
  lemma LocateDotPrefix(directory: Path, text: string)
    requires IsNormal(directory)
    requires !Strings.StartsWith(text, "/")
    ensures Locate(directory, "./" + text) == Locate(directory, text)
  {
    Strings.SplitAfterPiece(".", '/', text);
    assert "./" + text == "." + ['/'] + text;
    var rest := Strings.Split(text, '/');
    assert Strings.Split("./" + text, '/') == ["."] + rest;
    assert (["."] + rest)[1..] == rest;
  }

  /** `../x` resolves like `x` read from the parent directory. */
  lemma LocateDotDotPrefix(directory: Path, text: string)
    requires IsNormal(directory)
    requires !Strings.StartsWith(text, "/")
    ensures Locate(directory, "../" + text) == Locate(Parent(directory), text)
  {
    Strings.SplitAfterPiece("..", '/', text);
    assert "../" + text == ".." + ['/'] + text;
    var rest := Strings.Split(text, '/');
    assert Strings.Split("../" + text, '/') == [".."] + rest;
    assert ([".."] + rest)[1..] == rest;
  }
}
