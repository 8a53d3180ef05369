/**
  Link classification, path resolution and the per-category verdicts of the
  link validator (`categorize_link`, `resolve_relative_path`, `file_exists`,
  `validate_anchor_link`, `validate_external_url` and the file branch of
  `validate_all_links`).

  The file system is a map from normal absolute paths to the contents of the
  regular files there; a path is an existing regular file exactly when it is
  a key.
 */
module Links {
  import Strings
  import opened Paths
  import Slugs

  /** The three kinds of link target. */
  datatype Category = External | Anchor | File

  /** The regular files of the file system and their text. */
  type FileSystem = map<Path, string>

  /** `target.startswith('http://') or target.startswith('https://')` */
  predicate IsWebUrl(target: string) {
    Strings.StartsWith(target, "http://") || Strings.StartsWith(target, "https://")
  }

  /** `categorize_link` */
  function Classify(target: string): Category {
    if IsWebUrl(target) then External
    else if '#' in target then Anchor
    else File
  }

  /** What `resolve_relative_path` keeps of a target: the text before its
      first `#`. */
  function FilePart(target: string): string {
    if '#' in target then Strings.Split(target, '#')[0] else target
  }

  /** `resolve_relative_path`: the source itself for an empty file part,
      otherwise the file part read from the source's directory. */
  function ResolveRelative(source: Path, target: string): (r: Path)
    requires IsNormal(source)
    ensures IsNormal(r)
  {
    var filePart := FilePart(target);
    if filePart == "" then source else Locate(Parent(source), filePart)
  }

  /** `file_exists` */
  predicate FileExists(fs: FileSystem, p: Path) {
    p in fs
  }

  /** Why a link is broken; each carries what its message shows. */
  datatype Error =
    | MalformedUrl
    | FileMissing(path: Path)
    | TargetFileMissing(path: Path)
    | AnchorMissing(anchor: string, fileName: string)

  /** The message text of each error, as the report shows it. */
  function Message(e: Error): string {
    match e
    case MalformedUrl => "External URL must start with http:// or https://"
    case FileMissing(p) => "File does not exist: " + Render(p)
    case TargetFileMissing(p) => "Target file does not exist: " + Render(p)
    case AnchorMissing(a, name) => "Anchor '" + a + "' not found in " + name
  }

  datatype Verdict = Valid | Invalid(error: Error)

  /** `validate_external_url` */
  function ValidateExternal(url: string): Verdict {
    if Strings.StartsWith(url, "http://") || Strings.StartsWith(url, "https://") then Valid
    else Invalid(MalformedUrl)
  }

  /** The file and the anchor an anchor link names: for a target starting with
      `#`, the source and everything after that `#`; otherwise the text before
      the first `#`, resolved, and the text between the first and the second
      `#`. */
  function AnchorTarget(source: Path, target: string): (Path, string)
    requires IsNormal(source)
  {
    if Strings.StartsWith(target, "#") then (source, target[1..])
    else
      var parts := Strings.Split(target, '#');
      (ResolveRelative(source, parts[0]), if |parts| > 1 then parts[1] else "")
  }

  /** `validate_anchor_link` */
  function ValidateAnchor(fs: FileSystem, source: Path, target: string): Verdict
    requires IsNormal(source)
  {
    if '#' !in target then Valid
    else
      var (file, anchor) := AnchorTarget(source, target);
      if !FileExists(fs, file) then Invalid(TargetFileMissing(file))
      else if anchor != "" && anchor !in Slugs.AnchorSet(fs[file]) then Invalid(AnchorMissing(anchor, Name(file)))
      else Valid
  }

  /** The file branch of `validate_all_links`. */
  function ValidateFile(fs: FileSystem, source: Path, target: string): Verdict
    requires IsNormal(source)
  {
    var p := ResolveRelative(source, target);
    if FileExists(fs, p) then Valid else Invalid(FileMissing(p))
  }

  /** The verdict `validate_all_links` reaches for one link, by category. */
  function Validate(fs: FileSystem, source: Path, target: string): Verdict
    requires IsNormal(source)
  {
    match Classify(target)
    case External => ValidateExternal(target)
    case Anchor => ValidateAnchor(fs, source, target)
    case File => ValidateFile(fs, source, target)
  }

  /** Classification is decided by the web prefix first, then by `#`. This
      restates the order of the tests; what each class then means is given by
      `SelfAnchorTarget` and `FileAnchorTarget`, which say how an anchor
      link's target splits into a file and an anchor. */
  lemma ClassifySpec(target: string)
    ensures Classify(target) == External <==> IsWebUrl(target)
    ensures Classify(target) == Anchor <==> !IsWebUrl(target) && '#' in target
    ensures Classify(target) == File <==> !IsWebUrl(target) && '#' !in target
  {
  }

  /** The prefix test wins over `#`; a bare `#` target is an anchor link. */
  lemma ClassifyExamples()
    ensures Classify("https://x#y") == External
    ensures Classify("#intro") == Anchor
    ensures Classify("other.md#part") == Anchor
  {
    assert "https://x#y"[..8] == "https://";
    assert "#intro"[0] == '#';
    assert "other.md#part"[8] == '#' && "other.md#part"[0] == 'o';
  }

  /** Other schemes and plain paths are file links. */
  lemma ClassifyPlainExamples()
    ensures Classify("ftp://x") == File
    ensures Classify("docs/a.md") == File
  {
    PlainIsFile("ftp://x");
    PlainIsFile("docs/a.md");
  }

  /** A target that starts with neither `h` nor `#` and has no `#` is a file link. */
  lemma PlainIsFile(target: string)
    requires |target| > 0 && target[0] != 'h'
    requires forall i :: 0 <= i < |target| ==> target[i] != '#'
    ensures Classify(target) == File
  {
  }

  /** The file part is the text before the first `#`. */
  lemma FilePartIsBefore(target: string)
    ensures FilePart(target) == Strings.Before(target, '#')
  {
    var b := Strings.Before(target, '#');
    if '#' in target {
      Strings.SplitHeadIsBefore(target, '#');
    } else {
      Strings.SplitHeadIsBefore(target, '#');
      Strings.SplitNoSeparator(target, '#');
    }
  }

  /** Resolution depends only on the text before the first `#`: an empty one
      names the source itself, anything else is read from the source's
      directory. */
  lemma ResolveRelativeSpec(source: Path, target: string)
    requires IsNormal(source)
    ensures var before := Strings.Before(target, '#');
      ResolveRelative(source, target) == if before == "" then source else Locate(Parent(source), before)
  {
    FilePartIsBefore(target);
  }

  /** Two targets that agree up to their first `#` resolve alike. */
  lemma ResolveIgnoresFragment(source: Path, t1: string, t2: string)
    requires IsNormal(source)
    requires Strings.Before(t1, '#') == Strings.Before(t2, '#')
    ensures ResolveRelative(source, t1) == ResolveRelative(source, t2)
  {
    ResolveRelativeSpec(source, t1);
    ResolveRelativeSpec(source, t2);
  }

  /** `./x` resolves like `x` when `x` names a file. */
  lemma ResolveDotPrefix(source: Path, target: string)
    requires IsNormal(source)
    requires !Strings.StartsWith(target, "/") && Strings.Before(target, '#') != ""
    ensures ResolveRelative(source, "./" + target) == ResolveRelative(source, target)
  {
    var before := Strings.Before(target, '#');
    BeforeAfterPlainPrefix("./", target);
    ResolveRelativeSpec(source, target);
    ResolveRelativeSpec(source, "./" + target);
    assert !Strings.StartsWith(before, "/") by {
      assert before[0] == target[0];
    }
    LocateDotPrefix(Parent(source), before);
  }

  /** A `#`-free prefix passes through `Before`. */
  lemma {:induction false} BeforeAfterPlainPrefix(prefix: string, s: string)
    requires '#' !in prefix
    ensures Strings.Before(prefix + s, '#') == prefix + Strings.Before(s, '#')
    decreases |prefix|
  {
    if |prefix| > 0 {
      assert prefix[0] in prefix;
      assert '#' !in prefix[1..] by {
        assert forall c :: c in prefix[1..] ==> c in prefix;
      }
      assert (prefix + s)[1..] == prefix[1..] + s;
      BeforeAfterPlainPrefix(prefix[1..], s);
    } else {
      assert prefix + s == s;
    }
  }

  /** A self link `#x` names the source and the anchor `x`, even when `x`
      holds more `#`. */
  lemma SelfAnchorTarget(source: Path, rest: string)
    requires IsNormal(source)
    ensures AnchorTarget(source, "#" + rest) == (source, rest)
  {
    assert ("#" + rest)[1..] == rest;
  }

  /** A link `f#x` or `f#x#y` names the file `f`, resolved, and the anchor `x`
      only: whatever follows a second `#` is ignored. */
  lemma FileAnchorTarget(source: Path, f: string, x: string, rest: string)
    requires IsNormal(source)
    requires f != "" && '#' !in f && '#' !in x
    requires rest == "" || rest[0] == '#'
    ensures AnchorTarget(source, f + "#" + x + rest) == (Locate(Parent(source), f), x)
  {
    var target := f + "#" + x + rest;
    SplitFileAnchor(f, x, rest);
    assert f[0] in f;
    assert target[0] == f[0];
    ResolveRelativeSpec(source, f);
    assert Strings.Before(f, '#') == f by {
      FilePartIsBefore(f);
    }
  }

  /** `f#x` and `f#x#y` split at `#` into `f`, `x`, and possibly more. */
  lemma SplitFileAnchor(f: string, x: string, rest: string)
    requires '#' !in f && '#' !in x
    requires rest == "" || rest[0] == '#'
    ensures var parts := Strings.Split(f + "#" + x + rest, '#');
      |parts| >= 2 && parts[0] == f && parts[1] == x
  {
    assert f + "#" + x + rest == f + ['#'] + (x + rest);
    Strings.SplitAfterPiece(f, '#', x + rest);
    if rest == "" {
      assert x + rest == x;
      Strings.SplitNoSeparator(x, '#');
    } else {
      assert x + rest == x + ['#'] + rest[1..];
      Strings.SplitAfterPiece(x, '#', rest[1..]);
    }
  }

  /** The anchor verdict: a missing target file is reported as such;
      otherwise the link is broken exactly when its anchor is non-empty and
      not among the target's anchors, and the message names the target
      file's name. An empty anchor only needs the file. This restates the
      branches of the verdict; the anchors it compares against are pinned
      down independently by `Slugs.AnchorsOfLinesSpec`, and the split of the target
      by `SelfAnchorTarget` and `FileAnchorTarget`. */
  lemma AnchorVerdict(fs: FileSystem, source: Path, target: string)
    requires IsNormal(source) && '#' in target
    ensures var (file, anchor) := AnchorTarget(source, target);
      && (ValidateAnchor(fs, source, target) == Invalid(TargetFileMissing(file)) <==> file !in fs)
      && (file in fs ==>
            (ValidateAnchor(fs, source, target).Invalid? <==> anchor != "" && anchor !in Slugs.AnchorSet(fs[file])))
      && (file in fs && ValidateAnchor(fs, source, target).Invalid? ==>
            ValidateAnchor(fs, source, target).error == AnchorMissing(anchor, Name(file)))
      && (anchor == "" ==> (ValidateAnchor(fs, source, target) == Valid <==> file in fs))
  {
  }

  /** A self link never reports a missing file when its source exists. */
  lemma SelfLinkFileFound(fs: FileSystem, source: Path, rest: string)
    requires IsNormal(source) && source in fs
    ensures Validate(fs, source, "#" + rest) == Valid
      || Validate(fs, source, "#" + rest) == Invalid(AnchorMissing(rest, Name(source)))
  {
    var target := "#" + rest;
    assert target[0] == '#';
    assert !IsWebUrl(target);
    SelfAnchorTarget(source, rest);
  }

  /** A self link `#x#y` asks for the anchor `x#y`, which no heading yields,
      so it is always broken. */
  lemma SelfLinkWithTwoHashesBroken(fs: FileSystem, source: Path, x: string, y: string)
    requires IsNormal(source) && source in fs
    ensures Validate(fs, source, "#" + x + "#" + y) == Invalid(AnchorMissing(x + "#" + y, Name(source)))
  {
    var anchor := x + "#" + y;
    var target := "#" + anchor;
    assert target == "#" + x + "#" + y;
    assert target[0] == '#';
    assert !IsWebUrl(target);
    SelfAnchorTarget(source, anchor);
    assert anchor[|x|] == '#' && !Slugs.SlugChar('#');
    Slugs.NonSlugCharNeverAnAnchor(fs[source], anchor, |x|);
    assert ValidateAnchor(fs, source, target) == Invalid(AnchorMissing(anchor, Name(source)));
  }

  /** External links are never broken: classification and the external check
      use the same prefix test, so the malformed-URL error never occurs. */
  lemma ExternalNeverBroken(fs: FileSystem, source: Path, target: string)
    requires IsNormal(source)
    ensures Classify(target) == External ==> Validate(fs, source, target) == Valid
    ensures Validate(fs, source, target) != Invalid(MalformedUrl)
  {
  }

  /** A file link is broken exactly when its resolved path is not an existing
      regular file, and the message then names that resolved path: reading
      the message's path back from any directory gives the resolved path. */
  lemma FileVerdict(fs: FileSystem, source: Path, target: string, directory: Path)
    requires IsNormal(source) && IsNormal(directory)
    requires Classify(target) == File
    ensures var p := ResolveRelative(source, target);
      && (Validate(fs, source, target).Invalid? <==> p !in fs)
      && (p !in fs ==> Message(Validate(fs, source, target).error) == "File does not exist: " + Render(p)
                       && Locate(directory, Render(p)) == p)
  {
    LocateRender(directory, ResolveRelative(source, target));
  }
}
