# 12-Factor AgentOps documentation checkers, modelled in Dafny

This project models the two documentation checkers of the 12-Factor AgentOps
repository and proves properties of them.

- **The markdown link validator** (`validate_links.py`). It reads a fixed
  list of markdown files and extracts every `[text](target)` link, line by
  line. It classifies each target as an external URL, an anchor link or a
  file link. It resolves file and anchor targets against the source file's
  directory. An anchor counts as present when it is the slug of a heading in
  the target file. The validator counts the links per category and collects
  the broken ones, which it later groups by source file in sorted order.
- **The factor compliance checker**
  (`marketplace/factor-compliance-checker/scripts/validate_factor.py`). It
  extracts the headings of one factor document. It checks them against the
  nine required sections. It looks for the four pillars, the five laws,
  anti-pattern markers, cross-references to other factors (`Factor I` to
  `Factor XII`) and quantified evidence. It turns the six criteria into a
  score out of six and a tier: excellent, good or needs work.

The file system is a map from normal absolute paths to the text of the
regular files there (`Links.FileSystem`). Paths are sequences of segments,
and `Path.resolve()` is modelled lexically (`Paths.Locate`). Every regular
expression of the two scripts is matched by hand, with Python's `re`
semantics: greedy runs, backtracking, the order of alternatives, `findall`
resuming after each match, and `MULTILINE` anchors. Each module's doc
comment says how its pattern behaves. Python string `<` is modelled
exactly (`StringOrder.Less`). `str.isspace()` (and `\s`) is modelled with
its full Unicode set.

Modules, in the order the programs use them:

| file | module | models |
|---|---|---|
| wrappers.dfy | Wrappers | `Option` |
| strings.dfy | Strings | `split`, `join`, `strip`, `startswith`, `in`, `lower()`, `\s` |
| paths.dfy | Paths | `Path.parent`, `Path.name`, `(dir / text).resolve()`, `str(path)` |
| linkextract.dfy | LinkExtract | `extract_links_from_file` |
| slugs.dfy | Slugs | per-line heading match and `extract_anchors_from_file` |
| links.dfy | Links | `categorize_link`, `resolve_relative_path`, `file_exists`, `validate_anchor_link`, `validate_external_url`, the per-link branch of `validate_all_links` |
| stringorder.dfy | StringOrder | `sorted()` order on `str` |
| report.dfy | LinkReport | `validate_all_links` and the counts of `print_summary` |
| byfile.dfy | ByFile | the grouping of `print_file_summary` |
| factor_headings.dfy | FactorHeadings | `extract_headings` (`re.MULTILINE`) |
| factor_markers.dfy | AntiPatterns | `count_anti_patterns` |
| factor_refs.dfy | CrossReferences | `check_factor_cross_references` |
| factor_metrics.dfy | EvidenceMetrics | `check_evidence_metrics` |
| factor_check.dfy | FactorCheck | sections, pillars, laws, `validate_factor`, score and tier |

Behaviours of the code that the model keeps and the lemmas make visible:

- Slugs replace every single `' '` with `-`. A run of spaces is not
  collapsed (`SlugExamples.SlugOfDoubleSpace`: `"a  b"` gives `"a--b"`).
  Other whitespace characters survive into the slug.
- A self link `#x#y` asks for the anchor `x#y`. No slug contains `#`, so
  the link is always broken (`Links.SelfLinkWithTwoHashesBroken`).
- The cross-reference pattern tries `I{1,3}` before `IV` and `IX`. So
  `Factor IV` and `Factor IX` are reported as `Factor I`
  (`CrossReferences.FourAndNineReadAsOne`).
- Laws are found by substring search, so `Law 10` also counts as `Law 1`
  (`FactorCheck.LawTenCountsAsLawOne`).
- Under `re.MULTILINE`, `\s+` may cross a line break. So a lone `#` line
  takes the next line as its heading text
  (`FactorHeadings.HeadingAcrossLines`).

## Model

| member | source | states |
|---|---|---|
| Strings.Split | validate_links.py:81 | `str.split('\n')`: at least one piece, no piece holds the separator, two or more pieces exactly when the separator occurs, and the first piece is a prefix followed by the separator |
| Strings.JoinSplit | validate_links.py:81 | joining the pieces of a split with the separator gives back the original text |
| Strings.SplitJoin | validate_links.py:81 | splitting a join of separator-free pieces gives back the pieces |
| Strings.StripSpec | validate_links.py:132 | `strip()` returns a contiguous slice of the input preceded only by whitespace and followed only by whitespace, with no whitespace at either of its own ends |
| Strings.StripOfTrimmed | validate_links.py:132 | a text without whitespace at either end is its own strip |
| Paths.Locate | validate_links.py:110 | resolving a relative text always yields a normal absolute path |
| Paths.NormalizePlain | validate_links.py:110 | plain segment names are appended to the directory unchanged |
| Paths.NormalizeAppend | validate_links.py:110 | resolving a path in two parts is resolving it whole |
| Paths.LocateRender | validate_links.py:110 | resolving the printed form of a normal path gives the path back, from any directory |
| Paths.LocateDotPrefix | validate_links.py:110 | `./x` resolves like `x` |
| Paths.LocateDotDotPrefix | validate_links.py:110 | `../x` resolves like `x` read from the parent directory |
| LinkExtract.MatchAt | validate_links.py:63 | a match found at an index is an occurrence of `[text](target)` there, with a non-empty text without `]` and a non-empty target without `)` |
| LinkExtract.MatchAtComplete | validate_links.py:63 | wherever `[text](target)` with such captures occurs, the pattern matches there with exactly those captures |
| LinkExtract.ScanIsSound | validate_links.py:82 | every match `findall` reports is an occurrence of the link syntax with valid captures, at or after the search start, left to right and without overlap |
| LinkExtract.ScanCoversEveryMatch | validate_links.py:82 | every index where the pattern matches lies inside a reported match, so `findall` misses nothing |
| LinkExtract.ExtractLinks | validate_links.py:75-87 | every extracted link has a line number between 1 and the number of lines and valid captures, and line numbers never decrease |
| LinkExtract.LineLinksShape | validate_links.py:82-84 | every link taken from a line carries that line's number and valid captures |
| LinkExtract.FlattenShape | validate_links.py:81-84 | when each line's links carry its number, the links of all lines have numbers within the run and never decrease |
| LinkExtract.FlattenPerLine | validate_links.py:81-84 | when each line's links carry its number, the links on line `first + j` are exactly that line's links, in order |
| LinkExtract.ExtractLinksPerLine | validate_links.py:75-87 | the links extracted on line `n` are exactly the `findall` matches of the `n`-th piece of `content.split('\n')`, in order, numbered `n` |
| LinkExtract.NoBracketNoLinks | validate_links.py:81-84 | lines without `[` yield no links |
| Slugs.HeadingText | validate_links.py:124-128 | the per-line heading pattern fails exactly when no split into 1–6 `#`, whitespace and non-empty text exists, and otherwise captures the text of one such split, the shortest one: `\s+` is greedy |
| Slugs.SevenHashesNoHeading | validate_links.py:124 | a line starting with seven `#` is never a heading |
| Slugs.DropSpecialKeeps | validate_links.py:131 | `re.sub(r'[^a-zA-Z0-9\s-]', '', …)` leaves only letters, digits, whitespace and `-` taken from the input |
| Slugs.DropSpecialOfKept | validate_links.py:131 | a text of kept characters is unchanged by the substitution |
| Slugs.SlugShape | validate_links.py:131-132 | every slug consists of lower-case letters, digits, `-` and non-space whitespace, with no whitespace at either end |
| Slugs.SlugOfSlug | validate_links.py:131-132 | a text of slug shape is its own slug |
| Slugs.SlugIdempotent | validate_links.py:131-132 | slugging a slug changes nothing |
| Slugs.SlugKeepsLettersAndDigits | validate_links.py:131-132 | the slug keeps exactly the heading's letters and digits, in order and lower-cased |
| Slugs.PresentSpec | validate_links.py:119-133 | a value is in the collected set exactly when some line yielded it |
| Slugs.AnchorsOfLinesSpec | validate_links.py:125-133 | an identifier is an anchor exactly when some line is a heading whose slug it is |
| Slugs.AnchorSet | validate_links.py:117-136 | every anchor of a file has slug shape |
| Slugs.NonSlugCharNeverAnAnchor | validate_links.py:117-136 | an identifier holding a character no slug holds (`#`, `' '`, an upper-case letter, punctuation) is never an anchor |
| SlugExamples.SlugOfTheProblem | validate_links.py:131-132 | `"The Problem!!"` slugs to `"the-problem"` |
| SlugExamples.SlugOfDoubleSpace | validate_links.py:132 | two spaces give two hyphens |
| Links.ClassifySpec | validate_links.py:89-96 | a target is external exactly when it starts with `http://` or `https://`, an anchor link exactly when it is not external and holds `#`, and a file link otherwise |
| Links.ClassifyExamples | validate_links.py:89-96 | the web prefix decides before `#`, so `https://x#y` is external, and a bare `#intro` is an anchor link |
| Links.ClassifyPlainExamples | validate_links.py:89-96 | `ftp://x` and `docs/a.md` are file links |
| Links.FilePartIsBefore | validate_links.py:102-103 | the file part kept by resolution is the text before the first `#` |
| Links.ResolveRelativeSpec | validate_links.py:98-111 | a target resolves to the source itself when nothing precedes its first `#`, and otherwise to that text read from the source's directory |
| Links.ResolveIgnoresFragment | validate_links.py:98-111 | targets that agree up to their first `#` resolve to the same path |
| Links.ResolveDotPrefix | validate_links.py:98-111 | `./x` resolves like `x` |
| Links.SelfAnchorTarget | validate_links.py:144-147 | a target `#x` names the source file and the anchor `x`, even when `x` holds more `#` |
| Links.FileAnchorTarget | validate_links.py:148-152 | a target `f#x` or `f#x#…` names `f` resolved from the source's directory and the anchor `x`; what follows a second `#` is ignored |
| Links.AnchorVerdict | validate_links.py:138-165 | an anchor link fails with "Target file does not exist" exactly when its file is missing; with the file present it fails exactly when the anchor is non-empty and not among the file's anchors, with the message naming the file's name; an empty anchor needs only the file |
| Links.SelfLinkFileFound | validate_links.py:144-165 | a self link from an existing file is valid or reports only a missing anchor |
| Links.SelfLinkWithTwoHashesBroken | validate_links.py:144-165 | a self link `#x#y` is always broken, reporting the anchor `x#y` |
| Links.ExternalNeverBroken | validate_links.py:167-172 | an external link is always valid, so the malformed-URL error is never reported |
| Links.FileVerdict | validate_links.py:210-215 | a file link is broken exactly when its resolved path is not an existing file, and the message shows that path, which resolves back to itself |
| StringOrder.LessIrreflexive | validate_links.py:290 | no string sorts before itself |
| StringOrder.LessTransitive | validate_links.py:290 | the string order is transitive |
| StringOrder.LessTotal | validate_links.py:290 | of two different strings one sorts first |
| StringOrder.LessPrefix | validate_links.py:290 | a proper prefix sorts first, and a shared prefix does not decide |
| StringOrder.OrderExamples | validate_links.py:290 | `README.md` sorts before `docs/README.md`, and `b` after `a.md` |
| LinkReport.Dedup | validate_links.py:182-189 | the table keys are each corpus entry once, ordered by first appearance |
| LinkReport.EntryLinks | validate_links.py:183-189 | an entry naming no existing file contributes nothing; one naming an existing file contributes exactly the links `extract_links_from_file` finds in its text, same number, same text, target and line in the same order, each tagged with the entry and the file |
| LinkReport.Occurrences | validate_links.py:182-195 | every collected link comes from a corpus entry whose resolved path is an existing file |
| LinkReport.DedupDistinct | validate_links.py:189-192 | the keys of the link table are distinct |
| LinkReport.JoinPerEntry | validate_links.py:192-195 | walking the table's lists one after the other, the links belonging to one key are exactly that key's list, in order |
| LinkReport.OccurrencesPerEntry | validate_links.py:182-195 | the collected links of a listed entry are exactly the links of its file, in order, and an entry not in the corpus has none |
| LinkReport.CategoryCountsSum | validate_links.py:196-211 | the file, anchor and external counters add up to the total |
| LinkReport.BrokenCountsSum | validate_links.py:245-248 | the three broken-link lines add up to the number of broken links |
| LinkReport.BrokenSpec | validate_links.py:217-225 | every broken record comes from a link with an invalid verdict and carries its error, every invalid link is recorded, and there are no more records than links |
| LinkReport.BrokenOfSpec | validate_links.py:195-225 | the validator's broken list holds exactly its invalid links, each with its verdict's error, and never an external link or a malformed-URL error |
| LinkReport.BrokenOfAppend | validate_links.py:192-225 | checking two runs of links one after the other concatenates their broken lists, keeping the order |
| LinkReport.BrokenCountBounded | validate_links.py:245-248 | no category has more broken links than links, and no external link is broken |
| LinkReport.ValidateAll | validate_links.py:174-225 | the total is the number of collected links and the sum of the three counters, each counter counts its category, the broken list is that of the checks in order, and it holds no external link |
| ByFile.AddSorted | validate_links.py:281-290 | adding a broken link keeps the groups in sorted source order |
| ByFile.AddLinks | validate_links.py:282-283 | adding a broken link appends it to its own source's list and changes no other list |
| ByFile.GroupByFileSpec | validate_links.py:281-296 | the groups come in strictly increasing source order, each holds exactly its source's broken links in report order, none is empty, the sources are those of the broken links, and the group sizes add up to the number of broken links |
| ByFile.FromSourceSpec | validate_links.py:282-283 | a source's list holds only broken links of that source, and is non-empty exactly when the source has one |
| FactorHeadings.HeadingAtShape | marketplace/factor-compliance-checker/scripts/validate_factor.py:80-81 | a heading match starts with `#`, captures non-empty text without a line break that ends the match, and ends at a line end |
| FactorHeadings.HeadingsFromSound | marketplace/factor-compliance-checker/scripts/validate_factor.py:81 | every heading `findall` reports is a match of the pattern at a line start, at or after the search start, left to right and without overlap |
| FactorHeadings.HeadingsCoverEveryMatch | marketplace/factor-compliance-checker/scripts/validate_factor.py:81 | every line start where the pattern matches lies inside a reported heading, so `findall` misses nothing |
| FactorHeadings.ExtractHeadings | marketplace/factor-compliance-checker/scripts/validate_factor.py:78-82 | every extracted heading is non-empty and lies within one line, one per reported match, in order |
| FactorHeadings.ExtractHeadingsSound | marketplace/factor-compliance-checker/scripts/validate_factor.py:78-82 | every extracted heading is the captured text of a match at some line start |
| FactorHeadings.ExtractHeadingsComplete | marketplace/factor-compliance-checker/scripts/validate_factor.py:78-82 | every line start where the pattern matches lies inside a reported match whose text is extracted |
| FactorHeadings.SingleLineHeading | marketplace/factor-compliance-checker/scripts/validate_factor.py:78-82 | on a single line the multi-line pattern extracts exactly the per-line heading text of the link validator |
| FactorHeadings.SevenHashesNoHeading | marketplace/factor-compliance-checker/scripts/validate_factor.py:80 | seven `#` at a line start never start a heading |
| FactorHeadings.HeadingAcrossLines | marketplace/factor-compliance-checker/scripts/validate_factor.py:80-81 | `\s+` crosses a line break: `"#\n## Foo"` yields the heading `"## Foo"` |
| AntiPatterns.CountZeroIff | marketplace/factor-compliance-checker/scripts/validate_factor.py:125 | the count of one marker is zero exactly when it occurs nowhere, ignoring case |
| AntiPatterns.CountBounded | marketplace/factor-compliance-checker/scripts/validate_factor.py:125 | matches do not overlap: their number times the marker's length fits in the text |
| AntiPatterns.AntiPatternsZeroIff | marketplace/factor-compliance-checker/scripts/validate_factor.py:118-127 | the anti-pattern count is zero exactly when none of the four markers occurs anywhere |
| AntiPatterns.CountIgnoresCase | marketplace/factor-compliance-checker/scripts/validate_factor.py:125 | texts that agree up to ASCII case have the same count |
| CrossReferences.IRun | marketplace/factor-compliance-checker/scripts/validate_factor.py:135 | `I{0,max}` takes as many `I` as there are, up to the bound |
| CrossReferences.ReferenceAtIff | marketplace/factor-compliance-checker/scripts/validate_factor.py:135 | the pattern matches at an index exactly when `Factor`, a whitespace run and one of `I`, `V`, `X` follow there |
| CrossReferences.NumeralAtShape | marketplace/factor-compliance-checker/scripts/validate_factor.py:135 | every capture is one of I, II, III, V, VI, VII, VIII, X, XI, XII |
| CrossReferences.ReferencesShape | marketplace/factor-compliance-checker/scripts/validate_factor.py:130-141 | every reference is `Factor ` followed by such a numeral, and never `Factor IV` or `Factor IX` |
| CrossReferences.ReferencesFromComplete | marketplace/factor-compliance-checker/scripts/validate_factor.py:136 | every index where the pattern matches lies inside a match `findall` reports |
| CrossReferences.FactorReferences | marketplace/factor-compliance-checker/scripts/validate_factor.py:130-141 | every match `findall` reports contributes `Factor ` and its numeral to the result |
| CrossReferences.ReferencesSound | marketplace/factor-compliance-checker/scripts/validate_factor.py:130-141 | every reported reference is `Factor ` and the numeral of a match at some index |
| CrossReferences.ReferencesComplete | marketplace/factor-compliance-checker/scripts/validate_factor.py:130-141 | a match at any index lies inside a reported match whose `Factor ` and numeral are in the result |
| CrossReferences.HasReferenceIff | marketplace/factor-compliance-checker/scripts/validate_factor.py:130-141 | the document has a cross-reference exactly when the pattern matches somewhere in it |
| CrossReferences.FourAndNineReadAsOne | marketplace/factor-compliance-checker/scripts/validate_factor.py:135 | `Factor IV` and `Factor IX` are each reported as `Factor I` |
| EvidenceMetrics.HasMetrics | marketplace/factor-compliance-checker/scripts/validate_factor.py:144-161 | the check holds exactly when one of the seven patterns matches at some index |
| EvidenceMetrics.TimesAtIff | marketplace/factor-compliance-checker/scripts/validate_factor.py:149 | the `\d+x\s+\w+` test holds exactly when the pattern matches with some whitespace run, and that run is the whole run |
| EvidenceMetrics.SessionsAtIff | marketplace/factor-compliance-checker/scripts/validate_factor.py:150 | the `\d+\s+sessions` test holds exactly when the pattern matches with some whitespace run, and that run is the whole run |
| EvidenceMetrics.PercentExample | marketplace/factor-compliance-checker/scripts/validate_factor.py:148 | `"saves 95% of time"` counts as evidence |
| FactorCheck.Partition | marketplace/factor-compliance-checker/scripts/validate_factor.py:85-97 | the found and missing lists split the sections: their lengths add up, a section is found exactly when some heading contains it ignoring case, missing otherwise, and both keep the sections' order |
| FactorCheck.CheckRequiredSections | marketplace/factor-compliance-checker/scripts/validate_factor.py:85-97 | the same for the nine required sections, and nothing is missing exactly when every required section is present |
| FactorCheck.FoundIn | marketplace/factor-compliance-checker/scripts/validate_factor.py:100-115 | a name is reported exactly when it is listed and occurs in the content, in list order, and without duplicates when the list has none |
| FactorCheck.CheckPillarReferences | marketplace/factor-compliance-checker/scripts/validate_factor.py:100-106 | a pillar is reported exactly when its name occurs in the content, in list order |
| FactorCheck.CheckLawReferences | marketplace/factor-compliance-checker/scripts/validate_factor.py:109-115 | a law is reported exactly when its name occurs in the content, in list order |
| FactorCheck.ReferencesDistinct | marketplace/factor-compliance-checker/scripts/validate_factor.py:100-115 | each pillar and each law is reported at most once |
| FactorCheck.LawTenCountsAsLawOne | marketplace/factor-compliance-checker/scripts/validate_factor.py:109-115 | a document that mentions only `Law 10` is reported as referring to `Law 1` |
| FactorCheck.PartialCaseBlindMatch | marketplace/factor-compliance-checker/scripts/validate_factor.py:92 | a heading `Executive summary` satisfies the section `Summary` |
| FactorCheck.ValidateFactor | marketplace/factor-compliance-checker/scripts/validate_factor.py:164-185 | the report names the file, splits the nine required sections between found and missing, and states which pillars and laws occur, the anti-pattern count, the cross-references and whether a metric pattern matches |
| FactorCheck.ValidateFactorSections | marketplace/factor-compliance-checker/scripts/validate_factor.py:163-168 | a required section is reported found exactly when some heading names it, missing exactly when none does, and nothing is missing exactly when every section is found |
| FactorCheck.CountTrueBounds | marketplace/factor-compliance-checker/scripts/validate_factor.py:257-271 | the number of criteria met is at most their number, and equal to it exactly when all are met |
| FactorCheck.Score | marketplace/factor-compliance-checker/scripts/validate_factor.py:257-271 | the score counts the criteria met, is at most six, and is six exactly when every criterion holds |
| FactorCheck.TierOf | marketplace/factor-compliance-checker/scripts/validate_factor.py:273-283 | the tier is excellent exactly for six points, good exactly for five, and needs work for four or fewer |
| FactorCheck.ExcellentIffAllCriteria | marketplace/factor-compliance-checker/scripts/validate_factor.py:257-283 | a report is excellent exactly when nothing is missing, some pillar, law and metric are found, at least three anti-patterns are documented and some factor is cited |
| FactorCheck.ValidateExcellent | marketplace/factor-compliance-checker/scripts/validate_factor.py:164-283 | a document is excellent exactly when every required section is named by a heading and every other criterion holds |

## Left out

- Printing: the report texts, the banners and the per-link detail lines are not modelled. The counters, the broken list and the by-file grouping they print are modelled.
- Reading files: `open` and `read` become the file-system map, which holds each file's text as `read()` returns it, that is after the universal-newline translation of text mode turns `\r\n` and a lone `\r` into `\n`; the translation itself is not modelled. The `except` branches of `extract_links_from_file` and `extract_anchors_from_file` are not modelled, because a regular file in the map is always readable. An unreadable or undecodable file, and `read_file`'s `sys.exit` in the compliance checker, are out of scope.
- Symbolic links: `Path.resolve()` is modelled lexically, and `exists()` and `is_file()` as membership in the map. A corpus entry is located lexically too, whereas the source tests `(REPO_ROOT / md_file).exists()` without resolving it: an entry such as `docs/../a.md` with no `docs` directory is skipped by the operating system but reaches `a.md` in the model. The corpus listed in validate_links.py holds no `..` segments, so the two agree on it.
- Directories in the corpus: a corpus entry that names a directory passes `exists()` in the source, but reading it raises and is caught, so it gives no links. The model gives it no links either, because it is not in the map.
- `REPO_ROOT` and `MD_FILES` are parameters (`root`, `corpus`) rather than constants.
- The command-line entry points (`main`) are not modelled, nor is `ALL_FACTORS`, which nothing reads.
- Paths.Render: `str(path)` is modelled for normal absolute paths only.
- Floating point: the compliance percentage is compared as `score * 100 >= 90 * 6` and `>= 70 * 6` in integers. For scores 0 to 6 this agrees with the division.
- Unicode case: `lower()` and `re.IGNORECASE` are modelled for ASCII letters only, and `\d` and `\w` match ASCII characters only. Python's matching of non-ASCII digits, word characters and case pairs is not modelled.
- CrossReferences.FactorReferences: `list(set(...))` has no defined order, so the result is modelled as a set.
- Slugs.AnchorSet: states the shape of every anchor and, through `AnchorsOfLinesSpec`, where each comes from. It does not restate the per-line pipeline.

