/**
  The aggregation of the link validator (`validate_all_links`,
  `print_summary` and `print_file_summary` without their printing): which
  files are read, the order links are checked in, the counters, the list of
  broken links and the broken links grouped by file.
 */
module LinkReport {
  import opened Paths
  import opened Links
  import LinkExtract
  import StringOrder

  /** One extracted link: the corpus entry as written, the location of its
      file, and the link's text, target and line. */
  datatype Occurrence = Occurrence(source: string, location: Path, text: string, target: string, line: nat)

  /** Every occurrence sits in a normal location. */
  predicate Located(os: seq<Occurrence>) {
    forall k :: 0 <= k < |os| ==> IsNormal(os[k].location)
  }

  /** Where `x` first appears in `s`. */
  function FirstIndex(s: seq<string>, x: string): (k: nat)
    requires x in s
    ensures k < |s| && s[k] == x
    ensures forall j :: 0 <= j < k ==> s[j] != x
  {
    if s[0] == x then 0 else 1 + FirstIndex(s[1..], x)
  }

  /** The keys of the link table in insertion order: each corpus entry once,
      ordered by where it first appears. Assigning a key twice keeps its
      first position. */
  function Dedup(corpus: seq<string>): (r: seq<string>)
    ensures forall x :: x in r <==> x in corpus
    ensures forall i, j :: 0 <= i < j < |r| ==> FirstIndex(corpus, r[i]) < FirstIndex(corpus, r[j])
    decreases |corpus|
  {
    if |corpus| == 0 then []
    else
      var init := corpus[..|corpus| - 1];
      var last := corpus[|corpus| - 1];
      var d := Dedup(init);
      FirstIndexOfPrefix(corpus, d);
      if last in d then d
      else
        assert FirstIndex(corpus, last) == |corpus| - 1;
        d + [last]
  }

  /** Entries found before the last one keep their first position. */
  lemma FirstIndexOfPrefix(corpus: seq<string>, d: seq<string>)
    requires |corpus| > 0
    requires forall x :: x in d <==> x in corpus[..|corpus| - 1]
    ensures forall x :: x in d ==> FirstIndex(corpus, x) == FirstIndex(corpus[..|corpus| - 1], x)
    ensures forall x :: x in d ==> FirstIndex(corpus, x) < |corpus| - 1
  {
    var init := corpus[..|corpus| - 1];
    forall x | x in d
      ensures FirstIndex(corpus, x) == FirstIndex(init, x) < |corpus| - 1
    {
      var a := FirstIndex(init, x);
      var b := FirstIndex(corpus, x);
      assert corpus[a] == init[a];
      assert init[b] == corpus[b];
    }
  }

  /** The links one corpus entry contributes: those of its file, or none
      when the entry names no existing regular file. */
  function EntryLinks(fs: FileSystem, root: Path, entry: string): (r: seq<Occurrence>)
    requires IsNormal(root)
    ensures forall k :: 0 <= k < |r| ==>
      && r[k].source == entry && r[k].location == Locate(root, entry) && r[k].location in fs
      && IsNormal(r[k].location)
    ensures Locate(root, entry) !in fs ==> r == []
    ensures Locate(root, entry) in fs ==>
      && |r| == |LinkExtract.ExtractLinks(fs[Locate(root, entry)])|
      && forall k :: 0 <= k < |r| ==>
           && r[k].text == LinkExtract.ExtractLinks(fs[Locate(root, entry)])[k].text
           && r[k].target == LinkExtract.ExtractLinks(fs[Locate(root, entry)])[k].target
           && r[k].line == LinkExtract.ExtractLinks(fs[Locate(root, entry)])[k].line
  {
    var location := Locate(root, entry);
    if location !in fs then []
    else
      var links := LinkExtract.ExtractLinks(fs[location]);
      seq(|links|, k requires 0 <= k < |links| =>
        Occurrence(entry, location, links[k].text, links[k].target, links[k].line))
  }

  /** The links of several entries, one list per entry. */
  function EntryLists(fs: FileSystem, root: Path, entries: seq<string>): (r: seq<seq<Occurrence>>)
    requires IsNormal(root)
    ensures |r| == |entries|
  {
    seq(|entries|, i requires 0 <= i < |entries| => EntryLinks(fs, root, entries[i]))
  }

  /** The lists of `xss` one after the other. */
  function Join(xss: seq<seq<Occurrence>>): seq<Occurrence>
    decreases |xss|
  {
    if |xss| == 0 then [] else xss[0] + Join(xss[1..])
  }

  /** List `i` of `xss` holds occurrences of entry `i`, each at that entry's
      location, which is an existing file. */
  predicate Tagged(fs: FileSystem, root: Path, entries: seq<string>, xss: seq<seq<Occurrence>>)
    requires IsNormal(root)
  {
    && Sourced(entries, xss)
    && forall i: int, k: int :: 0 <= i < |xss| && 0 <= k < |xss[i]| ==>
         xss[i][k].location == Locate(root, entries[i]) && xss[i][k].location in fs
  }

  /** List `i` of `xss` holds occurrences of entry `i`. */
  predicate Sourced(entries: seq<string>, xss: seq<seq<Occurrence>>) {
    && |xss| == |entries|
    && forall i: int, k: int :: 0 <= i < |xss| && 0 <= k < |xss[i]| ==> xss[i][k].source == entries[i]
  }

  /** Dropping the first entry of a sourced run leaves a sourced run. */
  lemma SourcedTail(entries: seq<string>, xss: seq<seq<Occurrence>>)
    requires |entries| > 0 && Sourced(entries, xss)
    ensures Sourced(entries[1..], xss[1..])
  {
    forall i: int, k: int | 0 <= i < |xss[1..]| && 0 <= k < |xss[1..][i]|
      ensures xss[1..][i][k].source == entries[1..][i]
    {
      assert xss[1..][i] == xss[i + 1] && entries[1..][i] == entries[i + 1];
    }
  }

  /** Distinct entries stay distinct without the first. */
  lemma DistinctTail(entries: seq<string>)
    requires |entries| > 0
    requires forall i, j :: 0 <= i < j < |entries| ==> entries[i] != entries[j]
    ensures forall i, j :: 0 <= i < j < |entries[1..]| ==> entries[1..][i] != entries[1..][j]
    ensures entries[0] !in entries[1..]
  {
    forall i, j | 0 <= i < j < |entries[1..]|
      ensures entries[1..][i] != entries[1..][j]
    {
      assert entries[1..][i] == entries[i + 1] && entries[1..][j] == entries[j + 1];
    }
    forall j | 0 <= j < |entries[1..]|
      ensures entries[1..][j] != entries[0]
    {
      assert entries[1..][j] == entries[j + 1];
    }
  }

  /** Each entry's list is tagged with that entry. */
  lemma EntryListsTagged(fs: FileSystem, root: Path, entries: seq<string>)
    requires IsNormal(root)
    ensures Tagged(fs, root, entries, EntryLists(fs, root, entries))
  {
    var xss: seq<seq<Occurrence>> := EntryLists(fs, root, entries);
    forall i | 0 <= i < |xss|
      ensures forall k: int :: 0 <= k < |xss[i]| ==>
        && xss[i][k].source == entries[i] && xss[i][k].location == Locate(root, entries[i])
        && xss[i][k].location in fs
    {
      assert xss[i] == EntryLinks(fs, root, entries[i]);
    }
  }

  /** Dropping the first entry of a tagged run leaves a tagged run. */
  lemma TaggedTail(fs: FileSystem, root: Path, entries: seq<string>, xss: seq<seq<Occurrence>>)
    requires IsNormal(root) && |entries| > 0 && Tagged(fs, root, entries, xss)
    ensures Tagged(fs, root, entries[1..], xss[1..])
  {
    forall i: int, k: int | 0 <= i < |xss[1..]| && 0 <= k < |xss[1..][i]|
      ensures xss[1..][i][k].source == entries[1..][i]
      ensures xss[1..][i][k].location == Locate(root, entries[1..][i])
    {
      assert xss[1..][i] == xss[i + 1] && entries[1..][i] == entries[i + 1];
    }
  }

  /** Every occurrence of a tagged run belongs to one of its entries and sits
      at that entry's location, an existing file. */
  lemma {:induction false} JoinShape(fs: FileSystem, root: Path, entries: seq<string>, xss: seq<seq<Occurrence>>)
    requires IsNormal(root) && Tagged(fs, root, entries, xss)
    ensures forall k :: 0 <= k < |Join(xss)| ==>
      && Join(xss)[k].source in entries && Join(xss)[k].location == Locate(root, Join(xss)[k].source)
      && Join(xss)[k].location in fs
    decreases |xss|
  {
    if |xss| > 0 {
      var here := xss[0];
      var rest := Join(xss[1..]);
      TaggedTail(fs, root, entries, xss);
      JoinShape(fs, root, entries[1..], xss[1..]);
      var r := here + rest;
      assert Join(xss) == r;
      forall k | 0 <= k < |r|
        ensures r[k].source in entries && r[k].location == Locate(root, r[k].source) && r[k].location in fs
      {
        if k < |here| {
          assert r[k] == xss[0][k];
        } else {
          assert r[k] == rest[k - |here|];
          assert r[k].source in entries[1..];
        }
      }
    }
  }

  /** The links of several entries, entry by entry. */
  function EntriesLinks(fs: FileSystem, root: Path, entries: seq<string>): (r: seq<Occurrence>)
    requires IsNormal(root)
    ensures forall k :: 0 <= k < |r| ==>
      && r[k].source in entries && r[k].location == Locate(root, r[k].source) && r[k].location in fs
      && IsNormal(r[k].location)
  {
    EntryListsTagged(fs, root, entries);
    JoinShape(fs, root, entries, EntryLists(fs, root, entries));
    Join(EntryLists(fs, root, entries))
  }

  /** Every link the first phase of `validate_all_links` collects, in the
      order the second phase checks them. */
  function Occurrences(fs: FileSystem, root: Path, corpus: seq<string>): (r: seq<Occurrence>)
    requires IsNormal(root)
    ensures Located(r)
    ensures forall k :: 0 <= k < |r| ==>
      r[k].source in corpus && r[k].location == Locate(root, r[k].source) && r[k].location in fs
  {
    EntriesLinks(fs, root, Dedup(corpus))
  }

  /** The occurrences of `os` collected for the entry `e`, in order. */
  function FromEntry(os: seq<Occurrence>, e: string): (r: seq<Occurrence>)
    ensures |r| <= |os|
    ensures forall k :: 0 <= k < |r| ==> r[k].source == e
    decreases |os|
  {
    if |os| == 0 then []
    else (if os[0].source == e then [os[0]] else []) + FromEntry(os[1..], e)
  }

  /** Filtering a concatenation filters both parts. */
  lemma {:induction false} FromEntryAppend(a: seq<Occurrence>, b: seq<Occurrence>, e: string)
    ensures FromEntry(a + b, e) == FromEntry(a, e) + FromEntry(b, e)
    decreases |a|
  {
    if |a| == 0 {
      assert a + b == b;
    } else {
      assert (a + b)[0] == a[0];
      assert (a + b)[1..] == a[1..] + b;
      FromEntryAppend(a[1..], b, e);
    }
  }

  /** Occurrences that all belong to `e` are kept whole. */
  lemma {:induction false} FromEntryAll(os: seq<Occurrence>, e: string)
    requires forall k :: 0 <= k < |os| ==> os[k].source == e
    ensures FromEntry(os, e) == os
    decreases |os|
  {
    if |os| > 0 {
      FromEntryAll(os[1..], e);
      assert os == [os[0]] + os[1..];
    }
  }

  /** Occurrences none of which belong to `e` are all dropped. */
  lemma {:induction false} FromEntryNone(os: seq<Occurrence>, e: string)
    requires forall k :: 0 <= k < |os| ==> os[k].source != e
    ensures FromEntry(os, e) == []
    decreases |os|
  {
    if |os| > 0 {
      FromEntryNone(os[1..], e);
    }
  }

  /** For the first entry of a sourced run of distinct entries, the
      occurrences are exactly its list. */
  lemma JoinFirstEntry(entries: seq<string>, xss: seq<seq<Occurrence>>)
    requires |entries| > 0 && Sourced(entries, xss)
    requires forall i, j :: 0 <= i < j < |entries| ==> entries[i] != entries[j]
    ensures FromEntry(Join(xss), entries[0]) == xss[0]
  {
    var e := entries[0];
    var rest := Join(xss[1..]);
    DistinctTail(entries);
    SourcedTail(entries, xss);
    JoinNotListed(entries[1..], xss[1..], e);
    assert Join(xss) == xss[0] + rest;
    FromEntryAppend(xss[0], rest, e);
    FromEntryAll(xss[0], e);
  }

  /** An entry not in a sourced run has no occurrences there. */
  lemma {:induction false} JoinNotListed(entries: seq<string>, xss: seq<seq<Occurrence>>, e: string)
    requires Sourced(entries, xss) && e !in entries
    ensures FromEntry(Join(xss), e) == []
    decreases |xss|
  {
    if |xss| > 0 {
      SourcedTail(entries, xss);
      JoinNotListed(entries[1..], xss[1..], e);
      assert Join(xss) == xss[0] + Join(xss[1..]);
      FromEntryAppend(xss[0], Join(xss[1..]), e);
      FromEntryNone(xss[0], e);
    }
  }

  /** In a sourced run of distinct entries, the occurrences of the entry at
      index `i` are exactly list `i`. */
  lemma {:induction false} JoinPerEntry(entries: seq<string>, xss: seq<seq<Occurrence>>, i: nat)
    requires Sourced(entries, xss) && i < |entries|
    requires forall i, j :: 0 <= i < j < |entries| ==> entries[i] != entries[j]
    ensures FromEntry(Join(xss), entries[i]) == xss[i]
    decreases i
  {
    if i == 0 {
      JoinFirstEntry(entries, xss);
    } else {
      var e := entries[i];
      DistinctTail(entries);
      SourcedTail(entries, xss);
      JoinPerEntry(entries[1..], xss[1..], i - 1);
      assert entries[1..][i - 1] == e && xss[1..][i - 1] == xss[i];
      assert Join(xss) == xss[0] + Join(xss[1..]);
      FromEntryAppend(xss[0], Join(xss[1..]), e);
      assert entries[0] != e;
      FromEntryNone(xss[0], e);
    }
  }

  /** Over distinct entries, the occurrences collected for `e` are exactly
      the links of `e` when it is listed, and none otherwise. */
  lemma EntriesPerEntry(fs: FileSystem, root: Path, entries: seq<string>, e: string)
    requires IsNormal(root)
    requires forall i, j :: 0 <= i < j < |entries| ==> entries[i] != entries[j]
    ensures FromEntry(EntriesLinks(fs, root, entries), e) == if e in entries then EntryLinks(fs, root, e) else []
  {
    var xss := EntryLists(fs, root, entries);
    EntryListsTagged(fs, root, entries);
    assert EntriesLinks(fs, root, entries) == Join(xss);
    if e in entries {
      var i := FirstIndex(entries, e);
      JoinPerEntry(entries, xss, i);
      assert xss[i] == EntryLinks(fs, root, e);
    } else {
      JoinNotListed(entries, xss, e);
    }
  }

  /** The keys of the link table are distinct. */
  lemma DedupDistinct(corpus: seq<string>)
    ensures forall i, j :: 0 <= i < j < |Dedup(corpus)| ==> Dedup(corpus)[i] != Dedup(corpus)[j]
  {
    var d := Dedup(corpus);
    forall i, j | 0 <= i < j < |d|
      ensures d[i] != d[j]
    {
      assert FirstIndex(corpus, d[i]) < FirstIndex(corpus, d[j]);
    }
  }

  /** Every listed entry contributes exactly its own links, and an unlisted
      one contributes none. */
  lemma OccurrencesPerEntry(fs: FileSystem, root: Path, corpus: seq<string>, e: string)
    requires IsNormal(root)
    ensures FromEntry(Occurrences(fs, root, corpus), e) == if e in corpus then EntryLinks(fs, root, e) else []
  {
    DedupDistinct(corpus);
    EntriesPerEntry(fs, root, Dedup(corpus), e);
  }

  /** A broken-link record. */
  datatype BrokenLink = BrokenLink(source: string, line: nat, text: string, target: string, category: Category, error: Error)

  /** The record kept for an occurrence that fails with `e`. */
  function Record(o: Occurrence, e: Error): BrokenLink {
    BrokenLink(o.source, o.line, o.text, o.target, Classify(o.target), e)
  }

  /** The verdict on one occurrence. */
  function Check(fs: FileSystem, o: Occurrence): Verdict
    requires IsNormal(o.location)
  {
    Validate(fs, o.location, o.target)
  }

  /** The verdict on each occurrence. */
  function Verdicts(fs: FileSystem, os: seq<Occurrence>): (vs: seq<Verdict>)
    requires Located(os)
    ensures |vs| == |os|
    ensures forall k :: 0 <= k < |os| ==> vs[k] == Check(fs, os[k])
  {
    seq(|os|, k requires 0 <= k < |os| => Check(fs, os[k]))
  }

  /** The broken-link list after checking `os` in order, `vs` holding their
      verdicts. */
  function Broken(os: seq<Occurrence>, vs: seq<Verdict>): seq<BrokenLink>
    requires |vs| == |os|
    decreases |os|
  {
    if |os| == 0 then []
    else
      var init := Broken(os[..|os| - 1], vs[..|vs| - 1]);
      match vs[|vs| - 1]
      case Valid => init
      case Invalid(e) => init + [Record(os[|os| - 1], e)]
  }

  /** The broken-link list `validate_all_links` builds from `os`. */
  function BrokenOf(fs: FileSystem, os: seq<Occurrence>): seq<BrokenLink>
    requires Located(os)
  {
    Broken(os, Verdicts(fs, os))
  }

  /** How many of `os` fall in category `c`. */
  function CountOf(os: seq<Occurrence>, c: Category): nat
    decreases |os|
  {
    if |os| == 0 then 0
    else CountOf(os[..|os| - 1], c) + (if Classify(os[|os| - 1].target) == c then 1 else 0)
  }

  /** How many broken links have category `c` (the three lines under
      "Total broken links"). */
  function BrokenCount(bs: seq<BrokenLink>, c: Category): nat
    decreases |bs|
  {
    if |bs| == 0 then 0
    else BrokenCount(bs[..|bs| - 1], c) + (if bs[|bs| - 1].category == c then 1 else 0)
  }

  /** The counters and the broken list `validate_all_links` ends with. */
  datatype Summary = Summary(total: nat, fileLinks: nat, anchorLinks: nat, externalLinks: nat, broken: seq<BrokenLink>)

  /** Every link falls in exactly one category, so the three counters add up
      to the total. */
  lemma {:induction false} CategoryCountsSum(os: seq<Occurrence>)
    ensures CountOf(os, File) + CountOf(os, Anchor) + CountOf(os, External) == |os|
    decreases |os|
  {
    if |os| > 0 {
      CategoryCountsSum(os[..|os| - 1]);
    }
  }

  /** The three broken-link lines add up to the number of broken links. */
  lemma {:induction false} BrokenCountsSum(bs: seq<BrokenLink>)
    ensures BrokenCount(bs, File) + BrokenCount(bs, Anchor) + BrokenCount(bs, External) == |bs|
    decreases |bs|
  {
    if |bs| > 0 {
      BrokenCountsSum(bs[..|bs| - 1]);
    }
  }

  /** Verdicts never flag a link as a malformed URL, and external links are
      always valid. */
  predicate NoExternalBroken(os: seq<Occurrence>, vs: seq<Verdict>)
    requires |vs| == |os|
  {
    forall k :: 0 <= k < |os| ==>
      vs[k] != Invalid(MalformedUrl) && (Classify(os[k].target) == External ==> vs[k] == Valid)
  }

  /** The validator's verdicts have that shape. */
  lemma VerdictsNoExternalBroken(fs: FileSystem, os: seq<Occurrence>)
    requires Located(os)
    ensures NoExternalBroken(os, Verdicts(fs, os))
  {
    forall k | 0 <= k < |os| {
      ExternalNeverBroken(fs, os[k].location, os[k].target);
    }
  }

  /** Checking two runs of links one after the other concatenates their
      broken lists. */
  lemma {:induction false} BrokenAppend(xs: seq<Occurrence>, xv: seq<Verdict>, ys: seq<Occurrence>, yv: seq<Verdict>)
    requires |xv| == |xs| && |yv| == |ys|
    ensures Broken(xs + ys, xv + yv) == Broken(xs, xv) + Broken(ys, yv)
    decreases |ys|
  {
    if |ys| == 0 {
      assert xs + ys == xs && xv + yv == xv;
    } else {
      assert (xs + ys)[..|xs + ys| - 1] == xs + ys[..|ys| - 1];
      assert (xv + yv)[..|xv + yv| - 1] == xv + yv[..|yv| - 1];
      BrokenAppend(xs, xv, ys[..|ys| - 1], yv[..|yv| - 1]);
    }
  }

  /** One link is reported exactly when its verdict is invalid, with that
      verdict's error. */
  lemma BrokenOne(o: Occurrence, v: Verdict)
    ensures Broken([o], [v]) == if v.Valid? then [] else [Record(o, v.error)]
  {
    assert [o][..0] == [] && [v][..0] == [];
  }

  /** The broken list holds exactly the invalid links: each record comes
      from an invalid link with the same error, and each invalid link is
      recorded; it is never longer than the list of links. */
  lemma {:induction false} BrokenSpec(os: seq<Occurrence>, vs: seq<Verdict>)
    requires |vs| == |os|
    ensures |Broken(os, vs)| <= |os|
    ensures forall b :: b in Broken(os, vs) ==>
      exists k :: 0 <= k < |os| && vs[k] == Invalid(b.error) && b == Record(os[k], b.error)
    ensures forall k :: 0 <= k < |os| && vs[k].Invalid? ==> Record(os[k], vs[k].error) in Broken(os, vs)
    decreases |os|
  {
    if |os| > 0 {
      var n := |os| - 1;
      var init, initV := os[..n], vs[..n];
      BrokenSpec(init, initV);
      forall b | b in Broken(os, vs)
        ensures exists k :: 0 <= k < |os| && vs[k] == Invalid(b.error) && b == Record(os[k], b.error)
      {
        if b in Broken(init, initV) {
          var k :| 0 <= k < n && initV[k] == Invalid(b.error) && b == Record(init[k], b.error);
          assert os[k] == init[k] && vs[k] == initV[k];
        } else {
          assert vs[n] == Invalid(b.error) && b == Record(os[n], b.error);
        }
      }
      forall k | 0 <= k < |os| && vs[k].Invalid?
        ensures Record(os[k], vs[k].error) in Broken(os, vs)
      {
        if k < n {
          assert os[k] == init[k] && vs[k] == initV[k];
        }
      }
    }
  }

  /** With such verdicts no broken record is external or a malformed URL. */
  lemma BrokenNeverExternal(os: seq<Occurrence>, vs: seq<Verdict>)
    requires |vs| == |os| && NoExternalBroken(os, vs)
    ensures forall b :: b in Broken(os, vs) ==> b.category != External && b.error != MalformedUrl
  {
    BrokenSpec(os, vs);
  }

  /** A category never has more broken links than links, and with such
      verdicts no external link is broken. */
  lemma {:induction false} BrokenCountBounded(os: seq<Occurrence>, vs: seq<Verdict>, c: Category)
    requires |vs| == |os|
    ensures BrokenCount(Broken(os, vs), c) <= CountOf(os, c)
    ensures NoExternalBroken(os, vs) ==> BrokenCount(Broken(os, vs), External) == 0
    decreases |os|
  {
    if |os| > 0 {
      var n := |os| - 1;
      assert NoExternalBroken(os, vs) ==> NoExternalBroken(os[..n], vs[..n]);
      BrokenCountBounded(os[..n], vs[..n], c);
      var bs := Broken(os, vs);
      if |bs| > |Broken(os[..n], vs[..n])| {
        assert bs[..|bs| - 1] == Broken(os[..n], vs[..n]);
      }
    }
  }

  /** The validator's broken list holds exactly its invalid links, each with
      its verdict's error, and never an external one. */
  lemma BrokenOfSpec(fs: FileSystem, os: seq<Occurrence>)
    requires Located(os)
    ensures |BrokenOf(fs, os)| <= |os|
    ensures forall b :: b in BrokenOf(fs, os) ==>
      exists k :: 0 <= k < |os| && Check(fs, os[k]) == Invalid(b.error) && b == Record(os[k], b.error)
    ensures forall k :: 0 <= k < |os| && Check(fs, os[k]).Invalid? ==>
      Record(os[k], Check(fs, os[k]).error) in BrokenOf(fs, os)
    ensures forall b :: b in BrokenOf(fs, os) ==> b.category != External && b.error != MalformedUrl
  {
    var vs := Verdicts(fs, os);
    BrokenSpec(os, vs);
    VerdictsNoExternalBroken(fs, os);
    BrokenNeverExternal(os, vs);
  }

  /** The broken list keeps the checking order: the links of a later run
      come after those of an earlier one. */
  lemma BrokenOfAppend(fs: FileSystem, xs: seq<Occurrence>, ys: seq<Occurrence>)
    requires Located(xs) && Located(ys)
    ensures Located(xs + ys)
    ensures BrokenOf(fs, xs + ys) == BrokenOf(fs, xs) + BrokenOf(fs, ys)
  {
    LocatedAppend(xs, ys);
    VerdictsAppend(fs, xs, ys);
    BrokenAppend(xs, Verdicts(fs, xs), ys, Verdicts(fs, ys));
  }

  /** Two runs of located links make a run of located links. */
  lemma LocatedAppend(xs: seq<Occurrence>, ys: seq<Occurrence>)
    requires Located(xs) && Located(ys)
    ensures Located(xs + ys)
  {
    var zs := xs + ys;
    forall k | 0 <= k < |zs| ensures IsNormal(zs[k].location) {
      assert zs[k] == if k < |xs| then xs[k] else ys[k - |xs|];
    }
  }

  /** The verdicts on a slice are the slice of the verdicts. */
  lemma VerdictsSlice(fs: FileSystem, os: seq<Occurrence>, i: nat, j: nat)
    requires Located(os) && i <= j <= |os|
    ensures Located(os[i..j])
    ensures Verdicts(fs, os)[i..j] == Verdicts(fs, os[i..j])
  {
    var vs := Verdicts(fs, os);
    var ws := Verdicts(fs, os[i..j]);
    forall k | 0 <= k < j - i
      ensures vs[i..j][k] == ws[k]
    {
      assert os[i..j][k] == os[i + k];
    }
  }

  /** The verdicts on two runs are those of each run, in order. */
  lemma VerdictsAppend(fs: FileSystem, xs: seq<Occurrence>, ys: seq<Occurrence>)
    requires Located(xs) && Located(ys) && Located(xs + ys)
    ensures Verdicts(fs, xs + ys) == Verdicts(fs, xs) + Verdicts(fs, ys)
  {
    var zs := xs + ys;
    assert zs[..|xs|] == xs && zs[|xs|..] == ys;
    VerdictsSlice(fs, zs, 0, |xs|);
    VerdictsSlice(fs, zs, |xs|, |zs|);
    assert Verdicts(fs, zs) == Verdicts(fs, zs)[..|xs|] + Verdicts(fs, zs)[|xs|..];
  }

  /** The facts the summary states about the whole run of links. */
  lemma SummaryFacts(fs: FileSystem, os: seq<Occurrence>)
    requires Located(os)
    ensures CountOf(os, File) + CountOf(os, Anchor) + CountOf(os, External) == |os|
    ensures |BrokenOf(fs, os)| <= |os|
    ensures BrokenCount(BrokenOf(fs, os), External) == 0
  {
    var vs := Verdicts(fs, os);
    CategoryCountsSum(os);
    BrokenSpec(os, vs);
    VerdictsNoExternalBroken(fs, os);
    BrokenCountBounded(os, vs, External);
  }

  /** Counting one more link. */
  lemma CountStep(os: seq<Occurrence>, i: nat, c: Category)
    requires i < |os|
    ensures CountOf(os[..i + 1], c) == CountOf(os[..i], c) + if Classify(os[i].target) == c then 1 else 0
  {
    assert os[..i + 1][..i] == os[..i];
  }

  /** Checking one more link. */
  lemma BrokenStep(os: seq<Occurrence>, vs: seq<Verdict>, i: nat)
    requires |vs| == |os| && i < |os|
    ensures Broken(os[..i + 1], vs[..i + 1]) ==
      Broken(os[..i], vs[..i]) + if vs[i].Valid? then [] else [Record(os[i], vs[i].error)]
  {
    assert os[..i + 1][..i] == os[..i];
    assert vs[..i + 1][..i] == vs[..i];
  }

  /** `validate_all_links` without its printing: counts every collected
      link by category and records the invalid ones in order. */
  method ValidateAll(fs: FileSystem, root: Path, corpus: seq<string>) returns (s: Summary)
    requires IsNormal(root)
    ensures var os := Occurrences(fs, root, corpus);
      && s.total == |os| == s.fileLinks + s.anchorLinks + s.externalLinks
      && s.fileLinks == CountOf(os, File)
      && s.anchorLinks == CountOf(os, Anchor)
      && s.externalLinks == CountOf(os, External)
      && s.broken == BrokenOf(fs, os)
      && |s.broken| <= s.total
      && BrokenCount(s.broken, External) == 0
  {
    var os := Occurrences(fs, root, corpus);
    var total, fileLinks, anchorLinks, externalLinks := 0, 0, 0, 0;
    ghost var vs := Verdicts(fs, os);
    var broken := [];
    var i := 0;
    while i < |os|
      invariant 0 <= i <= |os|
      invariant total == i
      invariant fileLinks == CountOf(os[..i], File)
      invariant anchorLinks == CountOf(os[..i], Anchor)
      invariant externalLinks == CountOf(os[..i], External)
      invariant broken == Broken(os[..i], vs[..i])
    {
      var o := os[i];
      CountStep(os, i, File);
      CountStep(os, i, Anchor);
      CountStep(os, i, External);
      BrokenStep(os, vs, i);
      total := total + 1;
      var category := Classify(o.target);
      if category == External {
        externalLinks := externalLinks + 1;
      } else if category == Anchor {
        anchorLinks := anchorLinks + 1;
      } else {
        fileLinks := fileLinks + 1;
      }
      var verdict := Check(fs, o);
      if verdict.Invalid? {
        broken := broken + [Record(o, verdict.error)];
      }
      i := i + 1;
    }
    assert os[..i] == os && vs[..i] == vs;
    SummaryFacts(fs, os);
    s := Summary(total, fileLinks, anchorLinks, externalLinks, broken);
  }
}
