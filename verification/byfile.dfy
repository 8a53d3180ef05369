/**
  The grouping of `print_file_summary`: broken links collected per source
  entry in a `defaultdict(list)`, the entries then listed in `sorted` order.
  The groups are built one broken link at a time, keeping the list of groups
  sorted by source.
 */
module ByFile {
  import opened LinkReport
  import StringOrder

  /** The broken links of one source entry, in report order. */
  datatype FileGroup = FileGroup(source: string, links: seq<BrokenLink>)

  /** Sources strictly increase along the groups. */
  predicate Sorted(gs: seq<FileGroup>) {
    forall i, j :: 0 <= i < j < |gs| ==> StringOrder.Less(gs[i].source, gs[j].source)
  }

  /** Every source of `gs` lies above `key`. */
  predicate Above(key: string, gs: seq<FileGroup>) {
    forall i :: 0 <= i < |gs| ==> StringOrder.Less(key, gs[i].source)
  }

  /** The sources listed. */
  function Sources(gs: seq<FileGroup>): set<string>
    decreases |gs|
  {
    if |gs| == 0 then {} else {gs[0].source} + Sources(gs[1..])
  }

  /** The sources of a broken-link list. */
  function SourcesOf(bs: seq<BrokenLink>): set<string>
    decreases |bs|
  {
    if |bs| == 0 then {} else SourcesOf(bs[..|bs| - 1]) + {bs[|bs| - 1].source}
  }

  /** The links listed under `source`, or none when it has no group. */
  function LinksOf(gs: seq<FileGroup>, source: string): seq<BrokenLink>
    decreases |gs|
  {
    if |gs| == 0 then []
    else if gs[0].source == source then gs[0].links
    else LinksOf(gs[1..], source)
  }

  /** How many links the groups hold together. */
  function Size(gs: seq<FileGroup>): nat
    decreases |gs|
  {
    if |gs| == 0 then 0 else |gs[0].links| + Size(gs[1..])
  }

  /** The broken links of `source`, in order. */
  function FromSource(bs: seq<BrokenLink>, source: string): seq<BrokenLink>
    decreases |bs|
  {
    if |bs| == 0 then []
    else FromSource(bs[..|bs| - 1], source) + if bs[|bs| - 1].source == source then [bs[|bs| - 1]] else []
  }

  /** Appending `b` to its source's group, or opening a group for it at its
      sorted place. */
  function Add(gs: seq<FileGroup>, b: BrokenLink): seq<FileGroup>
    decreases |gs|
  {
    if |gs| == 0 then [FileGroup(b.source, [b])]
    else if gs[0].source == b.source then [FileGroup(b.source, gs[0].links + [b])] + gs[1..]
    else if StringOrder.Less(b.source, gs[0].source) then [FileGroup(b.source, [b])] + gs
    else [gs[0]] + Add(gs[1..], b)
  }

  /** The groups of a broken-link list. */
  function GroupByFile(bs: seq<BrokenLink>): seq<FileGroup>
    decreases |bs|
  {
    if |bs| == 0 then [] else Add(GroupByFile(bs[..|bs| - 1]), bs[|bs| - 1])
  }

  /** A key below the first source of a sorted list is below them all. */
  lemma AboveFromFirst(key: string, gs: seq<FileGroup>)
    requires Sorted(gs) && |gs| > 0 && StringOrder.Less(key, gs[0].source)
    ensures Above(key, gs)
  {
    forall i | 0 < i < |gs| ensures StringOrder.Less(key, gs[i].source) {
      StringOrder.LessTransitive(key, gs[0].source, gs[i].source);
    }
  }

  /** A key below every source has no group. */
  lemma {:induction false} AboveHasNoLinks(key: string, gs: seq<FileGroup>)
    requires Above(key, gs)
    ensures LinksOf(gs, key) == []
    decreases |gs|
  {
    if |gs| > 0 {
      StringOrder.LessIrreflexive(key);
      AboveHasNoLinks(key, gs[1..]);
    }
  }

  /** Adding keeps the sources sorted, and a key below every old source and
      below the new link's source stays below every source. */
  lemma {:induction false} AddSorted(gs: seq<FileGroup>, b: BrokenLink, key: string)
    requires Sorted(gs)
    ensures Sorted(Add(gs, b))
    ensures Above(key, gs) && StringOrder.Less(key, b.source) ==> Above(key, Add(gs, b))
    decreases |gs|
  {
    if |gs| == 0 {
    } else if gs[0].source == b.source {
    } else if StringOrder.Less(b.source, gs[0].source) {
      AboveFromFirst(b.source, gs);
    } else {
      StringOrder.LessTotal(b.source, gs[0].source);
      var first := gs[0].source;
      assert Above(first, gs[1..]);
      AddSorted(gs[1..], b, first);
      AddSorted(gs[1..], b, key);
    }
  }

  /** Adding `b` appends it to its source's links and changes nothing else. */
  lemma {:induction false} AddLinks(gs: seq<FileGroup>, b: BrokenLink, source: string)
    requires Sorted(gs)
    ensures LinksOf(Add(gs, b), source) == LinksOf(gs, source) + if source == b.source then [b] else []
    decreases |gs|
  {
    if |gs| == 0 {
    } else if gs[0].source == b.source {
    } else if StringOrder.Less(b.source, gs[0].source) {
      if source == b.source {
        AboveFromFirst(b.source, gs);
        AboveHasNoLinks(b.source, gs);
      }
    } else {
      AddLinks(gs[1..], b, source);
    }
  }

  /** Adding one link grows the groups by one link, opens no empty group, and
      adds exactly its source. */
  lemma {:induction false} AddShape(gs: seq<FileGroup>, b: BrokenLink)
    requires forall i :: 0 <= i < |gs| ==> |gs[i].links| > 0
    ensures Size(Add(gs, b)) == Size(gs) + 1
    ensures forall i :: 0 <= i < |Add(gs, b)| ==> |Add(gs, b)[i].links| > 0
    ensures Sources(Add(gs, b)) == Sources(gs) + {b.source}
    decreases |gs|
  {
    var r := Add(gs, b);
    if |gs| == 0 {
    } else if gs[0].source == b.source {
      assert r[1..] == gs[1..];
      assert forall i :: 0 < i < |r| ==> r[i] == gs[i];
    } else if StringOrder.Less(b.source, gs[0].source) {
      assert r[1..] == gs;
    } else {
      AddShape(gs[1..], b);
      assert r[1..] == Add(gs[1..], b);
    }
  }

  /** The grouping of `print_file_summary`: the groups come in sorted order
      of source, one for each source with broken links, none empty; each
      lists exactly its source's broken links in report order; together they
      hold every broken link once. */
  lemma {:induction false} GroupByFileSpec(bs: seq<BrokenLink>)
    ensures Sorted(GroupByFile(bs))
    ensures forall source :: LinksOf(GroupByFile(bs), source) == FromSource(bs, source)
    ensures forall i :: 0 <= i < |GroupByFile(bs)| ==> |GroupByFile(bs)[i].links| > 0
    ensures Sources(GroupByFile(bs)) == SourcesOf(bs)
    ensures Size(GroupByFile(bs)) == |bs|
    decreases |bs|
  {
    if |bs| > 0 {
      var init := bs[..|bs| - 1];
      var b := bs[|bs| - 1];
      var gs := GroupByFile(init);
      GroupByFileSpec(init);
      AddSorted(gs, b, b.source);
      forall source ensures LinksOf(GroupByFile(bs), source) == FromSource(bs, source) {
        AddLinks(gs, b, source);
      }
      AddShape(gs, b);
    }
  }

  /** A source's list holds broken links of that source only, and is
      non-empty exactly when the source has a broken link. */
  lemma {:induction false} FromSourceSpec(bs: seq<BrokenLink>, source: string)
    ensures forall b :: b in FromSource(bs, source) ==> b in bs && b.source == source
    ensures |FromSource(bs, source)| > 0 <==> source in SourcesOf(bs)
    decreases |bs|
  {
    if |bs| > 0 {
      var init := bs[..|bs| - 1];
      FromSourceSpec(init, source);
      assert forall b :: b in init ==> b in bs;
    }
  }
}
