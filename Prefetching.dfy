/** The manager as the table view's prefetching data source: each path that resolves to a cell
    item is passed on to that item, unresolved paths are skipped, and the model is left alone. */
module Prefetching {
  import opened Foundation
  import opened CellItems
  import opened Manager

  /** A call made on a cell item: begin preparing, or stop preparing, the data of a row. */
  datatype PrefetchCall =
    | PrefetchData(item: CellItem, path: IndexPath)
    | CancelPrefetchingData(item: CellItem, path: IndexPath)

  /** The paths that resolve to a cell item, in their original order. */
  function ResolvedPaths(m: TableViewManager, paths: seq<IndexPath>): (r: seq<IndexPath>)
    reads m, m.sectionItems
    ensures |r| <= |paths|
    ensures forall k :: 0 <= k < |r| ==> m.CellItemAt(r[k]).Some?
    decreases |paths|
  {
    if paths == [] then []
    else
      var last := paths[|paths| - 1];
      var front := ResolvedPaths(m, paths[..|paths| - 1]);
      if m.CellItemAt(last).Some? then front + [last] else front
  }

  /** One more path resolves to one more path, or to none. */
  lemma ResolvedStep(m: TableViewManager, paths: seq<IndexPath>, i: nat)
    requires i < |paths|
    ensures ResolvedPaths(m, paths[..i + 1]) ==
      ResolvedPaths(m, paths[..i]) + (if m.CellItemAt(paths[i]).Some? then [paths[i]] else [])
  {
    PrefixStep(paths, i);
  }

  /** The items the resolved paths lead to. */
  function ItemsAt(m: TableViewManager, found: seq<IndexPath>): (r: seq<CellItem>)
    reads m, m.sectionItems
    requires forall k :: 0 <= k < |found| ==> m.CellItemAt(found[k]).Some?
    ensures |r| == |found| && forall k :: 0 <= k < |found| ==> r[k] == m.CellItemAt(found[k]).value
  {
    seq(|found|, k reads m, m.sectionItems requires 0 <= k < |found| && m.CellItemAt(found[k]).Some? =>
      m.CellItemAt(found[k]).value)
  }

  lemma ItemsAtAppend(m: TableViewManager, found: seq<IndexPath>, p: IndexPath)
    requires forall k :: 0 <= k < |found| ==> m.CellItemAt(found[k]).Some?
    requires m.CellItemAt(p).Some?
    ensures ItemsAt(m, found + [p]) == ItemsAt(m, found) + [m.CellItemAt(p).value]
  {
    assert forall k :: 0 <= k < |found| ==> (found + [p])[k] == found[k];
  }

  /** Each resolved path handed to the item it leads to: a prefetch, or a cancellation. */
  function OwnPathCalls(m: TableViewManager, found: seq<IndexPath>, cancel: bool): (r: seq<PrefetchCall>)
    reads m, m.sectionItems
    requires forall k :: 0 <= k < |found| ==> m.CellItemAt(found[k]).Some?
    ensures |r| == |found|
    ensures forall k :: 0 <= k < |found| ==> r[k].path == found[k] && r[k].item == m.CellItemAt(found[k]).value
    ensures forall k :: 0 <= k < |found| ==> (r[k].CancelPrefetchingData? <==> cancel)
  {
    seq(|found|, k reads m, m.sectionItems requires 0 <= k < |found| && m.CellItemAt(found[k]).Some? =>
      if cancel then CancelPrefetchingData(m.CellItemAt(found[k]).value, found[k])
      else PrefetchData(m.CellItemAt(found[k]).value, found[k]))
  }

  lemma OwnPathCallsAppend(m: TableViewManager, found: seq<IndexPath>, p: IndexPath, cancel: bool)
    requires forall k :: 0 <= k < |found| ==> m.CellItemAt(found[k]).Some?
    requires m.CellItemAt(p).Some?
    ensures OwnPathCalls(m, found + [p], cancel) == OwnPathCalls(m, found, cancel) +
      [if cancel then CancelPrefetchingData(m.CellItemAt(p).value, p) else PrefetchData(m.CellItemAt(p).value, p)]
  {
    assert forall k :: 0 <= k < |found| ==> (found + [p])[k] == found[k];
  }

  /** The items the given paths resolve to, in order. */
  function Gathered(m: TableViewManager, paths: seq<IndexPath>): seq<CellItem>
    reads m, m.sectionItems
  {
    ItemsAt(m, ResolvedPaths(m, paths))
  }

  /** One more path adds its item to the gathered items when it resolves, and nothing otherwise. */
  lemma ItemsStep(m: TableViewManager, paths: seq<IndexPath>, i: nat)
    requires i < |paths|
    ensures Gathered(m, paths[..i + 1]) == Gathered(m, paths[..i]) +
      (if m.CellItemAt(paths[i]).Some? then [m.CellItemAt(paths[i]).value] else [])
  {
    ResolvedStep(m, paths, i);
    if m.CellItemAt(paths[i]).Some? {
      ItemsAtAppend(m, ResolvedPaths(m, paths[..i]), paths[i]);
    }
  }

  /** One more path adds its own call when it resolves, and nothing otherwise. */
  lemma CallsStep(m: TableViewManager, paths: seq<IndexPath>, i: nat, cancel: bool)
    requires i < |paths|
    ensures OwnPathCalls(m, ResolvedPaths(m, paths[..i + 1]), cancel) ==
      OwnPathCalls(m, ResolvedPaths(m, paths[..i]), cancel) +
      (if m.CellItemAt(paths[i]).None? then []
       else if cancel then [CancelPrefetchingData(m.CellItemAt(paths[i]).value, paths[i])]
       else [PrefetchData(m.CellItemAt(paths[i]).value, paths[i])])
  {
    ResolvedStep(m, paths, i);
    if m.CellItemAt(paths[i]).Some? {
      OwnPathCallsAppend(m, ResolvedPaths(m, paths[..i]), paths[i], cancel);
    }
  }

  /** Resolving a prefix of the paths gives a prefix of what resolving all of them gives. */
  lemma {:induction false} ResolvedPrefix(m: TableViewManager, paths: seq<IndexPath>, n: nat)
    requires n <= |paths|
    ensures |ResolvedPaths(m, paths[..n])| <= |ResolvedPaths(m, paths)|
    ensures ResolvedPaths(m, paths[..n]) == ResolvedPaths(m, paths)[..|ResolvedPaths(m, paths[..n])|]
    decreases |paths| - n
  {
    if n == |paths| {
      PrefixWhole(paths);
    } else {
      var init := paths[..|paths| - 1];
      assert init[..n] == paths[..n];
      ResolvedPrefix(m, init, n);
    }
  }

  /** Where every path resolves, nothing is skipped. */
  lemma {:induction false} AllResolvedKept(m: TableViewManager, paths: seq<IndexPath>)
    requires forall k :: 0 <= k < |paths| ==> m.CellItemAt(paths[k]).Some?
    ensures ResolvedPaths(m, paths) == paths
    decreases |paths|
  {
    if paths != [] {
      AllResolvedKept(m, paths[..|paths| - 1]);
    }
  }

  /** While no earlier path has failed to resolve, the k-th resolved path is the k-th path. */
  lemma AlignedWhilePrefixResolves(m: TableViewManager, paths: seq<IndexPath>, k: nat)
    requires k < |paths| && forall j :: 0 <= j <= k ==> m.CellItemAt(paths[j]).Some?
    ensures k < |ResolvedPaths(m, paths)| && ResolvedPaths(m, paths)[k] == paths[k]
  {
    var pre := paths[..k + 1];
    AllResolvedKept(m, pre);
    ResolvedPrefix(m, paths, k + 1);
  }

  /** The first loop of `prefetchRowsAt`: the items the paths resolve to, in order. */
  method GatherResolved(m: TableViewManager, paths: seq<IndexPath>) returns (cellItems: seq<CellItem>)
    ensures cellItems == ItemsAt(m, ResolvedPaths(m, paths))
  {
    cellItems := [];
    for i := 0 to |paths|
      invariant cellItems == Gathered(m, paths[..i])
    {
      ItemsStep(m, paths, i);
      var item := m.CellItemAt(paths[i]);
      if item.Some? {
        cellItems := cellItems + [item.value];
      }
    }
    PrefixWhole(paths);
  }

  /** `prefetchRowsAt` as written: it gathers the resolved items, then hands the k-th of them the
      k-th path given, resolved or not. */
  method PrefetchRowsAt(m: TableViewManager, paths: seq<IndexPath>) returns (calls: seq<PrefetchCall>)
    ensures |calls| == |ResolvedPaths(m, paths)|
    ensures forall k :: 0 <= k < |calls| ==>
      calls[k] == PrefetchData(m.CellItemAt(ResolvedPaths(m, paths)[k]).value, paths[k])
  {
    var cellItems := GatherResolved(m, paths);
    calls := [];
    for k := 0 to |cellItems|
      invariant |calls| == k
      invariant forall j :: 0 <= j < k ==> calls[j] == PrefetchData(cellItems[j], paths[j])
    {
      calls := calls + [PrefetchData(cellItems[k], paths[k])];
    }
  }

  /** `prefetchRowsAt` handing each resolved item the path it was resolved from. */
  method PrefetchRowsAtIntended(m: TableViewManager, paths: seq<IndexPath>) returns (calls: seq<PrefetchCall>)
    ensures calls == OwnPathCalls(m, ResolvedPaths(m, paths), false)
  {
    calls := [];
    for i := 0 to |paths|
      invariant calls == OwnPathCalls(m, ResolvedPaths(m, paths[..i]), false)
    {
      CallsStep(m, paths, i, false);
      var item := m.CellItemAt(paths[i]);
      if item.Some? {
        calls := calls + [PrefetchData(item.value, paths[i])];
      }
    }
    PrefixWhole(paths);
  }

  /** Where every path resolves, the code as written hands every item its own path. */
  lemma PrefetchAlignedWhenAllResolve(m: TableViewManager, paths: seq<IndexPath>, k: nat)
    requires forall j :: 0 <= j < |paths| ==> m.CellItemAt(paths[j]).Some?
    requires k < |ResolvedPaths(m, paths)|
    ensures ResolvedPaths(m, paths)[k] == paths[k]
  {
    AllResolvedKept(m, paths);
  }

  /** One managed row and a request for a missing row and then that row: as written, the item is
      handed the missing row's path, which does not lead back to it. */
  lemma PrefetchMisaligned(m: TableViewManager)
    requires |m.sectionItems| > 0 && |m.sectionItems[0].cellItems| > 0
    ensures var missing := IndexPath(|m.sectionItems[0].cellItems|, 0);
      && ResolvedPaths(m, [missing, IndexPath(0, 0)]) == [IndexPath(0, 0)]
      && m.CellItemAt(missing).None?
  {
    var missing := IndexPath(|m.sectionItems[0].cellItems|, 0);
    var paths := [missing, IndexPath(0, 0)];
    assert paths[..1] == [missing] && [missing][..0] == [];
    assert ResolvedPaths(m, [missing]) == [];
  }

  /** `cancelPrefetchingForRowsAt`: each resolved item is told its own path; the others are
      skipped. */
  method CancelPrefetchingForRowsAt(m: TableViewManager, paths: seq<IndexPath>) returns (calls: seq<PrefetchCall>)
    ensures calls == OwnPathCalls(m, ResolvedPaths(m, paths), true)
  {
    calls := [];
    for i := 0 to |paths|
      invariant calls == OwnPathCalls(m, ResolvedPaths(m, paths[..i]), true)
    {
      CallsStep(m, paths, i, true);
      match m.CellItemAt(paths[i])
      case None =>
      case Some(item) =>
        calls := calls + [CancelPrefetchingData(item, paths[i])];
    }
    PrefixWhole(paths);
  }
}
