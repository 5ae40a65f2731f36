/** `TableViewManager`: it owns the ordered section objects, answers the table view from them and
    mediates every change between the model and the table view. Each mutator registers reuse types,
    opens a batch, splices the model, sends the matching delta and closes the batch. */
module Manager {
  import opened Foundation
  import opened TableView
  import opened ViewBelief
  import opened CellItems
  import opened SectionItems
  import opened ArrayAdditions

  /** The optional manager delegate: section index titles, the moved-row notification and the move
      target. Without one the manager answers with its own fallbacks. */
  datatype ManagerDelegate = ManagerDelegate(
    sectionIndexTitles: Option<seq<string>>,
    sectionForSectionIndexTitle: (string, nat) -> nat,
    moveRow: Handler,
    targetIndexPathForMove: (IndexPath, IndexPath) -> IndexPath)

  /** The row count of every section, in order. */
  function CountsOf(secs: seq<SectionItem>): (r: seq<nat>)
    reads secs
    ensures |r| == |secs|
    ensures forall i :: 0 <= i < |secs| ==> r[i] == |secs[i].cellItems|
  {
    if secs == [] then [] else CountsOf(secs[..|secs| - 1]) + [|secs[|secs| - 1].cellItems|]
  }

  /** What `registerCellItem` sends for each item in turn. */
  function Registrations(items: seq<CellItem>): (r: seq<Event>)
    ensures forall k :: 0 <= k < |r| ==> IsRegistration(r[k])
  {
    if items == [] then []
    else
      var front := Registrations(items[..|items| - 1]);
      var last := Registration(items[|items| - 1].reuseType);
      assert forall k :: 0 <= k < |last| ==> last[k] in last;
      front + last
  }

  /** The cell items of each section, in order. */
  function CellsOf(secs: seq<SectionItem>): (r: seq<seq<CellItem>>)
    reads secs
    ensures |r| == |secs| && forall i :: 0 <= i < |secs| ==> r[i] == secs[i].cellItems
  {
    seq(|secs|, i reads secs requires 0 <= i < |secs| => secs[i].cellItems)
  }

  /** What `registerSectionItem` sends for each group of cell items in turn. */
  function GroupRegistrations(groups: seq<seq<CellItem>>): (r: seq<Event>)
    ensures forall k :: 0 <= k < |r| ==> IsRegistration(r[k])
  {
    if groups == [] then []
    else GroupRegistrations(groups[..|groups| - 1]) + Registrations(groups[|groups| - 1])
  }

  /** What `registerSectionItem` sends for each section in turn. */
  function SectionRegistrations(secs: seq<SectionItem>): (r: seq<Event>)
    reads secs
    ensures forall k :: 0 <= k < |r| ==> IsRegistration(r[k])
  {
    GroupRegistrations(CellsOf(secs))
  }

  /** One more object looked up extends both the collected paths and the position set. */
  lemma FindRowsStep<T>(look: seq<T>, items: seq<T>, s: nat, k: nat)
    requires forall x :: x in items ==> x in look
    requires k < |items|
    ensures forall x :: x in items[..k] ==> x in look
    ensures forall x :: x in items[..k + 1] ==> x in look
    ensures IndexOf(look, items[k]).Some?
    ensures PathsOf(look, items, s)[..k + 1] ==
      PathsOf(look, items, s)[..k] + [IndexPath(IndexOf(look, items[k]).value, s)]
    ensures Positions(look, items[..k + 1]) == SetInsert(Positions(look, items[..k]), IndexOf(look, items[k]).value)
  {
    PositionsStep(look, items, k);
    PrefixExtend(PathsOf(look, items, s), k);
  }

  /** `indexes.map { IndexPath(row: $0, section: s) }`: one path per position, in ascending order. */
  function RowPaths(p: seq<nat>, s: nat): (r: seq<IndexPath>)
    ensures |r| == |p| && AllInSection(r, s)
    ensures forall k :: 0 <= k < |p| ==> r[k].row == p[k]
  {
    seq(|p|, k requires 0 <= k < |p| => IndexPath(p[k], s))
  }

  /** The paths the row loops collect: for each object in argument order, its first row in `look`
      within section s. */
  function PathsOf<T(==)>(look: seq<T>, items: seq<T>, s: nat): (r: seq<IndexPath>)
    requires forall x :: x in items ==> x in look
    ensures |r| == |items| && AllInSection(r, s)
    ensures forall k :: 0 <= k < |items| ==> Some(r[k].row) == IndexOf(look, items[k])
  {
    seq(|items|, k requires 0 <= k < |items| => IndexPath(IndexOf(look, items[k]).value, s))
  }

  /** The section object occurs in `secs` at position s and nowhere else. */
  predicate OnlyAt<T(==)>(secs: seq<T>, x: T, s: nat)
  {
    s < |secs| && secs[s] == x && forall i :: 0 <= i < |secs| && i != s ==> secs[i] != x
  }

    /** Paths built from positions below a section's count name rows that section has. */
  lemma RowPathsExist(c: seq<nat>, p: seq<nat>, s: nat)
    requires s < |c| && AllBelow(p, c[s])
    ensures RowsExist(c, RowPaths(p, s))
  {
  }

  /** Every path the row loops collect names an existing row of section s. */
  lemma PathsOfExist<T>(c: seq<nat>, look: seq<T>, items: seq<T>, s: nat)
    requires forall x :: x in items ==> x in look
    requires s < |c| && c[s] == |look|
    ensures RowsExist(c, PathsOf(look, items, s))
  {
  }

  /** What a section mutator sends inside its batch: the splice of `sectionItems` fires the observer,
      which registers the new sections' items and reloads, and then comes the section delta. */
  function SectionBatch(secs: seq<SectionItem>, delta: Event): seq<Event>
    reads secs
  {
    Bracketed(SectionRegistrations(secs) + [ReloadData(CountsOf(secs)), delta])
  }

  /** The identity-lookup loop of `removeSectionItems(_:)`: the first position in `look` of each
      object of `items`, gathered into an index set. */
  method FindPositions<T(==)>(items: seq<T>, look: seq<T>) returns (indexes: seq<nat>)
    requires forall x :: x in items ==> x in look
    ensures indexes == Positions(look, items)
  {
    indexes := [];
    for k := 0 to |items|
      invariant forall x :: x in items[..k] ==> x in look
      invariant indexes == Positions(look, items[..k])
    {
      PositionsStep(look, items, k);
      indexes := SetInsert(indexes, IndexOf(look, items[k]).value);
    }
    PrefixWhole(items);
  }

  /** With the argument looked up in itself, distinct sections to remove always name the first
      |secs| positions, whichever sections they are. */
  lemma ShadowedRemovalDropsPrefix<T>(s: seq<T>, secs: seq<T>)
    requires Distinct(secs) && |secs| <= |s|
    ensures Without(s, Positions(secs, secs)) == s[|secs|..]
  {
    PositionsOfItself(secs);
    WithoutBlock(s, 0, |secs|);
    assert s[..0] + s[|secs|..] == s[|secs|..];
  }

  /** Two sections [a, b]: removing [b] as written removes a, where looking b up in the managed
      sections would have removed b. */
  lemma ShadowedRemovalMisses<T>(a: T, b: T)
    requires a != b
    ensures Without([a, b], Positions([b], [b])) == [b]
    ensures Without([a, b], Positions([a, b], [b])) == [a]
  {
    PositionsSingle([b], b);
    PositionsSingle([a, b], b);
    assert IndexOf([a, b], b) == Some(1);
    PairWithoutFirst(a, b);
    PairWithoutSecond(a, b);
  }

  lemma PairWithoutFirst<T>(a: T, b: T)
    ensures Without([a, b], [0]) == [b]
  {
    assert Range(0, 1) == [0];
    WithoutBlock([a, b], 0, 1);
    assert [a, b][..0] + [a, b][1..] == [b];
  }

  lemma PairWithoutSecond<T>(a: T, b: T)
    ensures Without([a, b], [1]) == [a]
  {
    assert Range(1, 1) == [1];
    WithoutBlock([a, b], 1, 1);
    assert [a, b][..1] + [a, b][2..] == [a];
  }

  /** Removing the sections found by looking each argument up in the managed sequence leaves
      exactly the managed sections that were not named, when none is managed twice. */
  lemma IntendedRemovalDropsArguments<T>(s: seq<T>, secs: seq<T>)
    requires Distinct(s) && forall x :: x in secs ==> x in s
    ensures forall x :: x in Without(s, Positions(s, secs)) <==> x in s && x !in secs
  {
    var p := Positions(s, secs);
    WithoutMembers(s, p);
    PositionsCover(s, secs);
    PositionsFound(s, secs);
    forall x | x in s
      ensures x in Without(s, p) <==> x !in secs
    {
      var i := IndexOf(s, x).value;
      IndexOfDistinct(s, i);
      if x in secs {
        var k :| 0 <= k < |secs| && secs[k] == x;
        assert i in p;
      }
    }
  }

  /** `insertSectionItems` checks the first position against the argument's count: with three
      managed sections, one section at position 3 is a valid splice and passes the check against
      the managed count, yet the check as written refuses it. */
  lemma InsertGuardRefusesTail(m: TableViewManager, sec: SectionItem)
    requires |m.sectionItems| == 3
    ensures m.InsertSectionsGuardIntended([sec], [3])
    ensures !m.InsertSectionsGuard([sec], [3])
  {
  }

  /** `appendSectionItems` as written, on three sections and one new one, puts it second. */
  lemma ShadowedAppendMisplaces(r: seq<int>)
    requires IsInsertion(r, [1, 2, 3], [4], Range(|[4]|, |[4]|))
    ensures r == [1, 4, 2, 3] && r != [1, 2, 3] + [4]
  {
    InsertAtRangeSplices(r, [1, 2, 3], [4], 1);
    assert [1, 2, 3][..1] == [1] && [1, 2, 3][1..] == [2, 3];
  }

  /** Counts that differ from `before` only at s. */
  lemma CountsChangedAt(now: seq<nat>, before: seq<nat>, s: nat, n: nat)
    requires |now| == |before| && s < |now| && now[s] == n
    requires forall i :: 0 <= i < |now| && i != s ==> now[i] == before[i]
    ensures now == before[s := n]
  {
  }

  class TableViewManager {
    /** The managed table view (`unowned let`). */
    const tableView: TableViewStub
    var sectionItems: seq<SectionItem>
    var delegate: Option<ManagerDelegate>

    /** `init(tableView:)`: no sections and no delegate yet. */
    constructor (tableView: TableViewStub)
      ensures this.tableView == tableView
      ensures sectionItems == [] && delegate.None?
    {
      this.tableView := tableView;
      sectionItems := [];
      delegate := None;
    }

    /** The row counts the data source reports right now. */
    function RowCounts(): seq<nat>
      reads this, sectionItems
    {
      CountsOf(sectionItems)
    }

    /** The table view believes exactly the row counts the model has. */
    predicate InSync()
      reads this, tableView, sectionItems
    {
      Belief(tableView.log) == Some(RowCounts())
    }

    // -------------------------------------------------------------------------
    // Lookups

    /** `self[index]`: nil exactly when the index is past the last section. */
    function SectionAt(index: nat): (r: Option<SectionItem>)
      reads this
      ensures r.None? <==> index >= |sectionItems|
      ensures r.Some? ==> r.value == sectionItems[index] && r.value in sectionItems
    {
      if index < |sectionItems| then Some(sectionItems[index]) else None
    }

    /** `sectionItem(for:)`: the section an index path names, if there is one. */
    function SectionItemFor(path: IndexPath): (r: Option<SectionItem>)
      reads this
      ensures r.None? <==> path.section >= |sectionItems|
      ensures r.Some? ==> r.value == sectionItems[path.section]
    {
      if path.section < |sectionItems| then Some(sectionItems[path.section]) else None
    }

    /** `cellItem(for:)`, also `self[indexPath]`: nil unless both the section and the row exist. */
    function CellItemAt(path: IndexPath): (r: Option<CellItem>)
      reads this, sectionItems
      ensures r.Some? <==> path.section < |sectionItems| && path.row < RowCounts()[path.section]
      ensures r.Some? ==> r.value == sectionItems[path.section].cellItems[path.row]
    {
      match SectionItemFor(path)
      case None => None
      case Some(sec) => if path.row < |sec.cellItems| then Some(sec.cellItems[path.row]) else None
    }

    /** `self[indexPath] as? TableViewCellItemEditActionsProtocol`: the edit capability of the item
        at the path, when there is an item and its type adopts the protocol. */
    function EditingAt(path: IndexPath): (r: Option<EditCapability>)
      reads this, sectionItems
      ensures r.Some? <==> CellItemAt(path).Some? && CellItemAt(path).value.editing.Some?
      ensures r.Some? ==> r == CellItemAt(path).value.editing
    {
      match CellItemAt(path)
      case None => None
      case Some(item) => item.editing
    }

    /** `frameForCellItem(_:inSectionItem:)` up to the geometry: the path whose rectangle it asks
        the table view for, or None unless both identity lookups succeed. */
    function FrameForCellItem(item: CellItem, sec: SectionItem): (r: Option<IndexPath>)
      reads this, sec
      ensures r.Some? <==> sec in sectionItems && item in sec.cellItems
      ensures r.Some? ==> Some(r.value.section) == IndexOf(sectionItems, sec)
      ensures r.Some? ==> Some(r.value.row) == IndexOf(sec.cellItems, item)
    {
      match IndexOf(sectionItems, sec)
      case None => None
      case Some(s) =>
        match IndexOf(sec.cellItems, item)
        case None => None
        case Some(row) => Some(IndexPath(row, s))
    }

    /** The path found for an item in a managed section leads back to that item. */
    lemma FrameRoundTrip(item: CellItem, sec: SectionItem)
      requires sec in sectionItems && item in sec.cellItems
      ensures FrameForCellItem(item, sec).Some?
      ensures CellItemAt(FrameForCellItem(item, sec).value) == Some(item)
    {
      var p := FrameForCellItem(item, sec).value;
      assert sectionItems[p.section] == sec;
    }

    /** With no object repeated, looking up the objects at a path finds that same path. */
    lemma CellItemRoundTrip(path: IndexPath)
      requires Distinct(sectionItems)
      requires path.section < |sectionItems| && Distinct(sectionItems[path.section].cellItems)
      requires CellItemAt(path).Some?
      ensures FrameForCellItem(CellItemAt(path).value, sectionItems[path.section]) == Some(path)
    {
      var sec := sectionItems[path.section];
      IndexOfDistinct(sectionItems, path.section);
      IndexOfDistinct(sec.cellItems, path.row);
    }

    // -------------------------------------------------------------------------
    // Registration and the `sectionItems` observer

    /** `registerCellItem` for each item in turn. */
    method RegisterCellItems(items: seq<CellItem>)
      modifies tableView
      ensures tableView.log == old(tableView.log) + Registrations(items)
    {
      ghost var log0 := tableView.log;
      for k := 0 to |items|
        invariant tableView.log == log0 + Registrations(items[..k])
      {
        PrefixStep(items, k);
        AppendAssoc(log0, Registrations(items[..k]), Registration(items[k].reuseType));
        tableView.RegisterBy(items[k].reuseType);
      }
      PrefixWhole(items);
    }

    /** `sectionItems.forEach { registerSectionItem($0) }`. */
    method RegisterSectionItems(secs: seq<SectionItem>)
      modifies tableView
      ensures tableView.log == old(tableView.log) + SectionRegistrations(secs)
    {
      ghost var log0 := tableView.log;
      ghost var groups := CellsOf(secs);
      for k := 0 to |secs|
        invariant tableView.log == log0 + GroupRegistrations(groups[..k])
      {
        PrefixStep(groups, k);
        AppendAssoc(log0, GroupRegistrations(groups[..k]), Registrations(groups[k]));
        RegisterCellItems(secs[k].cellItems);
      }
      PrefixWhole(groups);
    }

    /** The `didSet` observer of `sectionItems`: it registers every cell item of every section, then
        reloads, and the reload leaves the table view believing the model's counts. */
    method DidSetSectionItems()
      modifies tableView
      ensures tableView.log == old(tableView.log) + SectionRegistrations(sectionItems) + [ReloadData(RowCounts())]
      ensures InSync()
    {
      var counts := RowCounts();
      ghost var regs := SectionRegistrations(sectionItems);
      RegisterSectionItems(sectionItems);
      assert SectionRegistrations(sectionItems) == regs && RowCounts() == counts;
      ghost var log1 := tableView.log;
      Emit(ReloadData(counts));
      assert SectionRegistrations(sectionItems) == regs;
      BeliefAppend(log1, ReloadData(counts));
    }

    /** Assigning `sectionItems` fires the observer. */
    method SetSectionItems(secs: seq<SectionItem>)
      modifies this, tableView
      ensures delegate == old(delegate)
      ensures sectionItems == secs
      ensures tableView.log == old(tableView.log) + SectionRegistrations(secs) + [ReloadData(CountsOf(secs))]
      ensures InSync()
    {
      sectionItems := secs;
      DidSetSectionItems();
    }

    // -------------------------------------------------------------------------
    // Cell items

    /** Sending one command to the table view; the model's counts stay as they were. */
    method Emit(e: Event)
      modifies tableView
      ensures tableView.log == old(tableView.log) + [e]
      ensures RowCounts() == old(RowCounts())
    {
      tableView.Send(e);
    }

    /** Sending a section delta and closing the batch; neither the counts nor the registrations
        the sections call for change. */
    method EmitAndEnd(e: Event)
      modifies tableView
      ensures tableView.log == old(tableView.log) + [e, EndUpdates]
      ensures RowCounts() == old(RowCounts())
      ensures SectionRegistrations(sectionItems) == old(SectionRegistrations(sectionItems))
    {
      ghost var regs := SectionRegistrations(sectionItems);
      tableView.Send(e);
      assert SectionRegistrations(sectionItems) == regs;
      tableView.Send(EndUpdates);
    }

    /** Storing new rows in one section object, at ghost position s when it is managed. With no
        section object repeated, only the count of that section changes; an unmanaged object
        changes no count. */
    method StoreCellItems(sec: SectionItem, cells: seq<CellItem>, ghost s: nat)
      modifies sec
      ensures sec.headerTitle == old(sec.headerTitle) && sec.footerTitle == old(sec.footerTitle)
      ensures sec.cellItems == cells
      ensures OnlyAt(sectionItems, sec, s) ==> RowCounts() == old(RowCounts())[s := |cells|]
      ensures sec !in sectionItems ==> RowCounts() == old(RowCounts())
      ensures |cells| == |old(sec.cellItems)| ==> RowCounts() == old(RowCounts())
    {
      ghost var counts0 := RowCounts();
      sec.cellItems := cells;
      if OnlyAt(sectionItems, sec, s) {
        forall i | 0 <= i < |sectionItems| && i != s
          ensures RowCounts()[i] == counts0[i]
        {
          assert sectionItems[i] != sec;
        }
        CountsChangedAt(RowCounts(), counts0, s, |cells|);
      }
      if sec !in sectionItems || |cells| == |old(sec.cellItems)| {
        forall i | 0 <= i < |sectionItems|
          ensures RowCounts()[i] == counts0[i]
        {
          if sectionItems[i] != sec {
            assert sectionItems[i].cellItems == old(sectionItems[i].cellItems);
          }
        }
      }
    }

    /** `reloadCellItems(_:inSectionItem:withRowAnimation:)`: fatal unless the section is managed
        and holds every item; reloads each item's first row, in argument order, in one batch, and
        changes no model state. */
    method ReloadCellItems(items: seq<CellItem>, sec: SectionItem, animation: Animation)
      requires sec in sectionItems
      requires forall x :: x in items ==> x in sec.cellItems
      modifies tableView
      ensures tableView.log == old(tableView.log) +
        Bracketed([ReloadRows(PathsOf(sec.cellItems, items, IndexOf(sectionItems, sec).value), animation)])
      ensures old(InSync()) ==> InSync()
    {
      var section := IndexOf(sectionItems, sec).value;
      var indexPaths: seq<IndexPath> := [];
      for k := 0 to |items|
        invariant |indexPaths| == k
        invariant forall j :: 0 <= j < k ==> indexPaths[j] == PathsOf(sec.cellItems, items, section)[j]
      {
        assert items[k] in items;
        var row := IndexOf(sec.cellItems, items[k]).value;
        indexPaths := indexPaths + [IndexPath(row, section)];
      }
      assert indexPaths == PathsOf(sec.cellItems, items, section);
      ghost var log0 := tableView.log;
      Emit(BeginUpdates);
      Emit(ReloadRows(indexPaths, animation));
      Emit(EndUpdates);
      SentBracketed(log0, ReloadRows(indexPaths, animation));
      PathsOfExist(RowCounts(), sec.cellItems, items, section);
      if old(InSync()) {
        ReloadBatch(log0, RowCounts(), indexPaths, animation);
      }
    }

    /** The index set the removal loop builds and the paths it collects. */
    method FindRows(items: seq<CellItem>, look: seq<CellItem>, section: nat)
      returns (indexPaths: seq<IndexPath>, indexes: seq<nat>)
      requires forall x :: x in items ==> x in look
      ensures indexPaths == PathsOf(look, items, section)
      ensures indexes == Positions(look, items)
    {
      indexPaths := [];
      indexes := [];
      for k := 0 to |items|
        invariant forall x :: x in items[..k] ==> x in look
        invariant indexPaths == PathsOf(look, items, section)[..k]
        invariant indexes == Positions(look, items[..k])
      {
        FindRowsStep(look, items, section, k);
        var row := IndexOf(look, items[k]).value;
        indexPaths := indexPaths + [IndexPath(row, section)];
        indexes := SetInsert(indexes, row);
      }
      PrefixWhole(items);
      PrefixWhole(PathsOf(look, items, section));
    }

    /** The batch both removal mutators open: the positions leave section `section`, and one
        `deleteRows` names the given paths. When there are as many paths as positions and no
        section object repeats, the table view stays in step with the model. */
    method DeleteInBatch(sec: SectionItem, section: nat, indexes: seq<nat>, indexPaths: seq<IndexPath>,
                         animation: Animation)
      requires section < |sectionItems| && sectionItems[section] == sec
      requires IsIndexSet(indexes) && AllBelow(indexes, |sec.cellItems|)
      requires AllInSection(indexPaths, section)
      modifies sec, tableView
      ensures sec.headerTitle == old(sec.headerTitle) && sec.footerTitle == old(sec.footerTitle)
      ensures sec.cellItems == Without(old(sec.cellItems), indexes)
      ensures tableView.log == old(tableView.log) + Bracketed([DeleteRows(indexPaths, animation)])
      ensures old(InSync()) && OnlyAt(sectionItems, sec, section) && |indexPaths| == |indexes| ==> InSync()
    {
      ghost var log0 := tableView.log;
      ghost var sync0 := InSync();
      ghost var counts0 := RowCounts();
      assert counts0[section] == |sec.cellItems|;
      Emit(BeginUpdates);
      var rest, removed := RemoveAt(sec.cellItems, indexes);
      StoreCellItems(sec, rest, section);
      Emit(DeleteRows(indexPaths, animation));
      Emit(EndUpdates);
      SentBracketed(log0, DeleteRows(indexPaths, animation));
      if sync0 && OnlyAt(sectionItems, sec, section) && |indexPaths| == |indexes| {
        DeleteBatch(log0, counts0, indexPaths, section, |rest|, animation);
      }
    }

    /** `removeCellItems(_:fromSectionItem:withRowAnimation:)`: fatal unless the section is
        managed and holds every item. It drops the first row of each item from the section and
        deletes those rows in one batch; when neither the sections nor the items repeat, the table
        view stays in step with the model. */
    method RemoveCellItems(items: seq<CellItem>, sec: SectionItem, animation: Animation)
      requires sec in sectionItems
      requires forall x :: x in items ==> x in sec.cellItems
      modifies sec, tableView
      ensures sec.headerTitle == old(sec.headerTitle) && sec.footerTitle == old(sec.footerTitle)
      ensures sec.cellItems == Without(old(sec.cellItems), Positions(old(sec.cellItems), items))
      ensures tableView.log == old(tableView.log) +
        Bracketed([DeleteRows(PathsOf(old(sec.cellItems), items, IndexOf(sectionItems, sec).value), animation)])
      ensures old(InSync()) && Distinct(sectionItems) && Distinct(items) ==> InSync()
    {
      var section := IndexOf(sectionItems, sec).value;
      var indexPaths, indexes := FindRows(items, sec.cellItems, section);
      PositionsBelow(sec.cellItems, items);
      if Distinct(items) {
        PositionsCount(sec.cellItems, items);
      }
      DeleteInBatch(sec, section, indexes, indexPaths, animation);
    }

    /** `removeCellItems(at:fromSectionItemAt:withRowAnimation:)`: no identity lookup; the section
        index and every position must exist, and the paths are the positions in that section. */
    method RemoveCellItemsAt(cellIndexes: seq<nat>, sectionIndex: nat, animation: Animation)
      requires IsIndexSet(cellIndexes)
      requires sectionIndex < |sectionItems|
      requires AllBelow(cellIndexes, |sectionItems[sectionIndex].cellItems|)
      modifies sectionItems[sectionIndex], tableView
      ensures sectionItems[sectionIndex].headerTitle == old(sectionItems[sectionIndex].headerTitle)
      ensures sectionItems[sectionIndex].footerTitle == old(sectionItems[sectionIndex].footerTitle)
      ensures sectionItems[sectionIndex].cellItems == Without(old(sectionItems[sectionIndex].cellItems), cellIndexes)
      ensures tableView.log == old(tableView.log) + Bracketed([DeleteRows(RowPaths(cellIndexes, sectionIndex), animation)])
      ensures old(InSync()) && Distinct(sectionItems) ==> InSync()
    {
      var indexPaths := RowPaths(cellIndexes, sectionIndex);
      DeleteInBatch(sectionItems[sectionIndex], sectionIndex, cellIndexes, indexPaths, animation);
    }

    /** The batch `insertCellItems` opens on a managed section: the items go in at the positions,
        and one `insertRows` names the given paths. With no section object repeated and one path
        per position, the table view stays in step with the model. */
    method InsertInBatch(sec: SectionItem, section: nat, items: seq<CellItem>, indexes: seq<nat>,
                         indexPaths: seq<IndexPath>, animation: Animation)
      requires section < |sectionItems| && sectionItems[section] == sec
      requires IsIndexSet(indexes) && |indexes| <= |items| && InsertablePositions(|sec.cellItems|, indexes)
      requires AllInSection(indexPaths, section)
      modifies sec, tableView
      ensures sec.headerTitle == old(sec.headerTitle) && sec.footerTitle == old(sec.footerTitle)
      ensures IsInsertion(sec.cellItems, old(sec.cellItems), items, indexes)
      ensures tableView.log == old(tableView.log) + Bracketed([InsertRows(indexPaths, animation)])
      ensures old(InSync()) && OnlyAt(sectionItems, sec, section) && |indexPaths| == |indexes| ==> InSync()
    {
      ghost var log0 := tableView.log;
      ghost var sync0 := InSync();
      ghost var counts0 := RowCounts();
      assert counts0[section] == |sec.cellItems|;
      Emit(BeginUpdates);
      var grown := InsertAt(sec.cellItems, items, indexes);
      StoreCellItems(sec, grown, section);
      Emit(InsertRows(indexPaths, animation));
      Emit(EndUpdates);
      SentBracketed(log0, InsertRows(indexPaths, animation));
      if sync0 && OnlyAt(sectionItems, sec, section) && |indexPaths| == |indexes| {
        InsertBatch(log0, counts0, indexPaths, section, |grown|, animation);
      }
    }

    /** `insertCellItems(_:toSectionItem:atIndexes:withRowAnimation:)`: the index set must be
        non-empty and start within the section. It registers every item first; an unmanaged section
        is then left alone, otherwise the items go in and one `insertRows` names the positions. */
    method InsertCellItems(items: seq<CellItem>, sec: SectionItem, indexes: seq<nat>, animation: Animation)
      requires |indexes| > 0 && IsIndexSet(indexes) && indexes[0] <= |sec.cellItems|
      requires sec in sectionItems ==> |indexes| <= |items| && InsertablePositions(|sec.cellItems|, indexes)
      modifies sec, tableView
      ensures sec.headerTitle == old(sec.headerTitle) && sec.footerTitle == old(sec.footerTitle)
      ensures sec !in sectionItems ==>
        sec.cellItems == old(sec.cellItems) && tableView.log == old(tableView.log) + Registrations(items)
      ensures sec in sectionItems ==>
        IsInsertion(sec.cellItems, old(sec.cellItems), items, indexes) &&
        tableView.log == old(tableView.log) + Registrations(items) +
          Bracketed([InsertRows(RowPaths(indexes, IndexOf(sectionItems, sec).value), animation)])
      ensures old(InSync()) && Distinct(sectionItems) ==> InSync()
    {
      ghost var log0 := tableView.log;
      RegisterCellItems(items);
      ghost var log1 := tableView.log;
      BeliefIgnoresRegistrations(log0, Registrations(items));
      var found := IndexOf(sectionItems, sec);
      if found.None? {
        return;
      }
      var section := found.value;
      var indexPaths := RowPaths(indexes, section);
      InsertInBatch(sec, section, items, indexes, indexPaths, animation);
    }

    /** `appendCellItems(_:toSectionItem:withRowAnimation:)`: inserts at count...count+n-1, a range
        that cannot be formed for no items. In a managed section the items end up at the tail in
        argument order. */
    method AppendCellItems(items: seq<CellItem>, sec: SectionItem, animation: Animation)
      requires |items| >= 1
      modifies sec, tableView
      ensures sec.headerTitle == old(sec.headerTitle) && sec.footerTitle == old(sec.footerTitle)
      ensures sec !in sectionItems ==>
        sec.cellItems == old(sec.cellItems) && tableView.log == old(tableView.log) + Registrations(items)
      ensures sec in sectionItems ==>
        sec.cellItems == old(sec.cellItems) + items &&
        tableView.log == old(tableView.log) + Registrations(items) +
          Bracketed([InsertRows(RowPaths(Range(|old(sec.cellItems)|, |items|), IndexOf(sectionItems, sec).value), animation)])
      ensures old(InSync()) && Distinct(sectionItems) ==> InSync()
    {
      var count := |sec.cellItems|;
      var indexSet := Range(count, |items|);
      InsertCellItems(items, sec, indexSet, animation);
      if sec in sectionItems {
        InsertAtTailAppends(sec.cellItems, old(sec.cellItems), items);
      }
    }

    /** `appendCellItems(_:toSectionItemAt:withRowAnimation:)`: nothing at all happens for a section
        index past the end. */
    method AppendCellItemsAt(items: seq<CellItem>, sectionIndex: nat, animation: Animation)
      requires sectionIndex < |sectionItems| ==> |items| >= 1
      modifies (if sectionIndex < |sectionItems| then {sectionItems[sectionIndex]} else {}), tableView
      ensures sectionIndex < |sectionItems| ==>
        sectionItems[sectionIndex].headerTitle == old(sectionItems[sectionIndex].headerTitle) &&
        sectionItems[sectionIndex].footerTitle == old(sectionItems[sectionIndex].footerTitle)
      ensures sectionIndex >= |sectionItems| ==> tableView.log == old(tableView.log)
      ensures sectionIndex < |sectionItems| ==>
        sectionItems[sectionIndex].cellItems == old(sectionItems[sectionIndex].cellItems) + items &&
        tableView.log == old(tableView.log) + Registrations(items) +
          Bracketed([InsertRows(RowPaths(Range(|old(sectionItems[sectionIndex].cellItems)|, |items|),
                                         IndexOf(sectionItems, sectionItems[sectionIndex]).value), animation)])
      ensures old(InSync()) && Distinct(sectionItems) ==> InSync()
    {
      var sec := SectionAt(sectionIndex);
      if sec.None? {
        return;
      }
      AppendCellItems(items, sec.value, animation);
    }

    /** The batch `replaceCellItems` opens: the positions are overwritten and, when the section is
        managed, their rows are reloaded. No row count changes, so the view stays in step. */
    method ReplaceInBatch(indexes: seq<nat>, items: seq<CellItem>, sec: SectionItem, animation: Animation)
      requires IsIndexSet(indexes) && AllBelow(indexes, |sec.cellItems|) && |indexes| <= |items|
      modifies sec, tableView
      ensures sec.headerTitle == old(sec.headerTitle) && sec.footerTitle == old(sec.footerTitle)
      ensures IsReplacement(sec.cellItems, old(sec.cellItems), items, indexes)
      ensures tableView.log == old(tableView.log) +
        Bracketed(if sec in sectionItems
                  then [ReloadRows(RowPaths(indexes, IndexOf(sectionItems, sec).value), animation)]
                  else [])
      ensures old(InSync()) ==> InSync()
    {
      ghost var log0 := tableView.log;
      ghost var sync0 := InSync();
      ghost var counts0 := RowCounts();
      var found := IndexOf(sectionItems, sec);
      if found.Some? {
        assert counts0[found.value] == |sec.cellItems|;
      }
      Emit(BeginUpdates);
      var replaced := ReplaceAt(sec.cellItems, items, indexes);
      StoreCellItems(sec, replaced, 0);
      if found.Some? {
        var indexPaths := RowPaths(indexes, found.value);
        Emit(ReloadRows(indexPaths, animation));
        Emit(EndUpdates);
        SentBracketed(log0, ReloadRows(indexPaths, animation));
        if sync0 {
          RowPathsExist(counts0, indexes, found.value);
          ReloadBatch(log0, counts0, indexPaths, animation);
        }
      } else {
        Emit(EndUpdates);
        assert tableView.log == log0 + Bracketed([]);
        BeliefOfEmptyBracket(log0);
      }
    }

    /** `replaceCellItems(at:withCellItems:inSectionItem:withRowAnimation:)`: as many items as
        positions, every position inside the section. It registers the items, then in one batch
        overwrites the positions and, only for a managed section, reloads their rows; the row
        counts never change, so the table view stays in step whatever repeats. */
    method ReplaceCellItems(indexes: seq<nat>, items: seq<CellItem>, sec: SectionItem, animation: Animation)
      requires |indexes| == |items|
      requires IsIndexSet(indexes) && AllBelow(indexes, |sec.cellItems|)
      modifies sec, tableView
      ensures sec.headerTitle == old(sec.headerTitle) && sec.footerTitle == old(sec.footerTitle)
      ensures IsReplacement(sec.cellItems, old(sec.cellItems), items, indexes)
      ensures tableView.log == old(tableView.log) + Registrations(items) +
        Bracketed(if sec in sectionItems
                  then [ReloadRows(RowPaths(indexes, IndexOf(sectionItems, sec).value), animation)]
                  else [])
      ensures old(InSync()) ==> InSync()
    {
      ghost var log0 := tableView.log;
      RegisterCellItems(items);
      BeliefIgnoresRegistrations(log0, Registrations(items));
      ReplaceInBatch(indexes, items, sec, animation);
    }

    // -------------------------------------------------------------------------
    // Section items

    /** `removeSectionItems(_:withRowAnimation:)` as written: the loop looks each section up in the
        argument that shadows the property, so its precondition cannot fail, and the positions it
        collects name the managed sections to drop; each must exist for the splice. */
    method RemoveSectionItems(secs: seq<SectionItem>, animation: Animation)
      requires AllBelow(Positions(secs, secs), |sectionItems|)
      modifies this, tableView
      ensures delegate == old(delegate)
      ensures sectionItems == Without(old(sectionItems), Positions(secs, secs))
      ensures tableView.log == old(tableView.log) + SectionBatch(sectionItems, DeleteSections(Positions(secs, secs), animation))
    {
      var indexes := FindPositions(secs, secs);
      DeleteSectionsInBatch(indexes, animation);
    }

    /** `removeSectionItems(_:)` with its lookups in the managed sections, as the precondition's
        message describes it: every section named must be managed. */
    method RemoveSectionItemsIntended(secs: seq<SectionItem>, animation: Animation)
      requires forall x :: x in secs ==> x in sectionItems
      modifies this, tableView
      ensures delegate == old(delegate)
      ensures sectionItems == Without(old(sectionItems), Positions(old(sectionItems), secs))
      ensures tableView.log == old(tableView.log) +
        SectionBatch(sectionItems, DeleteSections(Positions(old(sectionItems), secs), animation))
    {
      var indexes := FindPositions(secs, sectionItems);
      PositionsBelow(sectionItems, secs);
      DeleteSectionsInBatch(indexes, animation);
    }

    /** `removeSectionItems(at:withRowAnimation:)`: every position must name a managed section. */
    method RemoveSectionItemsAt(indexes: seq<nat>, animation: Animation)
      requires IsIndexSet(indexes) && AllBelow(indexes, |sectionItems|)
      modifies this, tableView
      ensures delegate == old(delegate)
      ensures sectionItems == Without(old(sectionItems), indexes)
      ensures tableView.log == old(tableView.log) + SectionBatch(sectionItems, DeleteSections(indexes, animation))
    {
      DeleteSectionsInBatch(indexes, animation);
    }

    /** The batch the removals open: the splice, the observer it fires, then `deleteSections`. */
    method DeleteSectionsInBatch(indexes: seq<nat>, animation: Animation)
      requires IsIndexSet(indexes) && AllBelow(indexes, |sectionItems|)
      modifies this, tableView
      ensures delegate == old(delegate)
      ensures sectionItems == Without(old(sectionItems), indexes)
      ensures tableView.log == old(tableView.log) + SectionBatch(sectionItems, DeleteSections(indexes, animation))
    {
      ghost var log0 := tableView.log;
      ghost var before := sectionItems;
      Emit(BeginUpdates);
      var rest, removed := RemoveAt(sectionItems, indexes);
      ghost var removedAll := rest == Without(before, indexes);
      SetSectionItems(rest);
      EmitAndEnd(DeleteSections(indexes, animation));
      assert sectionItems == rest && removedAll;
      SentSectionBatch(log0, SectionRegistrations(rest), ReloadData(CountsOf(rest)), DeleteSections(indexes, animation));
    }

    /** What `insertSectionItems` demands as written: a non-empty index set whose first position
        is at most the count of the sections passed in, and, for the splice, an element per
        position and room at each one. */
    predicate InsertSectionsGuard(secs: seq<SectionItem>, indexes: seq<nat>)
      reads this
    {
      && |indexes| > 0 && IsIndexSet(indexes) && indexes[0] <= |secs|
      && |indexes| <= |secs| && InsertablePositions(|sectionItems|, indexes)
    }

    /** The same demands with the first position checked against the managed count, as the
        precondition's message describes it. */
    predicate InsertSectionsGuardIntended(secs: seq<SectionItem>, indexes: seq<nat>)
      reads this
    {
      && |indexes| > 0 && IsIndexSet(indexes) && indexes[0] <= |sectionItems|
      && |indexes| <= |secs| && InsertablePositions(|sectionItems|, indexes)
    }

    /** `insertSectionItems(_:atIndexes:withRowAnimation:)` as written: the index set must be
        non-empty and, through the shadowing argument, start within the argument's count; the
        splice itself needs an element per position and room at each one. The arguments' items
        are registered before the batch. */
    method InsertSectionItems(secs: seq<SectionItem>, indexes: seq<nat>, animation: Animation)
      requires InsertSectionsGuard(secs, indexes)
      modifies this, tableView
      ensures delegate == old(delegate)
      ensures IsInsertion(sectionItems, old(sectionItems), secs, indexes)
      ensures tableView.log == old(tableView.log) + SectionRegistrations(secs) +
        SectionBatch(sectionItems, InsertSections(indexes, animation))
    {
      RegisterSectionItems(secs);
      InsertSectionsInBatch(secs, indexes, animation);
    }

    /** `insertSectionItems` with its check against the managed count, as the precondition's message
        describes it. */
    method InsertSectionItemsIntended(secs: seq<SectionItem>, indexes: seq<nat>, animation: Animation)
      requires InsertSectionsGuardIntended(secs, indexes)
      modifies this, tableView
      ensures delegate == old(delegate)
      ensures IsInsertion(sectionItems, old(sectionItems), secs, indexes)
      ensures tableView.log == old(tableView.log) + SectionRegistrations(secs) +
        SectionBatch(sectionItems, InsertSections(indexes, animation))
    {
      RegisterSectionItems(secs);
      InsertSectionsInBatch(secs, indexes, animation);
    }

    /** The batch the insertions open: the splice, the observer it fires, then `insertSections`. */
    method InsertSectionsInBatch(secs: seq<SectionItem>, indexes: seq<nat>, animation: Animation)
      requires IsIndexSet(indexes) && |indexes| <= |secs| && InsertablePositions(|sectionItems|, indexes)
      modifies this, tableView
      ensures delegate == old(delegate)
      ensures IsInsertion(sectionItems, old(sectionItems), secs, indexes)
      ensures tableView.log == old(tableView.log) + SectionBatch(sectionItems, InsertSections(indexes, animation))
    {
      ghost var log0 := tableView.log;
      ghost var before := sectionItems;
      Emit(BeginUpdates);
      var grown := InsertAt(sectionItems, secs, indexes);
      ghost var inserted := IsInsertion(grown, before, secs, indexes);
      SetSectionItems(grown);
      EmitAndEnd(InsertSections(indexes, animation));
      assert sectionItems == grown && inserted;
      SentSectionBatch(log0, SectionRegistrations(grown), ReloadData(CountsOf(grown)), InsertSections(indexes, animation));
    }

    /** `appendSectionItems(_:withRowAnimation:)` as written: the count it starts from is the
        argument's, so n new sections go to positions n...2n-1, which needs 1 <= n and n managed
        sections already. */
    method AppendSectionItems(secs: seq<SectionItem>, animation: Animation)
      requires 1 <= |secs| <= |sectionItems|
      modifies this, tableView
      ensures delegate == old(delegate)
      ensures sectionItems == old(sectionItems)[..|secs|] + secs + old(sectionItems)[|secs|..]
      ensures tableView.log == old(tableView.log) + SectionRegistrations(secs) +
        SectionBatch(sectionItems, InsertSections(Range(|secs|, |secs|), animation))
    {
      var count := |secs|;
      var indexSet := Range(count, |secs|);
      InsertSectionItems(secs, indexSet, animation);
      InsertAtRangeSplices(sectionItems, old(sectionItems), secs, count);
    }

    /** `appendSectionItems` counting the managed sections, as its documentation describes it: the
        new sections end up at the tail in argument order. */
    method AppendSectionItemsIntended(secs: seq<SectionItem>, animation: Animation)
      requires |secs| >= 1
      modifies this, tableView
      ensures delegate == old(delegate)
      ensures sectionItems == old(sectionItems) + secs
      ensures tableView.log == old(tableView.log) + SectionRegistrations(secs) +
        SectionBatch(sectionItems, InsertSections(Range(|old(sectionItems)|, |secs|), animation))
    {
      var count := |sectionItems|;
      var indexSet := Range(count, |secs|);
      InsertSectionItemsIntended(secs, indexSet, animation);
      InsertAtTailAppends(sectionItems, old(sectionItems), secs);
    }

    /** `replaceSectionItems(at:withSectionItems:rowAnimation:)`: as many sections as positions,
        each position managed. The arguments' items are registered before the batch, and the batch
        ends with `reloadSections` at the same positions. */
    method ReplaceSectionItems(indexes: seq<nat>, secs: seq<SectionItem>, animation: Animation)
      requires |indexes| == |secs|
      requires IsIndexSet(indexes) && AllBelow(indexes, |sectionItems|)
      modifies this, tableView
      ensures delegate == old(delegate)
      ensures IsReplacement(sectionItems, old(sectionItems), secs, indexes)
      ensures tableView.log == old(tableView.log) + SectionRegistrations(secs) +
        SectionBatch(sectionItems, ReloadSections(indexes, animation))
    {
      RegisterSectionItems(secs);
      ReplaceSectionsInBatch(indexes, secs, animation);
    }

    /** The batch `replaceSectionItems` opens: the splice, the observer it fires, then
        `reloadSections`. */
    method ReplaceSectionsInBatch(indexes: seq<nat>, secs: seq<SectionItem>, animation: Animation)
      requires |indexes| <= |secs|
      requires IsIndexSet(indexes) && AllBelow(indexes, |sectionItems|)
      modifies this, tableView
      ensures delegate == old(delegate)
      ensures IsReplacement(sectionItems, old(sectionItems), secs, indexes)
      ensures tableView.log == old(tableView.log) + SectionBatch(sectionItems, ReloadSections(indexes, animation))
    {
      ghost var log0 := tableView.log;
      ghost var before := sectionItems;
      Emit(BeginUpdates);
      var replaced := ReplaceAt(sectionItems, secs, indexes);
      ghost var done := IsReplacement(replaced, before, secs, indexes);
      SetSectionItems(replaced);
      EmitAndEnd(ReloadSections(indexes, animation));
      assert sectionItems == replaced && done;
      SentSectionBatch(log0, SectionRegistrations(replaced), ReloadData(CountsOf(replaced)), ReloadSections(indexes, animation));
    }

    // -------------------------------------------------------------------------
    // Scrolling

    /** `scrollToCellItem(_:inSectionItem:atScrollPosition:animated:)`: nothing unless both identity
        lookups succeed; otherwise one `scrollToRow` at a path that leads back to the item. The
        table view's belief is untouched. */
    method ScrollToCellItem(item: CellItem, sec: SectionItem, position: ScrollPosition, animated: bool)
      modifies tableView
      ensures !(sec in sectionItems && item in sec.cellItems) ==> tableView.log == old(tableView.log)
      ensures sec in sectionItems && item in sec.cellItems ==>
        |tableView.log| == |old(tableView.log)| + 1 && tableView.log[..|old(tableView.log)|] == old(tableView.log) &&
        var e := tableView.log[|old(tableView.log)|];
        e.ScrollToRow? && e.position == position && e.animated == animated &&
        e.path == FrameForCellItem(item, sec).value && CellItemAt(e.path) == Some(item)
      ensures old(InSync()) ==> InSync()
    {
      var found := FrameForCellItem(item, sec);
      if found.Some? {
        ghost var log0 := tableView.log;
        FrameRoundTrip(item, sec);
        Emit(ScrollToRow(found.value, position, animated));
        BeliefAppend(log0, ScrollToRow(found.value, position, animated));
      }
    }

    /** `scrollToTopAnimated(animated:)`: nothing when there is no section or the first one is
        empty; otherwise a scroll to the first row of the first section, to the top. */
    method ScrollToTopAnimated(animated: bool)
      modifies tableView
      ensures (|sectionItems| == 0 || |sectionItems[0].cellItems| == 0) ==> tableView.log == old(tableView.log)
      ensures |sectionItems| > 0 && |sectionItems[0].cellItems| > 0 ==>
        tableView.log == old(tableView.log) + [ScrollToRow(IndexPath(0, 0), AtTop, animated)]
      ensures old(InSync()) ==> InSync()
    {
      if |sectionItems| > 0 && |sectionItems[0].cellItems| > 0 {
        var sec := sectionItems[0];
        var item := sec.cellItems[0];
        assert IndexOf(sectionItems, sec) == Some(0);
        assert IndexOf(sec.cellItems, item) == Some(0);
        ScrollToCellItem(item, sec, AtTop, animated);
        assert tableView.log == old(tableView.log) + [ScrollToRow(IndexPath(0, 0), AtTop, animated)];
      }
    }
  }
}
