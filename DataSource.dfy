/** The manager as the table view's data source: counts, cells, titles and the move and edit
    queries are lookups with fixed answers for what is absent; committing a delete is the one
    answer that changes the model, through the manager's own row removal. */
module DataSource {
  import opened Foundation
  import opened TableView
  import opened ViewBelief
  import opened CellItems
  import opened SectionItems
  import opened ArrayAdditions
  import opened Manager

  /** `numberOfSections(in:)`: one section per section object. */
  function NumberOfSections(m: TableViewManager): (r: nat)
    reads m, m.sectionItems
    ensures r == |m.RowCounts()|
  {
    |m.sectionItems|
  }

  /** `numberOfRowsInSection`: the section's item count, 0 for an absent section. The rows it
      reports are exactly those the manager resolves to an item. */
  function NumberOfRowsInSection(m: TableViewManager, section: nat): (r: nat)
    reads m, m.sectionItems
    ensures section >= |m.sectionItems| ==> r == 0
    ensures forall row: nat :: row < r <==> m.CellItemAt(IndexPath(row, section)).Some?
  {
    match m.SectionAt(section)
    case None => 0
    case Some(sec) => |sec.cellItems|
  }

  /** The counts a `reloadData` carries are the counts the data source reports, so a table view in
      step with the manager believes what it would be told on asking. */
  lemma ReloadCarriesReportedCounts(m: TableViewManager)
    ensures |m.RowCounts()| == NumberOfSections(m)
    ensures forall s :: 0 <= s < |m.RowCounts()| ==> m.RowCounts()[s] == NumberOfRowsInSection(m, s)
  {
  }

  /** `cellForRowAt`: the item at the path must exist (force unwrap); it is the item asked for
      the cell. */
  function CellForRowAt(m: TableViewManager, path: IndexPath): (r: CellItem)
    reads m, m.sectionItems
    requires m.CellItemAt(path).Some?
    ensures path.section < |m.sectionItems| && path.row < |m.sectionItems[path.section].cellItems|
    ensures r == m.sectionItems[path.section].cellItems[path.row]
    ensures IndexOf(m.sectionItems[path.section].cellItems, r).Some?
  {
    m.CellItemAt(path).value
  }

  /** The header title: nil for an absent section, otherwise the section object's answer; one
      inherited from the library's own section class needs a title to be set. */
  function TitleForHeaderInSection(m: TableViewManager, section: nat): (r: Option<string>)
    reads m, m.sectionItems
    requires section < |m.sectionItems| && m.sectionItems[section].own.titleForHeader.None? &&
             m.sectionItems[section].kind == Standard ==>
               m.sectionItems[section].headerTitle.Some?
    ensures section >= |m.sectionItems| ==> r.None?
    ensures section < |m.sectionItems| ==> r == m.sectionItems[section].TitleForHeader()
    ensures section < |m.sectionItems| && m.sectionItems[section].own.titleForHeader.None? ==>
      (r.Some? <==> m.sectionItems[section].kind == Standard)
  {
    match m.SectionAt(section)
    case None => None
    case Some(sec) => sec.TitleForHeader()
  }

  function TitleForFooterInSection(m: TableViewManager, section: nat): (r: Option<string>)
    reads m, m.sectionItems
    requires section < |m.sectionItems| && m.sectionItems[section].own.titleForFooter.None? &&
             m.sectionItems[section].kind == Standard ==>
               m.sectionItems[section].footerTitle.Some?
    ensures section >= |m.sectionItems| ==> r.None?
    ensures section < |m.sectionItems| ==> r == m.sectionItems[section].TitleForFooter()
    ensures section < |m.sectionItems| && m.sectionItems[section].own.titleForFooter.None? ==>
      (r.Some? <==> m.sectionItems[section].kind == Standard)
  {
    match m.SectionAt(section)
    case None => None
    case Some(sec) => sec.TitleForFooter()
  }

  /** `canMoveRowAt`: the item's answer for this row, false where there is no item. */
  function CanMoveRowAt(m: TableViewManager, path: IndexPath): (r: bool)
    reads m, m.sectionItems
    ensures m.CellItemAt(path).None? ==> !r
    ensures m.CellItemAt(path).Some? ==> r == m.CellItemAt(path).value.canMoveRow(path)
  {
    match m.CellItemAt(path)
    case None => false
    case Some(item) => item.canMoveRow(path)
  }

  /** `sectionIndexTitles(for:)`: the delegate's answer, nil without a delegate. */
  function SectionIndexTitles(m: TableViewManager): (r: Option<seq<string>>)
    reads m
    ensures m.delegate.None? ==> r.None?
    ensures m.delegate.Some? ==> r == m.delegate.value.sectionIndexTitles
  {
    match m.delegate
    case None => None
    case Some(d) => d.sectionIndexTitles
  }

  /** `sectionForSectionIndexTitle`: the delegate's answer, 0 without a delegate. */
  function SectionForSectionIndexTitle(m: TableViewManager, title: string, index: nat): (r: nat)
    reads m
    ensures m.delegate.None? ==> r == 0
    ensures m.delegate.Some? ==> r == m.delegate.value.sectionForSectionIndexTitle(title, index)
  {
    match m.delegate
    case None => 0
    case Some(d) => d.sectionForSectionIndexTitle(title, index)
  }

  /** `moveRowAt`: tells the delegate, if there is one, and nothing else; the model is not
      rearranged. */
  function MoveRowAt(m: TableViewManager, source: IndexPath, destination: IndexPath): (r: Option<Invocation>)
    reads m
    ensures r.Some? <==> m.delegate.Some?
    ensures r.Some? ==> r.value == AtMove(m.delegate.value.moveRow, source, destination)
  {
    match m.delegate
    case None => None
    case Some(d) => Some(AtMove(d.moveRow, source, destination))
  }

  /** `canEditRowAt`: true only for an existing item that has the edit capability and says yes. */
  function CanEditRowAt(m: TableViewManager, path: IndexPath): (r: bool)
    reads m, m.sectionItems
    ensures r <==> m.CellItemAt(path).Some? && m.CellItemAt(path).value.editing.Some? &&
                   m.CellItemAt(path).value.editing.value.canEdit
  {
    match m.EditingAt(path)
    case None => false
    case Some(cap) => cap.canEdit
  }

  /** An item that gives every edit answer the protocol's defaults is never editable. */
  lemma DefaultsNeverEdit(m: TableViewManager, path: IndexPath, editActions: IndexPath -> Option<seq<RowAction>>)
    requires m.CellItemAt(path).Some? && m.CellItemAt(path).value.editing == Some(DefaultEditCapability(editActions))
    ensures !CanEditRowAt(m, path)
    ensures !CommitAuthorised(m, StyleDelete, path)
  {
    var cap := DefaultEditCapability(editActions);
    assert !cap.canEdit && !cap.canCommit(StyleDelete);
  }

  /** `commit(_:forRowAt:)` removes the row: a delete, an item at the path with the edit
      capability, and the item agreeing to commit. */
  predicate CommitAuthorised(m: TableViewManager, style: EditingStyle, path: IndexPath)
    reads m, m.sectionItems
  {
    style == StyleDelete && m.EditingAt(path).Some? && m.EditingAt(path).value.canCommit(style)
  }

  /** `commit(_:forRowAt:)`: when authorised, the item's first row leaves its section through
      `removeCellItems` with the automatic animation, one `deleteRows` is sent in one batch,
      `didRemove` runs with the path as given now and `didFinishRemovingAnimation` is left for the
      animation's completion; otherwise nothing happens. The deleted row is the given path when
      neither the sections nor the section's items repeat. */
  method Commit(m: TableViewManager, style: EditingStyle, path: IndexPath)
    returns (removed: Option<Invocation>, deferred: Option<Invocation>)
    modifies m.tableView, if path.section < |m.sectionItems| then {m.sectionItems[path.section]} else {}
    ensures path.section < |m.sectionItems| ==>
      m.sectionItems[path.section].headerTitle == old(m.sectionItems[path.section].headerTitle) &&
      m.sectionItems[path.section].footerTitle == old(m.sectionItems[path.section].footerTitle)
    ensures !old(CommitAuthorised(m, style, path)) ==>
      removed.None? && deferred.None? && m.tableView.log == old(m.tableView.log) &&
      (path.section < |m.sectionItems| ==> unchanged(m.sectionItems[path.section]))
    ensures old(CommitAuthorised(m, style, path)) ==>
      var sec := m.sectionItems[path.section];
      var cells := old(sec.cellItems);
      var cap := cells[path.row].editing.value;
      var row := IndexOf(cells, cells[path.row]).value;
      var section := IndexOf(m.sectionItems, sec).value;
      && sec.cellItems == cells[..row] + cells[row + 1..]
      && m.tableView.log == old(m.tableView.log) + Bracketed([DeleteRows([IndexPath(row, section)], Automatic)])
      && removed == RunAtRow(cap.didRemove, path)
      && deferred == RunAtRow(cap.didFinishRemovingAnimation, path)
      && (Distinct(m.sectionItems) && Distinct(cells) ==> row == path.row && section == path.section)
    ensures old(m.InSync()) && Distinct(m.sectionItems) ==> m.InSync()
  {
    removed, deferred := None, None;
    if style == StyleDelete {
      var sec := m.SectionAt(path.section);
      var item := m.CellItemAt(path);
      if sec.Some? && item.Some? && item.value.editing.Some? {
        var cap := item.value.editing.value;
        if cap.canCommit(style) {
          ghost var cells := sec.value.cellItems;
          ghost var section := IndexOf(m.sectionItems, sec.value).value;
          ghost var row := IndexOf(cells, item.value).value;
          PositionsSingle(cells, item.value);
          assert PathsOf(cells, [item.value], section) == [IndexPath(row, section)];
          m.RemoveCellItems([item.value], sec.value, Automatic);
          DropOne(cells, row);
          if Distinct(m.sectionItems) && Distinct(cells) {
            IndexOfDistinct(m.sectionItems, path.section);
            IndexOfDistinct(cells, path.row);
          }
          removed := RunAtRow(cap.didRemove, path);
          deferred := RunAtRow(cap.didFinishRemovingAnimation, path);
        }
      }
    }
  }

  /** Deleting the one position row drops exactly that element. */
  lemma DropOne<T>(s: seq<T>, row: nat)
    requires row < |s|
    ensures Without(s, [row]) == s[..row] + s[row + 1..]
  {
    WithoutBlock(s, row, 1);
    assert Range(row, 1) == [row];
  }
}
