/** The manager as the table view's delegate. Each answer resolves the index path to an item (or
    the section index to a section object) without faulting and forwards to it, or gives a fixed
    answer when the item, the capability or the delegate is absent. None of them changes the model;
    the notifications are returned as the invocation they cause, if any. */
module Delegate {
  import opened Foundation
  import opened TableView
  import opened CellItems
  import opened SectionItems
  import opened Manager

  /** The item object at the path, as a frame: the handler queries read its settable handlers. */
  function ItemFrame(m: TableViewManager, path: IndexPath): set<object>
    reads m, m.sectionItems
  {
    match m.CellItemAt(path)
    case None => {}
    case Some(item) => {item}
  }

  // ---------------------------------------------------------------------------
  // Rows

  /** `heightForRowAt`: the item must exist (force unwrap). */
  function HeightForRowAt(m: TableViewManager, path: IndexPath): (r: real)
    reads m, m.sectionItems
    requires m.CellItemAt(path).Some?
    ensures r == m.sectionItems[path.section].cellItems[path.row].height
  {
    m.CellItemAt(path).value.height
  }

  function EstimatedHeightForRowAt(m: TableViewManager, path: IndexPath): (r: real)
    reads m, m.sectionItems
    ensures m.CellItemAt(path).None? ==> r == 0.0
    ensures m.CellItemAt(path).Some? ==> r == m.CellItemAt(path).value.estimatedHeight
  {
    match m.CellItemAt(path)
    case None => 0.0
    case Some(item) => item.estimatedHeight
  }

  function IndentationLevelForRowAt(m: TableViewManager, path: IndexPath): (r: int)
    reads m, m.sectionItems
    ensures m.CellItemAt(path).None? ==> r == 0
    ensures m.CellItemAt(path).Some? ==> r == m.CellItemAt(path).value.indentationLevel(path)
  {
    match m.CellItemAt(path)
    case None => 0
    case Some(item) => item.indentationLevel(path)
  }

  function WillDisplay(m: TableViewManager, path: IndexPath): (r: Option<Invocation>)
    reads m, m.sectionItems
    ensures r.Some? <==> m.CellItemAt(path).Some? && m.CellItemAt(path).value.willDisplay.Some?
    ensures r.Some? ==> r.value == AtRow(m.CellItemAt(path).value.willDisplay.value, path)
  {
    match m.CellItemAt(path)
    case None => None
    case Some(item) => item.WillDisplayCell(path)
  }

  function DidEndDisplaying(m: TableViewManager, path: IndexPath): (r: Option<Invocation>)
    reads m, m.sectionItems
    ensures r.Some? <==> m.CellItemAt(path).Some? && m.CellItemAt(path).value.didEndDisplaying.Some?
    ensures r.Some? ==> r.value == AtRow(m.CellItemAt(path).value.didEndDisplaying.value, path)
  {
    match m.CellItemAt(path)
    case None => None
    case Some(item) => item.DidEndDisplayingCell(path)
  }

  /** `shouldHighlightRowAt`: the item's answer, yes when there is no item. */
  function ShouldHighlightRowAt(m: TableViewManager, path: IndexPath): (r: bool)
    reads m, m.sectionItems, ItemFrame(m, path)
    ensures m.CellItemAt(path).None? ==> r
    ensures m.CellItemAt(path).Some? ==> r == m.CellItemAt(path).value.ShouldHighlightCell(path)
  {
    match m.CellItemAt(path)
    case None => true
    case Some(item) => item.ShouldHighlightCell(path)
  }

  /** `willSelectRowAt`: the item's answer, the proposed path itself when there is no item. */
  function WillSelectRowAt(m: TableViewManager, path: IndexPath): (r: Option<IndexPath>)
    reads m, m.sectionItems, ItemFrame(m, path)
    ensures m.CellItemAt(path).None? ==> r == Some(path)
    ensures m.CellItemAt(path).Some? ==> r == m.CellItemAt(path).value.WillSelectCell(path)
  {
    match m.CellItemAt(path)
    case None => Some(path)
    case Some(item) => item.WillSelectCell(path)
  }

  function WillDeselectRowAt(m: TableViewManager, path: IndexPath): (r: Option<IndexPath>)
    reads m, m.sectionItems, ItemFrame(m, path)
    ensures m.CellItemAt(path).None? ==> r == Some(path)
    ensures m.CellItemAt(path).Some? ==> r == m.CellItemAt(path).value.WillDeselectCell(path)
  {
    match m.CellItemAt(path)
    case None => Some(path)
    case Some(item) => item.WillDeselectCell(path)
  }

  /** `didHighlightRowAt` and the other three row notifications: whatever the item's requirement
      does, nothing when there is no item. */
  function DidHighlightRowAt(m: TableViewManager, path: IndexPath): (r: Option<Invocation>)
    reads m, m.sectionItems, ItemFrame(m, path)
    ensures m.CellItemAt(path).None? ==> r.None?
    ensures m.CellItemAt(path).Some? ==> r == m.CellItemAt(path).value.DidHighlightCell(path)
  {
    match m.CellItemAt(path)
    case None => None
    case Some(item) => item.DidHighlightCell(path)
  }

  function DidUnhighlightRowAt(m: TableViewManager, path: IndexPath): (r: Option<Invocation>)
    reads m, m.sectionItems, ItemFrame(m, path)
    ensures m.CellItemAt(path).None? ==> r.None?
    ensures m.CellItemAt(path).Some? ==> r == m.CellItemAt(path).value.DidUnhighlightCell(path)
  {
    match m.CellItemAt(path)
    case None => None
    case Some(item) => item.DidUnhighlightCell(path)
  }

  function DidSelectRowAt(m: TableViewManager, path: IndexPath): (r: Option<Invocation>)
    reads m, m.sectionItems, ItemFrame(m, path)
    ensures m.CellItemAt(path).None? ==> r.None?
    ensures m.CellItemAt(path).Some? ==> r == m.CellItemAt(path).value.DidSelectCell(path)
  {
    match m.CellItemAt(path)
    case None => None
    case Some(item) => item.DidSelectCell(path)
  }

  function DidDeselectRowAt(m: TableViewManager, path: IndexPath): (r: Option<Invocation>)
    reads m, m.sectionItems, ItemFrame(m, path)
    ensures m.CellItemAt(path).None? ==> r.None?
    ensures m.CellItemAt(path).Some? ==> r == m.CellItemAt(path).value.DidDeselectCell(path)
  {
    match m.CellItemAt(path)
    case None => None
    case Some(item) => item.DidDeselectCell(path)
  }

  /** `targetIndexPathForMoveFromRowAt`: the delegate's answer, the proposed destination without a
      delegate. */
  function TargetIndexPathForMove(m: TableViewManager, source: IndexPath, proposed: IndexPath): (r: IndexPath)
    reads m
    ensures m.delegate.None? ==> r == proposed
    ensures m.delegate.Some? ==> r == m.delegate.value.targetIndexPathForMove(source, proposed)
  {
    match m.delegate
    case None => proposed
    case Some(d) => d.targetIndexPathForMove(source, proposed)
  }

  // ---------------------------------------------------------------------------
  // Sections: the header and footer queries dereference the section object unconditionally and
  // pass on the section object's own answer

  function HeightForHeaderInSection(m: TableViewManager, section: nat): (r: real)
    reads m, m.sectionItems
    requires section < |m.sectionItems|
    ensures r == m.sectionItems[section].HeightForHeader()
    ensures m.sectionItems[section].own.heightForHeader.None? ==>
      (r == TitledHeight <==> m.sectionItems[section].kind == Standard && m.sectionItems[section].headerTitle.Some?)
    ensures m.sectionItems[section].own.heightForHeader.None? ==>
      (r == 0.0 <==> !(m.sectionItems[section].kind == Standard && m.sectionItems[section].headerTitle.Some?))
  {
    m.sectionItems[section].HeightForHeader()
  }

  function HeightForFooterInSection(m: TableViewManager, section: nat): (r: real)
    reads m, m.sectionItems
    requires section < |m.sectionItems|
    ensures r == m.sectionItems[section].HeightForFooter()
    ensures m.sectionItems[section].own.heightForFooter.None? ==>
      (r == TitledHeight <==> m.sectionItems[section].kind == Standard && m.sectionItems[section].footerTitle.Some?)
    ensures m.sectionItems[section].own.heightForFooter.None? ==>
      (r == 0.0 <==> !(m.sectionItems[section].kind == Standard && m.sectionItems[section].footerTitle.Some?))
  {
    m.sectionItems[section].HeightForFooter()
  }

  function ViewForHeaderInSection(m: TableViewManager, section: nat): (r: Option<View>)
    reads m
    requires section < |m.sectionItems|
    ensures r == m.sectionItems[section].ViewForHeader()
    ensures m.sectionItems[section].own.viewForHeader.None? ==> r.None?
  {
    m.sectionItems[section].ViewForHeader()
  }

  function ViewForFooterInSection(m: TableViewManager, section: nat): (r: Option<View>)
    reads m
    requires section < |m.sectionItems|
    ensures r == m.sectionItems[section].ViewForFooter()
    ensures m.sectionItems[section].own.viewForFooter.None? ==> r.None?
  {
    m.sectionItems[section].ViewForFooter()
  }

  /** The header/footer-display capability of the section object at an index, if both exist. */
  function DisplayingAt(m: TableViewManager, section: nat): (r: Option<HeaderFooterHooks>)
    reads m
    ensures r.Some? <==> section < |m.sectionItems| && m.sectionItems[section].displaying.Some?
    ensures r.Some? ==> r == m.sectionItems[section].displaying
  {
    match m.SectionAt(section)
    case None => None
    case Some(sec) => sec.displaying
  }

  /** Running an optional section hook: it runs exactly when it is set. */
  function RunAtSection(h: Option<Handler>, section: nat): (r: Option<Invocation>)
    ensures r.Some? <==> h.Some?
    ensures r.Some? ==> r.value == AtSection(h.value, section)
  {
    if h.Some? then Some(AtSection(h.value, section)) else None
  }

  /** `willDisplayHeaderView`: reaches the section object only when it has the capability and its
      type gives the hook a body. */
  function WillDisplayHeaderView(m: TableViewManager, section: nat): (r: Option<Invocation>)
    reads m
    ensures r.Some? <==> DisplayingAt(m, section).Some? && DisplayingAt(m, section).value.willDisplayHeader.Some?
    ensures r.Some? ==> r.value == AtSection(DisplayingAt(m, section).value.willDisplayHeader.value, section)
  {
    match DisplayingAt(m, section)
    case None => None
    case Some(hooks) => RunAtSection(hooks.willDisplayHeader, section)
  }

  function WillDisplayFooterView(m: TableViewManager, section: nat): (r: Option<Invocation>)
    reads m
    ensures r.Some? <==> DisplayingAt(m, section).Some? && DisplayingAt(m, section).value.willDisplayFooter.Some?
    ensures r.Some? ==> r.value == AtSection(DisplayingAt(m, section).value.willDisplayFooter.value, section)
  {
    match DisplayingAt(m, section)
    case None => None
    case Some(hooks) => RunAtSection(hooks.willDisplayFooter, section)
  }

  function DidEndDisplayingHeaderView(m: TableViewManager, section: nat): (r: Option<Invocation>)
    reads m
    ensures r.Some? <==> DisplayingAt(m, section).Some? && DisplayingAt(m, section).value.didEndDisplayingHeader.Some?
    ensures r.Some? ==> r.value == AtSection(DisplayingAt(m, section).value.didEndDisplayingHeader.value, section)
  {
    match DisplayingAt(m, section)
    case None => None
    case Some(hooks) => RunAtSection(hooks.didEndDisplayingHeader, section)
  }

  function DidEndDisplayingFooterView(m: TableViewManager, section: nat): (r: Option<Invocation>)
    reads m
    ensures r.Some? <==> DisplayingAt(m, section).Some? && DisplayingAt(m, section).value.didEndDisplayingFooter.Some?
    ensures r.Some? ==> r.value == AtSection(DisplayingAt(m, section).value.didEndDisplayingFooter.value, section)
  {
    match DisplayingAt(m, section)
    case None => None
    case Some(hooks) => RunAtSection(hooks.didEndDisplayingFooter, section)
  }

  // ---------------------------------------------------------------------------
  // Editing and the copy/paste menu

  function EditActionsForRowAt(m: TableViewManager, path: IndexPath): (r: Option<seq<RowAction>>)
    reads m, m.sectionItems
    ensures m.EditingAt(path).None? ==> r.None?
    ensures m.EditingAt(path).Some? ==> r == m.EditingAt(path).value.editActions(path)
  {
    match m.EditingAt(path)
    case None => None
    case Some(cap) => cap.editActions(path)
  }

  function ShouldIndentWhileEditingRowAt(m: TableViewManager, path: IndexPath): (r: bool)
    reads m, m.sectionItems
    ensures m.EditingAt(path).None? ==> r
    ensures m.EditingAt(path).Some? ==> r == m.EditingAt(path).value.shouldIndentWhileEditing(path)
  {
    match m.EditingAt(path)
    case None => true
    case Some(cap) => cap.shouldIndentWhileEditing(path)
  }

  function WillBeginEditingRowAt(m: TableViewManager, path: IndexPath): (r: Option<Invocation>)
    reads m, m.sectionItems
    ensures r.Some? <==> m.EditingAt(path).Some? && m.EditingAt(path).value.willBeginEditing.Some?
    ensures r.Some? ==> r.value == AtRow(m.EditingAt(path).value.willBeginEditing.value, path)
  {
    match m.EditingAt(path)
    case None => None
    case Some(cap) => RunAtRow(cap.willBeginEditing, path)
  }

  /** `didEndEditingRowAt` also takes a missing path, and then does nothing. */
  function DidEndEditingRowAt(m: TableViewManager, path: Option<IndexPath>): (r: Option<Invocation>)
    reads m, m.sectionItems
    ensures path.None? ==> r.None?
    ensures r.Some? <==> path.Some? && m.EditingAt(path.value).Some? && m.EditingAt(path.value).value.didEndEditing.Some?
    ensures r.Some? ==> r.value == AtRow(m.EditingAt(path.value).value.didEndEditing.value, path.value)
  {
    match path
    case None => None
    case Some(p) =>
      match m.EditingAt(p)
      case None => None
      case Some(cap) => RunAtRow(cap.didEndEditing, p)
  }

  function EditingStyleForRowAt(m: TableViewManager, path: IndexPath): (r: EditingStyle)
    reads m, m.sectionItems
    ensures m.EditingAt(path).None? ==> r == StyleDelete
    ensures m.EditingAt(path).Some? ==> r == m.EditingAt(path).value.editingStyle(path)
  {
    match m.EditingAt(path)
    case None => StyleDelete
    case Some(cap) => cap.editingStyle(path)
  }

  function TitleForDeleteConfirmationButton(m: TableViewManager, path: IndexPath): (r: Option<string>)
    reads m, m.sectionItems
    ensures m.EditingAt(path).None? ==> r.None?
    ensures m.EditingAt(path).Some? ==> r == m.EditingAt(path).value.deleteConfirmationTitle(path)
  {
    match m.EditingAt(path)
    case None => None
    case Some(cap) => cap.deleteConfirmationTitle(path)
  }

  function ShouldShowMenuForRowAt(m: TableViewManager, path: IndexPath): (r: bool)
    reads m, m.sectionItems
    ensures m.EditingAt(path).None? ==> !r
    ensures m.EditingAt(path).Some? ==> r == m.EditingAt(path).value.shouldShowMenu(path)
  {
    match m.EditingAt(path)
    case None => false
    case Some(cap) => cap.shouldShowMenu(path)
  }

  function CanPerformAction(m: TableViewManager, action: Selector, path: IndexPath): (r: bool)
    reads m, m.sectionItems
    ensures m.EditingAt(path).None? ==> !r
    ensures m.EditingAt(path).Some? ==> r == m.EditingAt(path).value.canPerformAction(action, path)
  {
    match m.EditingAt(path)
    case None => false
    case Some(cap) => cap.canPerformAction(action, path)
  }

  function PerformAction(m: TableViewManager, action: Selector, path: IndexPath): (r: Option<Invocation>)
    reads m, m.sectionItems
    ensures r.Some? <==> m.EditingAt(path).Some? && m.EditingAt(path).value.performAction.Some?
    ensures r.Some? ==> r.value == AtAction(m.EditingAt(path).value.performAction.value, action, path)
  {
    match m.EditingAt(path)
    case None => None
    case Some(cap) =>
      match cap.performAction
      case None => None
      case Some(h) => Some(AtAction(h, action, path))
  }

  // ---------------------------------------------------------------------------
  // What the table view can tell apart

  /** An item that keeps every protocol default answers the row and edit queries exactly as if
      there were no item at all, except for the estimated height: 2 for the default item, 0 for
      a missing one. */
  lemma DefaultItemLooksAbsent(m: TableViewManager, path: IndexPath, other: IndexPath,
                               editActions: IndexPath -> Option<seq<RowAction>>, action: Selector)
    requires m.CellItemAt(path).Some? && m.CellItemAt(other).None?
    requires var item := m.CellItemAt(path).value;
      && item.estimatedHeight == 2.0 && (forall p :: item.indentationLevel(p) == 0)
      && item.willDisplay.None? && item.didEndDisplaying.None?
      && item.shouldHighlightHandler.None? && item.didHighlightHandler.None? && item.didUnhighlightHandler.None?
      && item.willSelectHandler.None? && item.willDeselectHandler.None?
      && item.didSelectHandler.None? && item.didDeselectHandler.None?
      && item.resolvers.KeepsDefaults()
      && item.editing == Some(DefaultEditCapability(editActions))
    ensures ShouldHighlightRowAt(m, path) == ShouldHighlightRowAt(m, other)
    ensures WillSelectRowAt(m, path) == Some(path) && WillSelectRowAt(m, other) == Some(other)
    ensures WillDeselectRowAt(m, path) == Some(path) && WillDeselectRowAt(m, other) == Some(other)
    ensures DidSelectRowAt(m, path) == DidSelectRowAt(m, other) == None
    ensures WillDisplay(m, path) == WillDisplay(m, other) == None
    ensures IndentationLevelForRowAt(m, path) == IndentationLevelForRowAt(m, other)
    ensures EstimatedHeightForRowAt(m, path) == 2.0 && EstimatedHeightForRowAt(m, other) == 0.0
    ensures EditingStyleForRowAt(m, path) == EditingStyleForRowAt(m, other)
    ensures ShouldIndentWhileEditingRowAt(m, path) == ShouldIndentWhileEditingRowAt(m, other)
    ensures TitleForDeleteConfirmationButton(m, path) == TitleForDeleteConfirmationButton(m, other)
    ensures ShouldShowMenuForRowAt(m, path) == ShouldShowMenuForRowAt(m, other)
    ensures CanPerformAction(m, action, path) == CanPerformAction(m, action, other)
    ensures PerformAction(m, action, path) == PerformAction(m, action, other)
    ensures WillBeginEditingRowAt(m, path) == WillBeginEditingRowAt(m, other)
  {
  }
}
