/** Cell items: the objects that answer for one row each. A cell item carries its reuse type, its
    answers to the row queries, seven optional handler closures the protocol extension stores per
    object, and, when its type adopts the edit-actions protocol, an edit capability. */
module CellItems {
  import opened Foundation
  import opened TableView

  /** An opaque closure or method body supplied by the app. */
  datatype Handler = Handler(id: nat)

  /** An opaque `Selector` of the copy/paste menu. */
  datatype Selector = Selector(name: string)

  /** A closure or method body that ran, with what it was given: a row, a section, a move from one
      row to another, or a menu action on a row. */
  datatype Invocation =
    | AtRow(handler: Handler, path: IndexPath)
    | AtSection(handler: Handler, section: nat)
    | AtMove(handler: Handler, source: IndexPath, destination: IndexPath)
    | AtAction(handler: Handler, action: Selector, path: IndexPath)

  /** `UITableViewCellEditingStyle`. */
  datatype EditingStyle = StyleNone | StyleDelete | StyleInsert

  /** An opaque `UITableViewRowAction`. */
  datatype RowAction = RowAction(title: string)

  /** The answers of a cell item that adopts the edit-actions protocol. The void requirements are
      hooks: None is the protocol extension's empty default, Some is the adopter's own body. */
  datatype EditCapability = EditCapability(
    canEdit: bool,
    canCommit: EditingStyle -> bool,
    editActions: IndexPath -> Option<seq<RowAction>>,
    editingStyle: IndexPath -> EditingStyle,
    deleteConfirmationTitle: IndexPath -> Option<string>,
    shouldIndentWhileEditing: IndexPath -> bool,
    willBeginEditing: Option<Handler>,
    didEndEditing: Option<Handler>,
    didRemove: Option<Handler>,
    didFinishRemovingAnimation: Option<Handler>,
    shouldShowMenu: IndexPath -> bool,
    canPerformAction: (Selector, IndexPath) -> bool,
    performAction: Option<Handler>)

  /** An adopter that relies on every default the protocol extension supplies. `editActions(in:at:)`
      has none (the extension's `editActions(in:)` has a different shape and is never asked), so the
      adopter must give it. */
  function DefaultEditCapability(editActions: IndexPath -> Option<seq<RowAction>>): (r: EditCapability)
    ensures !r.canEdit
    ensures forall style :: !r.canCommit(style)
    ensures r.editActions == editActions
    ensures forall p :: r.editingStyle(p) == StyleDelete
    ensures forall p :: r.deleteConfirmationTitle(p).None?
    ensures forall p :: r.shouldIndentWhileEditing(p)
    ensures r.willBeginEditing.None? && r.didEndEditing.None?
    ensures r.didRemove.None? && r.didFinishRemovingAnimation.None?
    ensures forall p :: !r.shouldShowMenu(p)
    ensures forall a, p :: !r.canPerformAction(a, p)
    ensures r.performAction.None?
  {
    EditCapability(
      false,
      _ => false,
      editActions,
      _ => StyleDelete,
      _ => None,
      _ => true,
      None, None, None, None,
      _ => false,
      (_, _) => false,
      None)
  }

  /** The extension's `editActions(in:)`, which no caller in the library reaches. */
  function UnusedEditActions(): (r: Option<seq<RowAction>>)
    ensures r.None?
  {
    None
  }

  /** Running an optional hook with a row: it runs exactly when it is set. */
  function RunAtRow(h: Option<Handler>, path: IndexPath): (r: Option<Invocation>)
    ensures r.Some? <==> h.Some?
    ensures r.Some? ==> r.value == AtRow(h.value, path)
  {
    if h.Some? then Some(AtRow(h.value, path)) else None
  }

  /** A cell item type's own bodies for the seven requirements the protocol extension answers
      through the stored handlers; None means the type keeps the extension's body. */
  datatype ResolverOverrides = ResolverOverrides(
    shouldHighlight: Option<IndexPath -> bool>,
    didHighlight: Option<Handler>,
    didUnhighlight: Option<Handler>,
    willSelect: Option<IndexPath -> Option<IndexPath>>,
    willDeselect: Option<IndexPath -> Option<IndexPath>>,
    didSelect: Option<Handler>,
    didDeselect: Option<Handler>)
  {
    /** The type overrides none of the seven. */
    predicate KeepsDefaults()
    {
      && shouldHighlight.None? && didHighlight.None? && didUnhighlight.None?
      && willSelect.None? && willDeselect.None? && didSelect.None? && didDeselect.None?
    }
  }

  /** The overrides of a type that keeps every handler-driven body of the extension. */
  function NoOverrides(): (r: ResolverOverrides)
    ensures r.KeepsDefaults()
  {
    ResolverOverrides(None, None, None, None, None, None, None)
  }

  /** A cell item. The row answers are fixed by the item's type; the handlers are settable. */
  class CellItem {
    const reuseType: ReuseType
    const height: real
    const estimatedHeight: real
    const indentationLevel: IndexPath -> int
    const canMoveRow: IndexPath -> bool
    const willDisplay: Option<Handler>
    const didEndDisplaying: Option<Handler>
    const editing: Option<EditCapability>
    const resolvers: ResolverOverrides

    var shouldHighlightHandler: Option<IndexPath -> bool>
    var didHighlightHandler: Option<Handler>
    var didUnhighlightHandler: Option<Handler>
    var willSelectHandler: Option<IndexPath -> Option<IndexPath>>
    var willDeselectHandler: Option<IndexPath -> Option<IndexPath>>
    var didSelectHandler: Option<Handler>
    var didDeselectHandler: Option<Handler>

    /** An item that overrides only what the protocol requires (its reuse type and height): the
        extension's defaults give estimated height 2, indentation 0, no moving, empty display
        notifications and the handler-driven bodies; no handler is set yet. */
    constructor (reuseType: ReuseType, height: real, editing: Option<EditCapability>)
      ensures this.reuseType == reuseType && this.height == height && this.editing == editing
      ensures estimatedHeight == 2.0
      ensures forall p :: indentationLevel(p) == 0
      ensures forall p :: !canMoveRow(p)
      ensures willDisplay.None? && didEndDisplaying.None?
      ensures resolvers.KeepsDefaults()
      ensures shouldHighlightHandler.None? && didHighlightHandler.None? && didUnhighlightHandler.None?
      ensures willSelectHandler.None? && willDeselectHandler.None?
      ensures didSelectHandler.None? && didDeselectHandler.None?
    {
      this.reuseType := reuseType;
      this.height := height;
      this.estimatedHeight := 2.0;
      this.indentationLevel := _ => 0;
      this.canMoveRow := _ => false;
      this.willDisplay := None;
      this.didEndDisplaying := None;
      this.editing := editing;
      this.resolvers := NoOverrides();
      shouldHighlightHandler := None;
      didHighlightHandler := None;
      didUnhighlightHandler := None;
      willSelectHandler := None;
      willDeselectHandler := None;
      didSelectHandler := None;
      didDeselectHandler := None;
    }

    /** An item whose type overrides the estimated height, indentation, moving, the display
        notifications and whichever of the seven handler-driven requirements `resolvers` gives. */
    constructor Overriding(reuseType: ReuseType, height: real, estimatedHeight: real,
                           indentationLevel: IndexPath -> int, canMoveRow: IndexPath -> bool,
                           willDisplay: Option<Handler>, didEndDisplaying: Option<Handler>,
                           editing: Option<EditCapability>, resolvers: ResolverOverrides)
      ensures this.reuseType == reuseType && this.height == height && this.editing == editing
      ensures this.estimatedHeight == estimatedHeight && this.indentationLevel == indentationLevel
      ensures this.canMoveRow == canMoveRow
      ensures this.willDisplay == willDisplay && this.didEndDisplaying == didEndDisplaying
      ensures this.resolvers == resolvers
      ensures shouldHighlightHandler.None? && didHighlightHandler.None? && didUnhighlightHandler.None?
      ensures willSelectHandler.None? && willDeselectHandler.None?
      ensures didSelectHandler.None? && didDeselectHandler.None?
    {
      this.reuseType := reuseType;
      this.height := height;
      this.estimatedHeight := estimatedHeight;
      this.indentationLevel := indentationLevel;
      this.canMoveRow := canMoveRow;
      this.willDisplay := willDisplay;
      this.didEndDisplaying := didEndDisplaying;
      this.editing := editing;
      this.resolvers := resolvers;
      shouldHighlightHandler := None;
      didHighlightHandler := None;
      didUnhighlightHandler := None;
      willSelectHandler := None;
      willDeselectHandler := None;
      didSelectHandler := None;
      didDeselectHandler := None;
    }

    /** `shouldHighlightCell`: the type's own answer if it overrides it; otherwise the handler's
        answer when one is set, and yes when none is. */
    function ShouldHighlightCell(path: IndexPath): (r: bool)
      reads this
      ensures resolvers.shouldHighlight.Some? ==> r == resolvers.shouldHighlight.value(path)
      ensures resolvers.shouldHighlight.None? && shouldHighlightHandler.None? ==> r
      ensures resolvers.shouldHighlight.None? && shouldHighlightHandler.Some? ==>
                r == shouldHighlightHandler.value(path)
    {
      match resolvers.shouldHighlight
      case Some(f) => f(path)
      case None =>
        match shouldHighlightHandler
        case None => true
        case Some(h) => h(path)
    }

    /** `willSelectCell`: the type's own answer if it overrides it; otherwise the handler's answer
        when one is set, and the path it was given when none is. */
    function WillSelectCell(path: IndexPath): (r: Option<IndexPath>)
      reads this
      ensures resolvers.willSelect.Some? ==> r == resolvers.willSelect.value(path)
      ensures resolvers.willSelect.None? && willSelectHandler.None? ==> r == Some(path)
      ensures resolvers.willSelect.None? && willSelectHandler.Some? ==> r == willSelectHandler.value(path)
    {
      match resolvers.willSelect
      case Some(f) => f(path)
      case None =>
        match willSelectHandler
        case None => Some(path)
        case Some(h) => h(path)
    }

    /** `willDeselectCell`: as `willSelectCell`, with its own override and handler. */
    function WillDeselectCell(path: IndexPath): (r: Option<IndexPath>)
      reads this
      ensures resolvers.willDeselect.Some? ==> r == resolvers.willDeselect.value(path)
      ensures resolvers.willDeselect.None? && willDeselectHandler.None? ==> r == Some(path)
      ensures resolvers.willDeselect.None? && willDeselectHandler.Some? ==> r == willDeselectHandler.value(path)
    {
      match resolvers.willDeselect
      case Some(f) => f(path)
      case None =>
        match willDeselectHandler
        case None => Some(path)
        case Some(h) => h(path)
    }

    /** `didHighlightCell` and the other three notifications: the type's own body runs if it
        overrides the requirement; otherwise the handler runs exactly when one is set. */
    function DidHighlightCell(path: IndexPath): (r: Option<Invocation>)
      reads this
      ensures resolvers.didHighlight.Some? ==> r == Some(AtRow(resolvers.didHighlight.value, path))
      ensures resolvers.didHighlight.None? ==> (r.Some? <==> didHighlightHandler.Some?)
      ensures resolvers.didHighlight.None? && r.Some? ==> r.value == AtRow(didHighlightHandler.value, path)
    {
      match resolvers.didHighlight
      case Some(b) => Some(AtRow(b, path))
      case None => RunAtRow(didHighlightHandler, path)
    }

    function DidUnhighlightCell(path: IndexPath): (r: Option<Invocation>)
      reads this
      ensures resolvers.didUnhighlight.Some? ==> r == Some(AtRow(resolvers.didUnhighlight.value, path))
      ensures resolvers.didUnhighlight.None? ==> (r.Some? <==> didUnhighlightHandler.Some?)
      ensures resolvers.didUnhighlight.None? && r.Some? ==> r.value == AtRow(didUnhighlightHandler.value, path)
    {
      match resolvers.didUnhighlight
      case Some(b) => Some(AtRow(b, path))
      case None => RunAtRow(didUnhighlightHandler, path)
    }

    function DidSelectCell(path: IndexPath): (r: Option<Invocation>)
      reads this
      ensures resolvers.didSelect.Some? ==> r == Some(AtRow(resolvers.didSelect.value, path))
      ensures resolvers.didSelect.None? ==> (r.Some? <==> didSelectHandler.Some?)
      ensures resolvers.didSelect.None? && r.Some? ==> r.value == AtRow(didSelectHandler.value, path)
    {
      match resolvers.didSelect
      case Some(b) => Some(AtRow(b, path))
      case None => RunAtRow(didSelectHandler, path)
    }

    function DidDeselectCell(path: IndexPath): (r: Option<Invocation>)
      reads this
      ensures resolvers.didDeselect.Some? ==> r == Some(AtRow(resolvers.didDeselect.value, path))
      ensures resolvers.didDeselect.None? ==> (r.Some? <==> didDeselectHandler.Some?)
      ensures resolvers.didDeselect.None? && r.Some? ==> r.value == AtRow(didDeselectHandler.value, path)
    {
      match resolvers.didDeselect
      case Some(b) => Some(AtRow(b, path))
      case None => RunAtRow(didDeselectHandler, path)
    }

    /** `willDisplayCell` / `didEndDisplayingCell`: empty unless the item's type overrides them. */
    function WillDisplayCell(path: IndexPath): (r: Option<Invocation>)
      ensures r.Some? <==> willDisplay.Some?
      ensures r.Some? ==> r.value == AtRow(willDisplay.value, path)
    {
      RunAtRow(willDisplay, path)
    }

    function DidEndDisplayingCell(path: IndexPath): (r: Option<Invocation>)
      ensures r.Some? <==> didEndDisplaying.Some?
      ensures r.Some? ==> r.value == AtRow(didEndDisplaying.value, path)
    {
      RunAtRow(didEndDisplaying, path)
    }

    /** Setting the should-highlight handler: each handler has its own storage, so the other six
        keep their values and a later read gives the value set. */
    method SetShouldHighlightHandler(h: Option<IndexPath -> bool>)
      modifies this
      ensures shouldHighlightHandler == h
      ensures didHighlightHandler == old(didHighlightHandler)
      ensures didUnhighlightHandler == old(didUnhighlightHandler)
      ensures willSelectHandler == old(willSelectHandler)
      ensures willDeselectHandler == old(willDeselectHandler)
      ensures didSelectHandler == old(didSelectHandler)
      ensures didDeselectHandler == old(didDeselectHandler)
    {
      shouldHighlightHandler := h;
    }

    method SetDidHighlightHandler(h: Option<Handler>)
      modifies this
      ensures didHighlightHandler == h
      ensures shouldHighlightHandler == old(shouldHighlightHandler)
      ensures didUnhighlightHandler == old(didUnhighlightHandler)
      ensures willSelectHandler == old(willSelectHandler)
      ensures willDeselectHandler == old(willDeselectHandler)
      ensures didSelectHandler == old(didSelectHandler)
      ensures didDeselectHandler == old(didDeselectHandler)
    {
      didHighlightHandler := h;
    }

    method SetDidUnhighlightHandler(h: Option<Handler>)
      modifies this
      ensures didUnhighlightHandler == h
      ensures shouldHighlightHandler == old(shouldHighlightHandler)
      ensures didHighlightHandler == old(didHighlightHandler)
      ensures willSelectHandler == old(willSelectHandler)
      ensures willDeselectHandler == old(willDeselectHandler)
      ensures didSelectHandler == old(didSelectHandler)
      ensures didDeselectHandler == old(didDeselectHandler)
    {
      didUnhighlightHandler := h;
    }

    method SetWillSelectHandler(h: Option<IndexPath -> Option<IndexPath>>)
      modifies this
      ensures willSelectHandler == h
      ensures shouldHighlightHandler == old(shouldHighlightHandler)
      ensures didHighlightHandler == old(didHighlightHandler)
      ensures didUnhighlightHandler == old(didUnhighlightHandler)
      ensures willDeselectHandler == old(willDeselectHandler)
      ensures didSelectHandler == old(didSelectHandler)
      ensures didDeselectHandler == old(didDeselectHandler)
    {
      willSelectHandler := h;
    }

    method SetWillDeselectHandler(h: Option<IndexPath -> Option<IndexPath>>)
      modifies this
      ensures willDeselectHandler == h
      ensures shouldHighlightHandler == old(shouldHighlightHandler)
      ensures didHighlightHandler == old(didHighlightHandler)
      ensures didUnhighlightHandler == old(didUnhighlightHandler)
      ensures willSelectHandler == old(willSelectHandler)
      ensures didSelectHandler == old(didSelectHandler)
      ensures didDeselectHandler == old(didDeselectHandler)
    {
      willDeselectHandler := h;
    }

    method SetDidSelectHandler(h: Option<Handler>)
      modifies this
      ensures didSelectHandler == h
      ensures shouldHighlightHandler == old(shouldHighlightHandler)
      ensures didHighlightHandler == old(didHighlightHandler)
      ensures didUnhighlightHandler == old(didUnhighlightHandler)
      ensures willSelectHandler == old(willSelectHandler)
      ensures willDeselectHandler == old(willDeselectHandler)
      ensures didDeselectHandler == old(didDeselectHandler)
    {
      didSelectHandler := h;
    }

    method SetDidDeselectHandler(h: Option<Handler>)
      modifies this
      ensures didDeselectHandler == h
      ensures shouldHighlightHandler == old(shouldHighlightHandler)
      ensures didHighlightHandler == old(didHighlightHandler)
      ensures didUnhighlightHandler == old(didUnhighlightHandler)
      ensures willSelectHandler == old(willSelectHandler)
      ensures willDeselectHandler == old(willDeselectHandler)
      ensures didSelectHandler == old(didSelectHandler)
    {
      didDeselectHandler := h;
    }
  }
}
