/** Section items: each owns a mutable sequence of cell items and answers the header/footer
    queries. Every conformer of the section-item protocol, and every subclass of the library's
    open `TableViewSectionItem`, may answer any of the six header/footer requirements itself; what
    it does not answer it inherits, from the protocol extension or from `TableViewSectionItem`,
    whose answers follow its optional titles. */
module SectionItems {
  import opened Foundation
  import opened CellItems

  /** What a section object inherits the answers it does not give itself from: the protocol
      extension, or the library's `TableViewSectionItem`. */
  datatype SectionKind = ProtocolDefaults | Standard

  /** An opaque header or footer `UIView`. */
  datatype View = View(id: nat)

  /** A section type's own answers to the six header/footer requirements; None means the type does
      not implement that requirement and inherits it. */
  datatype HeaderFooterAnswers = HeaderFooterAnswers(
    titleForHeader: Option<Option<string>>,
    heightForHeader: Option<real>,
    viewForHeader: Option<Option<View>>,
    titleForFooter: Option<Option<string>>,
    heightForFooter: Option<real>,
    viewForFooter: Option<Option<View>>)
  {
    /** The type implements none of the six requirements. */
    predicate InheritsAll()
    {
      && titleForHeader.None? && heightForHeader.None? && viewForHeader.None?
      && titleForFooter.None? && heightForFooter.None? && viewForFooter.None?
    }
  }

  /** The answers of a type that implements no header/footer requirement itself. */
  function Inherited(): (r: HeaderFooterAnswers)
    ensures r.InheritsAll()
  {
    HeaderFooterAnswers(None, None, None, None, None, None)
  }

  /** The four notifications of the header/footer-display protocol; None is its empty default. */
  datatype HeaderFooterHooks = HeaderFooterHooks(
    willDisplayHeader: Option<Handler>,
    willDisplayFooter: Option<Handler>,
    didEndDisplayingHeader: Option<Handler>,
    didEndDisplayingFooter: Option<Handler>)

  /** The header height `TableViewSectionItem` gives a titled header or footer. */
  const TitledHeight: real := 22.0

  /** A section object, shared by reference: the manager and every caller holding it see the same
      `cellItems`. */
  class SectionItem {
    const kind: SectionKind
    const own: HeaderFooterAnswers
    const displaying: Option<HeaderFooterHooks>
    var cellItems: seq<CellItem>
    var headerTitle: Option<string>
    var footerTitle: Option<string>

    /** `TableViewSectionItem(cellItems:)`; `TableViewSectionItem()` is this with []. Both titles
        start unset. */
    constructor (cellItems: seq<CellItem>)
      ensures kind == Standard && own.InheritsAll() && displaying.None?
      ensures this.cellItems == cellItems
      ensures headerTitle.None? && footerTitle.None?
    {
      kind := Standard;
      own := Inherited();
      displaying := None;
      this.cellItems := cellItems;
      headerTitle := None;
      footerTitle := None;
    }

    /** An instance of a subclass of `TableViewSectionItem` that overrides the requirements `own`
        answers, and optionally adopts the header/footer-display protocol. */
    constructor Subclass(cellItems: seq<CellItem>, own: HeaderFooterAnswers, displaying: Option<HeaderFooterHooks>)
      ensures kind == Standard && this.own == own && this.displaying == displaying
      ensures this.cellItems == cellItems
      ensures headerTitle.None? && footerTitle.None?
    {
      kind := Standard;
      this.own := own;
      this.displaying := displaying;
      this.cellItems := cellItems;
      headerTitle := None;
      footerTitle := None;
    }

    /** A conformer of the section-item protocol of its own: it implements `cellItems` and the
        requirements `own` answers, and optionally adopts the header/footer-display protocol. */
    constructor Conforming(cellItems: seq<CellItem>, own: HeaderFooterAnswers, displaying: Option<HeaderFooterHooks>)
      ensures kind == ProtocolDefaults && this.own == own && this.displaying == displaying
      ensures this.cellItems == cellItems
      ensures headerTitle.None? && footerTitle.None?
    {
      kind := ProtocolDefaults;
      this.own := own;
      this.displaying := displaying;
      this.cellItems := cellItems;
      headerTitle := None;
      footerTitle := None;
    }

    /** `titleForHeader`: the type's own answer; inherited, `TableViewSectionItem` force-unwraps
        `headerTitle` and the protocol default is nil. */
    function TitleForHeader(): (r: Option<string>)
      reads this
      requires own.titleForHeader.None? && kind == Standard ==> headerTitle.Some?
      ensures own.titleForHeader.Some? ==> r == own.titleForHeader.value
      ensures own.titleForHeader.None? && kind == ProtocolDefaults ==> r.None?
      ensures own.titleForHeader.None? && kind == Standard ==> r == headerTitle && r.Some?
    {
      match own.titleForHeader
      case Some(t) => t
      case None => if kind == Standard then Some(headerTitle.value) else None
    }

    function TitleForFooter(): (r: Option<string>)
      reads this
      requires own.titleForFooter.None? && kind == Standard ==> footerTitle.Some?
      ensures own.titleForFooter.Some? ==> r == own.titleForFooter.value
      ensures own.titleForFooter.None? && kind == ProtocolDefaults ==> r.None?
      ensures own.titleForFooter.None? && kind == Standard ==> r == footerTitle && r.Some?
    {
      match own.titleForFooter
      case Some(t) => t
      case None => if kind == Standard then Some(footerTitle.value) else None
    }

    /** `heightForHeader`: the type's own answer; inherited, 22 exactly when a standard section has
        a header title, otherwise 0. */
    function HeightForHeader(): (r: real)
      reads this
      ensures own.heightForHeader.Some? ==> r == own.heightForHeader.value
      ensures own.heightForHeader.None? ==> (r == TitledHeight <==> kind == Standard && headerTitle.Some?)
      ensures own.heightForHeader.None? ==> (r == 0.0 <==> !(kind == Standard && headerTitle.Some?))
    {
      match own.heightForHeader
      case Some(h) => h
      case None => if kind == Standard && headerTitle.Some? then TitledHeight else 0.0
    }

    function HeightForFooter(): (r: real)
      reads this
      ensures own.heightForFooter.Some? ==> r == own.heightForFooter.value
      ensures own.heightForFooter.None? ==> (r == TitledHeight <==> kind == Standard && footerTitle.Some?)
      ensures own.heightForFooter.None? ==> (r == 0.0 <==> !(kind == Standard && footerTitle.Some?))
    {
      match own.heightForFooter
      case Some(h) => h
      case None => if kind == Standard && footerTitle.Some? then TitledHeight else 0.0
    }

    /** `viewForHeader`: the type's own answer; neither `TableViewSectionItem` nor the protocol
        default supplies a view. */
    function ViewForHeader(): (r: Option<View>)
      ensures own.viewForHeader.Some? ==> r == own.viewForHeader.value
      ensures own.viewForHeader.None? ==> r.None?
    {
      match own.viewForHeader
      case Some(v) => v
      case None => None
    }

    function ViewForFooter(): (r: Option<View>)
      ensures own.viewForFooter.Some? ==> r == own.viewForFooter.value
      ensures own.viewForFooter.None? ==> r.None?
    {
      match own.viewForFooter
      case Some(v) => v
      case None => None
    }
  }

  /** A `TableViewSectionItem` that overrides nothing has a header of height 22 exactly when it
      reports a header title, and never a header view; so does its footer. */
  lemma StandardTitleAndHeightAgree(sec: SectionItem)
    requires sec.kind == Standard && sec.own.InheritsAll()
    requires sec.headerTitle.Some? && sec.footerTitle.Some?
    ensures sec.HeightForHeader() == TitledHeight && sec.TitleForHeader() == sec.headerTitle
    ensures sec.HeightForFooter() == TitledHeight && sec.TitleForFooter() == sec.footerTitle
    ensures sec.ViewForHeader().None? && sec.ViewForFooter().None?
  {
  }

  /** A conformer that implements none of the requirements has no title, no height and no view,
      header or footer. */
  lemma DefaultsAnswerNothing(sec: SectionItem)
    requires sec.kind == ProtocolDefaults && sec.own.InheritsAll()
    ensures sec.TitleForHeader().None? && sec.HeightForHeader() == 0.0 && sec.ViewForHeader().None?
    ensures sec.TitleForFooter().None? && sec.HeightForFooter() == 0.0 && sec.ViewForFooter().None?
  {
  }
}
