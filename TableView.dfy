/** The UIKit table view as the manager sees it: an object that records every command it is sent,
    plus the `ReuseType` enum and the `register(by:)` / `update(_:)` helpers the library adds to it. */
module TableView {
  import opened Foundation

  /** `UITableViewCell.Type`; `NSStringFromClass` of it is its name. */
  datatype CellClass = CellClass(name: string)

  /** An opaque `UINib`. */
  datatype Nib = Nib(name: string)

  /** `UITableViewRowAnimation`. */
  datatype Animation = Fade | Right | Left | Top | Bottom | NoAnimation | Middle | Automatic

  /** `UITableViewScrollPosition`. */
  datatype ScrollPosition = NoPosition | AtTop | AtMiddle | AtBottom

  /** How the cells of an item are made: every case carries the reuse identifier. */
  datatype ReuseType =
    | ByStoryboard(identifier: string)
    | ByNib(nib: Nib, identifier: string)
    | ByClass(cellClass: CellClass, identifier: string)

  /** `ReuseType(cellClass:)`: a class-based reuse type named after the class. */
  function ReuseTypeOfClass(c: CellClass): (r: ReuseType)
    ensures r.ByClass? && r.cellClass == c
    ensures r.identifier == c.name
  {
    ByClass(c, c.name)
  }

  /** A command the table view received. `ReloadData` carries the row counts the data source reports
      when the table view reloads; `ScrollToRow` is the only geometry command. */
  datatype Event =
    | RegisterNib(nib: Nib, identifier: string)
    | RegisterClass(cellClass: CellClass, identifier: string)
    | BeginUpdates
    | EndUpdates
    | ReloadData(counts: seq<nat>)
    | InsertRows(paths: seq<IndexPath>, animation: Animation)
    | DeleteRows(paths: seq<IndexPath>, animation: Animation)
    | ReloadRows(paths: seq<IndexPath>, animation: Animation)
    | InsertSections(sections: seq<nat>, animation: Animation)
    | DeleteSections(sections: seq<nat>, animation: Animation)
    | ReloadSections(sections: seq<nat>, animation: Animation)
    | ScrollToRow(path: IndexPath, position: ScrollPosition, animated: bool)

  predicate IsRegistration(e: Event)
  {
    e.RegisterNib? || e.RegisterClass?
  }

  /** What `register(by:)` sends: one registration under the type's identifier for a nib or a
      class, nothing for a storyboard prototype. */
  function Registration(t: ReuseType): (r: seq<Event>)
    ensures |r| == if t.ByStoryboard? then 0 else 1
    ensures forall e :: e in r ==> IsRegistration(e) && e.identifier == t.identifier
    ensures t.ByNib? ==> r == [RegisterNib(t.nib, t.identifier)]
    ensures t.ByClass? ==> r == [RegisterClass(t.cellClass, t.identifier)]
  {
    match t
    case ByStoryboard(_) => []
    case ByNib(nib, id) => [RegisterNib(nib, id)]
    case ByClass(c, id) => [RegisterClass(c, id)]
  }

  /** `update(_:)`: the commands of the closure, between one `beginUpdates` and one `endUpdates`. */
  function Bracketed(body: seq<Event>): seq<Event>
  {
    [BeginUpdates] + body + [EndUpdates]
  }

  /** Sending `beginUpdates`, one command and `endUpdates` in turn is sending that command bracketed. */
  lemma SentBracketed(log: seq<Event>, e: Event)
    ensures log + [BeginUpdates] + [e] + [EndUpdates] == log + Bracketed([e])
  {
  }

  /** Sending `beginUpdates`, a body, one more command and `endUpdates` in turn is sending the
      body and that command bracketed. */
  lemma SentBracketedAfter(log: seq<Event>, body: seq<Event>, r: Event, e: Event)
    ensures log + [BeginUpdates] + body + [r] + [e] + [EndUpdates] == log + Bracketed(body + [r, e])
  {
  }

  lemma SentSectionBatch(log: seq<Event>, body: seq<Event>, r: Event, e: Event)
    ensures log + [BeginUpdates] + body + [r] + [e, EndUpdates] == log + Bracketed(body + [r, e])
  {
  }

  /** The number of batches opened by `beginUpdates` and not yet closed. */
  function OpenBatches(log: seq<Event>): int
  {
    if log == [] then 0
    else
      OpenBatches(log[..|log| - 1]) + BatchStep(log[|log| - 1])
  }

  function BatchStep(e: Event): int
  {
    match e
    case BeginUpdates => 1
    case EndUpdates => -1
    case _ => 0
  }

  /** Commands that neither open nor close a batch. */
  predicate Unbracketed(body: seq<Event>)
  {
    forall k :: 0 <= k < |body| ==> !body[k].BeginUpdates? && !body[k].EndUpdates?
  }

  lemma {:induction false} OpenBatchesAppend(a: seq<Event>, b: seq<Event>)
    ensures OpenBatches(a + b) == OpenBatches(a) + OpenBatches(b)
    decreases |b|
  {
    if b == [] {
      assert a + b == a;
    } else {
      var b' := b[..|b| - 1];
      assert (a + b)[..|a + b| - 1] == a + b';
      assert (a + b)[|a + b| - 1] == b[|b| - 1];
      OpenBatchesAppend(a, b');
      assert OpenBatches(a + b) == OpenBatches(a + b') + BatchStep(b[|b| - 1]);
      assert OpenBatches(b) == OpenBatches(b') + BatchStep(b[|b| - 1]);
    }
  }

  lemma {:induction false} UnbracketedBalanced(body: seq<Event>)
    requires Unbracketed(body)
    ensures OpenBatches(body) == 0
    decreases |body|
  {
    if body != [] {
      UnbracketedBalanced(body[..|body| - 1]);
    }
  }

  /** `update(_:)` opens exactly one batch and closes it again: the closure's commands appear once,
      after the `beginUpdates` and before the `endUpdates`, and the log is left as balanced as it was. */
  lemma BracketedCloses(log: seq<Event>, body: seq<Event>)
    requires Unbracketed(body)
    ensures OpenBatches(log + Bracketed(body)) == OpenBatches(log)
    ensures Bracketed(body)[0] == BeginUpdates && Bracketed(body)[|body| + 1] == EndUpdates
    ensures Bracketed(body)[1..|body| + 1] == body
  {
    UnbracketedBalanced(body);
    OpenBatchesAppend([BeginUpdates], body);
    OpenBatchesAppend([BeginUpdates] + body, [EndUpdates]);
    OpenBatchesAppend(log, Bracketed(body));
    assert OpenBatches([BeginUpdates]) == 1 by {
      assert [BeginUpdates][..0] == [];
    }
    assert OpenBatches([EndUpdates]) == -1 by {
      assert [EndUpdates][..0] == [];
    }
  }

  /** The table view: it keeps the commands it has been sent, in order. */
  class TableViewStub {
    var log: seq<Event>

    constructor()
      ensures log == []
    {
      log := [];
    }

    method Send(e: Event)
      modifies this
      ensures log == old(log) + [e]
    {
      log := log + [e];
    }

    /** `register(by:)`: it keeps no record of earlier registrations, so the same type registered
        twice is sent twice. */
    method RegisterBy(t: ReuseType)
      modifies this
      ensures log == old(log) + Registration(t)
    {
      match t
      case ByNib(nib, id) => Send(RegisterNib(nib, id));
      case ByClass(c, id) => Send(RegisterClass(c, id));
      case ByStoryboard(_) =>
    }
  }
}
