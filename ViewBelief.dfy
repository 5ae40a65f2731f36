/** What the table view believes the row counts are, replayed from the commands it has received.
    `reloadData` makes it ask the data source afresh; `insertRows` / `deleteRows` adjust one section
    by one row per index path; `reloadRows` must name rows it already has. Section deltas are not
    replayed: after one the belief is unknown. */
module ViewBelief {
  import opened Foundation
  import opened TableView

  /** One more row in each path's section; None once a path names a section the view lacks. */
  function InsertRowsInto(c: seq<nat>, paths: seq<IndexPath>): Option<seq<nat>>
    decreases |paths|
  {
    if paths == [] then Some(c)
    else
      match InsertRowsInto(c, paths[..|paths| - 1])
      case None => None
      case Some(c') =>
        var s := paths[|paths| - 1].section;
        if s < |c'| then Some(c'[s := c'[s] + 1]) else None
  }

  /** One row fewer in each path's section; None once a path names a section the view lacks or one
      it believes empty. */
  function DeleteRowsFrom(c: seq<nat>, paths: seq<IndexPath>): Option<seq<nat>>
    decreases |paths|
  {
    if paths == [] then Some(c)
    else
      match DeleteRowsFrom(c, paths[..|paths| - 1])
      case None => None
      case Some(c') =>
        var s := paths[|paths| - 1].section;
        if s < |c'| && c'[s] > 0 then Some(c'[s := c'[s] - 1]) else None
  }

  /** Every path names a row the view believes it has. */
  predicate RowsExist(c: seq<nat>, paths: seq<IndexPath>)
  {
    forall k :: 0 <= k < |paths| ==> paths[k].section < |c| && paths[k].row < c[paths[k].section]
  }

  /** The belief after one more command. */
  function Apply(b: Option<seq<nat>>, e: Event): Option<seq<nat>>
  {
    match e
    case ReloadData(c) => Some(c)
    case InsertRows(paths, _) => if b.Some? then InsertRowsInto(b.value, paths) else None
    case DeleteRows(paths, _) => if b.Some? then DeleteRowsFrom(b.value, paths) else None
    case ReloadRows(paths, _) => if b.Some? && RowsExist(b.value, paths) then b else None
    case InsertSections(_, _) => None
    case DeleteSections(_, _) => None
    case ReloadSections(_, _) => None
    case _ => b
  }

  /** The belief after a whole log; before the first `reloadData` the view knows nothing. */
  function Belief(log: seq<Event>): Option<seq<nat>>
  {
    if log == [] then None else Apply(Belief(log[..|log| - 1]), log[|log| - 1])
  }

  lemma BeliefAppend(log: seq<Event>, e: Event)
    ensures Belief(log + [e]) == Apply(Belief(log), e)
  {
    assert (log + [e])[..|log|] == log;
  }

  /** Registrations do not change what the view believes. */
  lemma {:induction false} BeliefIgnoresRegistrations(log: seq<Event>, regs: seq<Event>)
    requires forall k :: 0 <= k < |regs| ==> IsRegistration(regs[k])
    ensures Belief(log + regs) == Belief(log)
    decreases |regs|
  {
    if regs == [] {
      assert log + regs == log;
    } else {
      var r' := regs[..|regs| - 1];
      assert log + regs == (log + r') + [regs[|regs| - 1]];
      BeliefIgnoresRegistrations(log, r');
      BeliefAppend(log + r', regs[|regs| - 1]);
    }
  }

  /** A batch holding one delta leaves the view believing what that delta alone makes of it. */
  lemma BeliefOfBracket(log: seq<Event>, e: Event)
    requires !e.BeginUpdates? && !e.EndUpdates?
    ensures Belief(log + Bracketed([e])) == Apply(Belief(log), e)
  {
    assert log + Bracketed([e]) == ((log + [BeginUpdates]) + [e]) + [EndUpdates];
    BeliefAppend(log, BeginUpdates);
    BeliefAppend(log + [BeginUpdates], e);
    BeliefAppend((log + [BeginUpdates]) + [e], EndUpdates);
  }

  /** An empty batch leaves the belief alone. */
  lemma BeliefOfEmptyBracket(log: seq<Event>)
    ensures Belief(log + Bracketed([])) == Belief(log)
  {
    assert log + Bracketed([]) == (log + [BeginUpdates]) + [EndUpdates];
    BeliefAppend(log, BeginUpdates);
    BeliefAppend(log + [BeginUpdates], EndUpdates);
  }

  /** Paths that all lie in section s. */
  predicate AllInSection(paths: seq<IndexPath>, s: nat)
  {
    forall k :: 0 <= k < |paths| ==> paths[k].section == s
  }

  /** Inserting n rows into one existing section raises exactly that section's count by n. */
  lemma {:induction false} InsertRowsInSection(c: seq<nat>, paths: seq<IndexPath>, s: nat)
    requires s < |c| && AllInSection(paths, s)
    ensures InsertRowsInto(c, paths) == Some(c[s := c[s] + |paths|])
    decreases |paths|
  {
    if paths == [] {
      assert c[s := c[s]] == c;
    } else {
      var p' := paths[..|paths| - 1];
      InsertRowsInSection(c, p', s);
      var c' := c[s := c[s] + |p'|];
      assert paths[|paths| - 1].section == s;
      assert c'[s := c'[s] + 1] == c[s := c[s] + |paths|];
    }
  }

  /** Deleting n rows from one section that has at least n lowers exactly its count by n. */
  lemma {:induction false} DeleteRowsInSection(c: seq<nat>, paths: seq<IndexPath>, s: nat)
    requires s < |c| && AllInSection(paths, s) && |paths| <= c[s]
    ensures DeleteRowsFrom(c, paths) == Some(c[s := c[s] - |paths|])
    decreases |paths|
  {
    if paths == [] {
      assert c[s := c[s]] == c;
    } else {
      var p' := paths[..|paths| - 1];
      DeleteRowsInSection(c, p', s);
      var c' := c[s := c[s] - |p'|];
      assert paths[|paths| - 1].section == s;
      assert c'[s := c'[s] - 1] == c[s := c[s] - |paths|];
    }
  }

  /** Deleting more rows than a section holds leaves the view inconsistent. */
  lemma {:induction false} DeleteTooManyRows(c: seq<nat>, paths: seq<IndexPath>, s: nat)
    requires s < |c| && AllInSection(paths, s) && |paths| > c[s]
    ensures DeleteRowsFrom(c, paths) == None
    decreases |paths|
  {
    var p' := paths[..|paths| - 1];
    if |p'| > c[s] {
      DeleteTooManyRows(c, p', s);
    } else {
      DeleteRowsInSection(c, p', s);
    }
  }
  /** A batch deleting n rows of one section that has at least n takes n off that section's count. */
  lemma DeleteBatch(log: seq<Event>, c: seq<nat>, paths: seq<IndexPath>, s: nat, n: nat, animation: Animation)
    requires Belief(log) == Some(c)
    requires s < |c| && AllInSection(paths, s) && n + |paths| == c[s]
    ensures Belief(log + Bracketed([DeleteRows(paths, animation)])) == Some(c[s := n])
  {
    BeliefOfBracket(log, DeleteRows(paths, animation));
    DeleteRowsInSection(c, paths, s);
  }

  /** A batch inserting n rows into one existing section adds n to that section's count. */
  lemma InsertBatch(log: seq<Event>, c: seq<nat>, paths: seq<IndexPath>, s: nat, n: nat, animation: Animation)
    requires Belief(log) == Some(c)
    requires s < |c| && AllInSection(paths, s) && n == c[s] + |paths|
    ensures Belief(log + Bracketed([InsertRows(paths, animation)])) == Some(c[s := n])
  {
    BeliefOfBracket(log, InsertRows(paths, animation));
    InsertRowsInSection(c, paths, s);
  }

  /** A batch reloading existing rows changes no count. */
  lemma ReloadBatch(log: seq<Event>, c: seq<nat>, paths: seq<IndexPath>, animation: Animation)
    requires Belief(log) == Some(c) && RowsExist(c, paths)
    ensures Belief(log + Bracketed([ReloadRows(paths, animation)])) == Some(c)
  {
    BeliefOfBracket(log, ReloadRows(paths, animation));
  }
}
