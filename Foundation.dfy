/** Value types the table-view layer borrows from Swift and Foundation:
    optionals, IndexPath, IndexSet and the identity lookup `index(where: { $0 === x })`. */
module Foundation {

  /** Swift's Optional. */
  datatype Option<+T> = None | Some(value: T)

  /** A row inside a section, as UITableView addresses it. */
  datatype IndexPath = IndexPath(row: nat, section: nat)

  /** Foundation's IndexSet, read in ascending order: a strictly increasing sequence of positions. */
  predicate IsIndexSet(p: seq<nat>)
  {
    forall i, j :: 0 <= i < j < |p| ==> p[i] < p[j]
  }

  /** Every position of `p` is below `n`. */
  predicate AllBelow(p: seq<nat>, n: nat)
  {
    forall k :: 0 <= k < |p| ==> p[k] < n
  }

  /** `IndexSet(integersIn: lo...(lo + n - 1))`: the n consecutive positions starting at lo. */
  function Range(lo: nat, n: nat): (r: seq<nat>)
    ensures |r| == n && IsIndexSet(r)
    ensures forall k :: 0 <= k < n ==> r[k] == lo + k
  {
    if n == 0 then [] else Range(lo, n - 1) + [lo + n - 1]
  }

  /** `IndexSet.insert(_:)`: adds x, keeping the set sorted and free of repeats. */
  function SetInsert(p: seq<nat>, x: nat): (r: seq<nat>)
    requires IsIndexSet(p)
    ensures IsIndexSet(r)
    ensures forall y :: y in r <==> y in p || y == x
    ensures |r| == if x in p then |p| else |p| + 1
  {
    if p == [] then [x]
    else if x < p[0] then [x] + p
    else if x == p[0] then p
    else
      var rest := SetInsert(p[1..], x);
      assert forall y :: y in p <==> y == p[0] || y in p[1..];
      assert forall k :: 0 <= k < |rest| ==> rest[k] in rest;
      [p[0]] + rest
  }

  /** `IndexSet.integerGreaterThanOrEqualTo(_:)`: the least member of p that is at least x. */
  function LeastAtLeast(p: seq<nat>, x: nat): (r: Option<nat>)
    requires IsIndexSet(p)
    ensures r.Some? ==> r.value in p && x <= r.value
    ensures r.Some? ==> forall y :: y in p && x <= y ==> r.value <= y
    ensures r.None? <==> forall y :: y in p ==> y < x
  {
    if p == [] then None
    else if x <= p[0] then Some(p[0])
    else
      assert forall y :: y in p <==> y == p[0] || y in p[1..];
      LeastAtLeast(p[1..], x)
  }

  /** `index(where: { $0 === x })`: the first position holding x, or None. */
  function IndexOf<T(==)>(s: seq<T>, x: T): (r: Option<nat>)
    ensures r.Some? ==> r.value < |s| && s[r.value] == x && x !in s[..r.value]
    ensures r.None? <==> x !in s
  {
    if s == [] then None
    else if s[0] == x then Some(0)
    else
      var r := IndexOf(s[1..], x);
      assert s[1..] == s[..|s|][1..];
      if r.None? then None
      else
        assert s[..r.value + 1] == [s[0]] + s[1..][..r.value];
        Some(r.value + 1)
  }

  /** No object occurs twice. */
  predicate Distinct<T(==)>(s: seq<T>)
  {
    forall i, j :: 0 <= i < j < |s| ==> s[i] != s[j]
  }

  /** In a sequence without repeats, the first occurrence of s[i] is i itself. */
  lemma IndexOfDistinct<T>(s: seq<T>, i: nat)
    requires Distinct(s) && i < |s|
    ensures IndexOf(s, s[i]) == Some(i)
  {
  }

  /** The index set of the first positions in `look` of the objects of `items`, gathered one object
      at a time the way the manager's loops do. */
  function Positions<T(==)>(look: seq<T>, items: seq<T>): (r: seq<nat>)
    requires forall x :: x in items ==> x in look
    ensures IsIndexSet(r)
    decreases |items|
  {
    if items == [] then []
    else
      var front := items[..|items| - 1];
      assert forall y :: y in front ==> y in items;
      SetInsert(Positions(look, front), IndexOf(look, items[|items| - 1]).value)
  }

  /** Every object looked up has its first position in the set. */
  lemma PositionsCover<T>(look: seq<T>, items: seq<T>)
    requires forall x :: x in items ==> x in look
    ensures forall k :: 0 <= k < |items| ==> IndexOf(look, items[k]).Some? && IndexOf(look, items[k]).value in Positions(look, items)
  {
    forall k | 0 <= k < |items|
      ensures IndexOf(look, items[k]).Some? && IndexOf(look, items[k]).value in Positions(look, items)
    {
      PositionsCoverOne(look, items, k);
    }
  }

  lemma {:induction false} PositionsCoverOne<T>(look: seq<T>, items: seq<T>, k: nat)
    requires forall x :: x in items ==> x in look
    requires k < |items|
    ensures IndexOf(look, items[k]).Some? && IndexOf(look, items[k]).value in Positions(look, items)
    decreases |items|
  {
    var front := items[..|items| - 1];
    var last := items[|items| - 1];
    FrontLookedUp(look, items);
    assert last in items;
    var j := IndexOf(look, last).value;
    PositionsUnfold(look, items);
    if k < |front| {
      PositionsCoverOne(look, front, k);
      assert items[k] == front[k];
      SetInsertKeeps(Positions(look, front), j, IndexOf(look, front[k]).value);
    } else {
      assert items[k] == last;
      SetInsertKeeps(Positions(look, front), j, j);
    }
  }

  /** Positions unfolded once: the last object's first position joins those of the others. */
  lemma PositionsUnfold<T>(look: seq<T>, items: seq<T>)
    requires items != [] && forall x :: x in items ==> x in look
    requires forall x :: x in items[..|items| - 1] ==> x in look
    ensures IndexOf(look, items[|items| - 1]).Some?
    ensures Positions(look, items) ==
      SetInsert(Positions(look, items[..|items| - 1]), IndexOf(look, items[|items| - 1]).value)
  {
    assert items[|items| - 1] in items;
  }

  /** After inserting x, both x and every earlier member are in the set. */
  lemma SetInsertKeeps(p: seq<nat>, x: nat, y: nat)
    requires IsIndexSet(p) && (y in p || y == x)
    ensures y in SetInsert(p, x)
  {
  }

  /** Dropping the last object keeps every object found in `look`. */
  lemma FrontLookedUp<T>(look: seq<T>, items: seq<T>)
    requires items != [] && forall x :: x in items ==> x in look
    ensures forall x :: x in items[..|items| - 1] ==> x in look
  {
    var front := items[..|items| - 1];
    assert forall y :: y in front ==> y in items;
  }

  /** Every position in the set is the first position of one of the objects looked up. */
  lemma {:induction false} PositionsFound<T>(look: seq<T>, items: seq<T>)
    requires forall x :: x in items ==> x in look
    ensures forall i :: i in Positions(look, items) ==> i < |look| && look[i] in items && IndexOf(look, look[i]) == Some(i)
    decreases |items|
  {
    if items != [] {
      var front := items[..|items| - 1];
      var x := items[|items| - 1];
      assert forall y :: y in front ==> y in items;
      PositionsFound(look, front);
      var j := IndexOf(look, x).value;
      forall i | i in Positions(look, items)
        ensures i < |look| && look[i] in items && IndexOf(look, look[i]) == Some(i)
      {
        if i != j {
          assert i in Positions(look, front);
          assert look[i] in front;
        }
      }
    }
  }

  /** The positions found lie inside `look`. */
  lemma PositionsBelow<T>(look: seq<T>, items: seq<T>)
    requires forall x :: x in items ==> x in look
    ensures AllBelow(Positions(look, items), |look|)
  {
    PositionsFound(look, items);
    var r := Positions(look, items);
    assert forall k :: 0 <= k < |r| ==> r[k] in r;
  }

  /** Distinct objects have distinct first positions, so none is lost. */
  lemma {:induction false} PositionsCount<T>(look: seq<T>, items: seq<T>)
    requires forall x :: x in items ==> x in look
    requires Distinct(items)
    ensures |Positions(look, items)| == |items|
    decreases |items|
  {
    if items != [] {
      var front := items[..|items| - 1];
      var x := items[|items| - 1];
      assert forall y :: y in front ==> y in items;
      PositionsCount(look, front);
      PositionsFound(look, front);
      var j := IndexOf(look, x).value;
      assert x !in front;
      assert j !in Positions(look, front);
    }
  }

  /** Adding a position above every member appends it. */
  lemma {:induction false} SetInsertAbove(p: seq<nat>, x: nat)
    requires IsIndexSet(p) && AllBelow(p, x)
    ensures SetInsert(p, x) == p + [x]
    decreases |p|
  {
    if p != [] {
      TailBelow(p, x);
      SetInsertAbove(p[1..], x);
      SetInsertPastHead(p, x);
    }
  }

  /** Dropping the least position keeps an index set below the same bound. */
  lemma TailBelow(p: seq<nat>, x: nat)
    requires p != [] && IsIndexSet(p) && AllBelow(p, x)
    ensures IsIndexSet(p[1..]) && AllBelow(p[1..], x)
  {
    assert forall k :: 0 <= k < |p[1..]| ==> p[1..][k] == p[k + 1];
  }

  /** A position above the least one is inserted into the rest. */
  lemma SetInsertPastHead(p: seq<nat>, x: nat)
    requires p != [] && IsIndexSet(p) && p[0] < x
    requires SetInsert(p[1..], x) == p[1..] + [x]
    ensures SetInsert(p, x) == p + [x]
  {
    SetInsertUnfold(p, x);
    AppendAssoc([p[0]], p[1..], [x]);
    HeadTail(p);
  }

  /** SetInsert unfolded once past the least member. */
  lemma SetInsertUnfold(p: seq<nat>, x: nat)
    requires p != [] && IsIndexSet(p) && p[0] < x
    ensures SetInsert(p, x) == [p[0]] + SetInsert(p[1..], x)
  {
  }

  /** A non-empty sequence is its head followed by its tail. */
  lemma HeadTail<T>(p: seq<T>)
    requires p != []
    ensures [p[0]] + p[1..] == p
  {
  }

  /** Looking up the first k objects of a sequence without repeats in the sequence itself finds
      the positions 0, ..., k-1. */
  lemma {:induction false} PositionsOfPrefix<T>(s: seq<T>, k: nat)
    requires Distinct(s) && k <= |s|
    ensures forall x :: x in s[..k] ==> x in s
    ensures Positions(s, s[..k]) == Range(0, k)
    decreases k
  {
    assert forall x :: x in s[..k] ==> x in s;
    if k > 0 {
      PositionsOfPrefix(s, k - 1);
      assert s[..k][..k - 1] == s[..k - 1];
      IndexOfDistinct(s, k - 1);
      SetInsertAbove(Range(0, k - 1), k - 1);
    }
  }

  /** A sequence without repeats, looked up in itself, yields every one of its positions. */
  lemma PositionsOfItself<T>(s: seq<T>)
    requires Distinct(s)
    ensures Positions(s, s) == Range(0, |s|)
  {
    PositionsOfPrefix(s, |s|);
    assert s[..|s|] == s;
  }

  /** Concatenation is associative. */
  lemma AppendAssoc<T>(a: seq<T>, b: seq<T>, c: seq<T>)
    ensures (a + b) + c == a + (b + c)
  {
  }

  /** Dropping the last of the first k+1 elements leaves the first k. */
  lemma PrefixStep<T>(s: seq<T>, k: nat)
    requires k < |s|
    ensures s[..k + 1][..k] == s[..k]
  {
  }

  /** A prefix one longer is the prefix and the next element. */
  lemma PrefixExtend<T>(s: seq<T>, k: nat)
    requires k < |s|
    ensures s[..k + 1] == s[..k] + [s[k]]
  {
  }

  /** The prefix as long as the sequence is the sequence. */
  lemma PrefixWhole<T>(s: seq<T>)
    ensures s[..|s|] == s
  {
  }

  lemma SliceToEnd<T>(s: seq<T>, f: nat)
    requires f <= |s|
    ensures s[f..|s|] == s[f..]
  {
  }

  lemma TakeDrop<T>(s: seq<T>, f: nat)
    requires f <= |s|
    ensures s[..f] + s[f..] == s
  {
  }

  /** Looking up a single object yields its first position alone. */
  lemma PositionsSingle<T>(look: seq<T>, x: T)
    requires x in look
    ensures Positions(look, [x]) == [IndexOf(look, x).value]
  {
    assert [x][..0] == [];
  }

  /** One more object looked up adds its first position to the set. */
  lemma PositionsStep<T>(look: seq<T>, items: seq<T>, k: nat)
    requires forall x :: x in items ==> x in look
    requires k < |items|
    ensures forall x :: x in items[..k] ==> x in look
    ensures forall x :: x in items[..k + 1] ==> x in look
    ensures IndexOf(look, items[k]).Some?
    ensures Positions(look, items[..k + 1]) == SetInsert(Positions(look, items[..k]), IndexOf(look, items[k]).value)
  {
    assert items[k] in items;
    assert forall x :: x in items[..k + 1] ==> x in items;
    assert items[..k + 1][..k] == items[..k];
  }
}
