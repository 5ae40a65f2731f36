/** The two older copies of the multi-index `Array` extension. Their `remove` and `replace` are the
    algorithm of `ArrayAdditions` unchanged; their `insert` differs and is modelled here. */
module LegacyArrayAdditions {
  import opened Foundation
  import opened ArrayAdditions

  /** The elements of s, last first. */
  function Reversed<T>(s: seq<T>): (r: seq<T>)
    ensures |r| == |s|
    ensures forall i :: 0 <= i < |s| ==> r[i] == s[|s| - 1 - i]
  {
    if s == [] then [] else [s[|s| - 1]] + Reversed(s[..|s| - 1])
  }

  /** s with the whole of e spliced in, reversed, at position f. */
  function SplicedReversed<T>(s: seq<T>, e: seq<T>, f: nat): seq<T>
    requires f <= |s|
  {
    s[..f] + Reversed(e) + s[f..]
  }

  // ---------------------------------------------------------------------------
  // RSBTableViewManager: insert(_:at:) with a roving `index`

  /** `insert(_:at:)` of the RSBTableViewManager copy. `indexes.first!` traps on an empty set; the
      loop runs once per element and inserts at `integerGreaterThanOrEqualTo(index)`, which is
      `index` itself, so `index` stays at the first position throughout. With no elements the loop
      never runs, so nothing traps whatever the first position is. */
  method InsertAtFirst<T>(s: seq<T>, e: seq<T>, p: seq<nat>) returns (r: seq<T>)
    requires |p| > 0 && IsIndexSet(p) && (|e| > 0 ==> p[0] <= |s|)
    ensures |e| == 0 ==> r == s
    ensures |e| > 0 ==> r == SplicedReversed(s, e, p[0])
  {
    r := s;
    var index := p[0];
    assert e[..0] == [];
    for k := 0 to |e|
      invariant index == p[0]
      invariant |e| == 0 ==> r == s
      invariant |e| > 0 ==> r == s[..index] + Reversed(e[..k]) + s[index..]
    {
      var next := LeastAtLeast(p, index);
      assert p[0] in p;
      var x := next.value;
      assert x == index;
      assert r[..x] == s[..x];
      assert r[x..] == Reversed(e[..k]) + s[x..];
      assert e[..k + 1][..k] == e[..k];
      r := r[..x] + [e[k]] + r[x..];
      index := x;
    }
    assert e[..|e|] == e;
  }

  /** Where the block lands: originals before `first` stay, the new elements occupy
      [first, first + |e|) last-first, and the remaining originals follow in order. */
  lemma SplicedReversedLayout<T>(s: seq<T>, e: seq<T>, f: nat)
    requires f <= |s|
    ensures |SplicedReversed(s, e, f)| == |s| + |e|
    ensures forall i :: 0 <= i < f ==> SplicedReversed(s, e, f)[i] == s[i]
    ensures forall i :: f <= i < f + |e| ==> SplicedReversed(s, e, f)[i] == e[|e| - 1 - (i - f)]
    ensures forall i :: f <= i < |s| ==> SplicedReversed(s, e, f)[i + |e|] == s[i]
  {
  }

  /** For a single element the old algorithm is an ordinary insertion at `first`. */
  lemma SplicedReversedSingle<T>(s: seq<T>, x: T, f: nat)
    requires f <= |s|
    ensures IsInsertion(SplicedReversed(s, [x], f), s, [x], [f])
  {
    var r := SplicedReversed(s, [x], f);
    assert Reversed([x]) == [x];
    assert r == s[..f] + [x] + s[f..] && r[f] == x;
    InsertStep(s, [], f, x);
    WithoutNothing(s);
    assert [] + [f] == [f];
  }

  /** Two elements at positions {0, 1} of an empty array come out swapped, so the old algorithm
      is not an insertion in the sense of the current one. */
  lemma SplicedReversedMisplaces()
    ensures SplicedReversed([], [1, 2], 0) == [2, 1]
    ensures !IsInsertion(SplicedReversed([], [1, 2], 0), [], [1, 2], [0, 1])
  {
    var r := SplicedReversed([], [1, 2], 0);
    assert Reversed([1, 2]) == [2, 1];
    assert r == [2, 1];
    var p: seq<nat> := [0, 1];
    assert r[p[0]] != 1;
  }

  // ---------------------------------------------------------------------------
  // rsbtableviewmanager-swift: insertElements(_:atIndexes:)

  /** The elements the oldest copy inserts: for the k-th position p[k] it takes elements[p[k]]. */
  function Picked<T>(e: seq<T>, p: seq<nat>): (r: seq<T>)
    requires AllBelow(p, |e|)
    ensures |r| == |p| && forall k :: 0 <= k < |p| ==> r[k] == e[p[k]]
  {
    seq(|p|, k requires 0 <= k < |p| => e[p[k]])
  }

  /** `insertElements(_:atIndexes:)`: visits the positions in ascending order and inserts
      `elements[p]` at p; indexing `elements` by position traps unless every p < |elements|. */
  method InsertElements<T(==)>(s: seq<T>, e: seq<T>, p: seq<nat>) returns (r: seq<T>)
    requires IsIndexSet(p) && AllBelow(p, |e|) && InsertablePositions(|s|, p)
    ensures IsInsertion(r, s, Picked(e, p), p)
    ensures forall k :: 0 <= k < |p| ==> r[p[k]] == e[p[k]]
  {
    r := s;
    assert p[..0] == [];
    WithoutNothing(s);
    for k := 0 to |p|
      invariant |r| == |s| + k
      invariant forall i :: 0 <= i < k ==> p[i] < |r| && r[p[i]] == e[p[i]]
      invariant Without(r, p[..k]) == s
    {
      var x := p[k];
      InsertStep(r, p[..k], x, e[x]);
      assert p[..k + 1] == p[..k] + [x];
      r := r[..x] + [e[x]] + r[x..];
    }
    assert p[..|p|] == p;
  }

  /** Inserting at {0, ..., n-1} with exactly n elements puts all of them in front, in order. */
  lemma InsertElementsAtHead<T>(r: seq<T>, s: seq<T>, e: seq<T>)
    requires IsInsertion(r, s, Picked(e, Range(0, |e|)), Range(0, |e|))
    ensures r == e + s
  {
    var p := Range(0, |e|);
    PickedRange(e);
    assert IsInsertion(r, s, e, p);
    InsertAtRangeSplices(r, s, e, 0);
    SpliceAtFront(s, e);
  }

  lemma SpliceAtFront<T>(s: seq<T>, e: seq<T>)
    ensures s[..0] + e + s[0..] == e + s
  {
    assert s[..0] == [] && s[0..] == s;
  }

  /** Picking by the positions 0, ..., n-1 picks everything. */
  lemma PickedRange<T>(e: seq<T>)
    ensures Picked(e, Range(0, |e|)) == e
  {
    var p := Range(0, |e|);
    forall k | 0 <= k < |e| ensures Picked(e, p)[k] == e[k] {
      assert p[k] == k;
    }
  }
}
