/** The multi-index splices the current manager applies to its section and cell-item arrays:
    `remove(at:)`, `insert(_:at:)` and `replace(_:at:)` on Array, each taking an IndexSet.
    Swift arrays grow and shrink, so the array is a `seq` that each loop step rebuilds. */
module ArrayAdditions {
  import opened Foundation

  // ---------------------------------------------------------------------------
  // Reference definition: deleting a set of positions

  /** The elements of s at positions lo .. hi-1 that are not in p, in their original order. */
  function Kept<T>(s: seq<T>, p: seq<nat>, lo: nat, hi: nat): seq<T>
    requires lo <= hi <= |s|
    decreases hi - lo
  {
    if lo == hi then [] else Kept(s, p, lo, hi - 1) + (if hi - 1 in p then [] else [s[hi - 1]])
  }

  /** s with every position listed in p deleted, the survivors in their original order. */
  function Without<T>(s: seq<T>, p: seq<nat>): seq<T>
  {
    Kept(s, p, 0, |s|)
  }

  lemma {:induction false} KeptSplit<T>(s: seq<T>, p: seq<nat>, lo: nat, m: nat, hi: nat)
    requires lo <= m <= hi <= |s|
    ensures Kept(s, p, lo, hi) == Kept(s, p, lo, m) + Kept(s, p, m, hi)
    decreases hi - m
  {
    if m < hi {
      KeptSplit(s, p, lo, m, hi - 1);
    }
  }

  /** Where p lists none of the positions, nothing is dropped. */
  lemma {:induction false} KeptUntouched<T>(s: seq<T>, p: seq<nat>, lo: nat, hi: nat)
    requires lo <= hi <= |s|
    requires forall i :: lo <= i < hi ==> i !in p
    ensures Kept(s, p, lo, hi) == s[lo..hi]
    decreases hi - lo
  {
    if lo < hi {
      KeptUntouched(s, p, lo, hi - 1);
      assert s[lo..hi] == s[lo..hi - 1] + [s[hi - 1]];
    }
  }

  /** Two ranges that agree element by element and position by position keep the same elements. */
  lemma {:induction false} KeptCongruent<T>(s1: seq<T>, p1: seq<nat>, s2: seq<T>, p2: seq<nat>, lo: nat, hi: nat)
    requires lo <= hi <= |s1| && hi <= |s2|
    requires forall i :: lo <= i < hi ==> (i in p1 <==> i in p2)
    requires forall i :: lo <= i < hi && i !in p1 ==> s1[i] == s2[i]
    ensures Kept(s1, p1, lo, hi) == Kept(s2, p2, lo, hi)
    decreases hi - lo
  {
    if lo < hi {
      KeptCongruent(s1, p1, s2, p2, lo, hi - 1);
    }
  }

  /** Two position lists that agree on [lo, hi) keep the same elements there. */
  lemma {:induction false} KeptSamePositions<T>(s: seq<T>, p1: seq<nat>, p2: seq<nat>, lo: nat, hi: nat)
    requires lo <= hi <= |s|
    requires forall i :: lo <= i < hi ==> (i in p1 <==> i in p2)
    ensures Kept(s, p1, lo, hi) == Kept(s, p2, lo, hi)
    decreases hi - lo
  {
    if lo < hi {
      KeptSamePositions(s, p1, p2, lo, hi - 1);
    }
  }

  lemma SamePositionsAbove(xq: seq<nat>, q: seq<nat>, x: nat)
    requires xq == [x] + q
    ensures forall i :: x < i ==> (i in xq <==> i in q)
  {
    forall i | x < i ensures i in xq <==> i in q {
      assert i in xq <==> i == x || i in q;
    }
  }

  lemma WithoutNothing<T>(s: seq<T>)
    ensures Without(s, []) == s
  {
    KeptUntouched(s, [], 0, |s|);
  }

  /** Deleting position x on top of the positions Q, all of them above x, deletes the element
      now at index x: everything before x is still where it was. */
  lemma RemoveStep<T>(s: seq<T>, q: seq<nat>, x: nat)
    requires x < |s| && forall k :: 0 <= k < |q| ==> x < q[k]
    ensures |Without(s, q)| > x
    ensures Without(s, q)[..x + 1] == s[..x + 1]
    ensures Without(s, [x] + q) == Without(s, q)[..x] + Without(s, q)[x + 1..]
  {
    var tail := Kept(s, q, x + 1, |s|);
    var w := Without(s, q);
    assert w == s[..x + 1] + tail by {
      KeptSplit(s, q, 0, x + 1, |s|);
      KeptUntouched(s, q, 0, x + 1);
      assert s[0..x + 1] == s[..x + 1];
    }
    var xq := [x] + q;
    assert Kept(s, xq, 0, x) == s[..x] by {
      KeptUntouched(s, xq, 0, x);
      assert s[0..x] == s[..x];
    }
    assert Kept(s, xq, x, x + 1) == [] by {
      assert x in xq;
    }
    assert Kept(s, xq, x + 1, |s|) == tail by {
      SamePositionsAbove(xq, q, x);
      KeptSamePositions(s, xq, q, x + 1, |s|);
    }
    assert Without(s, xq) == s[..x] + tail by {
      KeptSplit(s, xq, 0, x, |s|);
      KeptSplit(s, xq, x, x + 1, |s|);
    }
    assert w[..x] == s[..x];
    assert w[x + 1..] == tail;
  }

  /** Inserting e at x, above every position of Q, keeps what Q's survivors were. */
  lemma InsertStep<T>(r: seq<T>, q: seq<nat>, x: nat, e: T)
    requires x <= |r| && forall k :: 0 <= k < |q| ==> q[k] < x
    ensures Without(r[..x] + [e] + r[x..], q + [x]) == Without(r, q)
  {
    var r' := r[..x] + [e] + r[x..];
    InsertStepBelow(r, q, x, e);
    InsertStepAbove(r, q, x, e);
    KeptSplit(r', q + [x], 0, x, |r'|);
    KeptSplit(r, q, 0, x, |r|);
    KeptAboveAll(r, q, x);
  }

  lemma InsertStepBelow<T>(r: seq<T>, q: seq<nat>, x: nat, e: T)
    requires x <= |r|
    ensures |r[..x] + [e] + r[x..]| == |r| + 1
    ensures Kept(r[..x] + [e] + r[x..], q + [x], 0, x) == Kept(r, q, 0, x)
  {
    var r' := r[..x] + [e] + r[x..];
    var qx := q + [x];
    assert forall i :: 0 <= i < x ==> r'[i] == r[i];
    assert forall i :: 0 <= i < x ==> (i in qx <==> i in q);
    KeptCongruent(r', qx, r, q, 0, x);
  }

  lemma InsertStepAbove<T>(r: seq<T>, q: seq<nat>, x: nat, e: T)
    requires x <= |r| && forall k :: 0 <= k < |q| ==> q[k] < x
    ensures Kept(r[..x] + [e] + r[x..], q + [x], x, |r| + 1) == r[x..]
  {
    var r' := r[..x] + [e] + r[x..];
    var qx := q + [x];
    SpliceOne(r, e, x);
    AboveAllAbsent(q, x);
    assert qx[|q|] == x;
    KeptAboveInserted(r', r, qx, x);
  }

  /** Past a deleted position x, above which nothing is deleted, the rest of r' is kept. */
  lemma KeptAboveInserted<T>(r': seq<T>, r: seq<T>, qx: seq<nat>, x: nat)
    requires x <= |r| && |r'| == |r| + 1 && r'[x + 1..] == r[x..]
    requires x in qx && forall i :: x < i ==> i !in qx
    ensures Kept(r', qx, x, |r'|) == r[x..]
  {
    KeptUntouched(r', qx, x + 1, |r'|);
    SliceToEnd(r', x + 1);
    KeptDropsOne(r', qx, x);
    KeptSplit(r', qx, x, x + 1, |r'|);
  }

  /** Around one element spliced in at x lie the two halves of the original sequence. */
  lemma SpliceOne<T>(r: seq<T>, e: T, x: nat)
    requires x <= |r|
    ensures |r[..x] + [e] + r[x..]| == |r| + 1
    ensures (r[..x] + [e] + r[x..])[x + 1..] == r[x..]
  {
    var u := r[..x] + [e];
    assert |u| == x + 1;
    assert (u + r[x..])[x + 1..] == r[x..];
  }

  /** Nothing above x is in Q with x added, when Q lies below x. */
  lemma AboveAllAbsent(q: seq<nat>, x: nat)
    requires forall k :: 0 <= k < |q| ==> q[k] < x
    ensures forall i :: x < i ==> i !in q + [x]
  {
    forall i | x < i
      ensures i !in q + [x]
    {
      var qx := q + [x];
      assert forall k :: 0 <= k < |qx| ==> qx[k] <= x;
    }
  }

  /** A listed position is dropped. */
  lemma KeptDropsOne<T>(s: seq<T>, p: seq<nat>, i: nat)
    requires i < |s| && i in p
    ensures Kept(s, p, i, i + 1) == []
  {
  }

  /** Above every deleted position, everything is kept. */
  lemma KeptAboveAll<T>(r: seq<T>, q: seq<nat>, x: nat)
    requires x <= |r| && forall k :: 0 <= k < |q| ==> q[k] < x
    ensures Kept(r, q, x, |r|) == r[x..]
  {
    assert forall i :: x <= i ==> i !in q;
    KeptUntouched(r, q, x, |r|);
    SliceToEnd(r, x);
  }

  /** Deleting |p| distinct valid positions shortens the sequence by exactly |p|. */
  lemma {:induction false} WithoutLength<T>(s: seq<T>, p: seq<nat>)
    requires IsIndexSet(p) && AllBelow(p, |s|)
    ensures |Without(s, p)| == |s| - |p|
  {
    if p == [] {
      WithoutNothing(s);
    } else {
      WithoutLength(s, p[1..]);
      RemoveStep(s, p[1..], p[0]);
      assert p == [p[0]] + p[1..];
    }
  }

  /** Survivors of a deletion: in a sequence without repeats, s[i] survives iff i is not deleted. */
  lemma {:induction false} KeptMembers<T>(s: seq<T>, p: seq<nat>, lo: nat, hi: nat, i: nat)
    requires lo <= hi <= |s| && Distinct(s) && lo <= i < hi
    ensures s[i] in Kept(s, p, lo, hi) <==> i !in p
    decreases hi - lo
  {
    var front := Kept(s, p, lo, hi - 1);
    var last := if hi - 1 in p then [] else [s[hi - 1]];
    assert Kept(s, p, lo, hi) == front + last;
    if i < hi - 1 {
      KeptMembers(s, p, lo, hi - 1, i);
      assert s[i] != s[hi - 1];
    } else {
      KeptOnlyFrom(s, p, lo, hi - 1);
      NotInEarlier(s, lo, i);
    }
  }

  /** Without repeats, s[i] does not occur in any stretch ending before i. */
  lemma NotInEarlier<T>(s: seq<T>, lo: nat, i: nat)
    requires Distinct(s) && lo <= i < |s|
    ensures s[i] !in s[lo..i]
  {
    var w := s[lo..i];
    assert forall k :: 0 <= k < |w| ==> w[k] == s[lo + k] && w[k] != s[i];
  }

  lemma {:induction false} KeptOnlyFrom<T>(s: seq<T>, p: seq<nat>, lo: nat, hi: nat)
    requires lo <= hi <= |s|
    ensures forall x :: x in Kept(s, p, lo, hi) ==> x in s[lo..hi]
    decreases hi - lo
  {
    if lo < hi {
      KeptOnlyFrom(s, p, lo, hi - 1);
      assert forall x :: x in s[lo..hi - 1] ==> x in s[lo..hi];
    }
  }

  /** With no repeated elements, the deletion removes exactly the listed positions' elements. */
  lemma WithoutMembers<T>(s: seq<T>, p: seq<nat>)
    requires Distinct(s)
    ensures forall i :: 0 <= i < |s| ==> (s[i] in Without(s, p) <==> i !in p)
    ensures forall x :: x in Without(s, p) ==> x in s
  {
    forall i | 0 <= i < |s|
      ensures s[i] in Without(s, p) <==> i !in p
    {
      KeptMembers(s, p, 0, |s|, i);
    }
    KeptOnlyFrom(s, p, 0, |s|);
    assert s[0..|s|] == s;
  }

  // ---------------------------------------------------------------------------
  // remove(at:)

  /** `remove(at:)`: deletes the given positions, largest first, so that each deletion takes the
      element that was originally at that index. `removed` lists the deleted elements in the order
      the loop deletes them. */
  method RemoveAt<T>(s: seq<T>, p: seq<nat>) returns (r: seq<T>, ghost removed: seq<T>)
    requires IsIndexSet(p) && AllBelow(p, |s|)
    ensures r == Without(s, p)
    ensures |r| == |s| - |p|
    ensures |removed| == |p| && forall j :: 0 <= j < |p| ==> removed[j] == s[p[|p| - 1 - j]]
  {
    r, removed := s, [];
    var k := |p|;
    WithoutNothing(s);
    assert p[k..] == [];
    while k > 0
      invariant 0 <= k <= |p|
      invariant r == Without(s, p[k..])
      invariant |r| == |s| - (|p| - k)
      invariant |removed| == |p| - k
      invariant forall j :: 0 <= j < |p| - k ==> removed[j] == s[p[|p| - 1 - j]]
    {
      k := k - 1;
      var x := p[k];
      RemoveStepAt(s, p, k);
      removed := removed + [r[x]];
      r := r[..x] + r[x + 1..];
    }
    assert p[0..] == p;
  }

  /** One step of `remove(at:)`: with the positions above p[k] already deleted, the element at
      index p[k] is still the original one, and deleting it deletes p[k..]. */
  lemma RemoveStepAt<T>(s: seq<T>, p: seq<nat>, k: nat)
    requires IsIndexSet(p) && AllBelow(p, |s|) && k < |p|
    ensures var w := Without(s, p[k + 1..]);
      p[k] < |w| && w[p[k]] == s[p[k]] && Without(s, p[k..]) == w[..p[k]] + w[p[k] + 1..]
  {
    var x := p[k];
    var q := p[k + 1..];
    assert forall i :: 0 <= i < |q| ==> x < q[i] by {
      assert forall i :: 0 <= i < |q| ==> q[i] == p[k + 1 + i];
    }
    RemoveStep(s, q, x);
    assert p[k..] == [x] + q;
    assert Without(s, q)[..x + 1][x] == Without(s, q)[x];
  }

  // ---------------------------------------------------------------------------
  // insert(_:at:)

  /** r is the result of inserting e[k] at the k-th smallest position p[k] of the index set p: it
      is |p| longer, p[k] holds e[k], and deleting the positions p again gives back s. Elements of e
      beyond |p| play no part. */
  predicate IsInsertion<T(==)>(r: seq<T>, s: seq<T>, e: seq<T>, p: seq<nat>)
  {
    |r| == |s| + |p| && |p| <= |e| && AllBelow(p, |r|) &&
    (forall k :: 0 <= k < |p| ==> r[p[k]] == e[k]) &&
    Without(r, p) == s
  }

  /** Positions that `insert(_:at:)` accepts: at step k the array has |s| + k elements. */
  predicate InsertablePositions(n: nat, p: seq<nat>)
  {
    forall k :: 0 <= k < |p| ==> p[k] <= n + k
  }

  /** `insert(_:at:)`: walks the index set upwards and inserts elements[k] at its k-th position. */
  method InsertAt<T(==)>(s: seq<T>, e: seq<T>, p: seq<nat>) returns (r: seq<T>)
    requires IsIndexSet(p) && |p| <= |e| && InsertablePositions(|s|, p)
    ensures IsInsertion(r, s, e, p)
  {
    r := s;
    var k := 0;
    WithoutNothing(s);
    while k < |p|
      invariant 0 <= k <= |p|
      invariant |r| == |s| + k
      invariant forall i :: 0 <= i < k ==> p[i] < |r| && r[p[i]] == e[i]
      invariant Without(r, p[..k]) == s
    {
      var x := p[k];
      InsertStep(r, p[..k], x, e[k]);
      assert p[..k + 1] == p[..k] + [x];
      r := r[..x] + [e[k]] + r[x..];
      k := k + 1;
    }
    assert p[..|p|] == p;
  }

  /** Agreeing on the deleted positions and on what survives determines a prefix. */
  lemma {:induction false} KeptDetermines<T>(r1: seq<T>, r2: seq<T>, p: seq<nat>, hi: nat)
    requires |r1| == |r2| && hi <= |r1|
    requires Kept(r1, p, 0, hi) == Kept(r2, p, 0, hi)
    requires forall i :: 0 <= i < hi && i in p ==> r1[i] == r2[i]
    ensures r1[..hi] == r2[..hi]
  {
    if hi > 0 {
      var a, b := Kept(r1, p, 0, hi - 1), Kept(r2, p, 0, hi - 1);
      var c := Kept(r1, p, 0, hi);
      if hi - 1 in p {
        assert c == a;
        assert Kept(r2, p, 0, hi) == b;
      } else {
        assert c == a + [r1[hi - 1]];
        assert c == b + [r2[hi - 1]];
        assert c[..|c| - 1] == a;
        assert c[..|c| - 1] == b;
      }
      KeptDetermines(r1, r2, p, hi - 1);
      assert r1[..hi] == r1[..hi - 1] + [r1[hi - 1]];
      assert r2[..hi] == r2[..hi - 1] + [r2[hi - 1]];
    }
  }

  /** The insertion characterisation leaves no freedom: at most one sequence satisfies it. */
  lemma InsertionUnique<T>(r1: seq<T>, r2: seq<T>, s: seq<T>, e: seq<T>, p: seq<nat>)
    requires IsInsertion(r1, s, e, p) && IsInsertion(r2, s, e, p)
    ensures r1 == r2
  {
    forall i | 0 <= i < |r1| && i in p
      ensures r1[i] == r2[i]
    {
      var k :| 0 <= k < |p| && p[k] == i;
    }
    KeptDetermines(r1, r2, p, |r1|);
    assert r1[..|r1|] == r1 && r2[..|r2|] == r2;
  }

  /** Inserting at n consecutive positions starting at f splices the new elements in as one block,
      in argument order. */
  lemma InsertAtRangeSplices<T>(r: seq<T>, s: seq<T>, e: seq<T>, f: nat)
    requires f <= |s| && IsInsertion(r, s, e, Range(f, |e|))
    ensures r == s[..f] + e + s[f..]
  {
    BlockIsInsertion(s, e, f);
    InsertionUnique(r, s[..f] + e + s[f..], s, e, Range(f, |e|));
  }

  /** Splicing e in at f is an insertion at the positions f, ..., f + |e| - 1. */
  lemma BlockIsInsertion<T>(s: seq<T>, e: seq<T>, f: nat)
    requires f <= |s|
    ensures IsInsertion(s[..f] + e + s[f..], s, e, Range(f, |e|))
  {
    WithoutRange(s, e, f);
    BlockAtRange(s, e, f);
    RangeBelow(s, e, f);
  }

  lemma BlockAtRange<T>(s: seq<T>, e: seq<T>, f: nat)
    requires f <= |s|
    ensures forall k :: 0 <= k < |Range(f, |e|)| ==> (s[..f] + e + s[f..])[Range(f, |e|)[k]] == e[k]
  {
    BlockPlacement(s, e, f);
  }

  lemma RangeBelow<T>(s: seq<T>, e: seq<T>, f: nat)
    requires f <= |s|
    ensures AllBelow(Range(f, |e|), |s[..f] + e + s[f..]|)
  {
  }

  /** The block spliced in at f occupies f, ..., f + |e| - 1 in argument order. */
  lemma BlockPlacement<T>(s: seq<T>, e: seq<T>, f: nat)
    requires f <= |s|
    ensures forall k :: 0 <= k < |e| ==> (s[..f] + e + s[f..])[f + k] == e[k]
  {
    var u := s[..f] + e;
    var t := u + s[f..];
    assert |s[..f]| == f && |u| == f + |e|;
    forall k | 0 <= k < |e| ensures t[f + k] == e[k] {
      assert t[f + k] == u[f + k];
      assert u[f + k] == e[k];
    }
  }

  /** Inserting at the n positions right after the end appends: the new elements land at the tail
      in argument order. */
  lemma InsertAtTailAppends<T>(r: seq<T>, s: seq<T>, e: seq<T>)
    requires IsInsertion(r, s, e, Range(|s|, |e|))
    ensures r == s + e
  {
    InsertAtRangeSplices(r, s, e, |s|);
    assert s[..|s|] == s && s[|s|..] == [];
  }

  /** Deleting the positions of a block spliced in at f gives back the original sequence. */
  lemma WithoutRange<T>(s: seq<T>, e: seq<T>, f: nat)
    requires f <= |s|
    ensures Without(s[..f] + e + s[f..], Range(f, |e|)) == s
  {
    var t := s[..f] + e + s[f..];
    WithoutBlock(t, f, |e|);
    SpliceParts(s, e, f);
    TakeDrop(s, f);
  }

  /** Around a block spliced in at f lie the two halves of the original sequence. */
  lemma SpliceParts<T>(s: seq<T>, e: seq<T>, f: nat)
    requires f <= |s|
    ensures |s[..f] + e + s[f..]| == |s| + |e|
    ensures (s[..f] + e + s[f..])[..f] == s[..f]
    ensures (s[..f] + e + s[f..])[f + |e|..] == s[f..]
  {
    var u := s[..f] + e;
    assert |u| == f + |e|;
    assert (u + s[f..])[..f] == u[..f];
    assert u[..f] == s[..f];
  }

  /** Deleting the block [f, f + n) of t keeps what lies before and after it. */
  lemma WithoutBlock<T>(t: seq<T>, f: nat, n: nat)
    requires f + n <= |t|
    ensures Without(t, Range(f, n)) == t[..f] + t[f + n..]
  {
    var p := Range(f, n);
    var g := f + n;
    KeptBeforeRange(t, f, n);
    RangeCovers(f, n);
    KeptNoneLeft(t, p, f, g);
    KeptAfterRange(t, f, n);
    KeptSplit(t, p, 0, f, |t|);
    KeptSplit(t, p, f, g, |t|);
  }

  lemma KeptBeforeRange<T>(t: seq<T>, f: nat, n: nat)
    requires f <= |t|
    ensures Kept(t, Range(f, n), 0, f) == t[..f]
  {
    RangeAvoids(f, n, 0, f);
    KeptUntouched(t, Range(f, n), 0, f);
    assert t[0..f] == t[..f];
  }

  lemma KeptAfterRange<T>(t: seq<T>, f: nat, n: nat)
    requires f + n <= |t|
    ensures Kept(t, Range(f, n), f + n, |t|) == t[f + n..]
  {
    RangeAvoids(f, n, f + n, |t|);
    KeptUntouched(t, Range(f, n), f + n, |t|);
    SliceToEnd(t, f + n);
  }

  lemma RangeAvoids(f: nat, n: nat, lo: nat, hi: nat)
    requires hi <= f || f + n <= lo
    ensures forall i :: lo <= i < hi ==> i !in Range(f, n)
  {
    var p := Range(f, n);
    forall i | lo <= i < hi ensures i !in p {
      assert forall k :: 0 <= k < |p| ==> p[k] != i;
    }
  }

  lemma RangeCovers(f: nat, n: nat)
    ensures forall i :: f <= i < f + n ==> i in Range(f, n)
  {
    var p := Range(f, n);
    forall i | f <= i < f + n ensures i in p {
      assert p[i - f] == i;
    }
  }

  /** Where every position is deleted, nothing is kept. */
  lemma {:induction false} KeptNoneLeft<T>(s: seq<T>, p: seq<nat>, lo: nat, hi: nat)
    requires lo <= hi <= |s|
    requires forall i :: lo <= i < hi ==> i in p
    ensures Kept(s, p, lo, hi) == []
    decreases hi - lo
  {
    if lo < hi {
      KeptNoneLeft(s, p, lo, hi - 1);
    }
  }

  /** Inserting one element at position 5 of a nine-element sequence gives ten elements, among
      them the new one. */
  lemma InsertOneAtFive<T>(r: seq<T>, s: seq<T>, x: T)
    requires |s| == 9 && IsInsertion(r, s, [x], [5])
    ensures |r| == 10 && x in r
  {
    var p: seq<nat> := [5];
    assert p[0] == 5;
    assert r[p[0]] == x;
  }

  // ---------------------------------------------------------------------------
  // replace(_:at:)

  /** r is s with the k-th position of p overwritten by e[k] and every other position untouched. */
  predicate IsReplacement<T(==)>(r: seq<T>, s: seq<T>, e: seq<T>, p: seq<nat>)
  {
    |r| == |s| && AllBelow(p, |s|) && |p| <= |e| &&
    (forall k :: 0 <= k < |p| ==> r[p[k]] == e[k]) &&
    (forall i :: 0 <= i < |s| && i !in p ==> r[i] == s[i])
  }

  /** `replace(_:at:)`: assigns newElements[k] to the k-th position of the index set. */
  method ReplaceAt<T(==)>(s: seq<T>, e: seq<T>, p: seq<nat>) returns (r: seq<T>)
    requires IsIndexSet(p) && AllBelow(p, |s|) && |p| <= |e|
    ensures IsReplacement(r, s, e, p)
  {
    r := s;
    var k := 0;
    while k < |p|
      invariant 0 <= k <= |p|
      invariant |r| == |s|
      invariant forall i :: 0 <= i < k ==> r[p[i]] == e[i]
      invariant forall i :: 0 <= i < |s| && i !in p[..k] ==> r[i] == s[i]
    {
      assert forall i :: i in p[..k + 1] <==> i in p[..k] || i == p[k];
      r := r[p[k] := e[k]];
      k := k + 1;
    }
    assert p[..|p|] == p;
  }

  /** Replacing only touches the listed positions, so deleting them afterwards gives what
      deleting them before would have. */
  lemma ReplaceKeepsSurvivors<T>(r: seq<T>, s: seq<T>, e: seq<T>, p: seq<nat>)
    requires IsReplacement(r, s, e, p)
    ensures Without(r, p) == Without(s, p)
  {
    KeptCongruent(r, p, s, p, 0, |s|);
  }
}
