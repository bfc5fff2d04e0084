/** The RFC 6962 Merkle tree: section 2.1 over a whole leaf sequence, the same hash over a span of
  * it, and the perfect nodes a stored cache is indexed by.
  */
module Merkle {
  import opened Bits
  import opened Encoding

  /** A proof path, leaf to root: the nodes met so far, then the one that joins them next. */
  datatype ProofPath = Start | Up(below: ProofPath, node: Hash)

  /** MTH of section 2.1 of RFC 6962, over leaf hashes. */
  function MTH(d: seq<Hash>): Hash
    decreases |d|
  {
    if |d| == 0 then EmptyRoot
    else if |d| == 1 then d[0]
    else var k := Split(|d|); NodeHash(MTH(d[..k]), MTH(d[k..]))
  }

  /** The root of the `size` leaves of `d` from `offset`. */
  function Root(d: seq<Hash>, offset: nat, size: nat): Hash
    requires 0 < size && offset + size <= |d|
    decreases size
  {
    if size == 1 then d[offset]
    else var k := Split(size); NodeHash(Root(d, offset, k), Root(d, offset + k, size - k))
  }

  lemma {:induction false} RootIsMTH(d: seq<Hash>, offset: nat, size: nat)
    requires 0 < size && offset + size <= |d|
    ensures Root(d, offset, size) == MTH(d[offset..offset + size])
    decreases size
  {
    if size > 1 {
      var k := Split(size);
      var e := d[offset..offset + size];
      RootIsMTH(d, offset, k);
      RootIsMTH(d, offset + k, size - k);
      assert e[..k] == d[offset..offset + k] && e[k..] == d[offset + k..offset + size];
    }
  }

  /** The root a checkpoint over the first `n` leaves of `d` commits. */
  function TreeRoot(d: seq<Hash>, n: nat): Hash
    requires n <= |d|
  {
    if n == 0 then EmptyRoot else Root(d, 0, n)
  }

  lemma TreeRootIsMTH(d: seq<Hash>, n: nat)
    requires n <= |d|
    ensures TreeRoot(d, n) == MTH(d[..n])
  {
    if n > 0 {
      RootIsMTH(d, 0, n);
    }
  }

  /** Two leaf sequences agree on `size` leaves, from `offset` in one and from `at` in the other. */
  ghost predicate SameLeaves(d: seq<Hash>, offset: nat, e: seq<Hash>, at: nat, size: nat)
    requires offset + size <= |d| && at + size <= |e|
  {
    d[offset..offset + size] == e[at..at + size]
  }

  lemma SameLeavesSplit(d: seq<Hash>, offset: nat, e: seq<Hash>, at: nat, k: nat, size: nat)
    requires offset + size <= |d| && at + size <= |e| && k <= size
    ensures SameLeaves(d, offset, e, at, size)
       <==> SameLeaves(d, offset, e, at, k) && SameLeaves(d, offset + k, e, at + k, size - k)
  {
    var x, y := d[offset..offset + size], e[at..at + size];
    assert x[..k] == d[offset..offset + k] && x[k..] == d[offset + k..offset + size];
    assert y[..k] == e[at..at + k] && y[k..] == e[at + k..at + size];
    assert x == x[..k] + x[k..] && y == y[..k] + y[k..];
  }

  /** A span root binds its leaves: over equally many leaves, equal roots are exactly equal leaves. */
  lemma {:induction false} RootBinds(d: seq<Hash>, offset: nat, e: seq<Hash>, at: nat, size: nat)
    requires 0 < size && offset + size <= |d| && at + size <= |e|
    ensures Root(d, offset, size) == Root(e, at, size) <==> SameLeaves(d, offset, e, at, size)
    decreases size
  {
    if size > 1 {
      var k := Split(size);
      RootBinds(d, offset, e, at, k);
      RootBinds(d, offset + k, e, at + k, size - k);
      SameLeavesSplit(d, offset, e, at, k, size);
    } else {
      assert d[offset..offset + 1] == [d[offset]] && e[at..at + 1] == [e[at]];
    }
  }

  /** A span root depends only on the leaves it covers. */
  lemma RootOfPrefix(d: seq<Hash>, e: seq<Hash>, offset: nat, size: nat)
    requires 0 < size && offset + size <= |d| && d <= e
    ensures Root(d, offset, size) == Root(e, offset, size)
  {
    RootBinds(d, offset, e, offset, size);
    assert d[offset..offset + size] == e[offset..offset + size];
  }

  /** The first leaf under the node at `(level, index)`: `index * 2^level`, by doubling. */
  function NodeStart(level: nat, index: nat): (start: nat)
    decreases level
  {
    if level == 0 then index else NodeStart(level - 1, 2 * index)
  }

  lemma {:induction false} NodeStartIsProduct(level: nat, index: nat)
    ensures NodeStart(level, index) == index * Pow2(level)
    decreases level
  {
    if level > 0 {
      NodeStartIsProduct(level - 1, 2 * index);
      assert index * (2 * Pow2(level - 1)) == (2 * index) * Pow2(level - 1);
    }
  }

  lemma {:induction false} NodeStartStep(level: nat, index: nat)
    ensures NodeStart(level, index + 1) == NodeStart(level, index) + Pow2(level)
    decreases level
  {
    if level > 0 {
      NodeStartStep(level - 1, 2 * index);
      NodeStartStep(level - 1, 2 * index + 1);
    }
  }

  lemma {:induction false} NodeStartMonotone(level: nat, a: nat, b: nat)
    requires a <= b
    ensures NodeStart(level, a) + (b - a) <= NodeStart(level, b)
    decreases level
  {
    if level > 0 {
      NodeStartMonotone(level - 1, 2 * a, 2 * b);
    }
  }

  /** Whether the leaf span of the perfect node at `(level, index)` lies inside `[0, bound)`. */
  predicate Complete(level: nat, index: nat, bound: nat) {
    NodeStart(level, index + 1) <= bound
  }

  lemma CompleteChildren(level: nat, index: nat, bound: nat)
    requires level > 0 && Complete(level, index, bound)
    ensures Complete(level - 1, 2 * index, bound) && Complete(level - 1, 2 * index + 1, bound)
  {
    NodeStartMonotone(level - 1, 2 * index + 1, 2 * index + 2);
  }

  lemma CompleteIndexBelow(level: nat, index: nat, bound: nat)
    requires Complete(level, index, bound)
    ensures index < bound && Pow2(level) <= bound
  {
    NodeStartMonotone(level, 0, index + 1);
    NodeStartStep(level, 0);
    NodeStartMonotone(level, 1, index + 1);
    NodeStartIsProduct(level, 0);
  }

  /** The perfect node at `(level, index)`: a leaf, or the hash of the two nodes below it. */
  function NodeRoot(d: seq<Hash>, level: nat, index: nat): Hash
    requires Complete(level, index, |d|)
    decreases level
  {
    if level == 0 then d[index]
    else
      CompleteChildren(level, index, |d|);
      NodeHash(NodeRoot(d, level - 1, 2 * index), NodeRoot(d, level - 1, 2 * index + 1))
  }

  lemma RootHalves(d: seq<Hash>, offset: nat, level: nat)
    requires level > 0 && offset + Pow2(level) <= |d|
    ensures var k := Pow2(level - 1);
      Root(d, offset, Pow2(level)) == NodeHash(Root(d, offset, k), Root(d, offset + k, k))
  {
    SplitLevelUnique(Pow2(level), level - 1);
  }

  /** A perfect node is the Merkle tree hash of its leaf slice. */
  lemma {:induction false} NodeRootIsSpan(d: seq<Hash>, level: nat, index: nat)
    requires Complete(level, index, |d|)
    ensures NodeStart(level, index) + Pow2(level) <= |d|
    ensures NodeRoot(d, level, index) == Root(d, NodeStart(level, index), Pow2(level))
    decreases level
  {
    NodeStartStep(level, index);
    if level > 0 {
      CompleteChildren(level, index, |d|);
      NodeRootIsSpan(d, level - 1, 2 * index);
      NodeRootIsSpan(d, level - 1, 2 * index + 1);
      NodeStartStep(level - 1, 2 * index);
      RootHalves(d, NodeStart(level, index), level);
    }
  }

  lemma NodeRootOfPrefix(d: seq<Hash>, e: seq<Hash>, level: nat, index: nat)
    requires Complete(level, index, |d|) && d <= e
    ensures Complete(level, index, |e|) && NodeRoot(d, level, index) == NodeRoot(e, level, index)
  {
    NodeRootIsSpan(d, level, index);
    NodeRootIsSpan(e, level, index);
    RootOfPrefix(d, e, NodeStart(level, index), Pow2(level));
  }
}
