/** Inclusion proofs: section 2.1.3 of RFC 9162. */
module Inclusion {
  import opened Wrappers
  import opened Bits
  import opened Encoding
  import opened Merkle

  /** PATH(m, D) of section 2.1.3.1, over the `size` leaves of `d` from `offset`. */
  function Path(d: seq<Hash>, offset: nat, size: nat, m: nat): ProofPath
    requires m < size && offset + size <= |d|
    decreases size
  {
    if size == 1 then Start
    else
      var k := Split(size);
      if m < k then Up(Path(d, offset, k, m), Root(d, offset + k, size - k))
      else Up(Path(d, offset + k, size - k, m - k), Root(d, offset, k))
  }

  /** The root a path opens from `leaf` at position `m` of `size`; a path of the wrong length opens none. */
  function RootFromPath(leaf: Hash, m: nat, size: nat, path: ProofPath): Option<Hash>
    requires m < size
    decreases size
  {
    if size == 1 then
      if path.Start? then Some(leaf) else None
    else if path.Start? then None
    else
      var k := Split(size);
      if m < k then
        match RootFromPath(leaf, m, k, path.below)
        case None => None
        case Some(left) => Some(NodeHash(left, path.node))
      else
        match RootFromPath(leaf, m - k, size - k, path.below)
        case None => None
        case Some(right) => Some(NodeHash(path.node, right))
  }

  /** `verify_inclusion`: an index outside the tree is an error, a path that opens another root is `false`. */
  function VerifyInclusion(leaf: Hash, index: nat, treeSize: nat, path: ProofPath, root: Hash): MirrorResult<bool> {
    if index >= treeSize then Err(Atl)
    else Ok(RootFromPath(leaf, index, treeSize, path) == Some(root))
  }

  /** A path opens the root of a span exactly when it is the path of section 2.1.3.1 and the leaf
    * is the one at that position: completeness and soundness at once.
    */
  ghost predicate OpensExactly(d: seq<Hash>, offset: nat, size: nat, m: nat, leaf: Hash, path: ProofPath)
    requires m < size && offset + size <= |d|
  {
    RootFromPath(leaf, m, size, path) == Some(Root(d, offset, size))
    <==> leaf == d[offset + m] && path == Path(d, offset, size, m)
  }

  lemma OpensLeft(d: seq<Hash>, offset: nat, size: nat, m: nat, leaf: Hash, path: ProofPath)
    requires 2 <= size && m < Split(size) && offset + size <= |d| && path.Up?
    requires OpensExactly(d, offset, Split(size), m, leaf, path.below)
    ensures OpensExactly(d, offset, size, m, leaf, path)
  {
  }

  lemma OpensRight(d: seq<Hash>, offset: nat, size: nat, m: nat, leaf: Hash, path: ProofPath)
    requires 2 <= size && Split(size) <= m < size && offset + size <= |d| && path.Up?
    requires OpensExactly(d, offset + Split(size), size - Split(size), m - Split(size), leaf, path.below)
    ensures OpensExactly(d, offset, size, m, leaf, path)
  {
  }

  lemma {:induction false} PathOpensExactly(d: seq<Hash>, offset: nat, size: nat, m: nat, leaf: Hash, path: ProofPath)
    requires m < size && offset + size <= |d|
    ensures OpensExactly(d, offset, size, m, leaf, path)
    decreases size
  {
    if size > 1 && path.Up? {
      var k := Split(size);
      if m < k {
        PathOpensExactly(d, offset, k, m, leaf, path.below);
        OpensLeft(d, offset, size, m, leaf, path);
      } else {
        PathOpensExactly(d, offset + k, size - k, m - k, leaf, path.below);
        OpensRight(d, offset, size, m, leaf, path);
      }
    }
  }

  /** Against the root of the first `n` leaves, a proof verifies exactly for the leaf it names. */
  lemma InclusionExact(d: seq<Hash>, n: nat, index: nat, path: ProofPath, leaf: Hash)
    requires n <= |d|
    ensures VerifyInclusion(leaf, index, n, path, TreeRoot(d, n)) == Ok(true)
       <==> index < n && leaf == d[index] && path == Path(d, 0, n, index)
  {
    if index < n {
      PathOpensExactly(d, 0, n, index, leaf, path);
    }
  }
}
