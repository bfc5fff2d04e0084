/** Consistency proofs: section 2.1.4 of RFC 9162. */
module Consistency {
  import opened Wrappers
  import opened Bits
  import opened Encoding
  import opened Merkle

  /** SUBPROOF(m, D, b) of section 2.1.4.1, over the `n` leaves of `d` from `offset`. */
  function SubProof(d: seq<Hash>, offset: nat, m: nat, n: nat, b: bool): ProofPath
    requires 1 <= m <= n && offset + n <= |d|
    decreases n
  {
    if m == n then
      if b then Start else Up(Start, Root(d, offset, n))
    else
      var k := Split(n);
      if m <= k then Up(SubProof(d, offset, m, k, b), Root(d, offset + k, n - k))
      else Up(SubProof(d, offset + k, m - k, n - k, false), Root(d, offset, k))
  }

  /** What a consistency path rebuilds. */
  datatype Rebuilt = NoRoots | Roots(was: Hash, now: Hash)

  /** The two roots a path rebuilds; `known` stands in for the old root on the spine where the
    * proof omits it.
    */
  function Rebuild(m: nat, n: nat, b: bool, path: ProofPath, known: Hash): Rebuilt
    requires 1 <= m <= n
    decreases n
  {
    if m == n then
      if b then
        if path.Start? then Roots(known, known) else NoRoots
      else if path.Up? && path.below.Start? then Roots(path.node, path.node) else NoRoots
    else if path.Start? then NoRoots
    else
      var k := Split(n);
      if m <= k then
        match Rebuild(m, k, b, path.below, known)
        case NoRoots => NoRoots
        case Roots(o, w) => Roots(o, NodeHash(w, path.node))
      else
        match Rebuild(m - k, n - k, false, path.below, known)
        case NoRoots => NoRoots
        case Roots(o, w) => Roots(NodeHash(path.node, o), NodeHash(path.node, w))
  }

  /** `verify_consistency`. The empty tree is a prefix of every tree and its proof is empty. */
  function VerifyConsistency(m: nat, n: nat, path: ProofPath, fromRoot: Hash, toRoot: Hash): MirrorResult<bool> {
    if m > n then Err(Atl)
    else if m == 0 then Ok(path.Start?)
    else Ok(Rebuild(m, n, true, path, fromRoot) == Roots(fromRoot, toRoot))
  }

  /** A prefix that reaches past the split is split at the same place. */
  lemma SplitOfPrefix(m: nat, n: nat)
    requires n >= 2 && Split(n) < m <= n
    ensures m >= 2 && Split(m) == Split(n)
  {
    SplitLevelUnique(m, SplitLevel(n));
  }

  /** A path that rebuilds the new root is the proof, and rebuilds the prefix's root. */
  ghost predicate RebuildsSoundly(d: seq<Hash>, offset: nat, m: nat, n: nat, b: bool, path: ProofPath, known: Hash)
    requires 1 <= m <= n && offset + n <= |d|
  {
    var r := Rebuild(m, n, b, path, known);
    r.Roots? && r.now == Root(d, offset, n) ==> r.was == Root(d, offset, m) && path == SubProof(d, offset, m, n, b)
  }

  lemma RebuildsSame(d: seq<Hash>, offset: nat, m: nat, b: bool, path: ProofPath, known: Hash)
    requires 1 <= m && offset + m <= |d|
    ensures RebuildsSoundly(d, offset, m, m, b, path, known)
  {
  }

  lemma RebuildsLeft(d: seq<Hash>, offset: nat, m: nat, n: nat, b: bool, path: ProofPath, known: Hash)
    requires 1 <= m < n && offset + n <= |d| && m <= Split(n) && path.Up?
    requires RebuildsSoundly(d, offset, m, Split(n), b, path.below, known)
    ensures RebuildsSoundly(d, offset, m, n, b, path, known)
  {
  }

  lemma RebuildsRight(d: seq<Hash>, offset: nat, m: nat, n: nat, b: bool, path: ProofPath, known: Hash)
    requires 1 <= m < n && offset + n <= |d| && Split(n) < m && Split(m) == Split(n) && path.Up?
    requires RebuildsSoundly(d, offset + Split(n), m - Split(n), n - Split(n), false, path.below, known)
    ensures RebuildsSoundly(d, offset, m, n, b, path, known)
  {
  }

  lemma {:induction false} RebuildSound(d: seq<Hash>, offset: nat, m: nat, n: nat, b: bool, path: ProofPath, known: Hash)
    requires 1 <= m <= n && offset + n <= |d|
    ensures RebuildsSoundly(d, offset, m, n, b, path, known)
    decreases n
  {
    if m == n {
      RebuildsSame(d, offset, m, b, path, known);
    } else if path.Up? {
      var k := Split(n);
      if m <= k {
        RebuildSound(d, offset, m, k, b, path.below, known);
        RebuildsLeft(d, offset, m, n, b, path, known);
      } else {
        SplitOfPrefix(m, n);
        RebuildSound(d, offset + k, m - k, n - k, false, path.below, known);
        RebuildsRight(d, offset, m, n, b, path, known);
      }
    }
  }

  /** Completeness: the proof rebuilds both roots, from the true old root where it relies on it. */
  ghost predicate Completes(d: seq<Hash>, offset: nat, m: nat, n: nat, b: bool, known: Hash)
    requires 1 <= m <= n && offset + n <= |d|
  {
    Rebuild(m, n, b, SubProof(d, offset, m, n, b), known) == Roots(Root(d, offset, m), Root(d, offset, n))
  }

  lemma CompletesLeft(d: seq<Hash>, offset: nat, m: nat, n: nat, b: bool, known: Hash)
    requires 1 <= m < n && offset + n <= |d| && m <= Split(n)
    requires Completes(d, offset, m, Split(n), b, known)
    ensures Completes(d, offset, m, n, b, known)
  {
  }

  lemma CompletesRight(d: seq<Hash>, offset: nat, m: nat, n: nat, b: bool, known: Hash)
    requires 1 <= m < n && offset + n <= |d| && Split(n) < m && Split(m) == Split(n)
    requires Completes(d, offset + Split(n), m - Split(n), n - Split(n), false, known)
    ensures Completes(d, offset, m, n, b, known)
  {
  }

  lemma {:induction false} RebuildComplete(d: seq<Hash>, offset: nat, m: nat, n: nat, b: bool, known: Hash)
    requires 1 <= m <= n && offset + n <= |d|
    requires b ==> known == Root(d, offset, m)
    ensures Completes(d, offset, m, n, b, known)
    decreases n
  {
    if m < n {
      var k := Split(n);
      if m <= k {
        RebuildComplete(d, offset, m, k, b, known);
        CompletesLeft(d, offset, m, n, b, known);
      } else {
        SplitOfPrefix(m, n);
        RebuildComplete(d, offset + k, m - k, n - k, false, known);
        CompletesRight(d, offset, m, n, b, known);
      }
    }
  }

  /** Against the root of the first `n` leaves, a proof verifies exactly when it is the proof of
    * section 2.1.4.1 and the old root is the root of the first `m` leaves.
    */
  lemma ConsistencyExact(d: seq<Hash>, m: nat, n: nat, path: ProofPath, fromRoot: Hash)
    requires 1 <= m <= n <= |d|
    ensures VerifyConsistency(m, n, path, fromRoot, TreeRoot(d, n)) == Ok(true)
       <==> fromRoot == TreeRoot(d, m) && path == SubProof(d, 0, m, n, true)
  {
    RebuildSound(d, 0, m, n, true, path, fromRoot);
    if fromRoot == Root(d, 0, m) {
      RebuildComplete(d, 0, m, n, true, fromRoot);
    }
  }
}
