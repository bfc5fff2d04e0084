/** `with_tree_nodes`: a reader that counts what it obtains and captures its first failure, and the
  * builders run over it.
  */
module NodeReader {
  import opened Wrappers
  import opened Bits
  import opened Encoding
  import opened Merkle
  import opened Tables
  import opened TreeOpening
  import opened ProofOpening

  class Reader {
    const src: Source
    var obtained: nat
    var failure: Option<MirrorError>

    ghost function Log(): ReadLog
      reads this
    {
      ReadLog(obtained, failure)
    }

    constructor (entries: Entries, cache: Cache, bound: nat)
      ensures src == Source(entries, cache, bound) && Log() == NOTHING_READ
    {
      src := Source(entries, cache, bound);
      obtained := 0;
      failure := None;
    }

    /** Keep the first failure only. */
    method Capture(e: MirrorError)
      modifies this`failure
      ensures Log() == Record(old(Log()), e)
    {
      if failure.None? {
        failure := Some(e);
      }
    }

    /** The callback a builder is given: an absent complete node is captured as a failure, never left
      * to be recomputed in silence.
      */
    method Get(level: nat, index: nat) returns (node: Option<Hash>)
      modifies this
      ensures GetNode(src, level, index, old(Log())) == Opened(node, Log())
    {
      var found := TreeNode(src.entries, src.cache, level, index);
      node := None;
      match found
      case Ok(Some(h)) =>
        obtained := obtained + 1;
        node := Some(h);
      case Ok(None) =>
        if NodeIsComplete(level, index, src.bound) {
          Capture(TreeMaterialMissing(level, index));
        }
      case Err(e) =>
        Capture(e);
    }

    /** `compute_subtree_root` over this reader. */
    method Span(offset: nat, size: nat) returns (root: Option<Hash>)
      requires size >= 1
      modifies this
      ensures OpenSpan(src, offset, size, old(Log())) == Opened(root, Log())
      decreases size
    {
      root := None;
      if Perfect(offset, size) {
        root := Get(FloorLog2(size), Quot(offset, size));
        if root.Some? {
          return;
        }
      }
      if size == 1 {
        return;
      }
      var k := Split(size);
      var left := Span(offset, k);
      if left.None? {
        return None;
      }
      var right := Span(offset + k, size - k);
      if right.None? {
        return None;
      }
      root := Some(NodeHash(left.value, right.value));
    }

    /** A path with the root of one more span on top. */
    method Above(below: Option<ProofPath>, offset: nat, size: nat) returns (path: Option<ProofPath>)
      requires size >= 1
      modifies this
      ensures Extend(src, offset, size, OpenedPath(below, old(Log()))) == OpenedPath(path, Log())
    {
      if below.None? {
        return None;
      }
      var top := Span(offset, size);
      path := if top.None? then None else Some(Up(below.value, top.value));
    }

    /** `generate_inclusion_proof` over this reader. */
    method PathTo(offset: nat, size: nat, m: nat) returns (path: Option<ProofPath>)
      requires m < size
      modifies this
      ensures OpenPath(src, offset, size, m, old(Log())) == OpenedPath(path, Log())
      decreases size
    {
      if size == 1 {
        return Some(Start);
      }
      var k := Split(size);
      if m < k {
        path := PathTo(offset, k, m);
        path := Above(path, offset + k, size - k);
      } else {
        path := PathTo(offset + k, size - k, m - k);
        path := Above(path, offset, k);
      }
    }

    /** `generate_consistency_proof` over this reader. */
    method SubProof(offset: nat, m: nat, n: nat, b: bool) returns (path: Option<ProofPath>)
      requires 1 <= m <= n
      modifies this
      ensures OpenSubProof(src, offset, m, n, b, old(Log())) == OpenedPath(path, Log())
      decreases n
    {
      if m == n {
        path := Some(Start);
        if !b {
          path := Above(path, offset, n);
        }
      } else {
        var k := Split(n);
        if m <= k {
          path := SubProof(offset, m, k, b);
          path := Above(path, offset + k, n - k);
        } else {
          path := SubProof(offset + k, m - k, n - k, false);
          path := Above(path, offset, k);
        }
      }
    }
  }

  /** `log_root_raw`. */
  method RunLogRoot(entries: Entries, cache: Cache, treeSize: nat) returns (r: MirrorResult<MeasuredRoot>)
    ensures r == LogRoot(entries, cache, treeSize)
  {
    if treeSize == 0 {
      return Ok(MeasuredRoot(EmptyRoot, 0));
    }
    r := RunSubtreeRoot(entries, cache, 0, treeSize);
  }

  /** `subtree_root_raw`. */
  method RunSubtreeRoot(entries: Entries, cache: Cache, offset: nat, size: nat) returns (r: MirrorResult<MeasuredRoot>)
    ensures r == SubtreeRoot(entries, cache, offset, size)
  {
    if size == 0 {
      return Err(Atl);
    }
    var reader := new Reader(entries, cache, offset + size);
    var root := reader.Span(offset, size);
    if reader.failure.Some? {
      return Err(reader.failure.value);
    }
    r := if root.None? then Err(Atl) else Ok(MeasuredRoot(root.value, reader.obtained));
  }

  /** `inclusion_proof_raw`. */
  method RunInclusionProof(entries: Entries, cache: Cache, leafIndex: nat, treeSize: nat) returns (r: MirrorResult<MeasuredPath>)
    ensures r == InclusionProof(entries, cache, leafIndex, treeSize)
  {
    if leafIndex >= treeSize {
      return Err(Atl);
    }
    var reader := new Reader(entries, cache, treeSize);
    var path := reader.PathTo(0, treeSize, leafIndex);
    if reader.failure.Some? {
      return Err(reader.failure.value);
    }
    r := if path.None? then Err(Atl) else Ok(MeasuredPath(path.value, reader.obtained));
  }

  /** `consistency_proof_measured_raw`. */
  method RunConsistencyProof(entries: Entries, cache: Cache, fromSize: nat, toSize: nat) returns (r: MirrorResult<MeasuredPath>)
    ensures r == ConsistencyProof(entries, cache, fromSize, toSize)
  {
    if toSize > MAX_I64 {
      return Err(IndexOverflow);
    }
    var have := CountEntries(entries, 0, toSize);
    if have != toSize {
      return Err(IncompleteEntries(have, toSize));
    }
    if fromSize > toSize {
      return Err(Atl);
    }
    if fromSize == 0 {
      return Ok(MeasuredPath(Start, 0));
    }
    var reader := new Reader(entries, cache, toSize);
    var path := reader.SubProof(0, fromSize, toSize, true);
    if reader.failure.Some? {
      return Err(reader.failure.value);
    }
    r := if path.None? then Err(Atl) else Ok(MeasuredPath(path.value, reader.obtained));
  }
}
