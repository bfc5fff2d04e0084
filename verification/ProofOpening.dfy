/** Inclusion and consistency proofs opened from stored nodes, and the roots checkpoints are held to. */
module ProofOpening {
  import opened Wrappers
  import opened Bits
  import opened Encoding
  import opened Merkle
  import opened Tables
  import opened SubtreeCache
  import opened TreeOpening
  import Inclusion
  import Consistency

  // ---- the builders ----

  /** `generate_inclusion_proof` over the reader. */
  function OpenPath(src: Source, offset: nat, size: nat, m: nat, log: ReadLog): OpenedPath
    requires m < size
    decreases size
  {
    if size == 1 then OpenedPath(Some(Start), log)
    else
      var k := Split(size);
      if m < k then Extend(src, offset + k, size - k, OpenPath(src, offset, k, m, log))
      else Extend(src, offset, k, OpenPath(src, offset + k, size - k, m - k, log))
  }

  /** `generate_consistency_proof` over the reader: the SUBPROOF walk of section 2.1.4.1 of RFC 9162. */
  function OpenSubProof(src: Source, offset: nat, m: nat, n: nat, b: bool, log: ReadLog): OpenedPath
    requires 1 <= m <= n
    decreases n
  {
    if m == n then
      if b then OpenedPath(Some(Start), log) else Extend(src, offset, n, OpenedPath(Some(Start), log))
    else
      var k := Split(n);
      if m <= k then Extend(src, offset + k, n - k, OpenSubProof(src, offset, m, k, b, log))
      else Extend(src, offset, k, OpenSubProof(src, offset + k, m - k, n - k, false, log))
  }

  /** A path with the root of one more span on top. */
  function Extend(src: Source, offset: nat, size: nat, below: OpenedPath): OpenedPath
    requires size >= 1
  {
    if below.path.None? then below
    else
      var top := OpenSpan(src, offset, size, below.log);
      if top.hash.None? then OpenedPath(None, top.log)
      else OpenedPath(Some(Up(below.path.value, top.hash.value)), top.log)
  }

  function PathCost(offset: nat, size: nat, m: nat): nat
    requires m < size
    decreases size
  {
    if size == 1 then 0
    else
      var k := Split(size);
      if m < k then PathCost(offset, k, m) + SpanCost(offset + k, size - k)
      else PathCost(offset + k, size - k, m - k) + SpanCost(offset, k)
  }

  function SubProofCost(offset: nat, m: nat, n: nat, b: bool): nat
    requires 1 <= m <= n
    decreases n
  {
    if m == n then if b then 0 else SpanCost(offset, n)
    else
      var k := Split(n);
      if m <= k then SubProofCost(offset, m, k, b) + SpanCost(offset + k, n - k)
      else SubProofCost(offset + k, m - k, n - k, false) + SpanCost(offset, k)
  }

  // ---- refuse or agree ----

  /** A path was refused, or is the expected one in exactly the expected reads. */
  ghost predicate PathAgrees(src: Source, expected: ProofPath, cost: nat, before: ReadLog, r: OpenedPath) {
    || Refused(src, before, r.log)
    || (before.failure.None? && r.log.failure.None? && r.path == Some(expected) && r.log.nodes == before.nodes + cost)
  }

  lemma ExtendAgrees(src: Source, d: seq<Hash>, offset: nat, size: nat, expected: ProofPath, cost: nat, before: ReadLog, below: OpenedPath)
    requires SoundSource(src, d) && size >= 1 && offset + size <= src.bound
    requires PathAgrees(src, expected, cost, before, below)
    ensures PathAgrees(src, Up(expected, Root(d, offset, size)), cost + SpanCost(offset, size), before, Extend(src, offset, size, below))
  {
    if below.path.Some? {
      OpenSpanAgrees(src, d, offset, size, below.log);
    }
  }

  ghost predicate PathOpens(src: Source, d: seq<Hash>, offset: nat, size: nat, m: nat, log: ReadLog)
    requires m < size && offset + size <= |d|
  {
    PathAgrees(src, Inclusion.Path(d, offset, size, m), PathCost(offset, size, m), log, OpenPath(src, offset, size, m, log))
  }

  lemma PathOpensLeft(src: Source, d: seq<Hash>, offset: nat, size: nat, m: nat, log: ReadLog)
    requires SoundSource(src, d) && 2 <= size && m < Split(size) && offset + size <= src.bound
    requires PathOpens(src, d, offset, Split(size), m, log)
    ensures PathOpens(src, d, offset, size, m, log)
  {
    hide SoundNodes, OpenSpan, SpanCost, Root;
    var k := Split(size);
    ExtendAgrees(src, d, offset + k, size - k, Inclusion.Path(d, offset, k, m), PathCost(offset, k, m), log,
                 OpenPath(src, offset, k, m, log));
  }

  lemma PathOpensRight(src: Source, d: seq<Hash>, offset: nat, size: nat, m: nat, log: ReadLog)
    requires SoundSource(src, d) && 2 <= size && Split(size) <= m < size && offset + size <= src.bound
    requires PathOpens(src, d, offset + Split(size), size - Split(size), m - Split(size), log)
    ensures PathOpens(src, d, offset, size, m, log)
  {
    hide SoundNodes, OpenSpan, SpanCost, Root;
    var k := Split(size);
    ExtendAgrees(src, d, offset, k, Inclusion.Path(d, offset + k, size - k, m - k), PathCost(offset + k, size - k, m - k), log,
                 OpenPath(src, offset + k, size - k, m - k, log));
  }

  lemma {:induction false} OpenPathAgrees(src: Source, d: seq<Hash>, offset: nat, size: nat, m: nat, log: ReadLog)
    requires SoundSource(src, d) && m < size && offset + size <= src.bound && log.failure.None?
    ensures PathOpens(src, d, offset, size, m, log)
    decreases size
  {
    if size > 1 {
      var k := Split(size);
      if m < k {
        OpenPathAgrees(src, d, offset, k, m, log);
        PathOpensLeft(src, d, offset, size, m, log);
      } else {
        OpenPathAgrees(src, d, offset + k, size - k, m - k, log);
        PathOpensRight(src, d, offset, size, m, log);
      }
    }
  }

  ghost predicate SubProofAgrees(src: Source, d: seq<Hash>, offset: nat, m: nat, n: nat, b: bool, log: ReadLog)
    requires 1 <= m <= n && offset + n <= |d|
  {
    PathAgrees(src, Consistency.SubProof(d, offset, m, n, b), SubProofCost(offset, m, n, b), log,
               OpenSubProof(src, offset, m, n, b, log))
  }

  lemma SubProofAgreesLeft(src: Source, d: seq<Hash>, offset: nat, m: nat, n: nat, b: bool, log: ReadLog)
    requires SoundSource(src, d) && 1 <= m < n && m <= Split(n) && offset + n <= src.bound
    requires SubProofAgrees(src, d, offset, m, Split(n), b, log)
    ensures SubProofAgrees(src, d, offset, m, n, b, log)
  {
    hide SoundNodes, OpenSpan, SpanCost, Root;
    var k := Split(n);
    ExtendAgrees(src, d, offset + k, n - k, Consistency.SubProof(d, offset, m, k, b), SubProofCost(offset, m, k, b), log,
                 OpenSubProof(src, offset, m, k, b, log));
  }

  lemma SubProofAgreesRight(src: Source, d: seq<Hash>, offset: nat, m: nat, n: nat, b: bool, log: ReadLog)
    requires SoundSource(src, d) && 2 <= n && Split(n) < m < n && offset + n <= src.bound
    requires SubProofAgrees(src, d, offset + Split(n), m - Split(n), n - Split(n), false, log)
    ensures SubProofAgrees(src, d, offset, m, n, b, log)
  {
    hide SoundNodes, OpenSpan, SpanCost, Root;
    var k := Split(n);
    ExtendAgrees(src, d, offset, k, Consistency.SubProof(d, offset + k, m - k, n - k, false), SubProofCost(offset + k, m - k, n - k, false), log,
                 OpenSubProof(src, offset + k, m - k, n - k, false, log));
  }

  lemma {:induction false} OpenSubProofAgrees(src: Source, d: seq<Hash>, offset: nat, m: nat, n: nat, b: bool, log: ReadLog)
    requires SoundSource(src, d) && 1 <= m <= n && offset + n <= src.bound && log.failure.None?
    ensures SubProofAgrees(src, d, offset, m, n, b, log)
    decreases n
  {
    if m == n {
      if !b {
        ExtendAgrees(src, d, offset, n, Start, 0, log, OpenedPath(Some(Start), log));
      }
    } else if m <= Split(n) {
      OpenSubProofAgrees(src, d, offset, m, Split(n), b, log);
      SubProofAgreesLeft(src, d, offset, m, n, b, log);
    } else {
      OpenSubProofAgrees(src, d, offset + Split(n), m - Split(n), n - Split(n), false, log);
      SubProofAgreesRight(src, d, offset, m, n, b, log);
    }
  }

  // ---- what a proof costs ----

  /** A perfect span of two leaves or more, with its halves: one read each. */
  ghost predicate PerfectHalves(offset: nat, n: nat, k: nat, level: nat)
    requires n >= 2
  {
    && k >= 1 && n == k + k && Split(n) == k
    && SpanCost(offset, k) == 1 && SpanCost(offset + k, k) == 1
    && PerfectAt(offset, k, level - 1) && PerfectAt(offset + k, k, level - 1)
  }

  ghost predicate PerfectAt(offset: nat, n: nat, level: int) {
    level >= 0 && n == Pow2(level) && AlignedTo(offset, level)
  }

  lemma PerfectCost(offset: nat, n: nat, level: nat)
    requires PerfectAt(offset, n, level)
    ensures SpanCost(offset, n) == 1
  {
    FloorLog2Unique(n, level);
    AlignedIsMultiple(offset, n);
  }

  lemma HalvesOfPerfect(offset: nat, n: nat, level: nat)
    requires level >= 1 && PerfectAt(offset, n, level)
    ensures n >= 2 && PerfectHalves(offset, n, Pow2(level - 1), level)
  {
    var k := Pow2(level - 1);
    SplitLevelUnique(n, level - 1);
    AlignedHalves(offset, level);
    PerfectCost(offset, k, level - 1);
    PerfectCost(offset + k, k, level - 1);
  }

  lemma AlignedHalves(offset: nat, level: nat)
    requires level >= 1 && AlignedTo(offset, level)
    ensures AlignedTo(offset, level - 1) && AlignedTo(offset + Pow2(level - 1), level - 1)
  {
    var index: nat :| NodeStart(level, index) == offset;
    NodeStartStep(level - 1, 2 * index);
    assert NodeStart(level - 1, 2 * index) == offset;
    assert NodeStart(level - 1, 2 * index + 1) == offset + Pow2(level - 1);
  }

  /** Inside a perfect tree every node of the consistency walk is one read. */
  lemma {:induction false} SubProofCostPerfect(offset: nat, m: nat, n: nat, level: nat, b: bool)
    requires 1 <= m <= n && PerfectAt(offset, n, level)
    ensures SubProofCost(offset, m, n, b) <= level + 1
    decreases level
  {
    hide SpanCost, AlignedTo;
    if m == n {
      PerfectCost(offset, n, level);
    } else {
      HalvesOfPerfect(offset, n, level);
      var k := Split(n);
      if m <= k {
        SubProofCostPerfect(offset, m, k, level - 1, b);
        assert SubProofCost(offset, m, n, b) == SubProofCost(offset, m, k, b) + 1;
      } else {
        SubProofCostPerfect(offset + k, m - k, k, level - 1, false);
        assert SubProofCost(offset, m, n, b) == SubProofCost(offset + k, m - k, k, false) + 1;
      }
    }
  }

  lemma PathCostLeft(offset: nat, n: nat, m: nat)
    requires n >= 2 && m < Split(n)
    ensures PathCost(offset, n, m) == PathCost(offset, Split(n), m) + SpanCost(offset + Split(n), n - Split(n))
  {
  }

  lemma PathCostRight(offset: nat, n: nat, m: nat)
    requires n >= 2 && Split(n) <= m < n
    ensures PathCost(offset, n, m) == PathCost(offset + Split(n), n - Split(n), m - Split(n)) + SpanCost(offset, Split(n))
  {
  }

  lemma {:induction false} PathCostPerfect(offset: nat, n: nat, level: nat, m: nat)
    requires m < n && PerfectAt(offset, n, level)
    ensures PathCost(offset, n, m) == level
    decreases level
  {
    hide SpanCost, AlignedTo, Perfect;
    if level == 0 {
      assert n == 1;
    } else {
      HalvesOfPerfect(offset, n, level);
      var k := Split(n);
      if m < k {
        PathCostPerfect(offset, k, level - 1, m);
        PathCostLeft(offset, n, m);
      } else {
        PathCostPerfect(offset + k, k, level - 1, m - k);
        PathCostRight(offset, n, m);
      }
    }
  }

  /** The left part of an aligned span is perfect, one below its height. */
  lemma LeftOfSplit(offset: nat, n: nat)
    requires n >= 2 && AlignedFor(offset, n)
    ensures PerfectAt(offset, Split(n), CeilLog2(n) - 1) && SpanCost(offset, Split(n)) == 1
  {
    var l := SplitLevel(n);
    AlignedSplit(offset, n);
    FloorLog2Unique(Split(n), l);
    PerfectCost(offset, Split(n), l);
  }

  /** The right part is aligned, lower, and costs at most the height. */
  lemma RightOfSplit(offset: nat, n: nat)
    requires n >= 2 && AlignedFor(offset, n)
    ensures var k := Split(n);
      AlignedFor(offset + k, n - k) && SpanCost(offset + k, n - k) <= CeilLog2(n) && CeilLog2(n - k) <= CeilLog2(n) - 1
  {
    hide SpanCost, PopCount, CeilLog2, Perfect, AlignedFor;
    var k := Split(n);
    AlignedSplit(offset, n);
    AlignedCost(offset + k, n - k);
    RightIsLower(n);
  }

  lemma RightIsLower(n: nat)
    requires n >= 2
    ensures CeilLog2(n - Split(n)) <= CeilLog2(n) - 1 && PopCount(n - Split(n)) <= CeilLog2(n)
  {
    PopCountCeilLog2(n - Split(n));
    CeilLog2Split(n);
  }

  /** A consistency proof reads at most twice the height of the tree, plus one. */
  lemma {:induction false} SubProofCostBound(offset: nat, m: nat, n: nat, b: bool)
    requires 1 <= m <= n && AlignedFor(offset, n)
    ensures SubProofCost(offset, m, n, b) <= 2 * CeilLog2(n) + 1
    decreases n
  {
    hide SpanCost, AlignedFor, PerfectAt;
    if m == n {
      AlignedCost(offset, n);
      PopCountCeilLog2(n);
    } else {
      LeftOfSplit(offset, n);
      RightOfSplit(offset, n);
      var k := Split(n);
      if m <= k {
        SubProofCostPerfect(offset, m, k, CeilLog2(n) - 1, b);
      } else {
        SubProofCostBound(offset + k, m - k, n - k, false);
      }
    }
  }

  /** An inclusion proof reads at most twice the height of the tree. */
  lemma {:induction false} PathCostBound(offset: nat, size: nat, m: nat)
    requires m < size && AlignedFor(offset, size)
    ensures PathCost(offset, size, m) <= 2 * CeilLog2(size)
    decreases size
  {
    hide SpanCost, AlignedFor, CeilLog2, PerfectAt;
    if size > 1 {
      LeftOfSplit(offset, size);
      RightOfSplit(offset, size);
      var k := Split(size);
      if m < k {
        PathCostPerfect(offset, k, CeilLog2(size) - 1, m);
        PathCostLeft(offset, size, m);
      } else {
        PathCostBound(offset + k, size - k, m - k);
        PathCostRight(offset, size, m);
      }
    }
  }

  // ---- as the store serves them ----

  datatype MeasuredRoot = MeasuredRoot(root: Hash, nodes: nat)
  datatype MeasuredPath = MeasuredPath(path: ProofPath, nodes: nat)

  /** `subtree_root_raw`: the span's end is the bound. */
  function SubtreeRoot(entries: Entries, cache: Cache, offset: nat, size: nat): MirrorResult<MeasuredRoot> {
    if size == 0 then Err(Atl)
    else
      var r := OpenSpan(Source(entries, cache, offset + size), offset, size, NOTHING_READ);
      if r.log.failure.Some? then Err(r.log.failure.value)
      else if r.hash.None? then Err(Atl)
      else Ok(MeasuredRoot(r.hash.value, r.log.nodes))
  }

  /** `log_root_raw`: the empty tree reads nothing. */
  function LogRoot(entries: Entries, cache: Cache, treeSize: nat): MirrorResult<MeasuredRoot> {
    if treeSize == 0 then Ok(MeasuredRoot(EmptyRoot, 0)) else SubtreeRoot(entries, cache, 0, treeSize)
  }

  function FinishPath(r: OpenedPath): MirrorResult<MeasuredPath> {
    if r.log.failure.Some? then Err(r.log.failure.value)
    else if r.path.None? then Err(Atl)
    else Ok(MeasuredPath(r.path.value, r.log.nodes))
  }

  /** `inclusion_proof_raw`. */
  function InclusionProof(entries: Entries, cache: Cache, leafIndex: nat, treeSize: nat): MirrorResult<MeasuredPath> {
    if leafIndex >= treeSize then Err(Atl)
    else FinishPath(OpenPath(Source(entries, cache, treeSize), 0, treeSize, leafIndex, NOTHING_READ))
  }

  /** `consistency_proof_measured_raw`: refused over a prefix the store does not hold. */
  function ConsistencyProof(entries: Entries, cache: Cache, fromSize: nat, toSize: nat): MirrorResult<MeasuredPath> {
    if toSize > MAX_I64 then Err(IndexOverflow)
    else if CountEntries(entries, 0, toSize) != toSize then
      Err(IncompleteEntries(CountEntries(entries, 0, toSize), toSize))
    else if fromSize > toSize then Err(Atl)
    else if fromSize == 0 then Ok(MeasuredPath(Start, 0))
    else FinishPath(OpenSubProof(Source(entries, cache, toSize), 0, fromSize, toSize, true, NOTHING_READ))
  }

  /** Refuse or agree: from sound material with any rows lost, a span opens to its root in its cost,
    * or is refused by naming a node complete under the bound and absent.
    */
  lemma SubtreeRootRefusesOrAgrees(entries: Entries, cache: Cache, d: seq<Hash>, offset: nat, size: nat)
    requires SoundSource(Source(entries, cache, offset + size), d) && size >= 1
    ensures var r := SubtreeRoot(entries, cache, offset, size);
      if r.Ok? then r.value == MeasuredRoot(Root(d, offset, size), SpanCost(offset, size))
      else NamesAbsent(r.error, Source(entries, cache, offset + size))
  {
    OpenSpanAgrees(Source(entries, cache, offset + size), d, offset, size, NOTHING_READ);
  }

  /** The root of a prefix costs one read per set bit of its size. */
  lemma LogRootRefusesOrAgrees(entries: Entries, cache: Cache, d: seq<Hash>, n: nat)
    requires SoundSource(Source(entries, cache, n), d)
    ensures var r := LogRoot(entries, cache, n);
      if r.Ok? then r.value == MeasuredRoot(TreeRoot(d, n), PopCount(n))
      else NamesAbsent(r.error, Source(entries, cache, n))
  {
    if n > 0 {
      SubtreeRootRefusesOrAgrees(entries, cache, d, 0, n);
      ZeroIsAligned(n);
      AlignedCost(0, n);
    }
  }

  lemma InclusionProofRefusesOrAgrees(entries: Entries, cache: Cache, d: seq<Hash>, i: nat, n: nat)
    requires SoundSource(Source(entries, cache, n), d) && i < n
    ensures var r := InclusionProof(entries, cache, i, n);
      if r.Ok? then r.value.path == Inclusion.Path(d, 0, n, i) && r.value.nodes <= 2 * CeilLog2(n)
      else NamesAbsent(r.error, Source(entries, cache, n))
  {
    OpenPathAgrees(Source(entries, cache, n), d, 0, n, i, NOTHING_READ);
    ZeroIsAligned(n);
    PathCostBound(0, n, i);
  }

  lemma ConsistencyProofRefusesOrAgrees(entries: Entries, cache: Cache, d: seq<Hash>, m: nat, n: nat)
    requires SoundSource(Source(entries, cache, n), d) && 1 <= m <= n <= MAX_I64
    requires CountEntries(entries, 0, n) == n
    ensures var r := ConsistencyProof(entries, cache, m, n);
      if r.Ok? then
        r.value == MeasuredPath(Consistency.SubProof(d, 0, m, n, true), SubProofCost(0, m, n, true))
        && r.value.nodes <= 2 * CeilLog2(n) + 1
      else NamesAbsent(r.error, Source(entries, cache, n))
  {
    OpenSubProofAgrees(Source(entries, cache, n), d, 0, m, n, true, NOTHING_READ);
    ZeroIsAligned(n);
    SubProofCostBound(0, m, n, true);
  }

  lemma CompleteIsStored(entries: Entries, cache: Cache, d: seq<Hash>, level: nat, index: nat)
    requires HoldsLeaves(entries, d) && CacheExact(cache, d) && Complete(level, index, |d|)
    ensures StoredNode(entries, cache, level, index).Some?
  {
    CompleteIndexBelow(level, index, |d|);
    assert level >= 1 ==> Inner(NodeKey(level, index), |d|);
  }

  /** Over an exact cache nothing complete is absent, so nothing is refused. */
  lemma NothingAbsent(entries: Entries, cache: Cache, d: seq<Hash>, bound: nat, e: MirrorError)
    requires HoldsLeaves(entries, d) && CacheExact(cache, d) && bound <= |d|
    ensures !NamesAbsent(e, Source(entries, cache, bound))
  {
    if e.TreeMaterialMissing? && Complete(e.level, e.nodeIndex, bound) {
      CompleteIsStored(entries, cache, d, e.level, e.nodeIndex);
    }
  }

  /** An exact cache beside contiguous leaves is sound. */
  lemma ExactIsSound(entries: Entries, cache: Cache, d: seq<Hash>, bound: nat)
    requires Contiguous(entries) && LeafColumn(entries) && d == Leaves(Log(entries))
    requires CacheExact(cache, d) && bound <= |d| <= MAX_I64 + 1
    ensures SoundSource(Source(entries, cache, bound), d) && HoldsLeaves(entries, d)
  {
    var src := Source(entries, cache, bound);
    forall level: nat, index: nat | StoredNode(src.entries, src.cache, level, index).Some?
      ensures Complete(level, index, |d|) && StoredNode(src.entries, src.cache, level, index).value == NodeRoot(d, level, index)
    {
      if level > 0 {
        var key := NodeKey(level, index);
        assert key in cache && Inner(key, |d|) && cache[key] == InnerRoot(d, key);
      }
    }
  }
}
