/** Opening roots and proofs through the stored tree material (`with_tree_nodes` and the builders
  * it is handed to): complete nodes are read, right-spine remainders are folded, and an absent
  * complete node is refused by name rather than recomputed.
  */
module TreeOpening {
  import opened Wrappers
  import opened Bits
  import opened Encoding
  import opened Merkle
  import opened Tables
  import SubtreeCache
  import Inclusion
  import Consistency

  /** The stored material, and the size of the tree a proof or root is opened under. */
  datatype Source = Source(entries: Entries, cache: Cache, bound: nat)

  /** What a reader has seen: nodes obtained, and the first failure it captured. */
  datatype ReadLog = ReadLog(nodes: nat, failure: Option<MirrorError>)

  const NOTHING_READ := ReadLog(0, None)

  function Record(log: ReadLog, e: MirrorError): ReadLog {
    if log.failure.None? then log.(failure := Some(e)) else log
  }

  datatype Opened = Opened(hash: Option<Hash>, log: ReadLog)
  datatype OpenedPath = OpenedPath(path: Option<ProofPath>, log: ReadLog)

  /** The node reader handed to the builders. */
  function GetNode(src: Source, level: nat, index: nat, log: ReadLog): Opened {
    match TreeNode(src.entries, src.cache, level, index)
    case Ok(Some(node)) => Opened(Some(node), log.(nodes := log.nodes + 1))
    case Ok(None) =>
      if NodeIsComplete(level, index, src.bound) then Opened(None, Record(log, TreeMaterialMissing(level, index)))
      else Opened(None, log)
    case Err(e) => Opened(None, Record(log, e))
  }

  /** A span the tree holds as one node: a power of two leaves, aligned to its own size. */
  predicate Perfect(offset: nat, size: nat)
    requires size >= 1
  {
    IsPow2(size) && Rem(offset, size) == 0
  }

  /** `compute_subtree_root`: take a perfect span from the store, split anything else. */
  function OpenSpan(src: Source, offset: nat, size: nat, log: ReadLog): Opened
    requires size >= 1
    decreases size, 1
  {
    if !Perfect(offset, size) then OpenHalves(src, offset, size, log)
    else
      var got := GetNode(src, FloorLog2(size), Quot(offset, size), log);
      if got.hash.Some? then got else OpenHalves(src, offset, size, got.log)
  }

  /** Descend: a single leaf has nothing below it, any other span is its two parts. */
  function OpenHalves(src: Source, offset: nat, size: nat, log: ReadLog): Opened
    requires size >= 1
    decreases size, 0
  {
    if size == 1 then Opened(None, log)
    else
      var k := Split(size);
      var left := OpenSpan(src, offset, k, log);
      if left.hash.None? then left
      else
        var right := OpenSpan(src, offset + k, size - k, left.log);
        if right.hash.None? then right
        else Opened(Some(NodeHash(left.hash.value, right.hash.value)), right.log)
  }

  /** How many stored nodes a span opens in when none is missing. */
  function SpanCost(offset: nat, size: nat): nat
    requires size >= 1
    decreases size
  {
    if size == 1 || Perfect(offset, size) then 1
    else SpanCost(offset, Split(size)) + SpanCost(offset + Split(size), size - Split(size))
  }

  // ---- sound material ----

  /** Whatever node is stored is the right one; any of them may have been lost. */
  ghost predicate SoundNodes(src: Source, d: seq<Hash>) {
    forall level: nat, index: nat :: StoredNode(src.entries, src.cache, level, index).Some? ==>
      Complete(level, index, |d|) && StoredNode(src.entries, src.cache, level, index).value == NodeRoot(d, level, index)
  }

  /** The material of a log this store can address, opened under a prefix of it. */
  ghost predicate SoundSource(src: Source, d: seq<Hash>) {
    src.bound <= |d| <= MAX_I64 + 1 && SoundNodes(src, d)
  }

  /** An error that names a node complete under the bound that the store does not hold. */
  ghost predicate NamesAbsent(e: MirrorError, src: Source) {
    && e.TreeMaterialMissing?
    && Complete(e.level, e.nodeIndex, src.bound)
    && StoredNode(src.entries, src.cache, e.level, e.nodeIndex) == None
  }

  /** The reader went on from `before` having captured a named absence, or what it already had. */
  ghost predicate Refused(src: Source, before: ReadLog, after: ReadLog) {
    after.failure.Some? && (after.failure == before.failure || NamesAbsent(after.failure.value, src))
  }

  /** A span was refused, or opened to its root in exactly the reads it costs. */
  ghost predicate SpanAgrees(src: Source, d: seq<Hash>, offset: nat, size: nat, before: ReadLog, r: Opened)
    requires size >= 1 && offset + size <= |d|
  {
    || Refused(src, before, r.log)
    || (before.failure.None? && r.log.failure.None? && r.hash == Some(Root(d, offset, size))
        && r.log.nodes == before.nodes + SpanCost(offset, size))
  }

  /** A perfect span is the node its level and quotient name. */
  lemma PerfectIsNode(offset: nat, size: nat)
    requires size >= 1 && Perfect(offset, size)
    ensures var level, index := FloorLog2(size), Quot(offset, size);
      NodeStart(level, index) == offset && Pow2(level) == size && NodeStart(level, index + 1) == offset + size
  {
    var level, index := FloorLog2(size), Quot(offset, size);
    QuotRemIsDivMod(offset, size);
    NodeStartIsProduct(level, index);
    NodeStartStep(level, index);
  }

  lemma GetPerfect(src: Source, d: seq<Hash>, offset: nat, size: nat, log: ReadLog)
    requires SoundSource(src, d) && size >= 1 && offset + size <= src.bound && Perfect(offset, size)
    ensures var r := GetNode(src, FloorLog2(size), Quot(offset, size), log);
      if r.hash.Some? then
        r.hash.value == Root(d, offset, size) && r.log == log.(nodes := log.nodes + 1)
      else Refused(src, log, r.log)
  {
    var level, index := FloorLog2(size), Quot(offset, size);
    PerfectIsNode(offset, size);
    CompleteIndexBelow(level, index, src.bound);
    NodeRootIsSpan(d, level, index);
    NodeIsCompleteExact(level, index, src.bound);
  }

  lemma SingleIsPerfect(offset: nat)
    ensures Perfect(offset, 1)
  {
    QuotRemIsDivMod(offset, 1);
  }

  lemma JoinSpans(src: Source, d: seq<Hash>, offset: nat, size: nat, a: ReadLog, left: Opened, right: Opened)
    requires size >= 2 && offset + size <= |d| && (a.failure.Some? || !Perfect(offset, size))
    requires SpanAgrees(src, d, offset, Split(size), a, left)
    requires left.hash.Some? && SpanAgrees(src, d, offset + Split(size), size - Split(size), left.log, right)
    ensures right.hash.Some? ==>
      SpanAgrees(src, d, offset, size, a, Opened(Some(NodeHash(left.hash.value, right.hash.value)), right.log))
    ensures right.hash.None? ==> SpanAgrees(src, d, offset, size, a, right)
  {
  }

  /** Refuse or agree, for a root. */
  lemma {:induction false} OpenSpanAgrees(src: Source, d: seq<Hash>, offset: nat, size: nat, log: ReadLog)
    requires SoundSource(src, d) && size >= 1 && offset + size <= src.bound
    ensures SpanAgrees(src, d, offset, size, log, OpenSpan(src, offset, size, log))
    decreases size, 1
  {
    if !Perfect(offset, size) {
      SingleIsPerfect(offset);
      OpenHalvesAgrees(src, d, offset, size, log);
    } else {
      GetPerfect(src, d, offset, size, log);
      var got := GetNode(src, FloorLog2(size), Quot(offset, size), log);
      if got.hash.None? {
        OpenHalvesAgrees(src, d, offset, size, got.log);
      }
    }
  }

  lemma {:induction false} OpenHalvesAgrees(src: Source, d: seq<Hash>, offset: nat, size: nat, log: ReadLog)
    requires SoundSource(src, d) && size >= 1 && offset + size <= src.bound
    requires log.failure.Some? || (size >= 2 && !Perfect(offset, size))
    ensures SpanAgrees(src, d, offset, size, log, OpenHalves(src, offset, size, log))
    decreases size, 0
  {
    hide SoundNodes, Perfect;
    if size >= 2 {
      var k := Split(size);
      OpenSpanAgrees(src, d, offset, k, log);
      var left := OpenSpan(src, offset, k, log);
      if left.hash.Some? {
        OpenSpanAgrees(src, d, offset + k, size - k, left.log);
        JoinSpans(src, d, offset, size, log, left, OpenSpan(src, offset + k, size - k, left.log));
      }
    }
  }

  // ---- what a span costs ----

  /** `offset` is a boundary of nodes at `level`. */
  ghost predicate AlignedTo(offset: nat, level: nat) {
    exists index: nat :: NodeStart(level, index) == offset
  }

  /** `offset` is aligned to the largest power of two not above `size`. */
  ghost predicate AlignedFor(offset: nat, size: nat)
    requires size >= 1
  {
    AlignedTo(offset, FloorLog2(size))
  }

  lemma AlignedDown(offset: nat, high: nat, low: nat)
    requires low <= high && AlignedTo(offset, high)
    ensures AlignedTo(offset, low)
  {
    var index :| NodeStart(high, index) == offset;
    SubtreeCache.NodeStartDescends(high, index, low);
  }

  lemma AlignedIsMultiple(offset: nat, size: nat)
    requires size >= 1 && IsPow2(size)
    ensures Rem(offset, size) == 0 <==> AlignedFor(offset, size)
  {
    var level := FloorLog2(size);
    QuotRemIsDivMod(offset, size);
    if Rem(offset, size) == 0 {
      NodeStartIsProduct(level, Quot(offset, size));
    }
    if AlignedFor(offset, size) {
      var index: nat :| NodeStart(level, index) == offset;
      NodeStartIsProduct(level, index);
      DivideExactly(index, size, 0);
    }
  }

  lemma ZeroIsAligned(size: nat)
    requires size >= 1
    ensures AlignedFor(0, size)
  {
    NodeStartIsProduct(FloorLog2(size), 0);
    assert NodeStart(FloorLog2(size), 0) == 0;
  }

  lemma NextBoundary(offset: nat, level: nat)
    requires AlignedTo(offset, level)
    ensures AlignedTo(offset + Pow2(level), level)
  {
    var index: nat :| NodeStart(level, index) == offset;
    NodeStartStep(level, index);
    assert NodeStart(level, index + 1) == offset + Pow2(level);
  }

  /** Both parts of an aligned span are aligned, and the left one is a single node. */
  lemma AlignedSplit(offset: nat, size: nat)
    requires size >= 2 && AlignedFor(offset, size)
    ensures var k := Split(size);
      AlignedFor(offset, k) && Perfect(offset, k) && AlignedFor(offset + k, size - k)
  {
    hide AlignedTo, SplitLevel, FloorLog2, Pow2, Rem;
    var k, l := Split(size), SplitLevel(size);
    SplitShape(size);
    AlignedDown(offset, FloorLog2(size), l);
    AlignedIsMultiple(offset, k);
    NextBoundary(offset, l);
    FloorLog2AtMost(size - k, l);
    AlignedDown(offset + k, l, FloorLog2(size - k));
  }

  lemma FloorLog2AtMost(n: nat, l: nat)
    requires 1 <= n <= Pow2(l)
    ensures FloorLog2(n) <= l
  {
    if FloorLog2(n) > l {
      Pow2Monotone(l + 1, FloorLog2(n));
    }
  }

  /** An aligned span opens in exactly one stored read per set bit of its size. */
  lemma {:induction false} AlignedCost(offset: nat, size: nat)
    requires size >= 1 && AlignedFor(offset, size)
    ensures SpanCost(offset, size) == PopCount(size)
    decreases size
  {
    if IsPow2(size) {
      AlignedIsMultiple(offset, size);
      PopCountPow2(FloorLog2(size));
    } else {
      AlignedSplit(offset, size);
      AlignedCost(offset + Split(size), size - Split(size));
      PopCountSplit(size);
    }
  }
}
