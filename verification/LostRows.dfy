/** A store that has lost cache rows refuses by naming one of them, or answers as if it had lost none. */
module LostRows {
  import opened Wrappers
  import opened Bits
  import opened Encoding
  import opened Merkle
  import opened Tables
  import opened SubtreeCache
  import opened CacheRepair
  import opened StoreSpec
  import opened TreeOpening
  import opened ProofOpening
  import opened SeriesOrder
  import opened Series
  import opened Usability
  import opened Grounding
  import opened Range
  import Admission
  import Consistency
  import Enumeration
  import Governance
  import Inclusion

  /** As a valid tree, but some cache rows may be missing. */
  ghost predicate SoundTree(db: Db) {
    && Contiguous(db.entries) && |db.entries| <= MAX_I64 + 1 && LeafColumn(db.entries)
    && CacheSound(db.subtrees, LeavesOf(db))
  }

  /** The same store with no row missing. */
  ghost predicate Restores(db: Db, whole: Db) {
    SoundTree(db) && ValidTree(whole) && whole == db.(subtrees := whole.subtrees)
  }

  /** An error that names a complete node above the leaves this store has no row for. */
  ghost predicate Lost(db: Db, e: MirrorError) {
    && e.TreeMaterialMissing? && Inner(NodeKey(e.level, e.nodeIndex), |db.entries|)
    && NodeKey(e.level, e.nodeIndex) !in db.subtrees
  }

  /** Refused by naming a lost row, or answered alike. */
  ghost predicate RefusesOrAgrees<T(!new)>(db: Db, r: MirrorResult<T>, whole: MirrorResult<T>) {
    r == whole || (r.Err? && Lost(db, r.error))
  }

  // ---- what is read ----

  lemma SoundRows(db: Db, bound: nat)
    requires SoundTree(db) && bound <= |db.entries|
    ensures SoundSource(Source(db.entries, db.subtrees, bound), LeavesOf(db))
  {
    var src, d := Source(db.entries, db.subtrees, bound), LeavesOf(db);
    forall level: nat, index: nat | StoredNode(src.entries, src.cache, level, index).Some?
      ensures Complete(level, index, |d|) && StoredNode(src.entries, src.cache, level, index).value == NodeRoot(d, level, index)
    {
      if level > 0 {
        var key := NodeKey(level, index);
        assert key in db.subtrees && Inner(key, |d|) && db.subtrees[key] == InnerRoot(d, key);
      }
    }
  }

  lemma AbsentIsLost(db: Db, bound: nat, e: MirrorError)
    requires SoundTree(db) && bound <= |db.entries| && NamesAbsent(e, Source(db.entries, db.subtrees, bound))
    ensures Lost(db, e)
  {
    CompleteIndexBelow(e.level, e.nodeIndex, bound);
  }

  lemma HoldsPrefixLost(db: Db, whole: Db, n: nat)
    requires Restores(db, whole)
    ensures RefusesOrAgrees(db, HoldsPrefix(db, n), HoldsPrefix(whole, n))
  {
    hide CacheExact, CacheSound, LeafColumn;
    HoldsPrefixExact(whole, n);
    CountOfContiguous(db.entries, n);
    RequireFromExact(db.subtrees, n, MAX_SUBTREE_LEVEL);
  }

  lemma LogRootLost(db: Db, whole: Db, n: nat)
    requires Restores(db, whole) && n <= |db.entries|
    ensures RefusesOrAgrees(db, LogRoot(db.entries, db.subtrees, n), LogRoot(whole.entries, whole.subtrees, n))
  {
    hide CacheExact, CacheSound, LeafColumn, LogRoot;
    SoundRows(db, n);
    LogRootExact(whole, n);
    LogRootRefusesOrAgrees(db.entries, db.subtrees, LeavesOf(db), n);
    var r := LogRoot(db.entries, db.subtrees, n);
    if r.Err? {
      AbsentIsLost(db, n, r.error);
    }
  }

  lemma SubtreeRootLost(db: Db, whole: Db, offset: nat, size: nat)
    requires Restores(db, whole) && offset + size <= |db.entries|
    ensures RefusesOrAgrees(db, SubtreeRoot(db.entries, db.subtrees, offset, size), SubtreeRoot(whole.entries, whole.subtrees, offset, size))
  {
    hide CacheExact, CacheSound, LeafColumn;
    if size >= 1 {
      SoundRows(db, offset + size);
      ValidIsSound(whole, offset + size);
      SubtreeRootRefusesOrAgrees(db.entries, db.subtrees, LeavesOf(db), offset, size);
      SubtreeRootRefusesOrAgrees(whole.entries, whole.subtrees, LeavesOf(whole), offset, size);
      var r, w := SubtreeRoot(db.entries, db.subtrees, offset, size), SubtreeRoot(whole.entries, whole.subtrees, offset, size);
      if r.Err? {
        AbsentIsLost(db, offset + size, r.error);
      }
      if w.Err? {
        NothingAbsent(whole.entries, whole.subtrees, LeavesOf(whole), offset + size, w.error);
      }
    }
  }

  lemma ConsistencyLost(db: Db, whole: Db, m: nat, n: nat)
    requires Restores(db, whole) && 1 <= m <= n <= |db.entries| && n <= MAX_I64
    ensures RefusesOrAgrees(db, ConsistencyProof(db.entries, db.subtrees, m, n), ConsistencyProof(whole.entries, whole.subtrees, m, n))
  {
    hide CacheExact, CacheSound, LeafColumn, ConsistencyProof;
    SoundRows(db, n);
    ValidIsSound(whole, n);
    CountOfContiguous(db.entries, n);
    ConsistencyProofRefusesOrAgrees(db.entries, db.subtrees, LeavesOf(db), m, n);
    ConsistencyProofRefusesOrAgrees(whole.entries, whole.subtrees, LeavesOf(whole), m, n);
    var r, w := ConsistencyProof(db.entries, db.subtrees, m, n), ConsistencyProof(whole.entries, whole.subtrees, m, n);
    if r.Err? {
      AbsentIsLost(db, n, r.error);
    }
    if w.Err? {
      NothingAbsent(whole.entries, whole.subtrees, LeavesOf(whole), n, w.error);
    }
  }

  // ---- admission ----

  /** The root check of an ingest. */
  lemma CheckRootLost(db: Db, whole: Db, cp: Checkpoint, claimed: Hash)
    requires Restores(db, whole)
    ensures RefusesOrAgrees(db, Admission.CheckRoot(db, cp, claimed), Admission.CheckRoot(whole, cp, claimed))
  {
    hide CacheExact, CacheSound, LeafColumn, LogRoot, HoldsPrefix;
    HoldsPrefixLost(db, whole, cp.treeSize);
    HoldsPrefixExact(whole, cp.treeSize);
    if cp.treeSize <= |db.entries| {
      LogRootLost(db, whole, cp.treeSize);
    }
  }

  // ---- the view ----

  lemma UsableLost(db: Db, whole: Db, cp: Checkpoint, pred: Option<Checkpoint>)
    requires Restores(db, whole)
    requires pred.Some? ==> Established(LeavesOf(db), pred.value) && 1 <= pred.value.treeSize <= cp.treeSize
    ensures RefusesOrAgrees(db, UsableStored(db, cp, pred), UsableStored(whole, cp, pred))
  {
    hide CacheExact, CacheSound, LeafColumn, LogRoot, HoldsPrefix, ConsistencyProof, Consistency.VerifyConsistency;
    HoldsPrefixLost(db, whole, cp.treeSize);
    HoldsPrefixExact(whole, cp.treeSize);
    if cp.treeSize <= |db.entries| && cp.treeSize <= MAX_I64 {
      LogRootLost(db, whole, cp.treeSize);
      if pred.Some? {
        ConsistencyLost(db, whole, pred.value.treeSize, cp.treeSize);
      }
    }
  }

  lemma LabelNextLost(db: Db, whole: Db, so: Labels, cp: Checkpoint)
    requires Restores(db, whole)
    requires so.last.Some? ==> Established(LeavesOf(db), so.last.value) && 1 <= so.last.value.treeSize <= cp.treeSize
    ensures RefusesOrAgrees(db, LabelNext(db, so, cp), LabelNext(whole, so, cp))
  {
    hide CacheExact, CacheSound, LeafColumn, UsableStored;
    UsableLost(db, whole, cp, so.last);
  }

  lemma {:induction false} LabelLost(db: Db, whole: Db, rows: seq<Checkpoint>)
    requires Restores(db, whole) && Sorted(rows) && PositiveSizes(rows)
    ensures RefusesOrAgrees(db, Label(db, rows), Label(whole, rows))
    decreases |rows|
  {
    hide CacheExact, CacheSound, LeafColumn, LabelNext, Established;
    if rows == [] {
    } else {
      var init, cp := rows[..|rows| - 1], rows[|rows| - 1];
      LabelLost(db, whole, init);
      LabelExact(whole, init);
      var so := Label(whole, init).value;
      if so.last.Some? {
        LastPrecedes(rows, LeavesOf(whole), so);
      }
      LabelNextLost(db, whole, so, cp);
    }
  }

  lemma ViewLost(db: Db, whole: Db, config: Governance.Config)
    requires Restores(db, whole) && PositiveSizes(db.checkpoints)
    ensures RefusesOrAgrees(db, SeriesView(db, config), SeriesView(whole, config))
  {
    hide CacheExact, CacheSound, LeafColumn, Label, ComputeFrontier, FindDivergences, Floor;
    SortIsOrdered(db.checkpoints);
    LabelLost(db, whole, Sort(db.checkpoints));
    SameFloor(db, whole);
  }

  lemma SameFloor(db: Db, whole: Db)
    requires whole == db.(subtrees := whole.subtrees)
    ensures Floor(db) == Floor(whole) && Records(db) == Records(whole)
  {
  }

  // ---- the routes ----

  lemma {:induction false} OpenSpansLost(db: Db, whole: Db, spans: seq<Span>, n: nat)
    requires Restores(db, whole) && Enumeration.Inside(spans, n) && n <= |db.entries|
    ensures RefusesOrAgrees(db, Enumeration.OpenSpans(db.entries, db.subtrees, spans), Enumeration.OpenSpans(whole.entries, whole.subtrees, spans))
    decreases |spans|
  {
    hide CacheExact, CacheSound, LeafColumn, SubtreeRoot;
    if spans == [] {
    } else {
      var init, last := spans[..|spans| - 1], spans[|spans| - 1];
      assert Enumeration.Inside(init, n);
      OpenSpansLost(db, whole, init, n);
      SubtreeRootLost(db, whole, last.offset, last.size);
    }
  }

  lemma BuildRangeLost(db: Db, whole: Db, cp: Checkpoint, w: Window)
    requires Restores(db, whole)
    ensures RefusesOrAgrees(db, Enumeration.BuildRange(db.entries, db.subtrees, cp, w), Enumeration.BuildRange(whole.entries, whole.subtrees, cp, w))
  {
    hide CacheExact, CacheSound, LeafColumn, SubtreeRoot, Enumeration.OpenSpans, Enumeration.FinishRange, OutsideSubtrees, Enumeration.Inside;
    CountOfContiguous(db.entries, cp.treeSize);
    if Enumeration.CheckWindow(db.entries, cp.treeSize, w).Ok? {
      SubtreeRootLost(db, whole, 0, cp.treeSize);
      Enumeration.WindowSpansInside(cp.treeSize, w);
      OpenSpansLost(db, whole, OutsideSubtrees(0, cp.treeSize, w), cp.treeSize);
    }
  }

  lemma UsableAtLost(db: Db, whole: Db, config: Governance.Config, n: nat)
    requires Restores(db, whole) && PositiveSizes(db.checkpoints)
    ensures RefusesOrAgrees(db, UsableAt(db, config, n), UsableAt(whole, config, n))
    ensures RefusesOrAgrees(db, LookupAt(db, config, n), LookupAt(whole, config, n))
  {
    hide SeriesView, SoundTree, ValidTree;
    ViewLost(db, whole, config);
  }

  lemma ServeRangeLost(db: Db, whole: Db, config: Governance.Config, n: nat, w: Window)
    requires Restores(db, whole) && PositiveSizes(db.checkpoints)
    ensures RefusesOrAgrees(db, ServeRange(db, config, n, w), ServeRange(whole, config, n, w))
  {
    hide UsableAt, SoundTree, ValidTree, Enumeration.BuildRange;
    UsableAtLost(db, whole, config, n);
    var cp := UsableAt(whole, config, n);
    if cp.Ok? {
      BuildRangeLost(db, whole, cp.value, w);
    }
  }

  lemma ServeConsistencyLost(db: Db, whole: Db, config: Governance.Config, from: nat, upTo: nat)
    requires Restores(db, whole) && PositiveSizes(db.checkpoints)
    ensures RefusesOrAgrees(db, ServeConsistency(db, config, from, upTo), ServeConsistency(whole, config, from, upTo))
  {
    hide UsableAt, CacheExact, CacheSound, LeafColumn, ConsistencyProof, SeriesView;
    UsableAtLost(db, whole, config, from);
    UsableAtLost(db, whole, config, upTo);
    var a, b := UsableAt(whole, config, from), UsableAt(whole, config, upTo);
    if a.Ok? && b.Ok? && from <= upTo {
      UsableHasView(whole, config, from);
      UsableAtExact(whole, config, from);
      UsableAtExact(whole, config, upTo);
      ConsistencyLost(db, whole, a.value.treeSize, b.value.treeSize);
    }
  }

  /** The path of a proof alone: what its reads cost is not served. */
  function PathRead(r: MirrorResult<MeasuredPath>): MirrorResult<ProofPath> {
    if r.Ok? then Ok(r.value.path) else Err(r.error)
  }

  lemma InclusionLost(db: Db, whole: Db, i: nat, n: nat)
    requires Restores(db, whole) && n <= |db.entries|
    ensures RefusesOrAgrees(db, PathRead(InclusionProof(db.entries, db.subtrees, i, n)), PathRead(InclusionProof(whole.entries, whole.subtrees, i, n)))
  {
    hide CacheExact, CacheSound, LeafColumn;
    if i < n {
      SoundRows(db, n);
      ValidIsSound(whole, n);
      InclusionProofRefusesOrAgrees(db.entries, db.subtrees, LeavesOf(db), i, n);
      InclusionProofRefusesOrAgrees(whole.entries, whole.subtrees, LeavesOf(whole), i, n);
      var r, w := InclusionProof(db.entries, db.subtrees, i, n), InclusionProof(whole.entries, whole.subtrees, i, n);
      if r.Err? {
        AbsentIsLost(db, n, r.error);
      }
      if w.Err? {
        NothingAbsent(whole.entries, whole.subtrees, LeavesOf(whole), n, w.error);
      }
    }
  }

  lemma OpenRotationLost(db: Db, whole: Db, m: nat, cp: Checkpoint)
    requires Restores(db, whole)
    ensures RefusesOrAgrees(db, OpenRotation(db, m, cp), OpenRotation(whole, m, cp))
  {
    hide CacheExact, CacheSound, LeafColumn, InclusionProof, Inclusion.VerifyInclusion, LeafHashesRange;
    CountOfContiguous(db.entries, cp.treeSize);
    if cp.treeSize <= |db.entries| {
      InclusionLost(db, whole, m, cp.treeSize);
    }
  }

  lemma ServeRotationLost(db: Db, whole: Db, config: Governance.Config, m: nat)
    requires Restores(db, whole) && PositiveSizes(db.checkpoints)
    ensures RefusesOrAgrees(db, ServeRotation(db, config, m), ServeRotation(whole, config, m))
  {
    hide SeriesView, SoundTree, ValidTree, OpenRotation;
    ViewLost(db, whole, config);
    if ServedAnchor(db, m).Some? {
      OpenRotationLost(db, whole, m, ServedAnchor(db, m).value);
    }
  }

  /** However many cache rows a store has lost, the view, every route over it and the root check of an
    * ingest answer exactly what they would with none lost, or refuse by naming a lost row. A member is
    * never passed over as unusable, and a checkpoint never let through, because a row was missing.
    */
  lemma RefusesOrAgreesThroughout(db: Db, whole: Db, config: Governance.Config, n: nat, w: Window, from: nat, upTo: nat, m: nat, cp: Checkpoint, claimed: Hash)
    requires Restores(db, whole) && PositiveSizes(db.checkpoints)
    ensures RefusesOrAgrees(db, SeriesView(db, config), SeriesView(whole, config))
    ensures RefusesOrAgrees(db, UsableAt(db, config, n), UsableAt(whole, config, n))
    ensures RefusesOrAgrees(db, LookupAt(db, config, n), LookupAt(whole, config, n))
    ensures RefusesOrAgrees(db, ServeRange(db, config, n, w), ServeRange(whole, config, n, w))
    ensures RefusesOrAgrees(db, ServeConsistency(db, config, from, upTo), ServeConsistency(whole, config, from, upTo))
    ensures RefusesOrAgrees(db, ServeRotation(db, config, m), ServeRotation(whole, config, m))
    ensures RefusesOrAgrees(db, Admission.CheckRoot(db, cp, claimed), Admission.CheckRoot(whole, cp, claimed))
  {
    hide RefusesOrAgrees, SeriesView, UsableAt, LookupAt, ServeRange, ServeConsistency, ServeRotation, Admission.CheckRoot, Restores;
    ViewLost(db, whole, config);
    UsableAtLost(db, whole, config, n);
    ServeRangeLost(db, whole, config, n, w);
    ServeConsistencyLost(db, whole, config, from, upTo);
    ServeRotationLost(db, whole, config, m);
    CheckRootLost(db, whole, cp, claimed);
  }
}
