/** The store as an object: its tables are fields its operations update in place. */
module MirrorStore {
  import opened Wrappers
  import opened Bits
  import opened Encoding
  import opened Merkle
  import opened Tables
  import opened SubtreeCache
  import opened CacheRepair
  import opened StoreSpec
  import opened TextOrder

  /** A raw operation: on success the tables and the answer are the specified ones; on failure it
    * answers the specified error and promises nothing about the tables.
    */
  ghost predicate Does(spec: MirrorResult<Written>, after: Db, r: MirrorResult<InsertOutcome>) {
    match spec
    case Ok(written) => after == written.db && r == Ok(written.outcome)
    case Err(e) => r == Err(e)
  }

  /** An operation in a transaction: as above, and a failure leaves the tables as they were. */
  ghost predicate CommitsOrRestores(before: Db, spec: MirrorResult<Written>, after: Db, r: MirrorResult<InsertOutcome>) {
    Does(spec, after, r) && (spec.Err? ==> after == before)
  }

  class Store {
    var staged: map<EntryId, Blob>
    var entries: Entries
    var subtrees: Cache
    var checkpoints: seq<Checkpoint>
    var anchors: seq<Anchor>

    /** What the tables hold. */
    function Snapshot(): Db
      reads this
    {
      Db(staged, entries, subtrees, checkpoints, anchors)
    }

    constructor ()
      ensures Snapshot() == EMPTY_DB
    {
      staged, entries, subtrees, checkpoints, anchors := map[], map[], map[], [], [];
    }

    /** Roll back to what the tables held when a transaction began. */
    method Restore(db: Db)
      modifies this
      ensures Snapshot() == db
    {
      staged, entries, subtrees, checkpoints, anchors := db.staged, db.entries, db.subtrees, db.checkpoints, db.anchors;
    }

    // ---- staging and promotion ----

    /** `Store::stage_entry`. */
    method StageEntry(id: EntryId, bytes: Blob) returns (r: MirrorResult<InsertOutcome>)
      modifies this`staged
      ensures CommitsOrRestores(old(Snapshot()), Stage(old(Snapshot()), id, bytes), Snapshot(), r)
    {
      if id in staged {
        return if staged[id] == bytes then Ok(AlreadyPresent) else Err(IndexConflict(0));
      }
      staged := staged[id := bytes];
      r := Ok(Inserted);
    }

    /** `SELECT MAX(entry_index)`. */
    method MaxIndex() returns (m: Option<nat>)
      ensures NextIndex(entries) == (if m.None? then 0 else m.value + 1)
    {
      m := None;
      var left := entries.Keys;
      while left != {}
        invariant left <= entries.Keys
        invariant m.Some? ==> m.value in entries
        invariant forall i :: i in entries && i !in left ==> m.Some? && i <= m.value
        decreases left
      {
        var i :| i in left;
        left := left - {i};
        if m.None? || i > m.value {
          m := Some(i);
        }
      }
      if m.Some? {
        assert IsMaxIndex(entries, m.value);
      } else {
        assert forall i :: i !in entries;
      }
    }

    /** `extend_subtree_cache`: climb one level per factor of two in the new leaf count. */
    method ExtendSubtreeCache(entryIndex: nat) returns (r: MirrorResult<()>)
      modifies this`subtrees
      ensures var spec := Extend(entries, old(subtrees), entryIndex);
        if spec.Ok? then r == Ok(()) && subtrees == spec.value else r == Err(spec.error)
    {
      hide TreeNode;
      var count := entryIndex + 1;
      if count > MAX_U64 {
        return Err(IndexOverflow);
      }
      var level, width := 1, 2;
      while level <= MAX_SUBTREE_LEVEL && width <= count
        invariant level >= 1 && width >= 1
        invariant ExtendFrom(entries, subtrees, count, level, width) == Extend(entries, old(subtrees), entryIndex)
        decreases MAX_SUBTREE_LEVEL + 1 - level
      {
        if Rem(count, width) != 0 {
          break;
        }
        var nodeIndex := Quot(count, width) - 1;
        var leftIndex, rightIndex := 2 * nodeIndex, 2 * nodeIndex + 1;
        if rightIndex > MAX_U64 {
          return Err(IndexOverflow);
        }
        var left :- TreeNode(entries, subtrees, level - 1, leftIndex);
        if left.None? {
          return Err(TreeMaterialMissing(level - 1, leftIndex));
        }
        var right :- TreeNode(entries, subtrees, level - 1, rightIndex);
        if right.None? {
          return Err(TreeMaterialMissing(level - 1, rightIndex));
        }
        if nodeIndex > MAX_I64 {
          return Err(IndexOverflow);
        }
        subtrees := subtrees[NodeKey(level, nodeIndex) := NodeHash(left.value, right.value)];
        if 2 * width > MAX_U64 {
          break;
        }
        level, width := level + 1, 2 * width;
      }
      r := Ok(());
    }

    /** `promote_entry_raw`: the row is written before the cache is extended, so only a transaction
      * around it makes the two one write.
      */
    method PromoteEntryRaw(index: nat, id: EntryId) returns (r: MirrorResult<InsertOutcome>)
      modifies this`entries, this`subtrees
      ensures Does(Promote(old(Snapshot()), index, id), Snapshot(), r)
    {
      if index > MAX_I64 {
        return Err(IndexOverflow);
      }
      if id !in staged {
        return Err(NotStaged(id));
      }
      var bytes := staged[id];
      if index in entries {
        return if entries[index].id == id && entries[index].bytes == bytes then Ok(AlreadyPresent) else Err(IndexConflict(index));
      }
      if HasId(entries, id) {
        return Err(EntryIdAtDifferentIndex(index));
      }
      var max := MaxIndex();
      var expected := if max.None? then 0 else max.value + 1;
      if index != expected {
        return Err(OutOfOrderIndex(expected, index));
      }
      entries := entries[index := RowFor(id, bytes)];
      var extended := ExtendSubtreeCache(index);
      if extended.Err? {
        return Err(extended.error);
      }
      r := Ok(Inserted);
    }

    /** `Store::promote_entry`: one transaction. */
    method PromoteEntry(index: nat, id: EntryId) returns (r: MirrorResult<InsertOutcome>)
      modifies this
      ensures CommitsOrRestores(old(Snapshot()), Promote(old(Snapshot()), index, id), Snapshot(), r)
    {
      var before := Snapshot();
      r := PromoteEntryRaw(index, id);
      if r.Err? {
        Restore(before);
      }
    }

    // ---- checkpoints ----

    /** `insert_checkpoint_raw`. */
    method InsertCheckpointRaw(cp: Checkpoint) returns (r: MirrorResult<InsertOutcome>)
      modifies this`checkpoints
      ensures CommitsOrRestores(old(Snapshot()), InsertCheckpoint(old(Snapshot()), cp), Snapshot(), r)
    {
      if cp.treeSize > MAX_I64 {
        return Err(IndexOverflow);
      }
      var existing := FindCheckpoint(checkpoints, cp.treeSize, cp.checkpointTime);
      if existing.Some? {
        return if existing.value == cp then Ok(AlreadyPresent) else Err(SeriesMemberConflict(cp.treeSize));
      }
      checkpoints := checkpoints + [cp];
      r := Ok(Inserted);
    }

    /** `insert_rotation_checkpoint_raw`. */
    method InsertRotationCheckpointRaw(m: nat, cp: Checkpoint) returns (r: MirrorResult<InsertOutcome>)
      modifies this`anchors
      ensures CommitsOrRestores(old(Snapshot()), InsertAnchor(old(Snapshot()), m, cp), Snapshot(), r)
    {
      if m > MAX_I64 || cp.treeSize > MAX_I64 {
        return Err(IndexOverflow);
      }
      var held := AnchorsFor(anchors, m);
      var existing := FindCheckpoint(held, cp.treeSize, cp.checkpointTime);
      if existing.Some? {
        return if existing.value == cp then Ok(AlreadyPresent) else Err(SeriesMemberConflict(cp.treeSize));
      }
      var earliest := Earliest(held);
      if earliest.Some? && KeyLe(earliest.value, cp) {
        return Ok(AlreadyPresent);
      }
      anchors := anchors + [Anchor(m, cp)];
      r := Ok(Inserted);
    }

    // ---- checking and rebuilding the cache ----

    /** `require_subtree_cache_raw`: one lookup per set bit of the size, from the highest down, with the
      * offset of the blocks passed so far.
      */
    method RequireSubtreeCache(treeSize: nat) returns (r: MirrorResult<()>)
      requires treeSize <= MAX_U64
      ensures r == RequireCache(subtrees, treeSize)
    {
      var offset, width := 0, Pow2(MAX_SUBTREE_LEVEL);
      var level := MAX_SUBTREE_LEVEL;
      TopOffset(treeSize);
      while level > 0
        invariant width == Pow2(level)
        invariant offset == PassedAbove(treeSize, level)
        invariant RequireFrom(subtrees, treeSize, level) == RequireCache(subtrees, treeSize)
      {
        BlockAt(treeSize, level);
        if (treeSize / width) % 2 == 1 {
          var nodeIndex := offset / width;
          if NodeKey(level, nodeIndex) !in subtrees {
            return Err(TreeMaterialMissing(level, nodeIndex));
          }
          offset := offset + width;
        }
        level, width := level - 1, width / 2;
      }
      r := Ok(());
    }

    /** `rebuild_subtree_cache`: fold level by level from the leaf hashes; a row without one is refused. */
    method RebuildSubtreeCache() returns (r: MirrorResult<()>)
      requires |entries| <= MAX_I64 + 1
      modifies this`subtrees
      ensures var leaves := LeafHashesRange(entries, 0, |entries|);
        if leaves.Ok? then r == Ok(()) && CacheExact(subtrees, leaves.value)
        else r == Err(leaves.error) && subtrees == map[]
      ensures r.Ok? && Contiguous(entries) ==> ExtendAll(entries, |entries|) == Ok(subtrees)
    {
      subtrees := map[];
      var current :- LeafHashesRange(entries, 0, |entries|);
      ghost var d := current;
      LeafHashesFit(entries, 0, |entries|);
      var level := 1;
      LeavesAreLevelZero(d);
      while |current| >= 2 && level <= MAX_SUBTREE_LEVEL
        invariant level >= 1
        invariant LevelBelow(current, d, level) && RebuiltBelow(subtrees, d, level)
        decreases |current|
      {
        current := FoldLevel(d, current, level);
        level := level + 1;
      }
      LevelsRunOut(d, current, level);
      NothingAbove(subtrees, d, current, level);
      if Contiguous(entries) {
        ReadLeavesAreHeld(entries, |entries|);
        RebuildIsIncremental(entries, d, subtrees);
      }
      r := Ok(());
    }

    /** One level of the rebuild: a row for every adjacent pair of the level below. */
    method FoldLevel(ghost d: seq<Hash>, current: seq<Hash>, level: nat) returns (next: seq<Hash>)
      requires level >= 1 && LevelBelow(current, d, level) && RebuiltBelow(subtrees, d, level)
      modifies this`subtrees
      ensures |next| == |current| / 2
      ensures LevelBelow(next, d, level + 1) && RebuiltBelow(subtrees, d, level + 1)
    {
      next := [];
      NothingDone(subtrees, d, level);
      while |next| < |current| / 2
        invariant |next| <= |current| / 2
        invariant forall i :: 0 <= i < |next| ==> next[i] == NodeHash(current[2 * i], current[2 * i + 1])
        invariant RebuiltPart(subtrees, d, level, |next|)
      {
        var i := |next|;
        var node := NodeHash(current[2 * i], current[2 * i + 1]);
        RecordRow(subtrees, d, current, level, i);
        subtrees := subtrees[NodeKey(level, i) := node];
        next := next + [node];
      }
      LevelDone(subtrees, d, current, next, level);
    }

    /** The row count expected of the stored log. */
    method ExpectedPopulation() returns (expected: nat)
      ensures expected == Population(|entries|)
    {
      expected := 0;
      var width := 2;
      ghost var level := 1;
      PopulationStarts(|entries|);
      while width <= |entries|
        invariant level >= 1 && width == Pow2(level)
        invariant expected + PopulationFrom(|entries|, level) == Population(|entries|)
        decreases |entries| + 1 - width
      {
        PopulationLevel(|entries|, level);
        expected := expected + Quot(|entries|, width);
        width := 2 * width;
        level := level + 1;
      }
      PopulationEnds(|entries|, level);
    }

    /** `rebuild_subtree_cache_if_incomplete`. */
    method RebuildIfIncomplete() returns (r: MirrorResult<()>)
      requires |entries| <= MAX_I64 + 1
      modifies this`subtrees
      ensures var leaves := LeafHashesRange(entries, 0, |entries|);
        if LooksComplete(old(subtrees), |entries|) then r == Ok(()) && subtrees == old(subtrees)
        else if leaves.Ok? then r == Ok(()) && CacheExact(subtrees, leaves.value)
        else r == Err(leaves.error) && subtrees == map[]
    {
      var expected := ExpectedPopulation();
      var held := RequireSubtreeCache(|entries|);
      if |subtrees| == expected && held.Ok? {
        return Ok(());
      }
      r := RebuildSubtreeCache();
    }

    /** `backfill_leaf_hashes`: every write is a function of bytes already stored. */
    method BackfillLeafHashes()
      modifies this`entries
      ensures FilledFrom(old(entries), entries)
    {
      ghost var was := entries;
      var left := entries.Keys;
      while left != {}
        invariant left <= was.Keys && entries.Keys == was.Keys
        invariant forall i :: i in was ==> entries[i] == if i in left then was[i] else Filled(was[i])
        decreases left
      {
        var i :| i in left;
        left := left - {i};
        if entries[i].leaf.None? {
          entries := entries[i := Filled(entries[i])];
        }
      }
    }

    /** `migrate`: a store that has only lost derived material opens as a valid tree over the same log. */
    method Migrate() returns (r: MirrorResult<()>)
      requires |entries| <= MAX_I64 + 1
      modifies this`entries, this`subtrees
      ensures FilledFrom(old(entries), entries)
      ensures old(OnlyLost(Snapshot())) ==>
        r == Ok(()) && ValidTree(Snapshot()) && LogOf(Snapshot()) == old(Log(entries))
    {
      ghost var was := Snapshot();
      BackfillLeafHashes();
      assert |entries.Keys| == |was.entries.Keys|;
      r := RebuildIfIncomplete();
      if OnlyLost(was) {
        FilledKeepsLog(was.entries, entries);
        LeafHashesOfContiguous(entries, 0, |entries|);
        RepairedIsValid(was, Snapshot());
      }
    }
  }

  // ---- opening a store ----

  /** A row with its leaf hash, derived where it was missing. */
  function Filled(row: Row): Row {
    if row.leaf.None? then row.(leaf := Some(LogLeafHash(row.bytes))) else row
  }

  /** Whatever leaf hash a row carries is the hash of its bytes; any may be missing. */
  ghost predicate LeavesRight(entries: Entries) {
    forall i :: i in entries && entries[i].leaf.Some? ==> entries[i].leaf.value == LogLeafHash(entries[i].bytes)
  }

  /** A store that has only lost derived material: leaf hashes, or rows of the cache. */
  ghost predicate OnlyLost(db: Db) {
    && Contiguous(db.entries) && |db.entries| <= MAX_I64 + 1
    && LeavesRight(db.entries)
    && CacheSound(db.subtrees, Leaves(Log(db.entries)))
  }

  /** `was` with every missing leaf hash filled in. */
  ghost predicate FilledFrom(was: Entries, now: Entries) {
    now.Keys == was.Keys && forall i :: i in was ==> now[i] == Filled(was[i])
  }

  lemma FilledKeepsLog(was: Entries, now: Entries)
    requires Contiguous(was) && LeavesRight(was) && FilledFrom(was, now)
    ensures |now| == |was| && Contiguous(now) && LeafColumn(now) && Log(now) == Log(was)
  {
    assert |now.Keys| == |was.Keys|;
  }

  /** Whichever way the cache test goes, the result is the exact cache of a store that only lost rows. */
  lemma RepairedIsValid(was: Db, now: Db)
    requires OnlyLost(was) && FilledFrom(was.entries, now.entries)
    requires var leaves := LeafHashesRange(now.entries, 0, |now.entries|);
      if LooksComplete(was.subtrees, |now.entries|) then now.subtrees == was.subtrees
      else leaves.Ok? ==> CacheExact(now.subtrees, leaves.value)
    ensures ValidTree(now) && LogOf(now) == Log(was.entries)
  {
    FilledKeepsLog(was.entries, now.entries);
    var d := Leaves(Log(now.entries));
    LeafHashesOfContiguous(now.entries, 0, |now.entries|);
    assert d[0..|now.entries|] == d;
    LooksCompleteExact(was.subtrees, d);
  }

  // ---- the arithmetic of the two loops ----

  /** The leaves covered by the blocks above `level`. */
  ghost function PassedAbove(n: nat, level: nat): nat {
    NodeStart(level + 1, Shr(n, level + 1))
  }

  lemma ShrIsQuotient(n: nat, level: nat)
    ensures n / Pow2(level) == Shr(n, level)
  {
    ShrBrackets(n, level);
    NodeStartIsProduct(level, Shr(n, level));
    NodeStartStep(level, Shr(n, level));
    DivideExactly(Shr(n, level), Pow2(level), n - NodeStart(level, Shr(n, level)));
  }

  /** Above the top level nothing has been passed. */
  lemma TopOffset(n: nat)
    requires n <= MAX_U64
    ensures PassedAbove(n, MAX_SUBTREE_LEVEL) == 0
  {
    ShrBrackets(n, 64);
    Pow2Values();
    NodeStartIsProduct(64, Shr(n, 64));
    if Shr(n, 64) >= 1 {
      MulAtLeast(Pow2(64), Shr(n, 64));
    }
  }

  /** At a level, the quotient says whether there is a block, the passed offset says where it is, and
    * passing it moves the offset to where the next level looks.
    */
  lemma BlockAt(n: nat, level: nat)
    requires level >= 1
    ensures n / Pow2(level) == Shr(n, level)
    ensures PassedAbove(n, level) / Pow2(level) == 2 * Shr(n, level + 1)
    ensures HasBlock(n, level) ==> Block(n, level).index == 2 * Shr(n, level + 1)
    ensures PassedAbove(n, level - 1) == PassedAbove(n, level) + (if HasBlock(n, level) then Pow2(level) else 0)
    ensures Pow2(level) / 2 == Pow2(level - 1)
  {
    ShrIsQuotient(n, level);
    var q := Shr(n, level + 1);
    assert PassedAbove(n, level) == NodeStart(level, 2 * q);
    NodeStartIsProduct(level, 2 * q);
    DivideExactly(2 * q, Pow2(level), 0);
    NodeStartStep(level, 2 * q);
  }

  /** The rows expected at `level` and above. */
  ghost function PopulationFrom(n: nat, level: nat): nat {
    Shr(n, level) + Population(Shr(n, level))
  }

  lemma PopulationStarts(n: nat)
    ensures PopulationFrom(n, 1) == Population(n)
  {
    assert Shr(n, 0) == n;
  }

  lemma PopulationLevel(n: nat, level: nat)
    ensures PopulationFrom(n, level) == Quot(n, Pow2(level)) + PopulationFrom(n, level + 1)
  {
    ShrIsQuotient(n, level);
    QuotRemIsDivMod(n, Pow2(level));
  }

  lemma PopulationEnds(n: nat, level: nat)
    requires n < Pow2(level)
    ensures PopulationFrom(n, level) == 0
  {
    ShrIsQuotient(n, level);
    DivideExactly(0, Pow2(level), n);
  }

  lemma {:induction false} LeafHashesFit(entries: Entries, from: nat, upTo: nat)
    requires from <= upTo && LeafHashesRange(entries, from, upTo).Ok?
    ensures |LeafHashesRange(entries, from, upTo).value| <= upTo - from
    decreases upTo
  {
    if from >= upTo {
    } else {
      LeafHashesFit(entries, from, upTo - 1);
    }
  }

  /** Over rows without a gap, leaf hashes that can be read are the ones stored, one per row. */
  lemma {:induction false} ReadLeavesAreHeld(entries: Entries, upTo: nat)
    requires Contiguous(entries) && upTo <= |entries| && LeafHashesRange(entries, 0, upTo).Ok?
    ensures |LeafHashesRange(entries, 0, upTo).value| == upTo && HoldsLeaves(entries, LeafHashesRange(entries, 0, upTo).value)
    decreases upTo
  {
    if upTo == 0 {
    } else {
      ReadLeavesAreHeld(entries, upTo - 1);
    }
  }

  lemma NothingDone(cache: Cache, d: seq<Hash>, level: nat)
    requires RebuiltBelow(cache, d, level)
    ensures RebuiltPart(cache, d, level, 0)
  {
  }

  /** A log this store can address has fewer than two nodes at the top level. */
  lemma LevelsRunOut(d: seq<Hash>, current: seq<Hash>, level: nat)
    requires level >= 1 && LevelBelow(current, d, level) && |d| <= MAX_I64 + 1
    requires |current| < 2 || level > MAX_SUBTREE_LEVEL
    ensures |current| < 2
  {
    if |current| >= 2 {
      assert CompleteBelow(level, 1, |d|);
      NodeStartIsProduct(level - 1, 2);
      Pow2Values();
      Pow2Monotone(MAX_SUBTREE_LEVEL, level - 1);
    }
  }
}
