/** Checking the cache of a prefix before serving it, and rebuilding the whole cache on open. */
module CacheRepair {
  import opened Wrappers
  import opened Bits
  import opened Encoding
  import opened Merkle
  import opened Tables
  import opened SubtreeCache

  /** `n` without its low `level` bits, in units of `2^level`. */
  function Shr(n: nat, level: nat): nat
    decreases level
  {
    if level == 0 then n else Shr(n, level - 1) / 2
  }

  lemma {:induction false} ShrBrackets(n: nat, level: nat)
    ensures NodeStart(level, Shr(n, level)) <= n < NodeStart(level, Shr(n, level) + 1)
    decreases level
  {
    if level == 0 {
    } else {
      ShrBrackets(n, level - 1);
      var q := Shr(n, level - 1);
      NodeStartMonotone(level - 1, 2 * (q / 2), q);
      NodeStartMonotone(level - 1, q + 1, 2 * (q / 2) + 2);
    }
  }

  /** The maximal complete subtree of the first `n` leaves at `level`, where `n` has that bit. */
  function Block(n: nat, level: nat): NodeKey
    requires Shr(n, level) >= 1
  {
    NodeKey(level, Shr(n, level) - 1)
  }

  predicate HasBlock(n: nat, level: nat) {
    Shr(n, level) % 2 == 1
  }

  /** Every block of `n` above the leaves is in the cache. */
  ghost predicate BlocksHeld(cache: Cache, n: nat, top: nat) {
    forall level :: 1 <= level <= top && HasBlock(n, level) ==> Block(n, level) in cache
  }

  /** `require_subtree_cache_raw`, from the highest block down: the first one missing is named. */
  function RequireFrom(cache: Cache, n: nat, level: nat): MirrorResult<()> {
    if level == 0 then Ok(())
    else if HasBlock(n, level) && Block(n, level) !in cache then
      Err(TreeMaterialMissing(level, Block(n, level).index))
    else RequireFrom(cache, n, level - 1)
  }

  function RequireCache(cache: Cache, n: nat): MirrorResult<()> {
    RequireFrom(cache, n, MAX_SUBTREE_LEVEL)
  }

  lemma BlockComplete(n: nat, level: nat)
    requires Shr(n, level) >= 1
    ensures Complete(level, Block(n, level).index, n)
  {
    ShrBrackets(n, level);
  }

  /** An error that names a cache row complete under `n` and absent. */
  ghost predicate NamesMissing(e: MirrorError, cache: Cache, n: nat) {
    e.TreeMaterialMissing? && Inner(NodeKey(e.level, e.nodeIndex), n) && NodeKey(e.level, e.nodeIndex) !in cache
  }

  /** The check passes exactly when every block root is held; its error names one that is not, and
    * that node is complete under `n`.
    */
  lemma {:induction false} RequireFromExact(cache: Cache, n: nat, top: nat)
    ensures RequireFrom(cache, n, top).Ok? <==> BlocksHeld(cache, n, top)
    ensures var r := RequireFrom(cache, n, top);
      r.Err? ==> NamesMissing(r.error, cache, n)
    decreases top
  {
    if top == 0 {
    } else {
      RequireFromExact(cache, n, top - 1);
      if HasBlock(n, top) {
        BlockComplete(n, top);
      }
    }
  }

  /** Over an exact cache the check of any held prefix passes. */
  lemma RequireHoldsOnExact(cache: Cache, d: seq<Hash>, n: nat)
    requires CacheExact(cache, d) && n <= |d|
    ensures RequireCache(cache, n).Ok?
  {
    RequireFromExact(cache, n, MAX_SUBTREE_LEVEL);
    var r := RequireCache(cache, n);
    if r.Err? {
      assert Inner(NodeKey(r.error.level, r.error.nodeIndex), |d|);
    }
  }

  // ---- rebuild on open ----

  /** The test `rebuild_subtree_cache_if_incomplete` makes before leaving the table alone. */
  predicate LooksComplete(cache: Cache, n: nat) {
    |cache| == Population(n) && RequireCache(cache, n).Ok?
  }

  /** For a table that has only lost rows, the test passes exactly when nothing is missing. */
  lemma LooksCompleteOfLostRows(whole: Cache, held: Cache, d: seq<Hash>)
    requires CacheExact(whole, d) && held.Keys <= whole.Keys
    requires forall key :: key in held ==> held[key] == whole[key]
    ensures LooksComplete(held, |d|) <==> held == whole
  {
    LostRowsAreCounted(whole, held, d);
    if held == whole {
      RequireHoldsOnExact(whole, d, |d|);
    }
  }

  /** The table after extending an empty one for each of the first `n` entries in turn. */
  function ExtendAll(entries: Entries, n: nat): MirrorResult<Cache> {
    if n == 0 then Ok(map[])
    else
      var before :- ExtendAll(entries, n - 1);
      Extend(entries, before, n - 1)
  }

  lemma EmptyIsExact(d: seq<Hash>)
    requires |d| == 0
    ensures CacheExact(map[], d)
  {
    forall key
      ensures !Inner(key, 0)
    {
      if Inner(key, 0) {
        CompleteIndexBelow(key.level, key.index, 0);
      }
    }
  }

  /** Successive extensions never fail and give the exact cache: one row per leaf less one per set bit. */
  lemma {:induction false} ExtendAllExact(entries: Entries, d: seq<Hash>)
    requires HoldsLeaves(entries, d) && |d| <= MAX_I64 + 1
    ensures var r := ExtendAll(entries, |d|);
      r.Ok? && CacheExact(r.value, d) && |r.value| == |d| - PopCount(|d|)
    decreases |d|
  {
    if |d| == 0 {
      EmptyIsExact(d);
    } else {
      ExtendAllExact(entries, d[..|d| - 1]);
      ExtendExact(entries, ExtendAll(entries, |d| - 1).value, d);
    }
    ExactCachePopulation(ExtendAll(entries, |d|).value, d);
  }

  /** Rebuilding level by level and extending entry by entry give the same table. */
  lemma RebuildIsIncremental(entries: Entries, d: seq<Hash>, rebuilt: Cache)
    requires HoldsLeaves(entries, d) && |d| <= MAX_I64 + 1 && CacheExact(rebuilt, d)
    ensures ExtendAll(entries, |d|) == Ok(rebuilt)
  {
    ExtendAllExact(entries, d);
    CacheExactUnique(ExtendAll(entries, |d|).value, rebuilt, d);
  }

  /** The exact cache of any log this store can address exists. */
  lemma ExactCacheExists(d: seq<Hash>) returns (whole: Cache)
    requires |d| <= MAX_I64 + 1
    ensures CacheExact(whole, d)
  {
    var entries: Entries := map i: nat | i < |d| :: Row(ForeignId(i), NotJson(i), Some(d[i]));
    ExtendAllExact(entries, d);
    whole := ExtendAll(entries, |d|).value;
  }

  /** For any table at all: it is the exact cache if and only if every row it holds is a right one and
    * the test passes. So the test is exactly as good as the rows it is run over.
    */
  lemma LooksCompleteExact(cache: Cache, d: seq<Hash>)
    requires |d| <= MAX_I64 + 1
    ensures CacheExact(cache, d) <==> CacheSound(cache, d) && LooksComplete(cache, |d|)
  {
    var whole := ExactCacheExists(d);
    ExactIsSoundAndFull(cache, d);
    if CacheSound(cache, d) {
      forall key | key in cache
        ensures key in whole && cache[key] == whole[key]
      {
        assert Inner(key, |d|);
      }
      LooksCompleteOfLostRows(whole, cache, d);
    }
    if CacheExact(cache, d) {
      CacheExactUnique(cache, whole, d);
    }
  }

  /** The test reads keys alone. */
  lemma LooksCompleteReadsKeys(a: Cache, b: Cache, n: nat)
    requires a.Keys == b.Keys
    ensures LooksComplete(a, n) <==> LooksComplete(b, n)
  {
    assert |a| == |a.Keys| && |b| == |b.Keys|;
    RequireFromExact(a, n, MAX_SUBTREE_LEVEL);
    RequireFromExact(b, n, MAX_SUBTREE_LEVEL);
    assert forall key :: key in a <==> key in b;
  }

  /** A row for every complete node, and no other row. */
  ghost predicate RightShape(cache: Cache, n: nat) {
    forall key :: key in cache <==> Inner(key, n)
  }

  /** No row but those of complete nodes. */
  ghost predicate NoStray(cache: Cache, n: nat) {
    forall key :: key in cache ==> Inner(key, n)
  }

  /** Whatever hashes a table holds, it has the right shape if and only if it has no stray row and the
    * test passes.
    */
  lemma RightShapeExact(cache: Cache, n: nat)
    requires n <= MAX_I64 + 1
    ensures RightShape(cache, n) <==> NoStray(cache, n) && LooksComplete(cache, n)
  {
    hide LooksComplete;
    var d := seq(n, i requires 0 <= i < n => Opaque(i));
    var whole := ExactCacheExists(d);
    if NoStray(cache, n) {
      var held := map key | key in cache :: whole[key];
      LooksCompleteReadsKeys(cache, held, n);
      LooksCompleteOfLostRows(whole, held, d);
      if held == whole {
        assert forall key :: key in cache <==> key in held;
      }
      if RightShape(cache, n) {
        assert held == whole;
      }
    }
  }

  /** The test is about rows lost, not about rows wrong: a table of the right size that holds the
    * block root and one stray row passes it, and stays wrong.
    */
  lemma WrongShapeLooksComplete(d: seq<Hash>, stray: Hash)
    requires |d| == 4
    ensures var key := NodeKey(5, 5);
      var cache := map[NodeKey(2, 0) := Root(d, 0, 4), NodeKey(1, 0) := Root(d, 0, 2), key := stray];
      LooksComplete(cache, 4) && !CacheExact(cache, d)
  {
    var key := NodeKey(5, 5);
    var cache := map[NodeKey(2, 0) := Root(d, 0, 4), NodeKey(1, 0) := Root(d, 0, 2), key := stray];
    assert cache.Keys == {NodeKey(2, 0), NodeKey(1, 0), key};
    assert Population(4) == 2 + Population(2) && Population(2) == 1 + Population(1);
    FourHasOneBlock(MAX_SUBTREE_LEVEL);
    RequireFromExact(cache, 4, MAX_SUBTREE_LEVEL);
    if CacheExact(cache, d) {
      assert Inner(key, 4);
      CompleteIndexBelow(5, 5, 4);
    }
  }

  lemma {:induction false} FourHasOneBlock(top: nat)
    ensures forall level :: 1 <= level <= top && HasBlock(4, level) ==> level == 2 && Block(4, level) == NodeKey(2, 0)
    ensures top >= 3 ==> Shr(4, top) == 0
    decreases top
  {
    assert Shr(4, 0) == 4;
    if top == 0 {
    } else {
      FourHasOneBlock(top - 1);
      assert top == 1 ==> Shr(4, top) == 2;
      assert top == 2 ==> Shr(4, top) == 1;
      assert top == 3 ==> Shr(4, top) == 0;
    }
  }

  // ---- the rebuild, level by level ----

  /** The node at `index` of the level below `level` is complete under `n`. */
  ghost predicate CompleteBelow(level: nat, index: nat, n: nat)
    requires level >= 1
  {
    Complete(level - 1, index, n)
  }

  /** `current` is every node of the level below `level` that is complete under `d`, in order. */
  ghost predicate LevelBelow(current: seq<Hash>, d: seq<Hash>, level: nat)
    requires level >= 1
  {
    && (forall i: nat :: CompleteBelow(level, i, |d|) <==> i < |current|)
    && (forall i: nat :: i < |current| ==> CompleteBelow(level, i, |d|) && current[i] == NodeRoot(d, level - 1, i))
  }

  /** The rows of the levels below `level` are exact, and there are no others. */
  ghost predicate RebuiltBelow(cache: Cache, d: seq<Hash>, level: nat) {
    && (forall key :: key in cache <==> Inner(key, |d|) && key.level < level)
    && (forall key :: key in cache ==> Inner(key, |d|) && cache[key] == InnerRoot(d, key))
  }

  /** As `RebuiltBelow`, with the first `done` rows of `level` itself. */
  ghost predicate RebuiltPart(cache: Cache, d: seq<Hash>, level: nat, done: nat) {
    && (forall key :: key in cache <==> Inner(key, |d|) && (key.level < level || (key.level == level && key.index < done)))
    && (forall key :: key in cache ==> Inner(key, |d|) && cache[key] == InnerRoot(d, key))
  }

  lemma LeavesAreLevelZero(d: seq<Hash>)
    ensures LevelBelow(d, d, 1)
    ensures RebuiltBelow(map[], d, 1)
  {
  }

  /** Two adjacent nodes make the parent above them; a level has half as many nodes as the one below. */
  lemma PairIsParent(current: seq<Hash>, d: seq<Hash>, level: nat, i: nat)
    requires level >= 1 && LevelBelow(current, d, level)
    ensures Complete(level, i, |d|) <==> 2 * i + 1 < |current|
    ensures 2 * i + 1 < |current| ==> NodeRoot(d, level, i) == NodeHash(current[2 * i], current[2 * i + 1])
  {
    assert CompleteBelow(level, 2 * i + 1, |d|) <==> 2 * i + 1 < |current|;
  }

  /** Recording one more row of a level. */
  lemma RecordRow(cache: Cache, d: seq<Hash>, current: seq<Hash>, level: nat, done: nat)
    requires level >= 1 && LevelBelow(current, d, level) && 2 * done + 1 < |current|
    requires RebuiltPart(cache, d, level, done)
    ensures RebuiltPart(cache[NodeKey(level, done) := NodeHash(current[2 * done], current[2 * done + 1])], d, level, done + 1)
  {
    PairIsParent(current, d, level, done);
  }

  /** A finished level is the level below the next. */
  lemma LevelDone(cache: Cache, d: seq<Hash>, current: seq<Hash>, next: seq<Hash>, level: nat)
    requires level >= 1 && LevelBelow(current, d, level) && |next| == |current| / 2
    requires forall i :: 0 <= i < |next| ==> next[i] == NodeHash(current[2 * i], current[2 * i + 1])
    requires RebuiltPart(cache, d, level, |next|)
    ensures LevelBelow(next, d, level + 1) && RebuiltBelow(cache, d, level + 1)
  {
    var up := level + 1;
    forall i: nat
      ensures CompleteBelow(up, i, |d|) <==> i < |next|
    {
      PairIsParent(current, d, level, i);
    }
    forall i: nat | i < |next|
      ensures CompleteBelow(up, i, |d|) && next[i] == NodeRoot(d, up - 1, i)
    {
      PairIsParent(current, d, level, i);
    }
    forall key
      ensures Inner(key, |d|) && key.level == level ==> key.index < |next|
    {
      if Inner(key, |d|) && key.level == level {
        PairIsParent(current, d, level, key.index);
      }
    }
  }

  /** A complete node at or above a level stands on at least two nodes of the level below it. */
  lemma StandsOnTwo(d: seq<Hash>, current: seq<Hash>, level: nat, key: NodeKey)
    requires level >= 1 && LevelBelow(current, d, level) && Inner(key, |d|) && key.level >= level
    ensures |current| >= 2
  {
    NodeStartDescends(key.level, key.index + 1, level);
    var j := Scaled(key.level, key.index + 1, level);
    ScaledPositive(key.level, key.index + 1, level);
    assert CompleteBelow(level, 2 * j - 1, |d|);
  }

  /** With fewer than two nodes left there is nothing above, and the rebuilt rows are the exact cache. */
  lemma NothingAbove(cache: Cache, d: seq<Hash>, current: seq<Hash>, level: nat)
    requires level >= 1 && LevelBelow(current, d, level) && RebuiltBelow(cache, d, level) && |current| < 2
    ensures CacheExact(cache, d)
  {
    forall key | Inner(key, |d|)
      ensures key.level < level
    {
      if key.level >= level {
        StandsOnTwo(d, current, level, key);
      }
    }
  }

  lemma {:induction false} ScaledPositive(level: nat, index: nat, low: nat)
    requires low <= level && index >= 1
    ensures Scaled(level, index, low) >= 1
    decreases level
  {
    if level <= low {
    } else {
      ScaledPositive(level - 1, 2 * index, low);
    }
  }
}
