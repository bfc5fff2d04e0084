/** The cache of complete subtree roots: how a promotion extends it, how many rows it holds, and
  * how it is rebuilt from the leaf hashes alone.
  */
module SubtreeCache {
  import opened Wrappers
  import opened Bits
  import opened Encoding
  import opened Merkle
  import opened Tables

  /** The highest level a `u64` tree size can complete. */
  const MAX_SUBTREE_LEVEL: nat := 63

  /** A node above the leaves, complete under a log of `n`. */
  ghost predicate Inner(key: NodeKey, n: nat) {
    key.level >= 1 && Complete(key.level, key.index, n)
  }

  ghost function InnerRoot(d: seq<Hash>, key: NodeKey): Hash
    requires Inner(key, |d|)
  {
    NodeRoot(d, key.level, key.index)
  }

  /** The cache holds exactly the complete nodes above the leaves, each with its right hash. */
  ghost predicate CacheExact(cache: Cache, d: seq<Hash>) {
    && (forall key :: key in cache <==> Inner(key, |d|))
    && (forall key :: key in cache ==> Inner(key, |d|) && cache[key] == InnerRoot(d, key))
  }

  /** There is only one exact cache. */
  lemma CacheExactUnique(a: Cache, b: Cache, d: seq<Hash>)
    requires CacheExact(a, d) && CacheExact(b, d)
    ensures a == b
  {
    assert forall key :: key in a <==> key in b;
  }

  // ---- extension ----

  /** `extend_subtree_cache` from `level` on: climb while `count` is a multiple of `width`. */
  function ExtendFrom(entries: Entries, cache: Cache, count: nat, level: nat, width: nat): MirrorResult<Cache>
    requires level >= 1 && width >= 1
    decreases MAX_SUBTREE_LEVEL + 1 - level
  {
    if level > MAX_SUBTREE_LEVEL || width > count || Rem(count, width) != 0 then Ok(cache)
    else
      var nodeIndex := Quot(count, width) - 1;
      if 2 * nodeIndex + 1 > MAX_U64 then Err(IndexOverflow)
      else
        var left :- TreeNode(entries, cache, level - 1, 2 * nodeIndex);
        if left.None? then Err(TreeMaterialMissing(level - 1, 2 * nodeIndex))
        else
          var right :- TreeNode(entries, cache, level - 1, 2 * nodeIndex + 1);
          if right.None? then Err(TreeMaterialMissing(level - 1, 2 * nodeIndex + 1))
          else if nodeIndex > MAX_I64 then Err(IndexOverflow)
          else
            var next := cache[NodeKey(level, nodeIndex) := NodeHash(left.value, right.value)];
            if 2 * width > MAX_U64 then Ok(next)
            else ExtendFrom(entries, next, count, level + 1, 2 * width)
  }

  /** `extend_subtree_cache` after the promotion of `entryIndex`. */
  function Extend(entries: Entries, cache: Cache, entryIndex: nat): MirrorResult<Cache> {
    if entryIndex + 1 > MAX_U64 then Err(IndexOverflow)
    else ExtendFrom(entries, cache, entryIndex + 1, 1, 2)
  }

  /** A node of level `level` or above whose last leaf is the `n`-th. */
  ghost predicate EndsAt(key: NodeKey, level: nat, n: nat) {
    key.level >= level && NodeStart(key.level, key.index + 1) == n
  }

  /** The number of times two divides `q`: how many nodes the promotion of the `q`-th leaf completes. */
  function TrailingZeros(q: nat): nat {
    if q == 0 || q % 2 != 0 then 0 else 1 + TrailingZeros(q / 2)
  }

  /** An odd boundary is the end of nothing larger; an even one is the end of one node and of
    * whatever ends there a level up.
    */
  lemma EndsAtStep(key: NodeKey, level: nat, q: nat, n: nat)
    requires level >= 1 && q >= 1 && NodeStart(level - 1, q) == n
    ensures q % 2 != 0 ==> !EndsAt(key, level, n)
    ensures q % 2 == 0 ==> NodeStart(level, q / 2) == n
    ensures q % 2 == 0 ==> (EndsAt(key, level, n) <==> key == NodeKey(level, q / 2 - 1) || EndsAt(key, level + 1, n))
  {
    if EndsAt(key, level, n) {
      NodeStartDescends(key.level, key.index + 1, level);
      var j := Scaled(key.level, key.index + 1, level);
      NodeStartInjective(level - 1, 2 * j, q);
    }
  }

  lemma NodeStartInjective(level: nat, a: nat, b: nat)
    ensures NodeStart(level, a) == NodeStart(level, b) <==> a == b
  {
    if a < b {
      NodeStartMonotone(level, a, b);
    } else if b < a {
      NodeStartMonotone(level, b, a);
    }
  }

  /** The index at level `low` of the node boundary `(level, index)`. */
  ghost function Scaled(level: nat, index: nat, low: nat): nat
    requires low <= level
  {
    if level == low then index else Scaled(level - 1, 2 * index, low)
  }

  lemma {:induction false} NodeStartDescends(level: nat, index: nat, low: nat)
    requires low <= level
    ensures NodeStart(level, index) == NodeStart(low, Scaled(level, index, low))
    decreases level
  {
    if level <= low {
    } else {
      NodeStartDescends(level - 1, 2 * index, low);
    }
  }

  /** A node complete under `n` was complete one leaf earlier or ends exactly at `n`, never both. */
  lemma NewlyComplete(key: NodeKey, n: nat)
    requires n >= 1
    ensures Inner(key, n) <==> Inner(key, n - 1) || EndsAt(key, 1, n)
    ensures EndsAt(key, 1, n) ==> !Inner(key, n - 1)
  {
  }

  /** Every row the cache holds is a complete node with its right hash; some may be missing. */
  ghost predicate CacheSound(cache: Cache, d: seq<Hash>) {
    forall key :: key in cache ==> Inner(key, |d|) && cache[key] == InnerRoot(d, key)
  }

  /** Every complete node above the leaves has a row. */
  ghost predicate CacheFull(cache: Cache, n: nat) {
    forall key :: Inner(key, n) ==> key in cache
  }

  lemma ExactIsSoundAndFull(cache: Cache, d: seq<Hash>)
    ensures CacheExact(cache, d) <==> CacheSound(cache, d) && CacheFull(cache, |d|)
  {
  }

  /** Every leaf of `d` is stored beside its entry. */
  ghost predicate HoldsLeaves(entries: Entries, d: seq<Hash>) {
    forall i: nat :: i < |d| ==> i in entries && entries[i].leaf == Some(d[i])
  }

  lemma LogHoldsLeaves(entries: Entries)
    requires Contiguous(entries) && LeafColumn(entries)
    ensures HoldsLeaves(entries, Leaves(Log(entries)))
  {
  }

  /** The arithmetic of one climb, for a count that is `q` nodes of half the width. */
  lemma ClimbArithmetic(level: nat, q: nat, count: nat)
    requires level >= 1 && q >= 1 && count == NodeStart(level - 1, q)
    ensures var width := Pow2(level);
      && (width > count || Rem(count, width) != 0 <==> q % 2 != 0)
      && (q % 2 == 0 ==> Quot(count, width) == q / 2 && count == NodeStart(level, q / 2))
  {
    var p := Pow2(level - 1);
    NodeStartIsProduct(level - 1, q);
    QuotRemOfMultiple(q, p, count);
    if q % 2 == 0 {
      assert q == 2 * (q / 2);
      assert q * p == (q - 2) * p + 2 * p;
    }
  }

  /** The children a climb needs are stored: the left completed earlier, the right just now. */
  lemma ClimbChildren(entries: Entries, cache: Cache, d: seq<Hash>, level: nat, q: nat)
    requires HoldsLeaves(entries, d) && |d| >= 1
    requires 1 <= level && q >= 2 && NodeStart(level - 1, q) == |d|
    requires CacheSound(cache, d) && CacheFull(cache, |d| - 1)
    requires level > 1 ==> NodeKey(level - 1, q - 1) in cache
    ensures Complete(level - 1, q - 2, |d|) && Complete(level - 1, q - 1, |d|) && q <= |d|
    ensures StoredNode(entries, cache, level - 1, q - 2) == Some(NodeRoot(d, level - 1, q - 2))
    ensures StoredNode(entries, cache, level - 1, q - 1) == Some(NodeRoot(d, level - 1, q - 1))
  {
    NodeStartMonotone(level - 1, q - 1, q);
    CompleteIndexBelow(level - 1, q - 1, |d|);
    if level > 1 {
      assert Inner(NodeKey(level - 1, q - 2), |d| - 1);
      assert cache[NodeKey(level - 1, q - 2)] == InnerRoot(d, NodeKey(level - 1, q - 2));
      assert cache[NodeKey(level - 1, q - 1)] == InnerRoot(d, NodeKey(level - 1, q - 1));
    }
  }

  /** One climb over children in hand: the parent is recorded, and the climb goes on above it. */
  lemma ClimbStep(entries: Entries, cache: Cache, n: nat, level: nat, h: nat, left: Hash, right: Hash)
    requires 1 <= level <= MAX_SUBTREE_LEVEL && 1 <= h && 2 * h <= n <= MAX_I64 + 1 && NodeStart(level - 1, 2 * h) == n
    requires StoredNode(entries, cache, level - 1, 2 * h - 2) == Some(left)
    requires StoredNode(entries, cache, level - 1, 2 * h - 1) == Some(right)
    ensures ExtendFrom(entries, cache, n, level, Pow2(level)) ==
      var next := cache[NodeKey(level, h - 1) := NodeHash(left, right)];
      if 2 * Pow2(level) > MAX_U64 then Ok(next)
      else ExtendFrom(entries, next, n, level + 1, 2 * Pow2(level))
  {
    ClimbArithmetic(level, 2 * h, n);
  }

  /** Recording one complete node keeps the cache sound. */
  lemma RecordNode(cache: Cache, d: seq<Hash>, key: NodeKey, hash: Hash)
    requires CacheSound(cache, d) && Inner(key, |d|) && hash == InnerRoot(d, key) && key !in cache
    ensures CacheSound(cache[key := hash], d)
    ensures |cache[key := hash]| == |cache| + 1
  {
    InsertFreshSize(cache, key, hash);
  }

  /** The result of a climb that adds exactly the nodes that end at the last leaf. */
  ghost predicate AddsNodes(r: MirrorResult<Cache>, cache: Cache, d: seq<Hash>, level: nat, q: nat) {
    && r.Ok?
    && CacheSound(r.value, d)
    && (forall key :: key in r.value <==> key in cache || EndsAt(key, level, |d|))
    && |r.value| == |cache| + TrailingZeros(q)
  }

  lemma EndsAtTwice(key: NodeKey, level: nat, h: nat, n: nat)
    requires level >= 1 && h >= 1 && NodeStart(level - 1, 2 * h) == n
    ensures EndsAt(key, level, n) <==> key == NodeKey(level, h - 1) || EndsAt(key, level + 1, n)
  {
    EndsAtStep(key, level, 2 * h, n);
  }

  lemma AddsNodesAbove(r: MirrorResult<Cache>, cache: Cache, d: seq<Hash>, level: nat, h: nat, hash: Hash)
    requires level >= 1 && h >= 1 && NodeStart(level - 1, 2 * h) == |d|
    requires NodeKey(level, h - 1) !in cache
    requires AddsNodes(r, cache[NodeKey(level, h - 1) := hash], d, level + 1, h)
    ensures AddsNodes(r, cache, d, level, 2 * h)
  {
    InsertFreshSize(cache, NodeKey(level, h - 1), hash);
    forall key
      ensures key in r.value <==> key in cache || EndsAt(key, level, |d|)
    {
      EndsAtTwice(key, level, h, |d|);
    }
  }

  lemma AddsNothing(cache: Cache, d: seq<Hash>, level: nat, q: nat)
    requires level >= 1 && q % 2 != 0 && NodeStart(level - 1, q) == |d| && CacheSound(cache, d)
    ensures AddsNodes(Ok(cache), cache, d, level, q)
  {
    forall key
      ensures !EndsAt(key, level, |d|)
    {
      EndsAtStep(key, level, q, |d|);
    }
  }

  /** None of the nodes a climb will add is in the table yet. */
  ghost predicate NoneYet(cache: Cache, level: nat, n: nat) {
    forall key :: EndsAt(key, level, n) ==> key !in cache
  }

  /** What one climb leaves behind is ready for the next. */
  lemma ReadyAbove(cache: Cache, d: seq<Hash>, level: nat, h: nat, hash: Hash)
    requires |d| >= 1 && level >= 1 && h >= 1 && NodeStart(level, h) == |d|
    requires CacheFull(cache, |d| - 1) && NoneYet(cache, level, |d|)
    ensures NodeKey(level, h - 1) !in cache
    ensures var next := cache[NodeKey(level, h - 1) := hash];
            CacheFull(next, |d| - 1) && NoneYet(next, level + 1, |d|)
  {
    assert EndsAt(NodeKey(level, h - 1), level, |d|);
  }

  lemma ClimbOver(entries: Entries, cache: Cache, d: seq<Hash>, level: nat, h: nat)
    requires HoldsLeaves(entries, d) && 1 <= |d| <= MAX_I64 + 1
    requires 1 <= level <= MAX_SUBTREE_LEVEL && h >= 1 && NodeStart(level - 1, 2 * h) == |d|
    requires CacheSound(cache, d) && CacheFull(cache, |d| - 1)
    requires level > 1 ==> NodeKey(level - 1, 2 * h - 1) in cache
    ensures Complete(level, h - 1, |d|)
    ensures var next := cache[NodeKey(level, h - 1) := NodeRoot(d, level, h - 1)];
      ExtendFrom(entries, cache, |d|, level, Pow2(level)) ==
      if 2 * Pow2(level) > MAX_U64 then Ok(next)
      else ExtendFrom(entries, next, |d|, level + 1, 2 * Pow2(level))
  {
    ClimbChildren(entries, cache, d, level, 2 * h);
    ClimbStep(entries, cache, |d|, level, h, NodeRoot(d, level - 1, 2 * h - 2), NodeRoot(d, level - 1, 2 * h - 1));
  }

  lemma WidthBelowTop(level: nat)
    requires 1 <= level <= MAX_SUBTREE_LEVEL
    ensures 2 * Pow2(level) > MAX_U64 <==> level == MAX_SUBTREE_LEVEL
  {
    Pow2Values();
    if level < MAX_SUBTREE_LEVEL {
      Pow2Monotone(level + 1, MAX_SUBTREE_LEVEL);
    }
  }

  /** The state a climb at `level` starts from: the right child in hand, no parent recorded yet. */
  ghost predicate Ready(entries: Entries, cache: Cache, d: seq<Hash>, level: nat, q: nat) {
    && HoldsLeaves(entries, d) && 1 <= |d| <= MAX_I64 + 1
    && 1 <= level <= MAX_SUBTREE_LEVEL + 1 && q >= 1 && NodeStart(level - 1, q) == |d|
    && CacheSound(cache, d) && CacheFull(cache, |d| - 1)
    && (level > 1 ==> NodeKey(level - 1, q - 1) in cache)
    && NoneYet(cache, level, |d|)
  }

  ghost predicate ClimbAdds(entries: Entries, cache: Cache, d: seq<Hash>, level: nat, q: nat)
    requires level >= 1
  {
    AddsNodes(ExtendFrom(entries, cache, |d|, level, Pow2(level)), cache, d, level, q)
  }

  lemma ClimbOdd(entries: Entries, cache: Cache, d: seq<Hash>, level: nat, q: nat)
    requires Ready(entries, cache, d, level, q) && q % 2 != 0
    ensures ClimbAdds(entries, cache, d, level, q)
  {
    ClimbArithmetic(level, q, |d|);
    AddsNothing(cache, d, level, q);
  }

  /** The table after one climb. */
  ghost function Recorded(cache: Cache, d: seq<Hash>, level: nat, h: nat): Cache
    requires h >= 1 && Complete(level, h - 1, |d|)
  {
    cache[NodeKey(level, h - 1) := NodeRoot(d, level, h - 1)]
  }

  /** The width of a node at `level` cannot be doubled in a `u64`. */
  predicate AtTop(level: nat) {
    2 * Pow2(level) > MAX_U64
  }

  lemma EvenBelowTop(level: nat, h: nat, n: nat)
    requires level >= 1 && NodeStart(level - 1, 2 * h) == n && 1 <= n <= MAX_I64 + 1
    ensures level <= MAX_SUBTREE_LEVEL && h >= 1 && NodeStart(level, h) == n
    ensures AtTop(level) ==> h == 1
    ensures !AtTop(level) ==> level < MAX_SUBTREE_LEVEL
  {
    NodeStartIsProduct(level, h);
    Pow2Values();
    if level > MAX_SUBTREE_LEVEL {
      Pow2Monotone(MAX_SUBTREE_LEVEL + 1, level);
    } else {
      WidthBelowTop(level);
    }
    MulAtLeast(Pow2(level), h);
    if h >= 2 {
      assert h * Pow2(level) == 2 * Pow2(level) + (h - 2) * Pow2(level);
    }
  }

  lemma EvenReady(entries: Entries, cache: Cache, d: seq<Hash>, level: nat, h: nat)
    requires Ready(entries, cache, d, level, 2 * h)
    requires level <= MAX_SUBTREE_LEVEL && h >= 1 && NodeStart(level, h) == |d|
    ensures NodeKey(level, h - 1) !in cache
    ensures Ready(entries, Recorded(cache, d, level, h), d, level + 1, h)
  {
    var hash := NodeRoot(d, level, h - 1);
    ReadyAbove(cache, d, level, h, hash);
    RecordNode(cache, d, NodeKey(level, h - 1), hash);
  }

  lemma EvenUnfold(entries: Entries, cache: Cache, d: seq<Hash>, level: nat, h: nat)
    requires Ready(entries, cache, d, level, 2 * h) && level <= MAX_SUBTREE_LEVEL && !AtTop(level)
    requires h >= 1 && Complete(level, h - 1, |d|)
    ensures ExtendFrom(entries, cache, |d|, level, Pow2(level))
         == ExtendFrom(entries, Recorded(cache, d, level, h), |d|, level + 1, Pow2(level + 1))
  {
    ClimbOver(entries, cache, d, level, h);
  }

  /** What a climb one level up adds, seen from this level. */
  lemma EvenStep(r: MirrorResult<Cache>, cache: Cache, d: seq<Hash>, level: nat, h: nat)
    requires level >= 1 && h >= 1 && NodeStart(level - 1, 2 * h) == |d| && Complete(level, h - 1, |d|)
    requires NodeKey(level, h - 1) !in cache
    requires AddsNodes(r, Recorded(cache, d, level, h), d, level + 1, h)
    ensures AddsNodes(r, cache, d, level, 2 * h)
  {
    AddsNodesAbove(r, cache, d, level, h, NodeRoot(d, level, h - 1));
  }

  lemma EvenTop(entries: Entries, cache: Cache, d: seq<Hash>, level: nat)
    requires Ready(entries, cache, d, level, 2) && level <= MAX_SUBTREE_LEVEL
    requires AtTop(level) && NodeStart(level, 1) == |d| && NodeKey(level, 0) !in cache
    requires CacheSound(Recorded(cache, d, level, 1), d)
    ensures ClimbAdds(entries, cache, d, level, 2)
  {
    ClimbOver(entries, cache, d, level, 1);
    AddsNothing(Recorded(cache, d, level, 1), d, level + 1, 1);
    AddsNodesAbove(ExtendFrom(entries, cache, |d|, level, Pow2(level)), cache, d, level, 1, NodeRoot(d, level, 0));
  }

  /** A climb from `level` up adds exactly the nodes that end at the last leaf. */
  lemma {:induction false} ExtendFromExact(entries: Entries, cache: Cache, d: seq<Hash>, level: nat, q: nat)
    requires Ready(entries, cache, d, level, q)
    ensures ClimbAdds(entries, cache, d, level, q)
    decreases q
  {
    if q % 2 != 0 {
      ClimbOdd(entries, cache, d, level, q);
    } else {
      var h := q / 2;
      assert q == 2 * h;
      EvenBelowTop(level, h, |d|);
      EvenReady(entries, cache, d, level, h);
      if !AtTop(level) {
        ExtendFromExact(entries, Recorded(cache, d, level, h), d, level + 1, h);
        EvenUnfold(entries, cache, d, level, h);
        EvenStep(ExtendFrom(entries, cache, |d|, level, Pow2(level)), cache, d, level, h);
      } else {
        EvenTop(entries, cache, d, level);
      }
    }
  }

  /** From the exact cache of all but the last leaf, an extension reaches neither of its errors and
    * gives the exact cache, writing one row per factor of two in the new leaf count.
    */
  lemma ExtendExact(entries: Entries, cache: Cache, d: seq<Hash>)
    requires HoldsLeaves(entries, d) && 1 <= |d| <= MAX_I64 + 1
    requires CacheExact(cache, d[..|d| - 1])
    ensures var r := Extend(entries, cache, |d| - 1);
      r.Ok? && CacheExact(r.value, d) && |r.value| == |cache| + TrailingZeros(|d|)
  {
    var n := |d|;
    SoundOverLonger(cache, d[..n - 1], d);
    forall key
      ensures EndsAt(key, 1, n) ==> key !in cache
      ensures Inner(key, n) <==> key in cache || EndsAt(key, 1, n)
    {
      NewlyComplete(key, n);
    }
    assert Pow2(1) == 2;
    ExtendFromExact(entries, cache, d, 1, n);
  }

  lemma SoundOverLonger(cache: Cache, d: seq<Hash>, e: seq<Hash>)
    requires CacheSound(cache, d) && d <= e
    ensures CacheSound(cache, e)
  {
    forall key | key in cache
      ensures Inner(key, |e|) && cache[key] == InnerRoot(e, key)
    {
      NodeRootOfPrefix(d, e, key.level, key.index);
    }
  }

  // ---- population ----

  /** The row count expected of a log of `n` entries: `n/2 + n/4 + ...`. */
  function Population(n: nat): nat {
    if n < 2 then 0 else n / 2 + Population(n / 2)
  }

  /** Every leaf completes as many nodes as its count has trailing zeros, `n - popcount(n)` in all. */
  lemma {:induction false} PopulationClosedForm(n: nat)
    ensures Population(n) + PopCount(n) == n
  {
    if n >= 2 {
      PopulationClosedForm(n / 2);
    } else if n == 1 {
      assert PopCount(1) == 1 + PopCount(0);
    }
  }

  lemma {:induction false} PopulationStep(n: nat)
    requires n >= 1
    ensures Population(n) == Population(n - 1) + TrailingZeros(n)
  {
    if n >= 2 && n % 2 == 0 {
      PopulationStep(n / 2);
      assert (n - 1) / 2 == n / 2 - 1;
    } else if n >= 3 {
      assert (n - 1) / 2 == n / 2;
    }
  }

  /** The keys of level `level` and above that end at boundary `q` of the level below. */
  ghost function KeysEndingAt(level: nat, q: nat): set<NodeKey>
    decreases q
  {
    if q == 0 || q % 2 != 0 then {} else {NodeKey(level, q / 2 - 1)} + KeysEndingAt(level + 1, q / 2)
  }

  lemma {:induction false} KeysEndingAtCount(level: nat, q: nat, n: nat)
    requires level >= 1 && q >= 1 && NodeStart(level - 1, q) == n
    ensures forall key :: key in KeysEndingAt(level, q) <==> EndsAt(key, level, n)
    ensures |KeysEndingAt(level, q)| == TrailingZeros(q)
    decreases q
  {
    forall key
      ensures q % 2 != 0 ==> !EndsAt(key, level, n)
      ensures q % 2 == 0 ==> (EndsAt(key, level, n) <==> key == NodeKey(level, q / 2 - 1) || EndsAt(key, level + 1, n))
    {
      EndsAtStep(key, level, q, n);
    }
    if q % 2 == 0 {
      EndsAtStep(NodeKey(level, q / 2 - 1), level, q, n);
      KeysEndingAtCount(level + 1, q / 2, n);
      assert NodeKey(level, q / 2 - 1) !in KeysEndingAt(level + 1, q / 2);
    }
  }

  /** The exact cache of `d` has as many rows as the loop expects: the arithmetic is not a guess. */
  lemma {:induction false} ExactCachePopulation(cache: Cache, d: seq<Hash>)
    requires CacheExact(cache, d)
    ensures |cache| == Population(|d|) == |d| - PopCount(|d|)
    decreases |d|
  {
    PopulationClosedForm(|d|);
    if |d| == 0 {
      forall key ensures key !in cache {
        if key in cache {
          CompleteIndexBelow(key.level, key.index, 0);
        }
      }
      assert cache == map[];
    } else {
      var before := BeforeLastLeaf(cache, d);
      ExactCachePopulation(before, d[..|d| - 1]);
      PopulationStep(|d|);
    }
  }

  /** The exact cache one leaf earlier, and how many rows the last leaf added to it. */
  lemma BeforeLastLeaf(cache: Cache, d: seq<Hash>) returns (before: Cache)
    requires |d| >= 1 && CacheExact(cache, d)
    ensures CacheExact(before, d[..|d| - 1])
    ensures |cache| == |before| + TrailingZeros(|d|)
  {
    var n := |d|;
    before := map key | key in cache && Inner(key, n - 1) :: cache[key];
    BeforeIsExact(cache, before, d);
    KeysEndingAtCount(1, n, n);
    var new_ := KeysEndingAt(1, n);
    forall key
      ensures key in cache.Keys <==> key in before.Keys || key in new_
      ensures !(key in before.Keys && key in new_)
    {
      NewlyComplete(key, n);
    }
    DisjointSize(cache.Keys, before.Keys, new_);
  }

  lemma DisjointSize<T>(all: set<T>, a: set<T>, b: set<T>)
    requires forall x :: x in all <==> x in a || x in b
    requires forall x :: !(x in a && x in b)
    ensures |all| == |a| + |b|
  {
    assert all == a + b;
    assert a * b == {};
  }

  lemma BeforeIsExact(cache: Cache, before: Cache, d: seq<Hash>)
    requires |d| >= 1 && CacheExact(cache, d)
    requires before == map key | key in cache && Inner(key, |d| - 1) :: cache[key]
    ensures CacheExact(before, d[..|d| - 1])
  {
    var e := d[..|d| - 1];
    forall key
      ensures key in before <==> Inner(key, |e|)
      ensures key in before ==> before[key] == InnerRoot(e, key)
    {
      if Inner(key, |e|) {
        NodeRootOfPrefix(e, d, key.level, key.index);
      }
    }
  }

  /** The count test over a table that has only lost rows passes exactly when none is missing. */
  lemma LostRowsAreCounted(whole: Cache, held: Cache, d: seq<Hash>)
    requires CacheExact(whole, d) && held.Keys <= whole.Keys
    requires forall key :: key in held ==> held[key] == whole[key]
    ensures |held| == Population(|d|) <==> held == whole
  {
    ExactCachePopulation(whole, d);
    if |held| == Population(|d|) {
      SubsetOfSameSize(held.Keys, whole.Keys);
    }
  }

  lemma {:induction false} SubsetOfSameSize<T>(a: set<T>, b: set<T>)
    requires a <= b && |a| == |b|
    ensures a == b
  {
    if a != b {
      var x :| x in b && x !in a;
      assert a <= b - {x};
      SubsetNoLarger(a, b - {x});
    }
  }

  lemma {:induction false} SubsetNoLarger<T>(a: set<T>, b: set<T>)
    requires a <= b
    ensures |a| <= |b|
    decreases a
  {
    if a == {} {
    } else {
      var x :| x in a;
      SubsetNoLarger(a - {x}, b - {x});
    }
  }
}
