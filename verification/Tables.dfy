/** The store's tables as one value, and the queries asked of them.
  *
  * A table keyed by a primary key is a map; a table read back in key order is the sequence of its
  * rows in insertion order. Nothing here assumes the tables are consistent: contiguity, leaf
  * hashes and cache contents are invariants proved of the operations elsewhere.
  */
module Tables {
  import opened Wrappers
  import opened Bits
  import opened Encoding
  import opened Merkle

  /** One canonical entry; `leaf` is absent in a row written before the column existed. */
  datatype Row = Row(id: EntryId, bytes: Blob, leaf: Option<Hash>)

  /** Primary key of `subtree_roots`. */
  datatype NodeKey = NodeKey(level: nat, index: nat)

  type Cache = map<NodeKey, Hash>
  type Entries = map<nat, Row>

  /** A rotation-anchoring checkpoint with the entry index of the rotating manifest. */
  datatype Anchor = Anchor(manifestEntryIndex: nat, checkpoint: Checkpoint)

  datatype Db = Db(
    staged: map<EntryId, Blob>,
    entries: Entries,
    subtrees: Cache,
    checkpoints: seq<Checkpoint>,
    anchors: seq<Anchor>)

  const EMPTY_DB := Db(map[], map[], map[], [], [])

  datatype InsertOutcome = Inserted | AlreadyPresent

  // ---- entries ----

  /** Canonical rows occupy `[0, |entries|)` with no gap. */
  ghost predicate Contiguous(entries: Entries) {
    forall i: nat :: i in entries <==> i < |entries|
  }

  predicate HasId(entries: Entries, id: EntryId) {
    exists i :: i in entries && entries[i].id == id
  }

  /** Whether `m` is `SELECT MAX(entry_index)`. */
  ghost predicate IsMaxIndex(entries: Entries, m: nat) {
    m in entries && forall i :: i in entries ==> i <= m
  }

  /** One past `SELECT MAX(entry_index)`, or 0 for an empty table. */
  ghost function NextIndex(entries: Entries): nat {
    if m: nat :| IsMaxIndex(entries, m) then m + 1 else 0
  }

  /** `SELECT COUNT(*)` over `[from, upTo)`. */
  function CountEntries(entries: Entries, from: nat, upTo: nat): nat
    decreases upTo
  {
    if from >= upTo then 0
    else CountEntries(entries, from, upTo - 1) + (if upTo - 1 in entries then 1 else 0)
  }

  /** The envelopes stored in `[from, upTo)`, ascending; a gap is skipped, not reported. */
  function EntriesRange(entries: Entries, from: nat, upTo: nat): seq<Blob>
    decreases upTo
  {
    if from >= upTo then []
    else EntriesRange(entries, from, upTo - 1) + (if upTo - 1 in entries then [entries[upTo - 1].bytes] else [])
  }

  /** The leaf hashes stored in `[from, upTo)`, ascending; a row without one is refused by name. */
  function LeafHashesRange(entries: Entries, from: nat, upTo: nat): MirrorResult<seq<Hash>>
    decreases upTo
  {
    if from >= upTo then Ok([])
    else
      var before :- LeafHashesRange(entries, from, upTo - 1);
      if upTo - 1 !in entries then Ok(before)
      else match entries[upTo - 1].leaf
        case None => Err(TreeMaterialMissing(0, upTo - 1))
        case Some(h) => Ok(before + [h])
  }

  /** The entry bytes of a contiguous table, in log order. */
  ghost function Log(entries: Entries): (log: seq<Blob>)
    requires Contiguous(entries)
    ensures |log| == |entries|
    ensures forall i :: 0 <= i < |log| ==> log[i] == entries[i].bytes
  {
    seq(|entries|, i requires 0 <= i < |entries| => entries[i].bytes)
  }

  /** The leaf hashes of a log. */
  ghost function Leaves(log: seq<Blob>): (d: seq<Hash>)
    ensures |d| == |log|
    ensures forall i :: 0 <= i < |d| ==> d[i] == LogLeafHash(log[i])
  {
    seq(|log|, i requires 0 <= i < |log| => LogLeafHash(log[i]))
  }

  lemma NextIndexOfContiguous(entries: Entries)
    requires Contiguous(entries)
    ensures NextIndex(entries) == |entries|
  {
    if |entries| > 0 {
      assert IsMaxIndex(entries, |entries| - 1);
    } else {
      assert forall m: nat :: m !in entries;
    }
  }

  lemma {:induction false} CountOfContiguous(entries: Entries, upTo: nat)
    requires Contiguous(entries)
    ensures CountEntries(entries, 0, upTo) == if upTo <= |entries| then upTo else |entries|
    decreases upTo
  {
    if upTo == 0 {
    } else {
      CountOfContiguous(entries, upTo - 1);
    }
  }

  lemma {:induction false} RangeOfContiguous(entries: Entries, from: nat, upTo: nat)
    requires Contiguous(entries) && from <= upTo
    ensures EntriesRange(entries, from, upTo) ==
      var top := if upTo <= |entries| then upTo else |entries|;
      if from <= top then Log(entries)[from..top] else []
    decreases upTo
  {
    if from >= upTo {
    } else {
      RangeOfContiguous(entries, from, upTo - 1);
      if upTo <= |entries| {
        assert Log(entries)[from..upTo] == Log(entries)[from..upTo - 1] + [Log(entries)[upTo - 1]];
      }
    }
  }

  /** Every row carries the leaf hash of its bytes. */
  ghost predicate LeafColumn(entries: Entries) {
    forall i :: i in entries ==> entries[i].leaf == Some(LogLeafHash(entries[i].bytes))
  }

  lemma {:induction false} LeafHashesOfContiguous(entries: Entries, from: nat, upTo: nat)
    requires Contiguous(entries) && LeafColumn(entries) && from <= upTo <= |entries|
    ensures LeafHashesRange(entries, from, upTo) == Ok(Leaves(Log(entries))[from..upTo])
    decreases upTo
  {
    if from >= upTo {
    } else {
      LeafHashesOfContiguous(entries, from, upTo - 1);
      var d := Leaves(Log(entries));
      assert d[from..upTo] == d[from..upTo - 1] + [d[upTo - 1]];
    }
  }

  lemma InsertFreshSize<K, V>(m: map<K, V>, k: K, v: V)
    requires k !in m
    ensures |m[k := v]| == |m| + 1
  {
    assert m[k := v].Keys == m.Keys + {k};
  }

  lemma AppendContiguous(entries: Entries, row: Row)
    requires Contiguous(entries)
    ensures |entries| !in entries
    ensures |entries[|entries| := row]| == |entries| + 1
    ensures Contiguous(entries[|entries| := row])
  {
    var n := |entries|;
    InsertFreshSize(entries, n, row);
    var e := entries[n := row];
    forall i: nat
      ensures i in e <==> i < n + 1
    {
      assert i in entries <==> i < n;
    }
  }

  /** Appending the next row appends to the log. */
  lemma AppendRow(entries: Entries, row: Row)
    requires Contiguous(entries)
    ensures Contiguous(entries[|entries| := row])
    ensures Log(entries[|entries| := row]) == Log(entries) + [row.bytes]
  {
    AppendContiguous(entries, row);
  }

  lemma LeavesAppend(log: seq<Blob>, bytes: Blob)
    ensures Leaves(log + [bytes]) == Leaves(log) + [LogLeafHash(bytes)]
  {
  }

  lemma LeavesOfPrefix(a: seq<Blob>, b: seq<Blob>)
    requires a <= b
    ensures Leaves(a) <= Leaves(b) && Leaves(a) == Leaves(b)[..|a|]
  {
  }

  // ---- tree nodes ----

  /** The node the tables hold at `(level, index)`: a row's leaf hash, or a cached subtree root. */
  function StoredNode(entries: Entries, cache: Cache, level: nat, index: nat): Option<Hash> {
    if level == 0 then
      if index in entries then entries[index].leaf else None
    else if NodeKey(level, index) in cache then Some(cache[NodeKey(level, index)])
    else None
  }

  /** `tree_node_raw`. */
  function TreeNode(entries: Entries, cache: Cache, level: nat, index: nat): MirrorResult<Option<Hash>> {
    if index > MAX_I64 then Err(IndexOverflow)
    else Ok(StoredNode(entries, cache, level, index))
  }

  /** `node_is_complete`, with its conservative answers for what `u64` cannot represent. */
  function NodeIsComplete(level: nat, index: nat, bound: nat): bool {
    if level >= 64 then false
    else if index >= MAX_U64 then false
    else if (index + 1) * Pow2(level) > MAX_U64 then false
    else (index + 1) * Pow2(level) <= bound
  }

  /** The checked arithmetic is exact for every bound a `u64` holds. */
  lemma NodeIsCompleteExact(level: nat, index: nat, bound: nat)
    requires bound <= MAX_U64
    ensures NodeIsComplete(level, index, bound) <==> Complete(level, index, bound)
  {
    NodeStartIsProduct(level, index + 1);
    if Complete(level, index, bound) {
      CompleteIndexBelow(level, index, bound);
      if level >= 64 {
        Pow2Values();
        Pow2Monotone(64, level);
      }
    }
  }
}
