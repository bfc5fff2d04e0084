/** What each store operation does to the tables, as a function of their contents. */
module StoreSpec {
  import opened Wrappers
  import opened Bits
  import opened Encoding
  import opened Merkle
  import opened Tables
  import opened SubtreeCache
  import opened TextOrder

  datatype Written = Written(db: Db, outcome: InsertOutcome)

  // ---- entries ----

  /** `Store::stage_entry`: content-addressed, idempotent, never contested by position. */
  function Stage(db: Db, id: EntryId, bytes: Blob): MirrorResult<Written> {
    if id in db.staged then
      if db.staged[id] == bytes then Ok(Written(db, AlreadyPresent)) else Err(IndexConflict(0))
    else Ok(Written(db.(staged := db.staged[id := bytes]), Inserted))
  }

  /** `promote_entry_raw`. */
  ghost function Promote(db: Db, index: nat, id: EntryId): MirrorResult<Written> {
    if index > MAX_I64 then Err(IndexOverflow)
    else if id !in db.staged then Err(NotStaged(id))
    else if index in db.entries then
      if db.entries[index].id == id && db.entries[index].bytes == db.staged[id] then Ok(Written(db, AlreadyPresent))
      else Err(IndexConflict(index))
    else if HasId(db.entries, id) then Err(EntryIdAtDifferentIndex(index))
    else if index != NextIndex(db.entries) then Err(OutOfOrderIndex(NextIndex(db.entries), index))
    else
      var entries := db.entries[index := RowFor(id, db.staged[id])];
      var subtrees :- Extend(entries, db.subtrees, index);
      Ok(Written(db.(entries := entries, subtrees := subtrees), Inserted))
  }

  function RowFor(id: EntryId, bytes: Blob): Row {
    Row(id, bytes, Some(LogLeafHash(bytes)))
  }

  /** The canonical log of a store: entry bytes in position order. */
  ghost function LogOf(db: Db): seq<Blob>
    requires Contiguous(db.entries)
  {
    Log(db.entries)
  }

  ghost function LeavesOf(db: Db): seq<Hash>
    requires Contiguous(db.entries)
  {
    Leaves(Log(db.entries))
  }

  /** The tree invariant: canonical rows are contiguous and carry their leaf hashes, and the cache
    * holds exactly the complete subtrees of the log.
    */
  ghost predicate ValidTree(db: Db) {
    && Contiguous(db.entries)
    && |db.entries| <= MAX_I64 + 1
    && LeafColumn(db.entries)
    && CacheExact(db.subtrees, LeavesOf(db))
  }

  /** `after` is `db` with one more entry, and still a valid tree. */
  ghost predicate Appended(db: Db, id: EntryId, after: Db) {
    && ValidTree(db) && id in db.staged && ValidTree(after)
    && after == db.(entries := db.entries[|db.entries| := RowFor(id, db.staged[id])], subtrees := after.subtrees)
    && LogOf(after) == LogOf(db) + [db.staged[id]]
    && |after.subtrees| == |db.subtrees| + TrailingZeros(|db.entries| + 1)
  }

  /** What a caller may ask to promote: the next index, for a staged entry not yet held. */
  ghost predicate IsNext(db: Db, index: nat, id: EntryId) {
    index == |db.entries| <= MAX_I64 && id in db.staged && !HasId(db.entries, id)
  }

  /** What a caller may ask for again: a position held by that staged entry's id and bytes. */
  predicate IsHeld(db: Db, index: nat, id: EntryId) {
    && index <= MAX_I64 && id in db.staged && index in db.entries
    && db.entries[index].id == id && db.entries[index].bytes == db.staged[id]
  }

  lemma PromoteUnfolds(db: Db, id: EntryId, subtrees: Cache)
    requires IsNext(db, |db.entries|, id) && NextIndex(db.entries) == |db.entries| && |db.entries| !in db.entries
    requires Extend(db.entries[|db.entries| := RowFor(id, db.staged[id])], db.subtrees, |db.entries|) == Ok(subtrees)
    ensures Promote(db, |db.entries|, id) ==
      Ok(Written(db.(entries := db.entries[|db.entries| := RowFor(id, db.staged[id])], subtrees := subtrees), Inserted))
  {
  }

  lemma PromoteNext(db: Db, id: EntryId)
    requires ValidTree(db) && IsNext(db, |db.entries|, id)
    ensures var r := Promote(db, |db.entries|, id);
      r.Ok? && r.value.outcome == Inserted && Appended(db, id, r.value.db)
  {
    NextIndexOfContiguous(db.entries);
    AppendKeepsTree(db, id);
    PromoteUnfolds(db, id, Extend(db.entries[|db.entries| := RowFor(id, db.staged[id])], db.subtrees, |db.entries|).value);
  }

  /** A refusal names what is wrong with the request. */
  predicate NamesRefusal(db: Db, index: nat, id: EntryId, e: MirrorError) {
    match e
    case IndexOverflow => index > MAX_I64
    case NotStaged(x) => x == id && id !in db.staged
    case IndexConflict(i) => i == index && index in db.entries && !IsHeld(db, index, id)
    case EntryIdAtDifferentIndex(i) => i == index && index !in db.entries && HasId(db.entries, id)
    case OutOfOrderIndex(expected, got) => expected == |db.entries| && got == index && index != expected && index !in db.entries
    case _ => false
  }

  /** Anything else is refused for what was asked, or was already done. */
  lemma PromoteOther(db: Db, index: nat, id: EntryId)
    requires NextIndex(db.entries) == |db.entries| && !IsNext(db, index, id)
    ensures var r := Promote(db, index, id);
      if IsHeld(db, index, id) then r == Ok(Written(db, AlreadyPresent))
      else r.Err? && NamesRefusal(db, index, id, r.error)
  {
  }

  /** From a valid tree a promotion inserts exactly the next position for a staged entry not yet held; it
    * is accepted again exactly where the same id and bytes are held; and anything else is refused, by
    * name, for what was asked: the missing-child error of the cache extension is not reachable, nor its
    * overflow.
    */
  lemma PromoteIntoValidTree(db: Db, index: nat, id: EntryId)
    requires ValidTree(db)
    ensures var r := Promote(db, index, id);
      && (r.Ok? && r.value.outcome == Inserted <==> IsNext(db, index, id))
      && (r.Ok? && r.value.outcome == Inserted ==> Appended(db, id, r.value.db))
      && (r.Ok? && r.value.outcome == AlreadyPresent <==> IsHeld(db, index, id))
      && (r.Ok? && r.value.outcome == AlreadyPresent ==> r.value.db == db)
      && (r.Err? ==> NamesRefusal(db, index, id, r.error))
  {
    NextIndexOfContiguous(db.entries);
    if IsNext(db, index, id) {
      NextIsFree(db);
      PromoteNext(db, id);
    } else {
      PromoteOther(db, index, id);
    }
  }

  lemma NextIsFree(db: Db)
    requires ValidTree(db)
    ensures |db.entries| !in db.entries
  {
  }

  lemma AppendKeepsTree(db: Db, id: EntryId)
    requires ValidTree(db) && id in db.staged && |db.entries| <= MAX_I64
    ensures var n := |db.entries|;
      var entries := db.entries[n := RowFor(id, db.staged[id])];
      var r := Extend(entries, db.subtrees, n);
      && n !in db.entries && |entries| == n + 1
      && Contiguous(entries) && LeafColumn(entries) && Log(entries) == Log(db.entries) + [db.staged[id]]
      && r.Ok? && CacheExact(r.value, Leaves(Log(entries)))
      && |r.value| == |db.subtrees| + TrailingZeros(n + 1)
  {
    var n := |db.entries|;
    var row := RowFor(id, db.staged[id]);
    var entries := db.entries[n := row];
    AppendContiguous(db.entries, row);
    AppendRow(db.entries, row);
    LeavesAppend(Log(db.entries), row.bytes);
    AppendLeafColumn(db.entries, row);
    LogHoldsLeaves(entries);
    var d := Leaves(Log(entries));
    assert d[..n] == Leaves(Log(db.entries));
    ExtendExact(entries, db.subtrees, d);
  }

  lemma AppendLeafColumn(entries: Entries, row: Row)
    requires LeafColumn(entries) && row.leaf == Some(LogLeafHash(row.bytes))
    ensures LeafColumn(entries[|entries| := row])
  {
  }

  // ---- checkpoints ----

  /** The row at `(tree_size, checkpoint_time)`, if any. */
  function FindCheckpoint(rows: seq<Checkpoint>, treeSize: nat, time: string): Option<Checkpoint> {
    if rows == [] then None
    else if rows[0].treeSize == treeSize && rows[0].checkpointTime == time then Some(rows[0])
    else FindCheckpoint(rows[1..], treeSize, time)
  }

  /** `insert_checkpoint_raw`: append-only in publication, idempotent for identical content. */
  function InsertCheckpoint(db: Db, cp: Checkpoint): MirrorResult<Written> {
    if cp.treeSize > MAX_I64 then Err(IndexOverflow)
    else match FindCheckpoint(db.checkpoints, cp.treeSize, cp.checkpointTime)
      case Some(existing) =>
        if existing == cp then Ok(Written(db, AlreadyPresent)) else Err(SeriesMemberConflict(cp.treeSize))
      case None => Ok(Written(db.(checkpoints := db.checkpoints + [cp]), Inserted))
  }

  /** The anchors held for the rotation at `m`. */
  function AnchorsFor(rows: seq<Anchor>, m: nat): seq<Checkpoint> {
    if rows == [] then []
    else
      var last := rows[|rows| - 1];
      AnchorsFor(rows[..|rows| - 1], m) + (if last.manifestEntryIndex == m then [last.checkpoint] else [])
  }

  /** The first row in `(tree_size, checkpoint_time)` order. */
  function Earliest(rows: seq<Checkpoint>): Option<Checkpoint> {
    if rows == [] then None
    else match Earliest(rows[1..])
      case None => Some(rows[0])
      case Some(cp) => if KeyLe(rows[0], cp) then Some(rows[0]) else Some(cp)
  }

  /** `Store::get_rotation_checkpoint`: the earliest anchor held. */
  function ServedAnchor(db: Db, m: nat): Option<Checkpoint> {
    Earliest(AnchorsFor(db.anchors, m))
  }

  /** `insert_rotation_checkpoint_raw`: a candidate no earlier than one held is superseded. */
  function InsertAnchor(db: Db, m: nat, cp: Checkpoint): MirrorResult<Written> {
    if m > MAX_I64 || cp.treeSize > MAX_I64 then Err(IndexOverflow)
    else match FindCheckpoint(AnchorsFor(db.anchors, m), cp.treeSize, cp.checkpointTime)
      case Some(existing) =>
        if existing == cp then Ok(Written(db, AlreadyPresent)) else Err(SeriesMemberConflict(cp.treeSize))
      case None =>
        var held := ServedAnchor(db, m);
        if held.Some? && KeyLe(held.value, cp) then Ok(Written(db, AlreadyPresent))
        else Ok(Written(db.(anchors := db.anchors + [Anchor(m, cp)]), Inserted))
  }
}
