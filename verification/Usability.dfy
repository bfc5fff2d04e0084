/** Series-usability over a valid store: a member is usable exactly when its prefix is held and its
  * root recomputes, whatever earlier member it is compared with.
  */
module Usability {
  import opened Wrappers
  import opened Bits
  import opened Encoding
  import opened Merkle
  import opened Tables
  import opened CacheRepair
  import opened StoreSpec
  import opened ProofOpening
  import opened TextOrder
  import opened SeriesOrder
  import opened Series
  import SubtreeCache
  import TreeOpening
  import Consistency

  /** The prefix is held, and the claimed root is its root. */
  ghost predicate Established(d: seq<Hash>, cp: Checkpoint) {
    cp.treeSize <= MAX_I64 && cp.treeSize <= |d| && cp.rootHash == Hex(TreeRoot(d, cp.treeSize))
  }

  lemma ValidIsSound(db: Db, bound: nat)
    requires ValidTree(db) && bound <= |db.entries|
    ensures TreeOpening.SoundSource(TreeOpening.Source(db.entries, db.subtrees, bound), LeavesOf(db))
    ensures SubtreeCache.HoldsLeaves(db.entries, LeavesOf(db))
  {
    ExactIsSound(db.entries, db.subtrees, LeavesOf(db), bound);
  }

  /** A held prefix is reported as held; nothing in a valid store is missing. */
  lemma HoldsPrefixExact(db: Db, n: nat)
    requires ValidTree(db)
    ensures HoldsPrefix(db, n) == if n > MAX_I64 then Err(IndexOverflow) else Ok(n <= |db.entries|)
  {
    CountOfContiguous(db.entries, n);
    if n <= |db.entries| {
      RequireHoldsOnExact(db.subtrees, LeavesOf(db), n);
    }
  }

  /** The root of a held prefix opens, in one read per set bit. */
  lemma LogRootExact(db: Db, n: nat)
    requires ValidTree(db) && n <= |db.entries|
    ensures LogRoot(db.entries, db.subtrees, n) == Ok(MeasuredRoot(TreeRoot(LeavesOf(db), n), PopCount(n)))
  {
    ValidIsSound(db, n);
    LogRootRefusesOrAgrees(db.entries, db.subtrees, LeavesOf(db), n);
    var r := LogRoot(db.entries, db.subtrees, n);
    if r.Err? {
      NothingAbsent(db.entries, db.subtrees, LeavesOf(db), n, r.error);
    }
  }

  lemma RootMatchesExact(db: Db, cp: Checkpoint)
    requires ValidTree(db) && cp.treeSize <= |db.entries|
    ensures RootMatches(db, cp) ==
      if cp.rootHash.BadHex? then Err(BadHash) else Ok(cp.rootHash == Hex(TreeRoot(LeavesOf(db), cp.treeSize)))
  {
    LogRootExact(db, cp.treeSize);
  }

  /** The consistency proof between two held prefixes opens, and is the one of RFC 9162. */
  lemma ConsistencyProofExact(db: Db, m: nat, n: nat)
    requires ValidTree(db) && 1 <= m <= n <= |db.entries| && n <= MAX_I64
    ensures var r := ConsistencyProof(db.entries, db.subtrees, m, n);
      && r.Ok? && r.value.path == Consistency.SubProof(LeavesOf(db), 0, m, n, true)
      && r.value.nodes <= 2 * CeilLog2(n) + 1
  {
    ValidIsSound(db, n);
    CountOfContiguous(db.entries, n);
    ConsistencyProofRefusesOrAgrees(db.entries, db.subtrees, LeavesOf(db), m, n);
    var r := ConsistencyProof(db.entries, db.subtrees, m, n);
    if r.Err? {
      NothingAbsent(db.entries, db.subtrees, LeavesOf(db), n, r.error);
    }
  }

  /** Consistency between two established members always verifies: the check removes nobody. */
  lemma ConsistencyAlwaysHolds(db: Db, before: Checkpoint, cp: Checkpoint)
    requires ValidTree(db) && Established(LeavesOf(db), before) && Established(LeavesOf(db), cp)
    requires 1 <= before.treeSize <= cp.treeSize
    ensures ConsistencyStored(db, before, cp) == Ok(true)
  {
    var d := LeavesOf(db);
    ConsistencyProofExact(db, before.treeSize, cp.treeSize);
    Consistency.ConsistencyExact(d, before.treeSize, cp.treeSize,
      Consistency.SubProof(d, 0, before.treeSize, cp.treeSize, true), before.rootHash.hash);
  }

  /** For members of size at least one, usability is being established, whatever earlier usable
    * member is consulted, and no storage fault is raised.
    */
  lemma UsableExact(db: Db, cp: Checkpoint, pred: Option<Checkpoint>)
    requires ValidTree(db)
    requires pred.Some? ==> Established(LeavesOf(db), pred.value) && 1 <= pred.value.treeSize <= cp.treeSize
    ensures UsableStored(db, cp, pred) == Ok(true) <==> Established(LeavesOf(db), cp)
    ensures UsableStored(db, cp, pred).Err? ==> !IsStorageFault(UsableStored(db, cp, pred).error)
  {
    HoldsPrefixExact(db, cp.treeSize);
    if cp.treeSize <= MAX_I64 && cp.treeSize <= |db.entries| {
      RootMatchesExact(db, cp);
      if pred.Some? && Established(LeavesOf(db), cp) {
        ConsistencyAlwaysHolds(db, pred.value, cp);
      }
    }
  }

  // ---- the labels of a whole listing ----

  /** The established members of a listing, in order. */
  ghost function EstablishedOf(d: seq<Hash>, rows: seq<Checkpoint>): seq<Checkpoint> {
    if rows == [] then []
    else
      EstablishedOf(d, rows[..|rows| - 1])
      + (if Established(d, rows[|rows| - 1]) then [rows[|rows| - 1]] else [])
  }

  /** Every row has a size a checkpoint can be admitted with. */
  ghost predicate PositiveSizes(rows: seq<Checkpoint>) {
    forall cp :: cp in rows ==> cp.treeSize >= 1
  }

  /** What labelling a listing gives: each member with whether it is established. */
  ghost predicate LabelsAre(d: seq<Hash>, rows: seq<Checkpoint>, so: Labels) {
    && |so.members| == |rows|
    && (forall i :: 0 <= i < |rows| ==> so.members[i] == Reported(rows[i], Established(d, rows[i])))
    && UsableOf(so.members) == EstablishedOf(d, rows)
    && (so.last.None? <==> EstablishedOf(d, rows) == [])
    && (so.last.Some? ==> so.last.value in rows && Established(d, so.last.value))
  }

  /** One more label, with what it says. */
  ghost function Labelled(d: seq<Hash>, so: Labels, cp: Checkpoint): Labels {
    Labels(so.members + [Reported(cp, Established(d, cp))], if Established(d, cp) then Some(cp) else so.last)
  }

  lemma LabelNextExact(db: Db, so: Labels, cp: Checkpoint)
    requires ValidTree(db)
    requires so.last.Some? ==> Established(LeavesOf(db), so.last.value) && 1 <= so.last.value.treeSize <= cp.treeSize
    ensures LabelNext(db, so, cp) == Ok(Labelled(LeavesOf(db), so, cp))
  {
    UsableExact(db, cp, so.last);
  }

  lemma LabelledKeeps(d: seq<Hash>, init: seq<Checkpoint>, cp: Checkpoint, so: Labels)
    requires LabelsAre(d, init, so)
    ensures LabelsAre(d, init + [cp], Labelled(d, so, cp))
  {
    var rows := init + [cp];
    assert rows[..|rows| - 1] == init;
    var next := Labelled(d, so, cp).members;
    assert next[..|next| - 1] == so.members;
  }

  lemma LastPrecedes(rows: seq<Checkpoint>, d: seq<Hash>, so: Labels)
    requires rows != [] && Sorted(rows) && PositiveSizes(rows)
    requires LabelsAre(d, rows[..|rows| - 1], so) && so.last.Some?
    ensures 1 <= so.last.value.treeSize <= rows[|rows| - 1].treeSize
  {
    var init := rows[..|rows| - 1];
    var i :| 0 <= i < |init| && init[i] == so.last.value;
    assert KeyLe(rows[i], rows[|rows| - 1]);
    assert rows[i] in rows;
  }

  lemma LabelStep(db: Db, rows: seq<Checkpoint>, so: Labels)
    requires ValidTree(db) && rows != [] && Sorted(rows) && PositiveSizes(rows)
    requires LabelsAre(LeavesOf(db), rows[..|rows| - 1], so)
    ensures LabelNext(db, so, rows[|rows| - 1]) == Ok(Labelled(LeavesOf(db), so, rows[|rows| - 1]))
    ensures LabelsAre(LeavesOf(db), rows, Labelled(LeavesOf(db), so, rows[|rows| - 1]))
  {
    var init, cp := rows[..|rows| - 1], rows[|rows| - 1];
    if so.last.Some? {
      LastPrecedes(rows, LeavesOf(db), so);
    }
    LabelNextExact(db, so, cp);
    LabelledKeeps(LeavesOf(db), init, cp, so);
    assert rows == init + [cp];
  }

  /** Over a valid store every listing is labelled, and the usable members are the established ones. */
  lemma {:induction false} LabelExact(db: Db, rows: seq<Checkpoint>)
    requires ValidTree(db) && Sorted(rows) && PositiveSizes(rows)
    ensures Label(db, rows).Ok? && LabelsAre(LeavesOf(db), rows, Label(db, rows).value)
    decreases |rows|
  {
    if rows == [] {
    } else {
      var init := rows[..|rows| - 1];
      LabelExact(db, init);
      LabelStep(db, rows, Label(db, init).value);
    }
  }

  lemma {:induction false} EstablishedOfMembers(d: seq<Hash>, rows: seq<Checkpoint>)
    ensures forall cp :: cp in EstablishedOf(d, rows) <==> cp in rows && Established(d, cp)
    ensures Sorted(rows) ==> Sorted(EstablishedOf(d, rows))
    decreases |rows|
  {
    if rows == [] {
    } else {
      var init, cp := rows[..|rows| - 1], rows[|rows| - 1];
      assert rows == init + [cp];
      EstablishedOfMembers(d, init);
      if Sorted(rows) {
        var e := EstablishedOf(d, init);
        forall x | x in e
          ensures KeyLe(x, cp)
        {
          var i :| 0 <= i < |init| && init[i] == x;
          assert KeyLe(rows[i], rows[|rows| - 1]);
        }
      }
    }
  }
}
