/** Exactly when a promotion, a batch of them, an anchor, and a whole submission are accepted. */
module Acceptance {
  import opened Wrappers
  import opened Bits
  import opened Encoding
  import opened Merkle
  import opened TextOrder
  import opened Tables
  import opened StoreSpec
  import opened Admission
  import opened DenseSlots
  import opened Commitment
  import opened Content
  import opened RotationAnchors
  import opened Publication
  import opened Runs
  import opened Usability
  import CatchUp
  import Governance
  import Inclusion
  import SubtreeCache

  // ---- what proves a claim ----

  /** A submitted path reads as exactly the proof it writes out. */
  lemma {:induction false} PathOfExact(path: seq<HashText>, proof: ProofPath)
    ensures PathOf(path) == Ok(proof) <==> path == CatchUp.PathText(proof)
    decreases |path|
  {
    if path == CatchUp.PathText(proof) {
      CatchUp.PathTextParses(proof);
    }
    if path == [] {
    } else if PathOf(path) == Ok(proof) {
      PathOfExact(path[..|path| - 1], proof.below);
      assert path == path[..|path| - 1] + [path[|path| - 1]];
    }
  }

  /** A claim names staged bytes, and its path opens the root to them at its position. */
  ghost predicate Proves(staged: map<EntryId, Blob>, p: Pending, treeSize: nat, root: Hash) {
    p.entryId in staged
    && exists proof :: p.path == CatchUp.PathText(proof)
                       && Inclusion.VerifyInclusion(LogLeafHash(staged[p.entryId]), p.leafIndex, treeSize, proof, root) == Ok(true)
  }

  lemma ProvenExact(staged: map<EntryId, Blob>, p: Pending, treeSize: nat, root: Hash)
    ensures var r := ProvenBytes(staged, p.entryId, p.leafIndex, p.path, treeSize, root);
      && (r.Ok? <==> Proves(staged, p, treeSize, root))
      && (r.Ok? ==> r.value == staged[p.entryId])
  {
    hide Inclusion.VerifyInclusion, PathOf;
    if PathOf(p.path).Ok? {
      PathOfExact(p.path, PathOf(p.path).value);
    }
    if p.entryId in staged {
      if proof :| p.path == CatchUp.PathText(proof)
                  && Inclusion.VerifyInclusion(LogLeafHash(staged[p.entryId]), p.leafIndex, treeSize, proof, root) == Ok(true) {
        PathOfExact(p.path, proof);
      }
    }
  }

  // ---- one promotion ----

  /** Bytes belong at a position of a log: they are there, or the position is the next and they are
    * nowhere yet.
    */
  predicate Fits(log: seq<Blob>, bytes: Blob, i: nat) {
    (i < |log| && log[i] == bytes) || (i == |log| && i <= MAX_I64 && bytes !in log)
  }

  lemma HeldByContent(db: Db, index: nat, id: EntryId)
    requires ValidTree(db) && ContentAddressed(db) && id in db.staged
    ensures IsHeld(db, index, id) <==> index < |db.entries| && LogOf(db)[index] == db.staged[id]
    ensures HasId(db.entries, id) <==> db.staged[id] in LogOf(db)
  {
    hide SubtreeCache.CacheExact, LeafColumn;
    if i :| i in db.entries && db.entries[i].id == id {
      assert LogOf(db)[i] == db.staged[id];
    }
    if db.staged[id] in LogOf(db) {
      var i :| 0 <= i < |LogOf(db)| && LogOf(db)[i] == db.staged[id];
      assert i in db.entries && db.entries[i].id == id;
    }
  }

  /** Over content-addressed rows a promotion is accepted exactly when its bytes belong at its position. */
  lemma PromoteExact(db: Db, index: nat, id: EntryId)
    requires ValidTree(db) && ContentAddressed(db) && id in db.staged
    ensures Promote(db, index, id).Ok? <==> Fits(LogOf(db), db.staged[id], index)
  {
    hide SubtreeCache.CacheExact, LeafColumn, HasId;
    PromoteIntoValidTree(db, index, id);
    HeldByContent(db, index, id);
  }

  /** Under a checkpoint it must also be proven. */
  lemma PromoteInExact(db: Db, cp: Checkpoint, p: Pending)
    requires ValidTree(db) && ContentAddressed(db)
    ensures PromoteIn(db, cp, p).Ok? <==>
      cp.rootHash.Hex? && Proves(db.staged, p, cp.treeSize, cp.rootHash.hash) && Fits(LogOf(db), db.staged[p.entryId], p.leafIndex)
  {
    hide Proves, ProvenBytes, Promote, Fits, ContentAddressed;
    if p.entryId in db.staged && cp.rootHash.Hex? {
      ProvenExact(db.staged, p, cp.treeSize, cp.rootHash.hash);
      PromoteExact(db, p.leafIndex, p.entryId);
      if Proves(db.staged, p, cp.treeSize, cp.rootHash.hash) {
        ProvenPromotes(db, cp, p);
      }
    } else {
      UnstagedProvesNothing(db.staged, p, cp.treeSize);
    }
  }

  lemma ProvenPromotes(db: Db, cp: Checkpoint, p: Pending)
    requires p.entryId in db.staged && cp.rootHash.Hex?
    requires ProvenBytes(db.staged, p.entryId, p.leafIndex, p.path, cp.treeSize, cp.rootHash.hash).Ok?
    ensures PromoteIn(db, cp, p) == Promote(db, p.leafIndex, p.entryId)
  {
  }

  lemma UnstagedProvesNothing(staged: map<EntryId, Blob>, p: Pending, treeSize: nat)
    ensures p.entryId !in staged ==> forall root :: !Proves(staged, p, treeSize, root)
  {
  }

  // ---- a batch ----

  /** Claim `k` of a batch belongs where it asks to go, among the slots held and first claimed before it:
    * its bytes are there already, or the slot is the first empty one and its bytes are in none.
    */
  ghost predicate Belongs(db: Db, pending: seq<Pending>, k: nat)
    requires k < |pending| && pending[k].entryId in db.staged
  {
    var before, bytes, i := pending[..k], db.staged[pending[k].entryId], pending[k].leafIndex;
    || Slot(db, before, i) == Some(bytes)
    || (Slot(db, before, i).None? && (i == 0 || Slot(db, before, i - 1).Some?) && i <= MAX_I64 && NoSlotHolds(db, before, bytes))
  }

  ghost predicate NoSlotHolds(db: Db, pending: seq<Pending>, bytes: Blob) {
    forall i: nat :: Slot(db, pending, i) != Some(bytes)
  }

  /** Claim `k` proves itself under the checkpoint, and belongs. */
  ghost predicate GoesIn(db: Db, cp: Checkpoint, pending: seq<Pending>, k: nat)
    requires k < |pending|
  {
    cp.rootHash.Hex? && Proves(db.staged, pending[k], cp.treeSize, cp.rootHash.hash) && Belongs(db, pending, k)
  }

  ghost predicate AllGoIn(db: Db, cp: Checkpoint, pending: seq<Pending>) {
    forall k :: 0 <= k < |pending| ==> GoesIn(db, cp, pending, k)
  }

  lemma FilledSlots(db: Db, pending: seq<Pending>, log: seq<Blob>, bytes: Blob, i: nat)
    requires LogFills(db, pending, log)
    ensures Fits(log, bytes, i) <==>
      Slot(db, pending, i) == Some(bytes)
      || (Slot(db, pending, i).None? && (i == 0 || Slot(db, pending, i - 1).Some?) && i <= MAX_I64 && NoSlotHolds(db, pending, bytes))
  {
    hide Slot;
    assert Slot(db, pending, i) == (if i < |log| then Some(log[i]) else None);
    if i > 0 {
      assert Slot(db, pending, i - 1) == (if i - 1 < |log| then Some(log[i - 1]) else None);
    }
    if bytes in log {
      var j :| 0 <= j < |log| && log[j] == bytes;
      assert Slot(db, pending, j) == Some(bytes);
    }
    if j: nat :| Slot(db, pending, j) == Some(bytes) {
      assert j < |log| && log[j] == bytes;
    }
  }

  lemma GoesInEarlier(db: Db, cp: Checkpoint, pending: seq<Pending>, n: nat, k: nat)
    requires k < n <= |pending|
    ensures GoesIn(db, cp, pending[..n], k) <==> GoesIn(db, cp, pending, k)
  {
    assert pending[..n][..k] == pending[..k] && pending[..n][k] == pending[k];
  }

  lemma AllGoInStep(db: Db, cp: Checkpoint, pending: seq<Pending>)
    requires pending != []
    ensures AllGoIn(db, cp, pending) <==>
      AllGoIn(db, cp, pending[..|pending| - 1]) && GoesIn(db, cp, pending, |pending| - 1)
  {
    hide GoesIn;
    var n := |pending| - 1;
    forall k | 0 <= k < n
      ensures GoesIn(db, cp, pending[..n], k) <==> GoesIn(db, cp, pending, k)
    {
      GoesInEarlier(db, cp, pending, n, k);
    }
  }

  /** The last claim of a batch whose others went in. */
  lemma LastGoesIn(db: Db, cp: Checkpoint, pending: seq<Pending>, before: Db)
    requires pending != [] && Promoted(db, cp, pending[..|pending| - 1], before) && ContentAddressed(before)
    ensures PromoteIn(before, cp, pending[|pending| - 1]).Ok? <==> GoesIn(db, cp, pending, |pending| - 1)
  {
    hide Proves, Fits, Slot, NoSlotHolds, PromoteIn, SubtreeCache.CacheExact, LeafColumn, StagedContent, EntryContent;
    var n := |pending| - 1;
    var p := pending[n];
    PromoteInExact(before, cp, p);
    if p.entryId in db.staged {
      FilledSlots(db, pending[..n], LogOf(before), db.staged[p.entryId], p.leafIndex);
    } else {
      UnstagedProvesNothing(db.staged, p, cp.treeSize);
    }
  }

  lemma PromoteAllStep(db: Db, cp: Checkpoint, pending: seq<Pending>)
    requires pending != []
    ensures var init, last := pending[..|pending| - 1], pending[|pending| - 1];
      PromoteAll(db, cp, pending).Ok? <==> PromoteAll(db, cp, init).Ok? && PromoteIn(PromoteAll(db, cp, init).value, cp, last).Ok?
  {
  }

  /** A batch is promoted exactly when each of its claims proves itself under the checkpoint and belongs
    * among the slots held and claimed before it; claims of entries already held are part of it.
    */
  lemma {:induction false} PromoteAllExact(db: Db, cp: Checkpoint, pending: seq<Pending>)
    requires ValidTree(db) && ContentAddressed(db)
    ensures PromoteAll(db, cp, pending).Ok? <==> AllGoIn(db, cp, pending)
    decreases |pending|
  {
    hide AllGoIn, GoesIn, PromoteAll, PromoteIn, Promoted, ValidTree, ContentAddressed;
    if pending == [] {
      NothingToPromote(db, cp);
    } else {
      var init := pending[..|pending| - 1];
      PromoteAllExact(db, cp, init);
      AllGoInStep(db, cp, pending);
      PromoteAllStep(db, cp, pending);
      if PromoteAll(db, cp, init).Ok? {
        PromoteAllFills(db, cp, init);
        PromoteAllKeeps(db, cp, init);
        LastGoesIn(db, cp, pending, PromoteAll(db, cp, init).value);
      }
    }
  }

  lemma NothingToPromote(db: Db, cp: Checkpoint)
    ensures PromoteAll(db, cp, []) == Ok(db) && AllGoIn(db, cp, [])
  {
  }

  /** Promotion against what is listed: some checkpoint of the size is, and the latest of them proves the
    * entry, which belongs where it asks to go.
    */
  lemma PromoteUnderStoredExact(db: Db, treeSize: nat, p: Pending)
    requires ValidTree(db) && ContentAddressed(db) && OnePerKey(db.checkpoints)
    ensures PromoteUnderStored(db, treeSize, p).Ok? <==>
      treeSize <= MAX_I64
      && exists cp :: IsLatest(db.checkpoints, treeSize, cp)
                      && cp.rootHash.Hex? && Proves(db.staged, p, treeSize, cp.rootHash.hash)
                      && Fits(LogOf(db), db.staged[p.entryId], p.leafIndex)
  {
    hide Proves, Fits, PromoteIn, SubtreeCache.CacheExact, LeafColumn, StagedContent, EntryContent, KeyLe;
    LatestAtExact(db.checkpoints, treeSize);
    var latest := LatestAt(db.checkpoints, treeSize);
    if latest.Some? {
      PromoteInExact(db, latest.value, p);
      forall cp | IsLatest(db.checkpoints, treeSize, cp)
        ensures cp == latest.value
      {
        LatestIsOnly(db.checkpoints, treeSize, cp, latest.value);
      }
    }
  }

  /** No listed checkpoint of the size is later. */
  ghost predicate IsLatest(rows: seq<Checkpoint>, treeSize: nat, cp: Checkpoint) {
    cp in rows && cp.treeSize == treeSize && forall x :: x in rows && x.treeSize == treeSize ==> KeyLe(x, cp)
  }

  lemma LatestIsOnly(rows: seq<Checkpoint>, treeSize: nat, a: Checkpoint, b: Checkpoint)
    requires OnePerKey(rows) && IsLatest(rows, treeSize, a) && IsLatest(rows, treeSize, b)
    ensures a == b
  {
    KeyLeTotal(a, b);
    var i :| 0 <= i < |rows| && rows[i] == a;
    var j :| 0 <= j < |rows| && rows[j] == b;
  }

  // ---- the root ----

  /** A claimed root is refused exactly when the prefix it is for is held and has another: a checkpoint
    * smaller than what is held is compared at its own size, and a larger one with nothing.
    */
  lemma CheckRootExact(db: Db, cp: Checkpoint, claimed: Hash)
    requires ValidTree(db) && cp.treeSize <= MAX_I64
    ensures CheckRoot(db, cp, claimed) ==
      if cp.treeSize <= |db.entries| && claimed != TreeRoot(LeavesOf(db), cp.treeSize)
      then Err(CheckpointRootMismatch(cp.treeSize)) else Ok(())
  {
    hide SubtreeCache.CacheExact, LeafColumn;
    HoldsPrefixExact(db, cp.treeSize);
    if cp.treeSize <= |db.entries| {
      LogRootExact(db, cp.treeSize);
    }
  }

  // ---- the records ----

  /** No rotation has two anchors of one size and time. */
  ghost predicate AnchorsOnePerKey(rows: seq<Anchor>) {
    forall m: nat :: OnePerKey(AnchorsFor(rows, m))
  }

  /** An anchor is refused exactly when its rotation has a different one of its size and time. It is added
    * when it precedes every one held, and otherwise is superseded or held already.
    */
  lemma InsertAnchorExact(db: Db, m: nat, cp: Checkpoint)
    requires m <= MAX_I64 && cp.treeSize <= MAX_I64 && AnchorsOnePerKey(db.anchors)
    ensures var r := InsertAnchor(db, m, cp);
      var held := AnchorsFor(db.anchors, m);
      && (r.Err? <==> Contested(held, cp))
      && (r.Ok? ==> r.value.db == db.(anchors := db.anchors + (if r.value.outcome == Inserted then [Anchor(m, cp)] else [])))
      && (r.Ok? ==> (r.value.outcome == Inserted <==> forall x :: x in held ==> !KeyLe(x, cp)))
      && (r.Ok? ==> AnchorsOnePerKey(r.value.db.anchors))
  {
    hide KeyLe, AnchorsFor;
    var held := AnchorsFor(db.anchors, m);
    assert OnePerKey(held);
    FindExact(held, cp);
    FindContested(held, cp);
    KeyLeTotal(cp, cp);
    EarliestBounds(held, cp);
    var r := InsertAnchor(db, m, cp);
    if r.Ok? && r.value.outcome == Inserted {
      AppendedOnePerKey(db.anchors, m, cp);
    }
    assert db.anchors + [] == db.anchors;
  }

  lemma EarliestBounds(held: seq<Checkpoint>, cp: Checkpoint)
    ensures Earliest(held).Some? && KeyLe(Earliest(held).value, cp) <==> exists x :: x in held && KeyLe(x, cp)
    ensures forall x :: x in held && SameKey(x, cp) ==> KeyLe(x, cp)
  {
    EarliestExact(held);
    if x :| x in held && KeyLe(x, cp) {
      KeyLeTransitive(Earliest(held).value, x, cp);
    }
    forall x | x in held && SameKey(x, cp)
      ensures KeyLe(x, cp)
    {
      KeyLeTotal(x, cp);
    }
  }

  lemma AppendedOnePerKey(rows: seq<Anchor>, m: nat, cp: Checkpoint)
    requires AnchorsOnePerKey(rows) && forall x :: x in AnchorsFor(rows, m) ==> !SameKey(x, cp)
    ensures AnchorsOnePerKey(rows + [Anchor(m, cp)])
  {
    forall k: nat
      ensures OnePerKey(AnchorsFor(rows + [Anchor(m, cp)], k))
    {
      AnchorsForAppend(rows, Anchor(m, cp), k);
      assert OnePerKey(AnchorsFor(rows, k));
    }
  }

  lemma AddingItselfContestsNothing(was: seq<Checkpoint>, cp: Checkpoint)
    ensures Contested(was + [cp], cp) <==> Contested(was, cp)
  {
    if x :| x in was && SameKey(x, cp) && x != cp {
      assert x in was + [cp];
    }
  }

  lemma AnchorContestsNothing(db: Db, m: nat, cp: Checkpoint, k: nat)
    requires InsertAnchor(db, m, cp).Ok?
    ensures Contested(AnchorsFor(InsertAnchor(db, m, cp).value.db.anchors, k), cp) <==> Contested(AnchorsFor(db.anchors, k), cp)
  {
    hide Contested, InsertAnchor, AnchorsFor, KeyLe;
    InsertAnchorInserts(db, Offer(m, cp), k);
    AddingItselfContestsNothing(AnchorsFor(db.anchors, k), cp);
  }

  /** No anchor of any of these rotations contradicts the checkpoint. */
  ghost predicate NoAnchorContests(db: Db, ms: seq<nat>, cp: Checkpoint) {
    forall k :: 0 <= k < |ms| ==> !Contested(AnchorsFor(db.anchors, ms[k]), cp)
  }

  ghost predicate KeepsAnchors(r: MirrorResult<Db>, db: Db, cp: Checkpoint) {
    r.Ok? ==> AnchorsOnePerKey(r.value.anchors)
              && forall k: nat :: Contested(AnchorsFor(r.value.anchors, k), cp) <==> Contested(AnchorsFor(db.anchors, k), cp)
  }

  lemma LastAnchorInserts(db: Db, ms: seq<nat>, cp: Checkpoint, before: Db)
    requires ms != [] && ms[|ms| - 1] <= MAX_I64 && cp.treeSize <= MAX_I64
    requires KeepsAnchors(Ok(before), db, cp)
    ensures var r := InsertAnchor(before, ms[|ms| - 1], cp);
      && (r.Ok? <==> !Contested(AnchorsFor(db.anchors, ms[|ms| - 1]), cp))
      && (r.Ok? ==> KeepsAnchors(Ok(r.value.db), db, cp))
  {
    hide Contested, InsertAnchor, AnchorsFor, OnePerKey, KeyLe;
    var m := ms[|ms| - 1];
    InsertAnchorExact(before, m, cp);
    var r := InsertAnchor(before, m, cp);
    if r.Ok? {
      forall k: nat
        ensures Contested(AnchorsFor(r.value.db.anchors, k), cp) <==> Contested(AnchorsFor(db.anchors, k), cp)
      {
        AnchorContestsNothing(before, m, cp, k);
      }
    }
  }

  lemma InsertAnchorsStep(db: Db, ms: seq<nat>, cp: Checkpoint)
    requires ms != []
    ensures var before := InsertAnchors(db, ms[..|ms| - 1], cp);
      InsertAnchors(db, ms, cp) ==
      if before.Err? then before
      else var last := InsertAnchor(before.value, ms[|ms| - 1], cp);
           if last.Err? then Err(last.error) else Ok(last.value.db)
  {
  }

  lemma {:induction false} InsertAnchorsExact(db: Db, ms: seq<nat>, cp: Checkpoint)
    requires AnchorsOnePerKey(db.anchors) && cp.treeSize <= MAX_I64 && CatchUp.AllAddressable(ms)
    ensures InsertAnchors(db, ms, cp).Ok? <==> NoAnchorContests(db, ms, cp)
    ensures KeepsAnchors(InsertAnchors(db, ms, cp), db, cp)
    decreases |ms|
  {
    hide Contested, InsertAnchor, AnchorsFor, AnchorsOnePerKey, KeepsAnchors;
    if ms == [] {
      NoAnchors(db, cp);
    } else {
      var init := ms[..|ms| - 1];
      InsertAnchorsExact(db, init, cp);
      InsertAnchorsStep(db, ms, cp);
      assert ms == init + [ms[|ms| - 1]];
      if InsertAnchors(db, init, cp).Ok? {
        LastAnchorInserts(db, ms, cp, InsertAnchors(db, init, cp).value);
      }
      RefusedLeavesNothing(db, cp);
    }
  }

  lemma NoAnchors(db: Db, cp: Checkpoint)
    requires AnchorsOnePerKey(db.anchors)
    ensures KeepsAnchors(InsertAnchors(db, [], cp), db, cp)
  {
  }

  lemma RefusedLeavesNothing(db: Db, cp: Checkpoint)
    ensures forall e :: KeepsAnchors(Err(e), db, cp)
  {
  }

  /** No record contradicts the checkpoint in a place it was admitted to. */
  ghost predicate Unopposed(db: Db, cp: Checkpoint, admission: AdmissionOf) {
    (admission.seriesMember ==> !Contested(db.checkpoints, cp)) && NoAnchorContests(db, admission.rotationAnchors, cp)
  }

  /** The listing after an admission: the checkpoint once, if it is a member, and what was there. */
  ghost predicate Listed(was: seq<Checkpoint>, now: seq<Checkpoint>, cp: Checkpoint, member: bool) {
    now == if member && cp !in was then was + [cp] else was
  }

  lemma ListingExact(db: Db, cp: Checkpoint)
    requires OnePerKey(db.checkpoints) && cp.treeSize <= MAX_I64
    ensures var r := InsertCheckpoint(db, cp);
      && (r.Ok? <==> !Contested(db.checkpoints, cp))
      && (r.Ok? ==> r.value.db == db.(checkpoints := r.value.db.checkpoints)
                    && Listed(db.checkpoints, r.value.db.checkpoints, cp, true))
  {
    FindContested(db.checkpoints, cp);
  }

  /** An admission is recorded exactly when nothing opposes it. */
  lemma RecordExact(db: Db, cp: Checkpoint, admission: AdmissionOf)
    requires OnePerKey(db.checkpoints) && AnchorsOnePerKey(db.anchors) && cp.treeSize <= MAX_I64
    requires CatchUp.AllAddressable(admission.rotationAnchors)
    ensures var r := RecordAdmission(db, cp, admission);
      && (r.Ok? <==> Unopposed(db, cp, admission))
      && (r.Ok? ==> Listed(db.checkpoints, r.value.checkpoints, cp, admission.seriesMember) && AnchorsOnePerKey(r.value.anchors))
  {
    hide Contested, InsertCheckpoint, OnePerKey, InsertAnchors, AnchorsOnePerKey, AnchorsFor;
    ListingExact(db, cp);
    var listed := if admission.seriesMember then InsertCheckpoint(db, cp) else Ok(Written(db, AlreadyPresent));
    if listed.Ok? {
      InsertAnchorsExact(listed.value.db, admission.rotationAnchors, cp);
      assert NoAnchorContests(listed.value.db, admission.rotationAnchors, cp) <==> NoAnchorContests(db, admission.rotationAnchors, cp);
      if InsertAnchors(listed.value.db, admission.rotationAnchors, cp).Ok? {
        AnchorsOnlyAppend(listed.value.db, admission.rotationAnchors, cp);
      }
    }
  }

  // ---- a submission ----

  /** The longest run of slots, where it reaches the checkpoint's size, has the checkpoint's root. */
  ghost predicate RootAgrees(prefix: seq<Blob>, cp: Checkpoint) {
    |prefix| == cp.treeSize ==> cp.rootHash == Hex(TreeRoot(Leaves(prefix), cp.treeSize))
  }

  /** What a submission must show: every claim proves itself and belongs; and by the entries the store and
    * its claims then hold up to its size, the checkpoint is judged, is unopposed in every place it earns,
    * and has their root if they reach its size.
    */
  ghost predicate Acceptable(db: Db, config: Governance.Config, s: Submission) {
    && s.cp.treeSize <= MAX_I64 && s.cp.rootHash.Hex? && AllGoIn(db, s.cp, s.pending)
    && exists prefix :: LongestRun(db, s.pending, s.cp.treeSize, prefix) && Passes(db, config, s, prefix)
  }

  ghost predicate Passes(db: Db, config: Governance.Config, s: Submission, prefix: seq<Blob>) {
    var judged := Judge(prefix, config, ClaimOf(s.cp, s.raw), s.rotationFor);
    RootAgrees(prefix, s.cp) && judged.Ok? && Unopposed(db, s.cp, judged.value)
  }

  /** What every run keeps of its store, as far as accepting a submission depends on it. */
  ghost predicate WellKept(db: Db) {
    ValidTree(db) && ContentAddressed(db) && OnePerKey(db.checkpoints) && AnchorsOnePerKey(db.anchors)
  }

  lemma ProvenClaims(db: Db, cp: Checkpoint, pending: seq<Pending>, canonical: nat)
    requires AllGoIn(db, cp, pending)
    ensures cp.rootHash.Hex? ==> ClaimsProven(db, pending, canonical, cp.treeSize, cp.rootHash.hash)
  {
    hide Proves, ProvenBytes, Belongs;
    if cp.rootHash.Hex? {
      forall i: nat | canonical <= i < cp.treeSize
        ensures ClaimProven(db, pending, cp.rootHash.hash, cp.treeSize, i)
      {
        FirstClaimIsOne(pending, i);
        var claim := FirstClaim(pending, i);
        if claim.Some? {
          var k :| 0 <= k < |pending| && pending[k] == claim.value;
          assert GoesIn(db, cp, pending, k);
          ProvenExact(db.staged, claim.value, cp.treeSize, cp.rootHash.hash);
        }
      }
    }
  }

  /** Proven claims give a visible prefix: the longest run. */
  lemma VisibleIsRun(db: Db, cp: Checkpoint, pending: seq<Pending>, prefix: seq<Blob>)
    requires Contiguous(db.entries) && cp.treeSize <= MAX_I64 && cp.rootHash.Hex?
    requires AllGoIn(db, cp, pending) && LongestRun(db, pending, cp.treeSize, prefix)
    ensures VisiblePrefix(db, pending, cp.treeSize, cp.rootHash.hash) == Ok(prefix)
  {
    hide AllGoIn, LongestRun, ClaimsProven, OverlayOf, ExtendRun;
    var canonical := EntriesRange(db.entries, 0, cp.treeSize);
    ProvenClaims(db, cp, pending, |canonical|);
    RefusedForBadClaims(db, pending, |canonical|, cp.treeSize, cp.rootHash.hash);
    VisiblePrefixIsDense(db, pending, cp.treeSize, cp.rootHash.hash);
    LongestRunUnique(db, pending, cp.treeSize, prefix, VisiblePrefix(db, pending, cp.treeSize, cp.rootHash.hash).value);
  }

  /** The root check of the commit, seen from the prefix. */
  lemma RootCheckIsAgreement(db: Db, cp: Checkpoint, pending: seq<Pending>, promoted: Db, prefix: seq<Blob>)
    requires Promoted(db, cp, pending, promoted) && LongestRun(db, pending, cp.treeSize, prefix)
    requires cp.treeSize <= MAX_I64 && cp.rootHash.Hex?
    ensures CheckRoot(promoted, cp, cp.rootHash.hash).Ok? <==> RootAgrees(prefix, cp)
  {
    hide CheckRoot, LongestRun, Slot, SubtreeCache.CacheExact, LeafColumn;
    var log := LogOf(promoted);
    CheckRootExact(promoted, cp, cp.rootHash.hash);
    CutIsLongestRun(db, pending, log, cp.treeSize);
    LongestRunUnique(db, pending, cp.treeSize, Cut(log, cp.treeSize), prefix);
    if cp.treeSize <= |log| {
      LeavesOfPrefix(prefix, log);
      PrefixRoot(prefix, log, cp.treeSize);
    }
  }

  lemma PrefixRoot(prefix: seq<Blob>, log: seq<Blob>, n: nat)
    requires prefix <= log && |prefix| == n
    ensures TreeRoot(Leaves(log), n) == TreeRoot(Leaves(prefix), n)
  {
    LeavesOfPrefix(prefix, log);
    if n > 0 {
      RootOfPrefix(Leaves(prefix), Leaves(log), 0, n);
    }
  }

  lemma JudgedIsAddressable(prefix: seq<Blob>, config: Governance.Config, c: Claim, named: Option<nat>)
    requires Judge(prefix, config, c, named).Ok? && c.cp.treeSize <= MAX_I64
    ensures CatchUp.AllAddressable(Judge(prefix, config, c, named).value.rotationAnchors)
  {
    hide Judge;
    CatchUp.JudgedAnchorsAreBelow(prefix, config, c, named);
  }

  /** Recording after the promotions is opposed by what opposed it before them. */
  lemma RecordAfterPromoting(db: Db, cp: Checkpoint, promoted: Db, admission: AdmissionOf)
    requires WellKept(db) && OnlyGrew(db, promoted) && cp.treeSize <= MAX_I64 && CatchUp.AllAddressable(admission.rotationAnchors)
    ensures var r := RecordAdmission(promoted, cp, admission);
      && (r.Ok? <==> Unopposed(db, cp, admission))
      && (r.Ok? ==> Listed(db.checkpoints, r.value.checkpoints, cp, admission.seriesMember) && AnchorsOnePerKey(r.value.anchors))
  {
    hide ValidTree, ContentAddressed, OnePerKey, AnchorsOnePerKey, Contested, RecordAdmission, AnchorsFor;
    RecordExact(promoted, cp, admission);
  }

  /** What an accepted submission leaves: the slots' log, the staged rows, and the listing. */
  ghost predicate AcceptedAs(db: Db, s: Submission, r: Admitted) {
    && ValidTree(r.db) && LogFills(db, s.pending, LogOf(r.db)) && r.db.staged == db.staged
    && Listed(db.checkpoints, r.db.checkpoints, s.cp, r.admission.seriesMember)
    && AnchorsOnePerKey(r.db.anchors)
  }

  lemma AcceptedPasses(db: Db, config: Governance.Config, s: Submission)
    requires WellKept(db) && Ingest(db, config, s).Ok?
    ensures Acceptable(db, config, s)
    ensures AcceptedAs(db, s, Ingest(db, config, s).value)
  {
    hide Ingest, Judge, AllGoIn, RecordAdmission, CheckRoot, Unopposed, RootAgrees, SubtreeCache.CacheExact, LeafColumn, StagedContent, EntryContent, OnePerKey, AnchorsOnePerKey, LongestRun;
    IngestParts(db, config, s);
    IngestAppends(db, config, s);
    PromoteAllExact(db, s.cp, s.pending);
    PromoteAllFills(db, s.cp, s.pending);
    var promoted, prefix, admission := PromoteAll(db, s.cp, s.pending).value, SeenPrefix(db, s), Ingest(db, config, s).value.admission;
    VisiblePrefixIsDense(db, s.pending, s.cp.treeSize, s.cp.rootHash.hash);
    RootCheckIsAgreement(db, s.cp, s.pending, promoted, prefix);
    JudgedIsAddressable(prefix, config, ClaimOf(s.cp, s.raw), s.rotationFor);
    RecordAfterPromoting(db, s.cp, promoted, admission);
    assert Passes(db, config, s, prefix);
    RecordOnlyAppends(promoted, s.cp, admission);
  }

  lemma AcceptableGoesThrough(db: Db, config: Governance.Config, s: Submission)
    requires WellKept(db) && Acceptable(db, config, s)
    ensures Ingest(db, config, s).Ok?
  {
    hide Ingest, Judge, AllGoIn, RecordAdmission, CheckRoot, Unopposed, RootAgrees, SubtreeCache.CacheExact, LeafColumn, StagedContent, EntryContent, OnePerKey, AnchorsOnePerKey, LongestRun, VisiblePrefix;
    var prefix :| LongestRun(db, s.pending, s.cp.treeSize, prefix) && Passes(db, config, s, prefix);
    VisibleIsRun(db, s.cp, s.pending, prefix);
    PromoteAllExact(db, s.cp, s.pending);
    PromoteAllFills(db, s.cp, s.pending);
    var promoted := PromoteAll(db, s.cp, s.pending).value;
    RootCheckIsAgreement(db, s.cp, s.pending, promoted, prefix);
    CheckRootExact(promoted, s.cp, s.cp.rootHash.hash);
    JudgedIsAddressable(prefix, config, ClaimOf(s.cp, s.raw), s.rotationFor);
    RecordAfterPromoting(db, s.cp, promoted, Judge(prefix, config, ClaimOf(s.cp, s.raw), s.rotationFor).value);
    CatchUp.IngestGoesThrough(db, config, s, prefix, promoted);
  }

  /** A submission is accepted exactly when its size and root can be read, every claim proves itself and
    * belongs, and by the entries then held up to its size the checkpoint is judged, not contradicted by
    * their root, and unopposed. Nothing else refuses it: neither entries held already, nor entries held
    * past its size, nor entries it commits that are still missing.
    */
  lemma IngestExact(db: Db, config: Governance.Config, s: Submission)
    requires WellKept(db)
    ensures Ingest(db, config, s).Ok? <==> Acceptable(db, config, s)
    ensures Ingest(db, config, s).Ok? ==> AcceptedAs(db, s, Ingest(db, config, s).value)
  {
    hide Acceptable, WellKept, Ingest, AcceptedAs;
    if Ingest(db, config, s).Ok? {
      AcceptedPasses(db, config, s);
    }
    if Acceptable(db, config, s) {
      AcceptableGoesThrough(db, config, s);
    }
  }

  // ---- over a run ----

  lemma StepKeepsAnchors(db: Db, config: Governance.Config, step: Step)
    requires WellKept(db)
    ensures AnchorsOnePerKey(After(db, config, step).anchors)
  {
    hide AnchorsOnePerKey, Acceptable, ValidTree, ContentAddressed, OnePerKey;
    match step
    case Staging(_, _, _) =>
    case Promoting(treeSize, p) =>
      var r := PromoteUnderStored(db, treeSize, p);
      if r.Ok? {
        PromoteInCases(db, LatestAt(db.checkpoints, treeSize).value, p);
      }
    case Ingesting(s) =>
      if Ingest(db, config, s).Ok? {
        AcceptedPasses(db, config, s);
      }
  }

  lemma {:induction false} RunIsWellKept(config: Governance.Config, steps: seq<Step>)
    ensures WellKept(Run(config, steps))
    decreases |steps|
  {
    hide After, ValidTree, ContentAddressed, OnePerKey;
    RunIsValid(config, steps);
    RunIsContentAddressed(config, steps);
    RunIsOnePerKey(config, steps);
    if steps == [] {
    } else {
      RunIsWellKept(config, steps[..|steps| - 1]);
      StepKeepsAnchors(Run(config, steps[..|steps| - 1]), config, steps[|steps| - 1]);
    }
  }

  /** After any run the next submission is accepted exactly when it is acceptable. */
  lemma RunAccepts(config: Governance.Config, steps: seq<Step>, s: Submission)
    ensures Ingest(Run(config, steps), config, s).Ok? <==> Acceptable(Run(config, steps), config, s)
  {
    hide Acceptable, WellKept, Ingest, AcceptedAs, Run;
    RunIsWellKept(config, steps);
    IngestExact(Run(config, steps), config, s);
  }
}
