/** What one ingest commits, against what it checked before committing. */
module Commitment {
  import opened Wrappers
  import opened Bits
  import opened Encoding
  import opened Merkle
  import opened Tables
  import opened StoreSpec
  import opened Admission
  import opened DenseSlots
  import Governance
  import GovernanceChain
  import Inclusion
  import Series

  /** The claimed root opens to these bytes at this position. */
  ghost predicate Opens(cp: Checkpoint, bytes: Blob, i: nat) {
    cp.rootHash.Hex? &&
    exists path :: Inclusion.VerifyInclusion(LogLeafHash(bytes), i, cp.treeSize, path, cp.rootHash.hash) == Ok(true)
  }

  /** The log after some promotions is what a dense array of slots holds for the claims made so far. */
  ghost predicate LogFills(db: Db, pending: seq<Pending>, log: seq<Blob>) {
    forall i: nat :: Slot(db, pending, i) == (if i < |log| then Some(log[i]) else None)
  }

  /** Every entry past the first `from` was proven under the checkpoint. */
  ghost predicate ProvenFrom(cp: Checkpoint, log: seq<Blob>, from: nat) {
    forall i :: from <= i < |log| ==> Opens(cp, log[i], i)
  }

  /** What promoting `pending` in order has made of the log. */
  ghost predicate LogGrew(db: Db, cp: Checkpoint, pending: seq<Pending>, was: seq<Blob>, log: seq<Blob>) {
    was <= log && LogFills(db, pending, log) && ProvenFrom(cp, log, |was|)
  }

  /** Only entries and their cache changed, and they are still a valid tree. */
  ghost predicate OnlyGrew(db: Db, after: Db) {
    && ValidTree(db) && ValidTree(after)
    && after.staged == db.staged && after.checkpoints == db.checkpoints && after.anchors == db.anchors
  }

  /** What promoting `pending` in order has done to the tables. */
  ghost predicate Promoted(db: Db, cp: Checkpoint, pending: seq<Pending>, after: Db) {
    OnlyGrew(db, after) && LogGrew(db, cp, pending, LogOf(db), LogOf(after))
  }

  lemma NothingPromoted(db: Db, cp: Checkpoint)
    requires ValidTree(db)
    ensures Promoted(db, cp, [], db)
  {
  }

  /** A promotion that went through opened the checkpoint's root, and was already there or came next. */
  ghost predicate LogPromotes(staged: map<EntryId, Blob>, cp: Checkpoint, p: Pending, was: seq<Blob>, log: seq<Blob>) {
    && p.entryId in staged && Opens(cp, staged[p.entryId], p.leafIndex) && p.leafIndex < cp.treeSize
    && p.leafIndex <= |was|
    && log == (if p.leafIndex < |was| then was else was + [staged[p.entryId]])
    && (p.leafIndex < |was| ==> was[p.leafIndex] == staged[p.entryId])
  }

  ghost predicate PromotesTo(db: Db, cp: Checkpoint, p: Pending, after: Db) {
    OnlyGrew(db, after) && LogPromotes(db.staged, cp, p, LogOf(db), LogOf(after))
  }

  lemma PromoteInGate(db: Db, cp: Checkpoint, p: Pending)
    requires PromoteIn(db, cp, p).Ok?
    ensures p.entryId in db.staged && Opens(cp, db.staged[p.entryId], p.leafIndex) && p.leafIndex < cp.treeSize
    ensures PromoteIn(db, cp, p) == Promote(db, p.leafIndex, p.entryId)
  {
    var path := PathOf(p.path).value;
    assert Inclusion.VerifyInclusion(LogLeafHash(db.staged[p.entryId]), p.leafIndex, cp.treeSize, path, cp.rootHash.hash) == Ok(true);
  }

  lemma PromoteInCases(db: Db, cp: Checkpoint, p: Pending)
    requires ValidTree(db) && PromoteIn(db, cp, p).Ok?
    ensures PromotesTo(db, cp, p, PromoteIn(db, cp, p).value.db)
  {
    PromoteInGate(db, cp, p);
    PromoteIntoValidTree(db, p.leafIndex, p.entryId);
  }

  /** One more claim on the slots. */
  lemma SlotStep(db: Db, pending: seq<Pending>, i: nat)
    requires pending != []
    ensures Slot(db, pending[..|pending| - 1], i).Some? ==> Slot(db, pending, i) == Slot(db, pending[..|pending| - 1], i)
    ensures var last := pending[|pending| - 1];
      last.leafIndex != i ==> Slot(db, pending, i) == Slot(db, pending[..|pending| - 1], i)
  {
    ClaimStep(pending, i);
  }

  lemma NewSlot(db: Db, pending: seq<Pending>)
    requires pending != []
    requires var last := pending[|pending| - 1];
      last.entryId in db.staged && last.leafIndex !in db.entries && FirstClaim(pending[..|pending| - 1], last.leafIndex).None?
    ensures Slot(db, pending, pending[|pending| - 1].leafIndex) == Some(db.staged[pending[|pending| - 1].entryId])
  {
    ClaimStep(pending, pending[|pending| - 1].leafIndex);
  }

  /** Every claim made so far names staged bytes. */
  ghost predicate AllStaged(db: Db, pending: seq<Pending>) {
    forall i :: 0 <= i < |pending| ==> pending[i].entryId in db.staged
  }

  lemma {:induction false} FirstClaimIsOne(pending: seq<Pending>, i: nat)
    ensures FirstClaim(pending, i).Some? ==> FirstClaim(pending, i).value in pending
    decreases |pending|
  {
    if pending == [] {
    } else {
      FirstClaimIsOne(pending[..|pending| - 1], i);
    }
  }

  /** With every claim staged, an empty slot is an unclaimed one. */
  lemma EmptySlotIsUnclaimed(db: Db, pending: seq<Pending>, i: nat)
    requires AllStaged(db, pending) && Slot(db, pending, i).None?
    ensures i !in db.entries && FirstClaim(pending, i).None?
  {
    FirstClaimIsOne(pending, i);
  }

  lemma FillsAgain(db: Db, pending: seq<Pending>, log: seq<Blob>)
    requires pending != [] && LogFills(db, pending[..|pending| - 1], log)
    requires pending[|pending| - 1].leafIndex < |log|
    ensures LogFills(db, pending, log)
  {
    forall i: nat
      ensures Slot(db, pending, i) == (if i < |log| then Some(log[i]) else None)
    {
      SlotStep(db, pending, i);
    }
  }

  lemma FillsNext(db: Db, pending: seq<Pending>, log: seq<Blob>)
    requires pending != [] && AllStaged(db, pending) && LogFills(db, pending[..|pending| - 1], log)
    requires pending[|pending| - 1].leafIndex == |log|
    ensures LogFills(db, pending, log + [db.staged[pending[|pending| - 1].entryId]])
  {
    var init, last := pending[..|pending| - 1], pending[|pending| - 1];
    EmptySlotIsUnclaimed(db, init, |log|);
    NewSlot(db, pending);
    var next := log + [db.staged[last.entryId]];
    forall i: nat
      ensures Slot(db, pending, i) == (if i < |next| then Some(next[i]) else None)
    {
      SlotStep(db, pending, i);
    }
  }

  lemma GrewStep(db: Db, cp: Checkpoint, pending: seq<Pending>, was: seq<Blob>, log: seq<Blob>, next: seq<Blob>)
    requires pending != [] && AllStaged(db, pending[..|pending| - 1]) && LogGrew(db, cp, pending[..|pending| - 1], was, log)
    requires LogPromotes(db.staged, cp, pending[|pending| - 1], log, next)
    ensures AllStaged(db, pending) && LogGrew(db, cp, pending, was, next)
  {
    var last := pending[|pending| - 1];
    assert pending == pending[..|pending| - 1] + [last];
    if last.leafIndex < |log| {
      FillsAgain(db, pending, log);
    } else {
      FillsNext(db, pending, log);
    }
  }

  lemma PromotedStep(db: Db, cp: Checkpoint, pending: seq<Pending>, before: Db, after: Db)
    requires pending != [] && Promoted(db, cp, pending[..|pending| - 1], before) && AllStaged(db, pending[..|pending| - 1])
    requires PromotesTo(before, cp, pending[|pending| - 1], after)
    ensures AllStaged(db, pending) && Promoted(db, cp, pending, after)
  {
    GrewStep(db, cp, pending, LogOf(db), LogOf(before), LogOf(after));
  }

  lemma {:induction false} PromoteAllFills(db: Db, cp: Checkpoint, pending: seq<Pending>)
    requires ValidTree(db) && PromoteAll(db, cp, pending).Ok?
    ensures AllStaged(db, pending)
    ensures Promoted(db, cp, pending, PromoteAll(db, cp, pending).value)
    decreases |pending|
  {
    if pending == [] {
      NothingPromoted(db, cp);
    } else {
      PromoteAllFills(db, cp, pending[..|pending| - 1]);
      var before := PromoteAll(db, cp, pending[..|pending| - 1]).value;
      PromoteInCases(before, cp, pending[|pending| - 1]);
      PromotedStep(db, cp, pending, before, PromoteAll(db, cp, pending).value);
    }
  }

  // ---- the commit ----

  /** A log cut to a size. */
  function Cut(log: seq<Blob>, n: nat): seq<Blob> {
    if n <= |log| then log[..n] else log
  }

  lemma CutIsLongestRun(db: Db, pending: seq<Pending>, log: seq<Blob>, target: nat)
    requires LogFills(db, pending, log)
    ensures LongestRun(db, pending, target, Cut(log, target))
  {
  }

  /** `cps` gained at most one checkpoint, at the end. */
  ghost predicate MayAppend(before: seq<Checkpoint>, after: seq<Checkpoint>, cp: Checkpoint) {
    after == before || after == before + [cp]
  }

  /** Anchors were only appended, each for this checkpoint and a rotation it was admitted for. */
  ghost predicate AnchorsAppended(before: seq<Anchor>, after: seq<Anchor>, cp: Checkpoint, ms: seq<nat>) {
    before <= after && forall i :: |before| <= i < |after| ==> after[i].checkpoint == cp && after[i].manifestEntryIndex in ms
  }

  lemma {:induction false} AnchorsOnlyAppend(db: Db, ms: seq<nat>, cp: Checkpoint)
    requires InsertAnchors(db, ms, cp).Ok?
    ensures var after := InsertAnchors(db, ms, cp).value;
      after == db.(anchors := after.anchors) && AnchorsAppended(db.anchors, after.anchors, cp, ms)
    decreases |ms|
  {
    if ms == [] {
    } else {
      AnchorsOnlyAppend(db, ms[..|ms| - 1], cp);
    }
  }

  /** Recording an admission leaves entries, cache and staged rows alone. */
  lemma RecordOnlyAppends(db: Db, cp: Checkpoint, admission: AdmissionOf)
    requires RecordAdmission(db, cp, admission).Ok?
    ensures var after := RecordAdmission(db, cp, admission).value;
      && after == db.(checkpoints := after.checkpoints, anchors := after.anchors)
      && MayAppend(db.checkpoints, after.checkpoints, cp)
      && (!admission.seriesMember ==> after.checkpoints == db.checkpoints)
      && AnchorsAppended(db.anchors, after.anchors, cp, admission.rotationAnchors)
  {
    var listed := if admission.seriesMember then InsertCheckpoint(db, cp) else Ok(Written(db, AlreadyPresent));
    AnchorsOnlyAppend(listed.value.db, admission.rotationAnchors, cp);
  }

  /** What a successful ingest did: entries were appended, every one proven under the checkpoint, and
    * the checkpoint was recorded where it earned a place.
    */
  ghost predicate Ingested(db: Db, s: Submission, after: Db, admission: AdmissionOf) {
    && ValidTree(db) && ValidTree(after)
    && after.staged == db.staged
    && LogOf(db) <= LogOf(after)
    && ProvenFrom(s.cp, LogOf(after), |db.entries|)
    && MayAppend(db.checkpoints, after.checkpoints, s.cp)
    && AnchorsAppended(db.anchors, after.anchors, s.cp, admission.rotationAnchors)
  }

  /** The prefix an ingest resolves governance from. */
  function SeenPrefix(db: Db, s: Submission): seq<Blob>
    requires s.cp.rootHash.Hex?
  {
    match VisiblePrefix(db, s.pending, s.cp.treeSize, s.cp.rootHash.hash)
    case Ok(run) => run
    case Err(_) => []
  }

  lemma IngestParts(db: Db, config: Governance.Config, s: Submission)
    requires Ingest(db, config, s).Ok?
    ensures s.cp.treeSize <= MAX_I64 && s.cp.rootHash.Hex?
    ensures VisiblePrefix(db, s.pending, s.cp.treeSize, s.cp.rootHash.hash) == Ok(SeenPrefix(db, s))
    ensures Judge(SeenPrefix(db, s), config, ClaimOf(s.cp, s.raw), s.rotationFor) == Ok(Ingest(db, config, s).value.admission)
    ensures PromoteAll(db, s.cp, s.pending).Ok?
    ensures var promoted := PromoteAll(db, s.cp, s.pending).value;
      && CheckRoot(promoted, s.cp, s.cp.rootHash.hash).Ok?
      && RecordAdmission(promoted, s.cp, Ingest(db, config, s).value.admission) == Ok(Ingest(db, config, s).value.db)
  {
  }

  lemma IngestAppends(db: Db, config: Governance.Config, s: Submission)
    requires ValidTree(db) && Ingest(db, config, s).Ok?
    ensures Ingested(db, s, Ingest(db, config, s).value.db, Ingest(db, config, s).value.admission)
  {
    IngestParts(db, config, s);
    PromoteAllFills(db, s.cp, s.pending);
    RecordOnlyAppends(PromoteAll(db, s.cp, s.pending).value, s.cp, Ingest(db, config, s).value.admission);
  }

  /** What was checked is what was committed: after a successful ingest, canonical storage cut to the
    * checkpoint's size is exactly the prefix its governance was resolved from.
    */
  lemma CheckedIsCommitted(db: Db, config: Governance.Config, s: Submission)
    requires ValidTree(db) && Ingest(db, config, s).Ok?
    ensures var after := Ingest(db, config, s).value.db;
      ValidTree(after) && Cut(LogOf(after), s.cp.treeSize) == SeenPrefix(db, s)
  {
    IngestParts(db, config, s);
    IngestAppends(db, config, s);
    var promoted := PromoteAll(db, s.cp, s.pending).value;
    PromoteAllFills(db, s.cp, s.pending);
    RecordOnlyAppends(promoted, s.cp, Ingest(db, config, s).value.admission);
    CutIsLongestRun(db, s.pending, LogOf(promoted), s.cp.treeSize);
    VisiblePrefixIsDense(db, s.pending, s.cp.treeSize, s.cp.rootHash.hash);
    LongestRunUnique(db, s.pending, s.cp.treeSize, Cut(LogOf(promoted), s.cp.treeSize), SeenPrefix(db, s));
  }

  /** So judging the checkpoint again by the entries now committed up to its size, fewer though they may
    * be, gives the admission it was recorded for: as a member, as an anchor, or both.
    */
  lemma AdmissionIsOfTheStore(db: Db, config: Governance.Config, s: Submission)
    requires ValidTree(db) && Ingest(db, config, s).Ok?
    ensures var r := Ingest(db, config, s).value;
      Judge(EntriesRange(r.db.entries, 0, s.cp.treeSize), config, ClaimOf(s.cp, s.raw), s.rotationFor) == Ok(r.admission)
  {
    hide Judge, Ingest;
    CheckedIsCommitted(db, config, s);
    IngestParts(db, config, s);
    var after := Ingest(db, config, s).value.db;
    RangeOfContiguous(after.entries, 0, s.cp.treeSize);
    assert EntriesRange(after.entries, 0, s.cp.treeSize) == Cut(LogOf(after), s.cp.treeSize);
  }

  /** And where the store now reaches its size, the governance it resolves to for the checkpoint is the
    * last version the checkpoint was judged by.
    */
  lemma AuthenticatedGovernanceIsCommitted(db: Db, config: Governance.Config, s: Submission)
    requires ValidTree(db) && Ingest(db, config, s).Ok?
    requires |Ingest(db, config, s).value.db.entries| >= s.cp.treeSize
    ensures var after := Ingest(db, config, s).value.db;
      var r := Series.GovernanceFor(after.entries, config, s.cp.treeSize);
      var versions := Governance.Versions(SeenPrefix(db, s), config);
      && versions.Ok? && |versions.value| > 0
      && r.Ok? && r.value.Some? && GovernanceChain.SameVersion(r.value.value, versions.value[|versions.value| - 1])
  {
    CheckedIsCommitted(db, config, s);
    IngestParts(db, config, s);
    var after := Ingest(db, config, s).value.db;
    RangeOfContiguous(after.entries, 0, s.cp.treeSize);
    assert LogOf(after)[0..s.cp.treeSize] == SeenPrefix(db, s);
    GovernanceChain.VersionsAgreeWithResolve(SeenPrefix(db, s), config);
  }

  /** Over an empty prefix there is no governance. */
  lemma EmptyPrefixIsUngoverned(db: Db, config: Governance.Config, pending: seq<Pending>, root: Hash)
    ensures VisiblePrefix(db, pending, 0, root).Ok? ==> VisiblePrefix(db, pending, 0, root).value == []
    ensures Governance.Versions([], config).Err?
  {
  }

  /** A checkpoint that commits no entry is never admitted: nothing governs it. */
  lemma EmptyTreeNeverAdmitted(db: Db, config: Governance.Config, s: Submission)
    requires s.cp.treeSize == 0
    ensures Ingest(db, config, s).Err?
  {
    if s.cp.rootHash.Hex? {
      EmptyPrefixIsUngoverned(db, config, s.pending, s.cp.rootHash.hash);
    }
  }
}
