/** Runs of the mirror: any sequence of stage, promote and ingest steps, failed ones included. */
module Runs {
  import opened Wrappers
  import opened Bits
  import opened Encoding
  import opened Merkle
  import opened Tables
  import opened SubtreeCache
  import opened StoreSpec
  import opened TextOrder
  import opened CheckpointTime
  import opened Admission
  import opened Commitment
  import opened Usability
  import Governance
  import Series
  import SeriesOrder
  import Views
  import Inclusion

  // ---- steps ----

  datatype Step =
    | Staging(claimed: EntryId, bytes: Blob, metadata: Json)
    | Promoting(treeSize: nat, p: Pending)
    | Ingesting(s: Submission)

  /** `Store::get_checkpoint`: the most recently declared one of a size. */
  function LatestAt(rows: seq<Checkpoint>, treeSize: nat): Option<Checkpoint> {
    if rows == [] then None
    else
      var last := rows[|rows| - 1];
      var earlier := LatestAt(rows[..|rows| - 1], treeSize);
      if last.treeSize != treeSize then earlier
      else if earlier.Some? && !KeyLe(earlier.value, last) then earlier
      else Some(last)
  }

  /** Promotion against a checkpoint already recorded. */
  ghost function PromoteUnderStored(db: Db, treeSize: nat, p: Pending): MirrorResult<Written> {
    if treeSize > MAX_I64 then Err(IndexOverflow)
    else match LatestAt(db.checkpoints, treeSize)
      case None => Err(UnknownCheckpoint(treeSize))
      case Some(cp) => PromoteIn(db, cp, p)
  }

  function Keep(r: MirrorResult<Written>, db: Db): Db {
    if r.Ok? then r.value.db else db
  }

  /** A step's effect; a refused one has none. */
  ghost function After(db: Db, config: Governance.Config, step: Step): Db {
    match step
    case Staging(claimed, bytes, metadata) => Keep(StageEntry(db, claimed, bytes, metadata), db)
    case Promoting(treeSize, p) => Keep(PromoteUnderStored(db, treeSize, p), db)
    case Ingesting(s) => if Ingest(db, config, s).Ok? then Ingest(db, config, s).value.db else db
  }

  ghost function Run(config: Governance.Config, steps: seq<Step>): Db {
    if steps == [] then EMPTY_DB else After(Run(config, steps[..|steps| - 1]), config, steps[|steps| - 1])
  }

  // ---- what a step can do ----

  /** Checkpoints recorded later include every one recorded earlier. */
  ghost predicate RecordsGrow(before: Db, after: Db) {
    && (forall cp :: cp in before.checkpoints ==> cp in after.checkpoints)
    && (forall a :: a in before.anchors ==> a in after.anchors)
  }

  /** A checkpoint newly recorded by a step was admitted by it. */
  ghost predicate NewlyAdmitted(db: Db, config: Governance.Config, step: Step, cp: Checkpoint) {
    step.Ingesting? && step.s.cp == cp && Ingest(db, config, step.s).Ok?
  }

  /** Bytes at `i` were proven under a checkpoint recorded before the step or admitted by it. */
  ghost predicate ProvenBy(db: Db, config: Governance.Config, step: Step, bytes: Blob, i: nat) {
    exists cp :: (cp in db.checkpoints || NewlyAdmitted(db, config, step, cp)) && Opens(cp, bytes, i)
  }

  /** A step only appends to the log, and only what was proven. */
  ghost predicate AppendsProven(db: Db, config: Governance.Config, step: Step, was: seq<Blob>, log: seq<Blob>) {
    was <= log && forall i :: |was| <= i < |log| ==> ProvenBy(db, config, step, log[i], i)
  }

  /** An anchor newly recorded by a step is one its admission named. */
  ghost predicate NewlyAnchored(db: Db, config: Governance.Config, step: Step, a: Anchor) {
    && NewlyAdmitted(db, config, step, a.checkpoint)
    && a.manifestEntryIndex in Ingest(db, config, step.s).value.admission.rotationAnchors
  }

  ghost predicate StepMoves(db: Db, config: Governance.Config, step: Step, after: Db) {
    && ValidTree(db) && ValidTree(after)
    && RecordsGrow(db, after)
    && (forall cp :: cp in after.checkpoints ==> cp in db.checkpoints || NewlyAdmitted(db, config, step, cp))
    && (forall a :: a in after.anchors ==> a in db.anchors || NewlyAnchored(db, config, step, a))
    && AppendsProven(db, config, step, LogOf(db), LogOf(after))
  }

  lemma NothingMoves(db: Db, config: Governance.Config, step: Step)
    requires ValidTree(db)
    ensures StepMoves(db, config, step, db)
  {
  }

  lemma {:induction false} LatestIsOne(rows: seq<Checkpoint>, treeSize: nat)
    ensures LatestAt(rows, treeSize).Some? ==> LatestAt(rows, treeSize).value in rows
    decreases |rows|
  {
    if rows == [] {
    } else {
      LatestIsOne(rows[..|rows| - 1], treeSize);
    }
  }

  lemma StagingMoves(db: Db, config: Governance.Config, step: Step)
    requires ValidTree(db) && step.Staging?
    ensures StepMoves(db, config, step, After(db, config, step))
  {
    hide CacheExact, LeafColumn;
    var after := After(db, config, step);
    assert after == db.(staged := after.staged);
  }

  lemma PromotedMoves(db: Db, config: Governance.Config, step: Step, cp: Checkpoint, p: Pending, after: Db)
    requires ValidTree(db) && cp in db.checkpoints && PromotesTo(db, cp, p, after)
    ensures StepMoves(db, config, step, after)
  {
    hide CacheExact, LeafColumn, Opens, Promote;
    forall i | |db.entries| <= i < |after.entries|
      ensures ProvenBy(db, config, step, LogOf(after)[i], i)
    {
      assert i == p.leafIndex;
      assert Opens(cp, LogOf(after)[i], i);
    }
  }

  lemma PromotingMoves(db: Db, config: Governance.Config, step: Step)
    requires ValidTree(db) && step.Promoting?
    ensures StepMoves(db, config, step, After(db, config, step))
  {
    LatestIsOne(db.checkpoints, step.treeSize);
    var r := PromoteUnderStored(db, step.treeSize, step.p);
    if r.Ok? {
      var cp := LatestAt(db.checkpoints, step.treeSize).value;
      PromoteInCases(db, cp, step.p);
      PromotedMoves(db, config, step, cp, step.p, r.value.db);
    } else {
      NothingMoves(db, config, step);
    }
  }

  lemma ProvenByAdmitted(db: Db, config: Governance.Config, step: Step, cp: Checkpoint, was: seq<Blob>, log: seq<Blob>)
    requires was <= log && ProvenFrom(cp, log, |was|) && NewlyAdmitted(db, config, step, cp)
    ensures AppendsProven(db, config, step, was, log)
  {
    forall i | |was| <= i < |log|
      ensures ProvenBy(db, config, step, log[i], i)
    {
      assert Opens(cp, log[i], i);
    }
  }

  lemma IngestedMoves(db: Db, config: Governance.Config, step: Step, after: Db, admission: AdmissionOf)
    requires step.Ingesting? && Ingested(db, step.s, after, admission)
    requires NewlyAdmitted(db, config, step, step.s.cp) && admission == Ingest(db, config, step.s).value.admission
    ensures StepMoves(db, config, step, after)
  {
    ProvenByAdmitted(db, config, step, step.s.cp, LogOf(db), LogOf(after));
    forall a | a in after.anchors
      ensures a in db.anchors || NewlyAnchored(db, config, step, a)
    {
      var i :| 0 <= i < |after.anchors| && after.anchors[i] == a;
      if i < |db.anchors| {
        assert db.anchors[i] == a;
      }
    }
    forall a | a in db.anchors
      ensures a in after.anchors
    {
      var i :| 0 <= i < |db.anchors| && db.anchors[i] == a;
      assert after.anchors[i] == a;
    }
  }

  lemma IngestingMoves(db: Db, config: Governance.Config, step: Step)
    requires ValidTree(db) && step.Ingesting?
    ensures StepMoves(db, config, step, After(db, config, step))
  {
    if Ingest(db, config, step.s).Ok? {
      IngestAppends(db, config, step.s);
      IngestedMoves(db, config, step, Ingest(db, config, step.s).value.db, Ingest(db, config, step.s).value.admission);
    } else {
      NothingMoves(db, config, step);
    }
  }

  /** Every step keeps the tree valid, only appends, and appends only what a checkpoint proved. */
  lemma StepExact(db: Db, config: Governance.Config, step: Step)
    requires ValidTree(db)
    ensures StepMoves(db, config, step, After(db, config, step))
  {
    match step
    case Staging(_, _, _) => StagingMoves(db, config, step);
    case Promoting(_, _) => PromotingMoves(db, config, step);
    case Ingesting(_) => IngestingMoves(db, config, step);
  }

  // ---- every run ----

  lemma EmptyIsValid()
    ensures ValidTree(EMPTY_DB)
  {
    forall key
      ensures !Inner(key, 0)
    {
      if Inner(key, 0) {
        CompleteIndexBelow(key.level, key.index, 0);
      }
    }
  }

  /** After any run the tree is valid: rows are contiguous, and the cache holds exactly the complete
    * subtrees of the log, one row per leaf less one per set bit of the leaf count.
    */
  lemma {:induction false} RunIsValid(config: Governance.Config, steps: seq<Step>)
    ensures ValidTree(Run(config, steps))
    decreases |steps|
  {
    hide CacheExact, After;
    if steps == [] {
      EmptyIsValid();
    } else {
      RunIsValid(config, steps[..|steps| - 1]);
      StepExact(Run(config, steps[..|steps| - 1]), config, steps[|steps| - 1]);
    }
  }

  lemma RunCachePopulation(config: Governance.Config, steps: seq<Step>)
    ensures var db := Run(config, steps);
      ValidTree(db) && |db.subtrees| == |db.entries| - PopCount(|db.entries|)
  {
    RunIsValid(config, steps);
    ExactCachePopulation(Run(config, steps).subtrees, LeavesOf(Run(config, steps)));
  }

  /** What admission keeps of every recorded checkpoint: it commits at least one entry, its members
    * parse, and so its text orders as its time does.
    */
  ghost predicate WellRecorded(cp: Checkpoint) {
    cp.treeSize >= 1 && cp.treeSize <= MAX_I64 && cp.rootHash.Hex? && ParseTime(cp.checkpointTime).Ok?
  }

  /** So the text-ordered series is the series ordered by size and time. */
  lemma SeriesOrderIsTimeOrder(a: Checkpoint, b: Checkpoint)
    requires WellRecorded(a) && WellRecorded(b)
    ensures KeyLe(a, b) <==>
      a.treeSize < b.treeSize
      || (a.treeSize == b.treeSize && ParseTime(a.checkpointTime).value <= ParseTime(b.checkpointTime).value)
  {
    TextOrderIsTimeOrder(a.checkpointTime, b.checkpointTime);
  }

  lemma {:induction false} AnchoredIsParsed(rotations: seq<Rotation>, config: Governance.Config, c: Claim)
    requires Anchored(rotations, config, c) != []
    ensures c.blob.Ok?
    decreases |rotations|
  {
    if rotations != [] && !Qualifies(rotations[|rotations| - 1], config, c) {
      AnchoredIsParsed(rotations[..|rotations| - 1], config, c);
    }
  }

  lemma JudgedIsParsed(prefix: seq<Blob>, config: Governance.Config, c: Claim, named: Option<nat>)
    requires Judge(prefix, config, c, named).Ok?
    ensures c.blob.Ok?
  {
    var versions := Governance.Versions(prefix, config).value;
    if Anchored(RotationsIn(versions), config, c) != [] {
      AnchoredIsParsed(RotationsIn(versions), config, c);
    }
  }

  lemma AdmittedIsWellRecorded(db: Db, config: Governance.Config, s: Submission)
    requires Ingest(db, config, s).Ok?
    ensures WellRecorded(s.cp)
  {
    IngestParts(db, config, s);
    JudgedIsParsed(SeenPrefix(db, s), config, ClaimOf(s.cp, s.raw), s.rotationFor);
    if s.cp.treeSize == 0 {
      EmptyTreeNeverAdmitted(db, config, s);
    }
  }

  ghost predicate AllWellRecorded(db: Db) {
    forall cp :: Views.Recorded(db, cp) ==> WellRecorded(cp)
  }

  lemma {:induction false} RunIsWellRecorded(config: Governance.Config, steps: seq<Step>)
    ensures AllWellRecorded(Run(config, steps)) && PositiveSizes(Run(config, steps).checkpoints)
    decreases |steps|
  {
    var db := Run(config, steps);
    if steps == [] {
    } else {
      var before, step := Run(config, steps[..|steps| - 1]), steps[|steps| - 1];
      RunIsWellRecorded(config, steps[..|steps| - 1]);
      RunIsValid(config, steps[..|steps| - 1]);
      StepExact(before, config, step);
      if step.Ingesting? && Ingest(before, config, step.s).Ok? {
        AdmittedIsWellRecorded(before, config, step.s);
      }
      forall cp | Views.Recorded(db, cp)
        ensures WellRecorded(cp)
      {
        if !Views.Recorded(before, cp) {
          assert NewlyAdmitted(before, config, step, cp);
        }
      }
    }
    forall cp | cp in db.checkpoints
      ensures cp.treeSize >= 1
    {
      assert Views.Recorded(db, cp);
    }
  }

  // ---- anchors over a run ----

  lemma {:induction false} AnchoredIsBelow(rotations: seq<Rotation>, config: Governance.Config, c: Claim)
    ensures forall m :: m in Anchored(rotations, config, c) ==> m < c.cp.treeSize
    decreases |rotations|
  {
    if rotations == [] {
    } else {
      AnchoredIsBelow(rotations[..|rotations| - 1], config, c);
    }
  }

  lemma AdmittedAnchorsAreBelow(db: Db, config: Governance.Config, s: Submission)
    requires Ingest(db, config, s).Ok?
    ensures forall m :: m in Ingest(db, config, s).value.admission.rotationAnchors ==> m < s.cp.treeSize
  {
    IngestParts(db, config, s);
    AnchoredIsBelow(RotationsIn(Governance.Versions(SeenPrefix(db, s), config).value), config, ClaimOf(s.cp, s.raw));
  }

  /** Every anchor's checkpoint commits the rotating manifest it anchors. */
  ghost predicate AnchorsCommit(db: Db) {
    forall a :: a in db.anchors ==> a.manifestEntryIndex < a.checkpoint.treeSize
  }

  lemma {:induction false} RunAnchorsCommit(config: Governance.Config, steps: seq<Step>)
    ensures AnchorsCommit(Run(config, steps))
    decreases |steps|
  {
    if steps == [] {
    } else {
      var before, step := Run(config, steps[..|steps| - 1]), steps[|steps| - 1];
      RunAnchorsCommit(config, steps[..|steps| - 1]);
      RunIsValid(config, steps[..|steps| - 1]);
      StepExact(before, config, step);
      if step.Ingesting? && Ingest(before, config, step.s).Ok? {
        AdmittedAnchorsAreBelow(before, config, step.s);
      }
    }
  }

  // ---- what a run has admitted ----

  /** Step `i` of a run admitted its checkpoint. */
  ghost predicate AdmittedBy(config: Governance.Config, steps: seq<Step>, i: nat) {
    i < |steps| && steps[i].Ingesting? && Ingest(Run(config, steps[..i]), config, steps[i].s).Ok?
  }

  /** Some step of a run admitted `cp`. */
  ghost predicate AdmittedIn(config: Governance.Config, steps: seq<Step>, cp: Checkpoint) {
    exists i: nat :: AdmittedBy(config, steps, i) && steps[i].s.cp == cp
  }

  lemma AdmittedEarlier(config: Governance.Config, steps: seq<Step>, n: nat, i: nat)
    requires n <= |steps| && i < n
    ensures AdmittedBy(config, steps[..n], i) <==> AdmittedBy(config, steps, i)
  {
    assert steps[..n][..i] == steps[..i];
  }

  lemma AdmittedStays(config: Governance.Config, steps: seq<Step>, cp: Checkpoint)
    requires steps != []
    ensures AdmittedIn(config, steps, cp) <==>
      AdmittedIn(config, steps[..|steps| - 1], cp)
      || NewlyAdmitted(Run(config, steps[..|steps| - 1]), config, steps[|steps| - 1], cp)
  {
    hide Ingest, Run;
    var n := |steps| - 1;
    if AdmittedIn(config, steps[..n], cp) {
      var i: nat :| AdmittedBy(config, steps[..n], i) && steps[..n][i].s.cp == cp;
      AdmittedEarlier(config, steps, n, i);
      assert AdmittedBy(config, steps, i) && steps[i].s.cp == cp;
    }
    if NewlyAdmitted(Run(config, steps[..n]), config, steps[n], cp) {
      assert AdmittedBy(config, steps, n) && steps[n].s.cp == cp;
    }
    if AdmittedIn(config, steps, cp) {
      var i: nat :| AdmittedBy(config, steps, i) && steps[i].s.cp == cp;
      if i < n {
        AdmittedEarlier(config, steps, n, i);
        assert steps[..n][i].s.cp == cp;
      }
    }
  }

  /** Every recorded checkpoint was admitted by some step. */
  lemma {:induction false} RecordedWasAdmitted(config: Governance.Config, steps: seq<Step>)
    ensures forall cp :: Views.Recorded(Run(config, steps), cp) ==> AdmittedIn(config, steps, cp)
    decreases |steps|
  {
    hide After, AdmittedIn, AppendsProven, ValidTree;
    if steps == [] {
    } else {
      var before, step := Run(config, steps[..|steps| - 1]), steps[|steps| - 1];
      RecordedWasAdmitted(config, steps[..|steps| - 1]);
      RunIsValid(config, steps[..|steps| - 1]);
      StepExact(before, config, step);
      forall cp | Views.Recorded(Run(config, steps), cp)
        ensures AdmittedIn(config, steps, cp)
      {
        AdmittedStays(config, steps, cp);
        assert Views.Recorded(before, cp) || NewlyAdmitted(before, config, step, cp);
      }
    }
  }

  /** The root of a checkpoint some step admitted opens to these bytes at this position. */
  ghost predicate ProvenIn(config: Governance.Config, steps: seq<Step>, bytes: Blob, i: nat) {
    exists cp :: AdmittedIn(config, steps, cp) && Opens(cp, bytes, i)
  }

  lemma ProvenStays(config: Governance.Config, steps: seq<Step>, bytes: Blob, i: nat)
    requires steps != []
    requires ProvenIn(config, steps[..|steps| - 1], bytes, i)
          || ProvenBy(Run(config, steps[..|steps| - 1]), config, steps[|steps| - 1], bytes, i)
    ensures ProvenIn(config, steps, bytes, i)
  {
    hide AdmittedIn, Opens, Ingest, Run;
    var init := steps[..|steps| - 1];
    RecordedWasAdmitted(config, init);
    var cp :| (AdmittedIn(config, init, cp) || NewlyAdmitted(Run(config, init), config, steps[|steps| - 1], cp)) && Opens(cp, bytes, i);
    AdmittedStays(config, steps, cp);
  }

  /** After any run every canonical entry opens, at its own position, the root of a checkpoint that
    * some step admitted.
    */
  lemma {:induction false} RunIsProven(config: Governance.Config, steps: seq<Step>)
    ensures ValidTree(Run(config, steps))
    ensures var log := LogOf(Run(config, steps));
      forall i :: 0 <= i < |log| ==> ProvenIn(config, steps, log[i], i)
    decreases |steps|
  {
    hide After, ProvenIn, CacheExact, LeafColumn, ProvenBy;
    RunIsValid(config, steps);
    if steps == [] {
    } else {
      var init, step := steps[..|steps| - 1], steps[|steps| - 1];
      RunIsProven(config, init);
      StepExact(Run(config, init), config, step);
      var was, log := LogOf(Run(config, init)), LogOf(Run(config, steps));
      forall i | 0 <= i < |log|
        ensures ProvenIn(config, steps, log[i], i)
      {
        assert i < |was| ==> log[i] == was[i];
        ProvenStays(config, steps, log[i], i);
      }
    }
  }

  // ---- the floor over a run ----

  lemma FloorFalls(before: Db, after: Db)
    requires RecordsGrow(before, after)
    ensures Series.Floor(before).Some? ==>
      Series.Floor(after).Some? && Series.Floor(after).value <= Series.Floor(before).value
  {
    forall cp | cp in Series.Records(before)
      ensures cp in Series.Records(after)
    {
      Views.RecordsAreBothTables(before, cp);
      Views.RecordsAreBothTables(after, cp);
    }
    SeriesOrder.FloorNeverRises(Series.Records(before), Series.Records(after));
  }

  /** Over any run the equivocation floor never rises and never disappears. */
  lemma {:induction false} FloorNeverRecovers(config: Governance.Config, steps: seq<Step>, n: nat)
    requires n <= |steps|
    ensures var early, late := Series.Floor(Run(config, steps[..n])), Series.Floor(Run(config, steps));
      early.Some? ==> late.Some? && late.value <= early.value
    decreases |steps| - n
  {
    hide Series.Floor, ValidTree, AppendsProven, After, NewlyAdmitted, NewlyAnchored;
    if n == |steps| {
      assert steps[..n] == steps;
    } else {
      var before := Run(config, steps[..n]);
      var longer := steps[..n + 1];
      assert longer[..n] == steps[..n];
      RunIsValid(config, steps[..n]);
      StepExact(before, config, steps[n]);
      FloorFalls(before, Run(config, longer));
      FloorNeverRecovers(config, steps, n + 1);
    }
  }

  // ---- one honest log ----

  /** `cp` commits the root of a prefix of `log`. */
  ghost predicate Commits(log: seq<Blob>, cp: Checkpoint) {
    cp.treeSize <= |log| && cp.rootHash == Hex(TreeRoot(Leaves(log), cp.treeSize))
  }

  /** Entries a checkpoint may be judged by: some of the log, then any that its own claimed root opens to. */
  ghost predicate Plausible(log: seq<Blob>, cp: Checkpoint, prefix: seq<Blob>) {
    |prefix| <= cp.treeSize && exists k: nat :: k <= |prefix| && prefix[..k] <= log && ProvenFrom(cp, prefix, k)
  }

  /** Every checkpoint that verifies, under the governance of entries of one log and entries proven
    * under the checkpoint itself, commits the Merkle root of a prefix of that log.
    */
  ghost predicate OneLog(config: Governance.Config, log: seq<Blob>) {
    forall prefix, cp, raw, named ::
      Plausible(log, cp, prefix) && Judge(prefix, config, ClaimOf(cp, raw), named).Ok? ==> Commits(log, cp)
  }

  /** Bytes proven under a checkpoint of the log are the log's at that position. */
  lemma ProvenIsLogged(log: seq<Blob>, cp: Checkpoint, bytes: Blob, i: nat)
    requires Commits(log, cp) && Opens(cp, bytes, i)
    ensures i < |log| && bytes == log[i]
  {
    var path :| Inclusion.VerifyInclusion(LogLeafHash(bytes), i, cp.treeSize, path, cp.rootHash.hash) == Ok(true);
    Inclusion.InclusionExact(Leaves(log), cp.treeSize, i, path, LogLeafHash(bytes));
  }

  /** Every recorded checkpoint commits a prefix of the log. */
  ghost predicate AllCommit(db: Db, log: seq<Blob>) {
    forall cp :: Views.Recorded(db, cp) ==> Commits(log, cp)
  }

  /** Everything held comes from the log. */
  ghost predicate Mirrors(db: Db, log: seq<Blob>) {
    ValidTree(db) && LogOf(db) <= log && AllCommit(db, log)
  }

  lemma CutIsPlausible(log: seq<Blob>, cp: Checkpoint, was: seq<Blob>, now: seq<Blob>)
    requires was <= log && was <= now && ProvenFrom(cp, now, |was|)
    ensures Plausible(log, cp, Cut(now, cp.treeSize))
  {
    hide Opens;
    var prefix := Cut(now, cp.treeSize);
    var k := if |was| <= |prefix| then |was| else |prefix|;
    assert prefix[..k] == was[..k];
    assert ProvenFrom(cp, prefix, k);
  }

  lemma AdmittedCommits(db: Db, config: Governance.Config, s: Submission, log: seq<Blob>)
    requires OneLog(config, log) && Ingest(db, config, s).Ok?
    requires ValidTree(db) && LogOf(db) <= log
    ensures Commits(log, s.cp)
  {
    hide Plausible, Judge, Ingest, ProvenFrom;
    IngestParts(db, config, s);
    IngestAppends(db, config, s);
    CheckedIsCommitted(db, config, s);
    CutIsPlausible(log, s.cp, LogOf(db), LogOf(Ingest(db, config, s).value.db));
  }

  lemma ProvenIsOfTheLog(db: Db, config: Governance.Config, step: Step, log: seq<Blob>, bytes: Blob, i: nat)
    requires OneLog(config, log) && Mirrors(db, log) && ProvenBy(db, config, step, bytes, i)
    ensures i < |log| && bytes == log[i]
  {
    var cp :| (cp in db.checkpoints || NewlyAdmitted(db, config, step, cp)) && Opens(cp, bytes, i);
    StepCommits(db, config, step, log, cp);
    ProvenIsLogged(log, cp, bytes, i);
  }

  /** What a step appends to a prefix of the log leaves it one. */
  lemma AppendedIsLogged(db: Db, config: Governance.Config, step: Step, was: seq<Blob>, now: seq<Blob>, log: seq<Blob>)
    requires OneLog(config, log) && Mirrors(db, log) && was <= log && AppendsProven(db, config, step, was, now)
    ensures now <= log
  {
    hide OneLog, Mirrors, ProvenBy;
    forall i: nat | |was| <= i < |now|
      ensures SameAt(now, log, i)
    {
      ProvenIsOfTheLog(db, config, step, log, now[i], i);
    }
    LogStaysPrefix(was, now, log);
  }

  lemma StepCommits(db: Db, config: Governance.Config, step: Step, log: seq<Blob>, cp: Checkpoint)
    requires OneLog(config, log) && Mirrors(db, log)
    requires Views.Recorded(db, cp) || NewlyAdmitted(db, config, step, cp)
    ensures Commits(log, cp)
  {
    if NewlyAdmitted(db, config, step, cp) {
      AdmittedCommits(db, config, step.s, log);
    }
  }

  predicate SameAt(a: seq<Blob>, b: seq<Blob>, i: nat) {
    i < |a| && i < |b| && a[i] == b[i]
  }

  lemma LogStaysPrefix(was: seq<Blob>, now: seq<Blob>, log: seq<Blob>)
    requires was <= log && was <= now
    requires forall i: nat :: |was| <= i < |now| ==> SameAt(now, log, i)
    ensures now <= log
  {
    if |now| > |was| {
      assert SameAt(now, log, |now| - 1);
    }
    forall i | 0 <= i < |now|
      ensures now[i] == log[i]
    {
      assert i >= |was| ==> SameAt(now, log, i);
    }
  }

  lemma RecordedStaysCommitted(db: Db, config: Governance.Config, step: Step, log: seq<Blob>, after: Db)
    requires OneLog(config, log) && Mirrors(db, log)
    requires forall cp :: Views.Recorded(after, cp) ==> Views.Recorded(db, cp) || NewlyAdmitted(db, config, step, cp)
    ensures AllCommit(after, log)
  {
    forall cp | Views.Recorded(after, cp)
      ensures Commits(log, cp)
    {
      StepCommits(db, config, step, log, cp);
    }
  }

  lemma StepMirrors(db: Db, config: Governance.Config, step: Step, log: seq<Blob>, after: Db)
    requires OneLog(config, log) && Mirrors(db, log) && StepMoves(db, config, step, after)
    ensures Mirrors(after, log)
  {
    hide CacheExact, OneLog, AppendsProven, LeafColumn;
    RecordedStaysCommitted(db, config, step, log, after);
    AppendedIsLogged(db, config, step, LogOf(db), LogOf(after), log);
  }

  lemma {:induction false} RunMirrors(config: Governance.Config, steps: seq<Step>, log: seq<Blob>)
    requires OneLog(config, log)
    ensures Mirrors(Run(config, steps), log)
    decreases |steps|
  {
    hide CacheExact, After, OneLog;
    if steps == [] {
      EmptyIsValid();
    } else {
      var before := Run(config, steps[..|steps| - 1]);
      RunMirrors(config, steps[..|steps| - 1], log);
      StepExact(before, config, steps[|steps| - 1]);
      StepMirrors(before, config, steps[|steps| - 1], log, Run(config, steps));
    }
  }

  lemma NoFloorOverOneLog(db: Db, log: seq<Blob>)
    requires Mirrors(db, log)
    ensures Series.Floor(db).None?
  {
    forall size: nat
      ensures !SeriesOrder.Disagree(Series.Records(db), size)
    {
      Views.EquivocatesIsDisagree(db, size);
    }
    SeriesOrder.FloorExact(Series.Records(db));
  }

  lemma HeldIsEstablished(db: Db, log: seq<Blob>, cp: Checkpoint)
    requires Mirrors(db, log) && WellRecorded(cp) && Commits(log, cp) && cp.treeSize <= |db.entries|
    ensures Established(LeavesOf(db), cp)
  {
    LeavesOfPrefix(LogOf(db), log);
    RootOfPrefix(LeavesOf(db), Leaves(log), 0, cp.treeSize);
  }

  /** If every checkpoint that verifies comes from one log, then after any run, whatever was submitted
    * and whatever failed, canonical storage is a prefix of that log, there is no equivocation floor,
    * and every member within the held prefix is series-usable.
    */
  lemma OneLogIsMirrored(config: Governance.Config, steps: seq<Step>, log: seq<Blob>)
    requires OneLog(config, log)
    ensures var db := Run(config, steps);
      && ValidTree(db) && LogOf(db) <= log
      && Series.Floor(db).None?
      && Series.Label(db, SeriesOrder.Sort(db.checkpoints)).Ok?
      && forall cp :: cp in db.checkpoints && cp.treeSize <= |db.entries| ==>
           cp in Series.UsableOf(Series.Label(db, SeriesOrder.Sort(db.checkpoints)).value.members)
  {
    hide CacheExact, OneLog, LeafColumn, Series.Label, Series.Floor;
    var db := Run(config, steps);
    RunMirrors(config, steps, log);
    RunIsWellRecorded(config, steps);
    NoFloorOverOneLog(db, log);
    var rows := SeriesOrder.Sort(db.checkpoints);
    SeriesOrder.SortIsOrdered(db.checkpoints);
    LabelExact(db, rows);
    EstablishedOfMembers(LeavesOf(db), rows);
    forall cp | cp in db.checkpoints && cp.treeSize <= |db.entries|
      ensures Established(LeavesOf(db), cp)
    {
      assert Views.Recorded(db, cp);
      HeldIsEstablished(db, log, cp);
    }
  }
}
