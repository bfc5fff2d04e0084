/** Progress: a mirror behind an honest log catches up in one ingest. */
module CatchUp {
  import opened Wrappers
  import opened Bits
  import opened Encoding
  import opened Merkle
  import opened Tables
  import opened StoreSpec
  import opened TextOrder
  import opened Admission
  import opened DenseSlots
  import opened Commitment
  import opened Content
  import opened Usability
  import Governance
  import Inclusion
  import RotationAnchors
  import SubtreeCache
  import Runs
  import Series

  /** A proof path as it is submitted, leaf to root. */
  function PathText(path: ProofPath): seq<HashText> {
    match path
    case Start => []
    case Up(below, node) => PathText(below) + [Hex(node)]
  }

  lemma {:induction false} PathTextParses(path: ProofPath)
    ensures PathOf(PathText(path)) == Ok(path)
  {
    match path
    case Start =>
    case Up(below, _) =>
      PathTextParses(below);
      assert PathText(path)[..|PathText(path)| - 1] == PathText(below);
  }

  /** The promotion request for one entry of the log, proven under its first `n` entries. */
  ghost function PendingFor(log: seq<Blob>, n: nat, i: nat): Pending
    requires i < n <= |log|
  {
    Pending(IdOf(log[i]), i, PathText(Inclusion.Path(Leaves(log), 0, n, i)))
  }

  /** The requests for the entries from `from` up to `upTo`, in order. */
  ghost function PendingRange(log: seq<Blob>, n: nat, from: nat, upTo: nat): (pending: seq<Pending>)
    requires from <= upTo <= n <= |log|
    ensures |pending| == upTo - from
    ensures forall k :: 0 <= k < |pending| ==> pending[k] == PendingFor(log, n, from + k)
  {
    seq(upTo - from, k requires 0 <= k < upTo - from => PendingFor(log, n, from + k))
  }

  /** The missing entries are staged under their own ids. */
  ghost predicate MissingStaged(staged: map<EntryId, Blob>, log: seq<Blob>, from: nat, n: nat)
    requires n <= |log|
  {
    forall i :: from <= i < n ==> IdOf(log[i]) in staged && staged[IdOf(log[i])] == log[i]
  }

  /** What the mirror must have before it can catch up to `n` entries: the missing entries staged, each
    * canonical and none repeated.
    */
  ghost predicate Ready(db: Db, log: seq<Blob>, n: nat) {
    && ValidTree(db) && ContentAddressed(db)
    && |db.entries| <= n <= |log| && n <= MAX_I64
    && LogOf(db) == log[..|db.entries|]
    && MissingStaged(db.staged, log, |db.entries|, n)
    && (forall i, j :: 0 <= i < j < n ==> log[i] != log[j])
  }

  lemma NotHeldYet(db: Db, log: seq<Blob>, n: nat)
    requires Ready(db, log, n) && |db.entries| < n
    ensures !HasId(db.entries, IdOf(log[|db.entries|]))
  {
    forall i | i in db.entries
      ensures db.entries[i].id != IdOf(log[|db.entries|])
    {
      assert LogOf(db)[i] == log[i];
    }
  }

  /** The next request proves itself. */
  lemma NextIsProven(staged: map<EntryId, Blob>, log: seq<Blob>, n: nat, i: nat)
    requires i < n <= |log| && IdOf(log[i]) in staged && staged[IdOf(log[i])] == log[i]
    ensures var p := PendingFor(log, n, i);
      ProvenBytes(staged, p.entryId, p.leafIndex, p.path, n, TreeRoot(Leaves(log), n)) == Ok(log[i])
  {
    var d := Leaves(log);
    PathTextParses(Inclusion.Path(d, 0, n, i));
    Inclusion.InclusionExact(d, n, i, Inclusion.Path(d, 0, n, i), LogLeafHash(log[i]));
  }

  lemma NextGoesThrough(db: Db, log: seq<Blob>, n: nat, cp: Checkpoint)
    requires Ready(db, log, n) && |db.entries| < n && cp.treeSize == n && Runs.Commits(log, cp)
    ensures var r := PromoteIn(db, cp, PendingFor(log, n, |db.entries|));
      r.Ok? && PromotesTo(db, cp, PendingFor(log, n, |db.entries|), r.value.db) && ContentAddressed(r.value.db)
  {
    var k := |db.entries|;
    var p := PendingFor(log, n, k);
    NextIsProven(db.staged, log, n, k);
    NotHeldYet(db, log, n);
    PromoteIntoValidTree(db, k, p.entryId);
    PromoteInKeeps(db, cp, p);
    PromoteInCases(db, cp, p);
  }

  lemma PrefixGrows(log: seq<Blob>, k: nat)
    requires k < |log|
    ensures log[..k] + [log[k]] == log[..k + 1]
  {
  }

  /** One more entry is promoted, and the mirror is ready for the one after. */
  lemma ReadyAgain(db: Db, log: seq<Blob>, n: nat, cp: Checkpoint, after: Db)
    requires Ready(db, log, n) && |db.entries| < n
    requires PromotesTo(db, cp, PendingFor(log, n, |db.entries|), after) && ContentAddressed(after)
    ensures Ready(after, log, n) && |after.entries| == |db.entries| + 1
  {
    hide SubtreeCache.CacheExact, LeafColumn, StagedContent, EntryContent;
    PrefixGrows(log, |db.entries|);
    assert |LogOf(after)| == |db.entries| + 1;
  }

  lemma RangeStep(log: seq<Blob>, n: nat, from: nat, upTo: nat)
    requires from < upTo <= n <= |log|
    ensures PendingRange(log, n, from, upTo) == PendingRange(log, n, from, upTo - 1) + [PendingFor(log, n, upTo - 1)]
  {
  }

  lemma PromoteOneMore(db: Db, cp: Checkpoint, pending: seq<Pending>, p: Pending, before: Db)
    requires PromoteAll(db, cp, pending) == Ok(before) && PromoteIn(before, cp, p).Ok?
    ensures PromoteAll(db, cp, pending + [p]) == Ok(PromoteIn(before, cp, p).value.db)
  {
    assert (pending + [p])[..|pending|] == pending;
  }

  /** The mirror has reached `upTo` entries, with nothing else changed. */
  ghost predicate At(db: Db, log: seq<Blob>, n: nat, upTo: nat, r: MirrorResult<Db>) {
    && r.Ok? && Ready(r.value, log, n) && |r.value.entries| == upTo && OnlyGrew(db, r.value)
  }

  /** Promoting the missing entries in order succeeds, one at a time. */
  ghost predicate Reaches(db: Db, log: seq<Blob>, n: nat, cp: Checkpoint, upTo: nat)
    requires |db.entries| <= upTo <= n <= |log|
  {
    At(db, log, n, upTo, PromoteAll(db, cp, PendingRange(log, n, |db.entries|, upTo)))
  }

  lemma AtNext(db: Db, log: seq<Blob>, n: nat, cp: Checkpoint, upTo: nat, before: Db, after: Db)
    requires 0 < upTo <= n && n <= |log| && At(db, log, n, upTo - 1, Ok(before))
    requires PromotesTo(before, cp, PendingFor(log, n, upTo - 1), after) && ContentAddressed(after)
    ensures At(db, log, n, upTo, Ok(after))
  {
    ReadyAgain(before, log, n, cp, after);
  }

  lemma ReachNext(db: Db, log: seq<Blob>, n: nat, cp: Checkpoint, upTo: nat, pending: seq<Pending>)
    requires cp.treeSize == n && Runs.Commits(log, cp) && 0 < upTo <= n <= |log|
    requires At(db, log, n, upTo - 1, PromoteAll(db, cp, pending))
    ensures At(db, log, n, upTo, PromoteAll(db, cp, pending + [PendingFor(log, n, upTo - 1)]))
  {
    var before := PromoteAll(db, cp, pending).value;
    var p := PendingFor(log, n, upTo - 1);
    NextGoesThrough(before, log, n, cp);
    PromoteOneMore(db, cp, pending, p, before);
    AtNext(db, log, n, cp, upTo, before, PromoteIn(before, cp, p).value.db);
  }

  lemma {:induction false} AllArePromoted(db: Db, log: seq<Blob>, n: nat, cp: Checkpoint, upTo: nat)
    requires Ready(db, log, n) && cp.treeSize == n && Runs.Commits(log, cp) && |db.entries| <= upTo <= n
    ensures Reaches(db, log, n, cp, upTo)
    decreases upTo
  {
    if upTo <= |db.entries| {
    } else {
      AllArePromoted(db, log, n, cp, upTo - 1);
      RangeStep(log, n, |db.entries|, upTo);
      ReachNext(db, log, n, cp, upTo, PendingRange(log, n, |db.entries|, upTo - 1));
    }
  }

  /** Every claim proves itself, so the visible prefix is the log up to `n`. */
  lemma PrefixIsLog(db: Db, log: seq<Blob>, n: nat, cp: Checkpoint)
    requires Ready(db, log, n) && cp.treeSize == n && Runs.Commits(log, cp)
    ensures VisiblePrefix(db, PendingRange(log, n, |db.entries|, n), n, cp.rootHash.hash) == Ok(log[..n])
  {
    hide SubtreeCache.CacheExact, LeafColumn, ClaimsProven;
    var pending, root := PendingRange(log, n, |db.entries|, n), cp.rootHash.hash;
    AllArePromoted(db, log, n, cp, n);
    PromoteAllFills(db, cp, pending);
    var promoted := PromoteAll(db, cp, pending).value;
    ClaimsAreProven(db, log, n, |db.entries|, |EntriesRange(db.entries, 0, n)|);
    RefusedForBadClaims(db, pending, |EntriesRange(db.entries, 0, n)|, n, root);
    VisiblePrefixIsDense(db, pending, n, root);
    CutIsLongestRun(db, pending, LogOf(promoted), n);
    LongestRunUnique(db, pending, n, Cut(LogOf(promoted), n), VisiblePrefix(db, pending, n, root).value);
    assert Cut(LogOf(promoted), n) == log[..n];
  }

  lemma ClaimIsProven(db: Db, log: seq<Blob>, n: nat, from: nat, i: nat)
    requires from <= n <= |log| && MissingStaged(db.staged, log, from, n)
    ensures ClaimProven(db, PendingRange(log, n, from, n), TreeRoot(Leaves(log), n), n, i)
  {
    var pending := PendingRange(log, n, from, n);
    FirstClaimIsOne(pending, i);
    var claim := FirstClaim(pending, i);
    if claim.Some? {
      var k :| 0 <= k < |pending| && pending[k] == claim.value;
      NextIsProven(db.staged, log, n, from + k);
    }
  }

  lemma ClaimsAreProven(db: Db, log: seq<Blob>, n: nat, from: nat, canonical: nat)
    requires from <= n <= |log| && MissingStaged(db.staged, log, from, n)
    ensures ClaimsProven(db, PendingRange(log, n, from, n), canonical, n, TreeRoot(Leaves(log), n))
  {
    forall i: nat | canonical <= i < n
      ensures ClaimProven(db, PendingRange(log, n, from, n), TreeRoot(Leaves(log), n), n, i)
    {
      ClaimIsProven(db, log, n, from, i);
    }
  }

  /** No record with the checkpoint's size and time contradicts it. */
  ghost predicate Uncontested(db: Db, cp: Checkpoint) {
    && (forall x :: x in db.checkpoints && SameKey(x, cp) ==> x == cp)
    && (forall a :: a in db.anchors && SameKey(a.checkpoint, cp) ==> a.checkpoint == cp)
  }

  lemma {:induction false} AnchorsForAreHeld(rows: seq<Anchor>, m: nat)
    ensures forall x :: x in AnchorsFor(rows, m) ==> exists a :: a in rows && a.checkpoint == x
    decreases |rows|
  {
    if rows == [] {
    } else {
      AnchorsForAreHeld(rows[..|rows| - 1], m);
      assert rows == rows[..|rows| - 1] + [rows[|rows| - 1]];
    }
  }

  lemma AnchorIsInserted(db: Db, m: nat, cp: Checkpoint)
    requires m <= MAX_I64 && cp.treeSize <= MAX_I64 && Uncontested(db, cp)
    ensures var r := InsertAnchor(db, m, cp);
      r.Ok? && Uncontested(r.value.db, cp)
  {
    RotationAnchors.FindExact(AnchorsFor(db.anchors, m), cp);
    AnchorsForAreHeld(db.anchors, m);
  }

  predicate AllAddressable(ms: seq<nat>) {
    forall i :: 0 <= i < |ms| ==> ms[i] <= MAX_I64
  }

  lemma {:induction false} AnchorsAreInserted(db: Db, ms: seq<nat>, cp: Checkpoint)
    requires cp.treeSize <= MAX_I64 && Uncontested(db, cp) && AllAddressable(ms)
    ensures var r := InsertAnchors(db, ms, cp);
      r.Ok? && Uncontested(r.value, cp)
    decreases |ms|
  {
    if ms == [] {
    } else {
      AnchorsAreInserted(db, ms[..|ms| - 1], cp);
      AnchorIsInserted(InsertAnchors(db, ms[..|ms| - 1], cp).value, ms[|ms| - 1], cp);
    }
  }

  lemma AdmissionIsRecorded(db: Db, cp: Checkpoint, admission: AdmissionOf)
    requires cp.treeSize <= MAX_I64 && Uncontested(db, cp) && AllAddressable(admission.rotationAnchors)
    ensures RecordAdmission(db, cp, admission).Ok?
  {
    RotationAnchors.FindExact(db.checkpoints, cp);
    var listed := if admission.seriesMember then InsertCheckpoint(db, cp) else Ok(Written(db, AlreadyPresent));
    AnchorsAreInserted(listed.value.db, admission.rotationAnchors, cp);
  }

  lemma RootIsRight(db: Db, log: seq<Blob>, cp: Checkpoint)
    requires Ready(db, log, cp.treeSize) && |db.entries| == cp.treeSize && Runs.Commits(log, cp)
    ensures CheckRoot(db, cp, cp.rootHash.hash) == Ok(())
  {
    var n := cp.treeSize;
    HoldsPrefixExact(db, n);
    LogRootExact(db, n);
    LeavesOfPrefix(LogOf(db), log);
    if n > 0 {
      RootOfPrefix(LeavesOf(db), Leaves(log), 0, n);
    }
  }

  /** An ingest whose parts all go through goes through. */
  lemma IngestGoesThrough(db: Db, config: Governance.Config, s: Submission, prefix: seq<Blob>, promoted: Db)
    requires s.cp.treeSize <= MAX_I64 && s.cp.rootHash.Hex?
    requires VisiblePrefix(db, s.pending, s.cp.treeSize, s.cp.rootHash.hash) == Ok(prefix)
    requires Judge(prefix, config, ClaimOf(s.cp, s.raw), s.rotationFor).Ok?
    requires PromoteAll(db, s.cp, s.pending) == Ok(promoted) && CheckRoot(promoted, s.cp, s.cp.rootHash.hash) == Ok(())
    requires RecordAdmission(promoted, s.cp, Judge(prefix, config, ClaimOf(s.cp, s.raw), s.rotationFor).value).Ok?
    ensures var r := Ingest(db, config, s);
      r.Ok? && RecordAdmission(promoted, s.cp, r.value.admission) == Ok(r.value.db)
  {
  }

  lemma JudgedIsRecorded(db: Db, prefix: seq<Blob>, config: Governance.Config, cp: Checkpoint, raw: Option<Raw>, named: Option<nat>)
    requires Judge(prefix, config, ClaimOf(cp, raw), named).Ok? && cp.treeSize <= MAX_I64 && Uncontested(db, cp)
    ensures RecordAdmission(db, cp, Judge(prefix, config, ClaimOf(cp, raw), named).value).Ok?
  {
    JudgedAnchorsAreBelow(prefix, config, ClaimOf(cp, raw), named);
    AdmissionIsRecorded(db, cp, Judge(prefix, config, ClaimOf(cp, raw), named).value);
  }

  /** A checkpoint of the log that verifies under the log's own governance, submitted with the entries
    * this mirror lacks, is admitted, and the mirror then holds exactly the entries it commits.
    */
  lemma CatchesUp(db: Db, config: Governance.Config, log: seq<Blob>, cp: Checkpoint, raw: Option<Raw>, named: Option<nat>)
    requires Ready(db, log, cp.treeSize) && Runs.Commits(log, cp) && Uncontested(db, cp)
    requires Judge(log[..cp.treeSize], config, ClaimOf(cp, raw), named).Ok?
    ensures var s := Submission(cp, raw, PendingRange(log, cp.treeSize, |db.entries|, cp.treeSize), named);
      var r := Ingest(db, config, s);
      r.Ok? && ValidTree(r.value.db) && LogOf(r.value.db) == log[..cp.treeSize]
  {
    var n := cp.treeSize;
    var s := Submission(cp, raw, PendingRange(log, n, |db.entries|, n), named);
    PrefixIsLog(db, log, n, cp);
    AllArePromoted(db, log, n, cp, n);
    var promoted := PromoteAll(db, cp, s.pending).value;
    RootIsRight(promoted, log, cp);
    JudgedIsRecorded(promoted, log[..n], config, cp, raw, named);
    IngestGoesThrough(db, config, s, log[..n], promoted);
    RecordOnlyAppends(promoted, cp, Ingest(db, config, s).value.admission);
  }

  lemma JudgedAnchorsAreBelow(prefix: seq<Blob>, config: Governance.Config, c: Claim, named: Option<nat>)
    requires Judge(prefix, config, c, named).Ok?
    ensures var ms := Judge(prefix, config, c, named).value.rotationAnchors;
      forall i :: 0 <= i < |ms| ==> ms[i] < c.cp.treeSize
  {
    Runs.AnchoredIsBelow(RotationsIn(Governance.Versions(prefix, config).value), config, c);
    var ms := Judge(prefix, config, c, named).value.rotationAnchors;
    forall i | 0 <= i < |ms|
      ensures ms[i] < c.cp.treeSize
    {
      assert ms[i] in ms;
    }
  }
}
