/** What recording a checkpoint does to the two tables, over one operation and over a run. */
module Publication {
  import opened Wrappers
  import opened Bits
  import opened Encoding
  import opened Merkle
  import opened TextOrder
  import opened Tables
  import opened StoreSpec
  import opened Admission
  import opened Commitment
  import opened RotationAnchors
  import opened Runs
  import opened Usability
  import Governance
  import Series

  /** No two rows share a size and time. */
  ghost predicate OnePerKey(rows: seq<Checkpoint>) {
    forall i, j :: 0 <= i < j < |rows| ==> !SameKey(rows[i], rows[j])
  }

  /** A different checkpoint is held at the same size and time. */
  ghost predicate Contested(rows: seq<Checkpoint>, cp: Checkpoint) {
    exists x :: x in rows && SameKey(x, cp) && x != cp
  }

  lemma FindContested(rows: seq<Checkpoint>, cp: Checkpoint)
    requires OnePerKey(rows)
    ensures var found := FindCheckpoint(rows, cp.treeSize, cp.checkpointTime);
      && (found == Some(cp) <==> cp in rows)
      && (found.Some? && found.value != cp <==> Contested(rows, cp))
  {
    FindExact(rows, cp);
    var found := FindCheckpoint(rows, cp.treeSize, cp.checkpointTime);
    if found.Some? {
      forall x | x in rows && SameKey(x, cp)
        ensures x == found.value
      {
        var i :| 0 <= i < |rows| && rows[i] == x;
        var j :| 0 <= j < |rows| && rows[j] == found.value;
      }
    }
  }

  /** Publication is append-only: a record is refused exactly when its size and time carry a different
    * one, is accepted again as it stands, and otherwise joins the table without touching another row.
    */
  lemma InsertCheckpointExact(db: Db, cp: Checkpoint)
    requires OnePerKey(db.checkpoints) && cp.treeSize <= MAX_I64
    ensures var r := InsertCheckpoint(db, cp);
      && (r.Err? <==> Contested(db.checkpoints, cp))
      && (r.Ok? ==> cp in r.value.db.checkpoints && OnePerKey(r.value.db.checkpoints))
      && (r.Ok? ==> MayAppend(db.checkpoints, r.value.db.checkpoints, cp))
      && (r.Ok? ==> (r.value.outcome == AlreadyPresent <==> cp in db.checkpoints))
  {
    FindExact(db.checkpoints, cp);
    FindContested(db.checkpoints, cp);
  }

  lemma RecordKeepsOnePerKey(db: Db, cp: Checkpoint, admission: AdmissionOf)
    requires OnePerKey(db.checkpoints) && cp.treeSize <= MAX_I64 && RecordAdmission(db, cp, admission).Ok?
    ensures OnePerKey(RecordAdmission(db, cp, admission).value.checkpoints)
    ensures admission.seriesMember ==> cp in RecordAdmission(db, cp, admission).value.checkpoints
  {
    InsertCheckpointExact(db, cp);
    var listed := if admission.seriesMember then InsertCheckpoint(db, cp) else Ok(Written(db, AlreadyPresent));
    AnchorsOnlyAppend(listed.value.db, admission.rotationAnchors, cp);
  }

  /** What was admitted as a series member is listed. */
  lemma AdmittedIsListed(db: Db, config: Governance.Config, s: Submission)
    requires ValidTree(db) && OnePerKey(db.checkpoints) && Ingest(db, config, s).Ok?
    ensures OnePerKey(Ingest(db, config, s).value.db.checkpoints)
    ensures Ingest(db, config, s).value.admission.seriesMember ==> s.cp in Ingest(db, config, s).value.db.checkpoints
  {
    hide ValidTree, Judge, VisiblePrefix;
    IngestParts(db, config, s);
    PromoteAllFills(db, s.cp, s.pending);
    var promoted := PromoteAll(db, s.cp, s.pending).value;
    assert OnlyGrew(db, promoted);
    RecordKeepsOnePerKey(promoted, s.cp, Ingest(db, config, s).value.admission);
  }

  lemma AnchorServed(db: Db, m: nat, cp: Checkpoint)
    requires InsertAnchor(db, m, cp).Ok?
    ensures var served := ServedAnchor(InsertAnchor(db, m, cp).value.db, m);
      served.Some? && KeyLe(served.value, cp)
  {
    InsertAnchorInserts(db, Offer(m, cp), m);
    EarliestAppend(AnchorsFor(db.anchors, m), cp);
  }

  lemma AnchorStaysServed(db: Db, m: nat, n: nat, cp: Checkpoint)
    requires InsertAnchor(db, m, cp).Ok? && ServedAnchor(db, n).Some? && KeyLe(ServedAnchor(db, n).value, cp)
    ensures var served := ServedAnchor(InsertAnchor(db, m, cp).value.db, n);
      served.Some? && KeyLe(served.value, cp)
  {
    InsertAnchorInserts(db, Offer(m, cp), n);
    EarliestAppend(AnchorsFor(db.anchors, n), cp);
  }

  lemma {:induction false} AnchorsServed(db: Db, ms: seq<nat>, cp: Checkpoint, k: nat)
    requires InsertAnchors(db, ms, cp).Ok? && k < |ms|
    ensures var served := ServedAnchor(InsertAnchors(db, ms, cp).value, ms[k]);
      served.Some? && KeyLe(served.value, cp)
    decreases |ms|
  {
    hide InsertAnchor, ServedAnchor;
    var init, last := ms[..|ms| - 1], ms[|ms| - 1];
    var before := InsertAnchors(db, init, cp).value;
    AnchorServed(before, last, cp);
    if k >= |init| {
    } else {
      AnchorsServed(db, init, cp, k);
      AnchorStaysServed(before, last, ms[k], cp);
    }
  }

  /** Every rotation a checkpoint was admitted for is served by an anchor no later than it. */
  lemma AdmittedAnchors(db: Db, config: Governance.Config, s: Submission, k: nat)
    requires Ingest(db, config, s).Ok? && k < |Ingest(db, config, s).value.admission.rotationAnchors|
    ensures var r := Ingest(db, config, s).value;
      var served := ServedAnchor(r.db, r.admission.rotationAnchors[k]);
      served.Some? && KeyLe(served.value, s.cp)
  {
    hide Judge, VisiblePrefix, PromoteAll, ServedAnchor, InsertCheckpoint;
    IngestParts(db, config, s);
    var promoted := PromoteAll(db, s.cp, s.pending).value;
    var admission := Ingest(db, config, s).value.admission;
    var listed := if admission.seriesMember then InsertCheckpoint(promoted, s.cp) else Ok(Written(promoted, AlreadyPresent));
    AnchorsServed(listed.value.db, admission.rotationAnchors, s.cp, k);
  }

  /** A checkpoint whose root disagrees with a prefix this store then holds is never recorded. */
  lemma AdmittedAgreesWithHeld(db: Db, config: Governance.Config, s: Submission)
    requires ValidTree(db) && Ingest(db, config, s).Ok?
    requires s.cp.treeSize <= |Ingest(db, config, s).value.db.entries|
    ensures ValidTree(Ingest(db, config, s).value.db)
    ensures Established(LeavesOf(Ingest(db, config, s).value.db), s.cp)
  {
    hide Judge, VisiblePrefix, Ingest;
    IngestParts(db, config, s);
    PromoteAllFills(db, s.cp, s.pending);
    var promoted := PromoteAll(db, s.cp, s.pending).value;
    RecordOnlyAppends(promoted, s.cp, Ingest(db, config, s).value.admission);
    CheckedRootAgrees(promoted, s.cp);
  }

  lemma CheckedRootAgrees(db: Db, cp: Checkpoint)
    requires ValidTree(db) && cp.rootHash.Hex? && cp.treeSize <= |db.entries| && cp.treeSize <= MAX_I64
    requires CheckRoot(db, cp, cp.rootHash.hash).Ok?
    ensures Established(LeavesOf(db), cp)
  {
    HoldsPrefixExact(db, cp.treeSize);
    LogRootExact(db, cp.treeSize);
  }

  // ---- over a run ----

  /** After any run at most one checkpoint is listed for each size and time. */
  lemma {:induction false} RunIsOnePerKey(config: Governance.Config, steps: seq<Step>)
    ensures OnePerKey(Run(config, steps).checkpoints)
    decreases |steps|
  {
    hide ValidTree;
    if steps == [] {
    } else {
      var before, step := Run(config, steps[..|steps| - 1]), steps[|steps| - 1];
      RunIsOnePerKey(config, steps[..|steps| - 1]);
      RunIsValid(config, steps[..|steps| - 1]);
      StepKeepsOnePerKey(before, config, step);
    }
  }

  lemma StepKeepsOnePerKey(db: Db, config: Governance.Config, step: Step)
    requires ValidTree(db) && OnePerKey(db.checkpoints)
    ensures OnePerKey(After(db, config, step).checkpoints)
  {
    hide ValidTree, OnePerKey;
    match step
    case Staging(_, _, _) =>
    case Promoting(treeSize, p) =>
      var r := PromoteUnderStored(db, treeSize, p);
      if r.Ok? {
        PromoteInCases(db, LatestAt(db.checkpoints, treeSize).value, p);
      }
    case Ingesting(s) =>
      if Ingest(db, config, s).Ok? {
        AdmittedIsListed(db, config, s);
      }
  }

  // ---- anchors over a run ----

  /** Step `i` of a run admitted its checkpoint as an anchor for the rotation at `m`. */
  ghost predicate AnchoredBy(config: Governance.Config, steps: seq<Step>, i: nat, m: nat) {
    AdmittedBy(config, steps, i) && m in Ingest(Run(config, steps[..i]), config, steps[i].s).value.admission.rotationAnchors
  }

  lemma {:induction false} AnchorsForExact(rows: seq<Anchor>, m: nat, cp: Checkpoint)
    ensures cp in AnchorsFor(rows, m) <==> Anchor(m, cp) in rows
    decreases |rows|
  {
    if rows == [] {
    } else {
      AnchorsForExact(rows[..|rows| - 1], m, cp);
      assert rows == rows[..|rows| - 1] + [rows[|rows| - 1]];
    }
  }

  /** The served anchor is held, and no anchor held for its rotation is earlier. */
  lemma ServedAmongHeld(db: Db, m: nat)
    ensures var served := ServedAnchor(db, m);
      && (served.Some? ==> Anchor(m, served.value) in db.anchors)
      && (forall cp :: Anchor(m, cp) in db.anchors ==> served.Some? && KeyLe(served.value, cp))
  {
    hide KeyLe;
    EarliestExact(AnchorsFor(db.anchors, m));
    forall cp
      ensures cp in AnchorsFor(db.anchors, m) <==> Anchor(m, cp) in db.anchors
    {
      AnchorsForExact(db.anchors, m, cp);
    }
  }

  /** No step makes what is served for a rotation later, or takes it away. */
  lemma ServedNeverLater(config: Governance.Config, steps: seq<Step>, m: nat)
    requires steps != []
    ensures var was, now := ServedAnchor(Run(config, steps[..|steps| - 1]), m), ServedAnchor(Run(config, steps), m);
      was.Some? ==> now.Some? && KeyLe(now.value, was.value)
  {
    hide KeyLe, ValidTree, AppendsProven, After, NewlyAdmitted, NewlyAnchored, ServedAnchor;
    var before := Run(config, steps[..|steps| - 1]);
    RunIsValid(config, steps[..|steps| - 1]);
    StepExact(before, config, steps[|steps| - 1]);
    ServedAmongHeld(before, m);
    ServedAmongHeld(Run(config, steps), m);
  }

  /** What was served once bounds what is served from then on. */
  ghost predicate ServedBy(db: Db, m: nat, cp: Checkpoint) {
    ServedAnchor(db, m).Some? && KeyLe(ServedAnchor(db, m).value, cp)
  }

  lemma {:induction false} ServedStays(config: Governance.Config, steps: seq<Step>, n: nat, m: nat, cp: Checkpoint)
    requires n <= |steps| && ServedBy(Run(config, steps[..n]), m, cp)
    ensures ServedBy(Run(config, steps), m, cp)
    decreases |steps|
  {
    hide KeyLe, Run, ServedAnchor;
    if n == |steps| {
      assert steps[..n] == steps;
    } else {
      var init := steps[..|steps| - 1];
      assert init[..n] == steps[..n];
      ServedStays(config, init, n, m, cp);
      ServedNeverLater(config, steps, m);
      KeyLeTransitive(ServedAnchor(Run(config, steps), m).value, ServedAnchor(Run(config, init), m).value, cp);
    }
  }

  lemma AnchoredIsServed(config: Governance.Config, steps: seq<Step>, i: nat, m: nat)
    requires AnchoredBy(config, steps, i, m)
    ensures ServedBy(Run(config, steps), m, steps[i].s.cp)
  {
    hide Ingest, KeyLe, ServedAnchor;
    var before, s := Run(config, steps[..i]), steps[i].s;
    var ms := Ingest(before, config, s).value.admission.rotationAnchors;
    var k :| 0 <= k < |ms| && ms[k] == m;
    AdmittedAnchors(before, config, s, k);
    var next := steps[..i + 1];
    assert next[..|next| - 1] == steps[..i] && next[|next| - 1] == steps[i];
    ServedStays(config, steps, i + 1, m, s.cp);
  }

  /** An anchor held after a run was admitted by one of its steps. */
  ghost predicate HeldWasAnchored(config: Governance.Config, steps: seq<Step>, a: Anchor) {
    exists i: nat :: AnchoredBy(config, steps, i, a.manifestEntryIndex) && steps[i].s.cp == a.checkpoint
  }

  lemma HeldStaysAnchored(config: Governance.Config, steps: seq<Step>, a: Anchor)
    requires steps != []
    requires HeldWasAnchored(config, steps[..|steps| - 1], a)
          || NewlyAnchored(Run(config, steps[..|steps| - 1]), config, steps[|steps| - 1], a)
    ensures HeldWasAnchored(config, steps, a)
  {
    hide Ingest, Run;
    var n := |steps| - 1;
    if HeldWasAnchored(config, steps[..n], a) {
      var i: nat :| AnchoredBy(config, steps[..n], i, a.manifestEntryIndex) && steps[..n][i].s.cp == a.checkpoint;
      AdmittedEarlier(config, steps, n, i);
      assert steps[..n][..i] == steps[..i];
      assert AnchoredBy(config, steps, i, a.manifestEntryIndex) && steps[i].s.cp == a.checkpoint;
    } else {
      assert AnchoredBy(config, steps, n, a.manifestEntryIndex) && steps[n].s.cp == a.checkpoint;
    }
  }

  lemma {:induction false} AnchorsWereAdmitted(config: Governance.Config, steps: seq<Step>)
    ensures forall a :: a in Run(config, steps).anchors ==> HeldWasAnchored(config, steps, a)
    decreases |steps|
  {
    hide After, HeldWasAnchored, NewlyAnchored, AppendsProven, ValidTree;
    if steps == [] {
    } else {
      var before, step := Run(config, steps[..|steps| - 1]), steps[|steps| - 1];
      AnchorsWereAdmitted(config, steps[..|steps| - 1]);
      RunIsValid(config, steps[..|steps| - 1]);
      StepExact(before, config, step);
      forall a | a in Run(config, steps).anchors
        ensures HeldWasAnchored(config, steps, a)
      {
        HeldStaysAnchored(config, steps, a);
      }
    }
  }

  /** At the end of any run the anchor served for a rotation was admitted for it by some step, and is no
    * later than any checkpoint any step admitted for it; where none was, none is served.
    */
  lemma RunServesEarliest(config: Governance.Config, steps: seq<Step>, m: nat)
    ensures var served := ServedAnchor(Run(config, steps), m);
      && (served.Some? ==> HeldWasAnchored(config, steps, Anchor(m, served.value)))
      && (forall i: nat :: AnchoredBy(config, steps, i, m) ==> ServedBy(Run(config, steps), m, steps[i].s.cp))
  {
    hide Ingest, HeldWasAnchored, ServedBy, KeyLe;
    AnchorsWereAdmitted(config, steps);
    ServedAmongHeld(Run(config, steps), m);
    forall i: nat | AnchoredBy(config, steps, i, m)
      ensures ServedBy(Run(config, steps), m, steps[i].s.cp)
    {
      AnchoredIsServed(config, steps, i, m);
    }
  }

  /** `get_checkpoint` answers with the latest member of a size, when there is one. */
  lemma {:induction false} LatestAtExact(rows: seq<Checkpoint>, treeSize: nat)
    ensures var r := LatestAt(rows, treeSize);
      && (r.None? ==> forall x :: x in rows ==> x.treeSize != treeSize)
      && (r.Some? ==> r.value in rows && r.value.treeSize == treeSize
                      && forall x :: x in rows && x.treeSize == treeSize ==> KeyLe(x, r.value))
    decreases |rows|
  {
    if rows == [] {
    } else {
      var init, last := rows[..|rows| - 1], rows[|rows| - 1];
      LatestAtExact(init, treeSize);
      assert rows == init + [last];
      KeyLeTotal(last, last);
      var earlier := LatestAt(init, treeSize);
      if earlier.Some? {
        KeyLeTotal(earlier.value, last);
        forall x | x in init && x.treeSize == treeSize && KeyLe(earlier.value, last)
          ensures KeyLe(x, last)
        {
          KeyLeTransitive(x, earlier.value, last);
        }
      }
    }
  }
}
