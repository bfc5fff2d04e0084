/** What staged and canonical rows contain, over every run. */
module Content {
  import opened Wrappers
  import opened Encoding
  import opened Tables
  import opened StoreSpec
  import opened Admission
  import opened Runs
  import Commitment
  import Governance

  /** Staged bytes are canonical JSON under the id of exactly those bytes. */
  ghost predicate StagedContent(staged: map<EntryId, Blob>) {
    forall id :: id in staged ==> id == IdOf(staged[id]) && staged[id].Jcs?
  }

  /** So are canonical rows, and no entry is held twice. */
  ghost predicate EntryContent(entries: Entries) {
    && (forall i :: i in entries ==> entries[i].id == IdOf(entries[i].bytes) && entries[i].bytes.Jcs?)
    && (forall i, j :: i in entries && j in entries && i != j ==> entries[i].bytes != entries[j].bytes)
  }

  ghost predicate ContentAddressed(db: Db) {
    StagedContent(db.staged) && EntryContent(db.entries)
  }

  /** The checks pass exactly for the canonical bytes of a signed envelope, under their own id, with
    * the fixed metadata.
    */
  lemma FormatExact(claimed: EntryId, bytes: Blob, metadata: Json)
    ensures CheckFormat(claimed, bytes, metadata).Ok? <==>
      && claimed == IdOf(bytes) && metadata == ADAPTOR_METADATA
      && bytes.Jcs? && bytes.value.JObject? && bytes.value.payload.Present?
      && bytes.value.signatures.Present? && |bytes.value.signatures.value| > 0
  {
  }

  lemma StagingKeeps(db: Db, claimed: EntryId, bytes: Blob, metadata: Json)
    requires ContentAddressed(db)
    ensures ContentAddressed(Keep(StageEntry(db, claimed, bytes, metadata), db))
  {
    FormatExact(claimed, bytes, metadata);
  }

  /** Over content-addressed rows staging never conflicts: it succeeds exactly when the checks pass, the
    * bytes are then held under their id, and nothing else moves.
    */
  lemma StagingExact(db: Db, claimed: EntryId, bytes: Blob, metadata: Json)
    requires ContentAddressed(db)
    ensures var r := StageEntry(db, claimed, bytes, metadata);
      && (r.Ok? <==> CheckFormat(claimed, bytes, metadata).Ok?)
      && (r.Ok? ==> r.value.db == db.(staged := db.staged[claimed := bytes])
                    && (r.value.outcome == AlreadyPresent <==> claimed in db.staged))
  {
    FormatExact(claimed, bytes, metadata);
    if claimed in db.staged && claimed == IdOf(bytes) {
      assert IdOf(db.staged[claimed]) == claimed;
      assert db.staged[claimed := bytes] == db.staged;
    }
  }

  lemma RowKeeps(db: Db, index: nat, id: EntryId)
    requires ContentAddressed(db) && id in db.staged && !HasId(db.entries, id) && index !in db.entries
    ensures EntryContent(db.entries[index := RowFor(id, db.staged[id])])
  {
  }

  lemma PromoteKeeps(db: Db, index: nat, id: EntryId)
    requires ContentAddressed(db) && Promote(db, index, id).Ok?
    ensures ContentAddressed(Promote(db, index, id).value.db)
    ensures Promote(db, index, id).value.db.staged == db.staged
  {
    if index !in db.entries {
      RowKeeps(db, index, id);
    }
  }

  lemma PromoteInKeeps(db: Db, cp: Checkpoint, p: Pending)
    requires ContentAddressed(db) && PromoteIn(db, cp, p).Ok?
    ensures ContentAddressed(PromoteIn(db, cp, p).value.db)
  {
    Commitment.PromoteInGate(db, cp, p);
    PromoteKeeps(db, p.leafIndex, p.entryId);
  }

  lemma {:induction false} PromoteAllKeeps(db: Db, cp: Checkpoint, pending: seq<Pending>)
    requires ContentAddressed(db) && PromoteAll(db, cp, pending).Ok?
    ensures ContentAddressed(PromoteAll(db, cp, pending).value)
    decreases |pending|
  {
    if pending == [] {
    } else {
      PromoteAllKeeps(db, cp, pending[..|pending| - 1]);
      PromoteInKeeps(PromoteAll(db, cp, pending[..|pending| - 1]).value, cp, pending[|pending| - 1]);
    }
  }

  lemma IngestKeeps(db: Db, config: Governance.Config, s: Submission)
    requires ContentAddressed(db) && Ingest(db, config, s).Ok?
    ensures ContentAddressed(Ingest(db, config, s).value.db)
  {
    Commitment.IngestParts(db, config, s);
    PromoteAllKeeps(db, s.cp, s.pending);
    Commitment.RecordOnlyAppends(PromoteAll(db, s.cp, s.pending).value, s.cp, Ingest(db, config, s).value.admission);
  }

  lemma StepKeepsContent(db: Db, config: Governance.Config, step: Step)
    requires ContentAddressed(db)
    ensures ContentAddressed(After(db, config, step))
  {
    match step
    case Staging(claimed, bytes, metadata) => StagingKeeps(db, claimed, bytes, metadata);
    case Promoting(treeSize, p) =>
      if PromoteUnderStored(db, treeSize, p).Ok? {
        PromoteInKeeps(db, LatestAt(db.checkpoints, treeSize).value, p);
      }
    case Ingesting(s) =>
      if Ingest(db, config, s).Ok? {
        IngestKeeps(db, config, s);
      }
  }

  /** After any run every stored entry is the canonical form of what it says, held once, under the id
    * of exactly its bytes.
    */
  lemma {:induction false} RunIsContentAddressed(config: Governance.Config, steps: seq<Step>)
    ensures ContentAddressed(Run(config, steps))
    decreases |steps|
  {
    if steps == [] {
    } else {
      RunIsContentAddressed(config, steps[..|steps| - 1]);
      StepKeepsContent(Run(config, steps[..|steps| - 1]), config, steps[|steps| - 1]);
    }
  }

  /** The id governance computes for an envelope is the id its entry is stored under, so what a version
    * names as its predecessor is the stored id of an entry.
    */
  lemma VersionNamesItsEntry(db: Db, i: nat, envelope: Json)
    requires ContentAddressed(db) && i in db.entries && ParseJson(db.entries[i].bytes) == Some(envelope)
    ensures Governance.PayloadOf(db.entries[i].bytes).Some? ==> EnvelopeId(envelope) == db.entries[i].id
  {
  }
}
