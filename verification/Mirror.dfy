/** The mirror's operations over its store: staging, proof-gated promotion, ingest in one transaction,
  * and the series view.
  */
module Mirror {
  import opened Wrappers
  import opened Bits
  import opened Encoding
  import opened Tables
  import opened StoreSpec
  import opened Admission
  import opened MirrorStore
  import opened NodeReader
  import Governance
  import GovernanceWalk
  import Series
  import SeriesOrder
  import Consistency

  /** `ingest::stage_entry`. */
  method StageChecked(store: Store, claimed: EntryId, bytes: Blob, metadata: Json) returns (r: MirrorResult<InsertOutcome>)
    modifies store
    ensures CommitsOrRestores(old(store.Snapshot()), StageEntry(old(store.Snapshot()), claimed, bytes, metadata), store.Snapshot(), r)
  {
    var _ :- CheckFormat(claimed, bytes, metadata);
    r := store.StageEntry(claimed, bytes);
  }

  /** `promote_entry_in`, inside a caller's transaction. */
  method PromoteProven(store: Store, cp: Checkpoint, p: Pending) returns (r: MirrorResult<InsertOutcome>)
    modifies store
    ensures Does(PromoteIn(old(store.Snapshot()), cp, p), store.Snapshot(), r)
  {
    if p.entryId !in store.staged {
      return Err(NotStaged(p.entryId));
    }
    var root :- ParseHashHex(cp.rootHash);
    var _ :- ProvenBytes(store.staged, p.entryId, p.leafIndex, p.path, cp.treeSize, root);
    r := store.PromoteEntryRaw(p.leafIndex, p.entryId);
  }

  /** `promote_entry`: a proven promotion as a transaction of its own. */
  method PromoteUnder(store: Store, cp: Checkpoint, p: Pending) returns (r: MirrorResult<InsertOutcome>)
    modifies store
    ensures CommitsOrRestores(old(store.Snapshot()), PromoteIn(old(store.Snapshot()), cp, p), store.Snapshot(), r)
  {
    var before := store.Snapshot();
    r := PromoteProven(store, cp, p);
    if r.Err? {
      store.Restore(before);
    }
  }

  // ---- the visible prefix ----

  lemma OverlayStep(staged: map<EntryId, Blob>, pending: seq<Pending>, i: nat, canonical: nat, target: nat, root: Hash)
    requires i < |pending|
    ensures var before := OverlayOf(staged, pending[..i], canonical, target, root);
      OverlayOf(staged, pending[..i + 1], canonical, target, root) ==
      if before.Err? then before else OverlayNext(staged, before.value, pending[i], canonical, target, root)
  {
    var p := pending[..i + 1];
    assert p[..i] == pending[..i] && p[i] == pending[i];
  }

  lemma {:induction false} OverlayErrorPersists(staged: map<EntryId, Blob>, pending: seq<Pending>, n: nat, canonical: nat, target: nat, root: Hash)
    requires n <= |pending| && OverlayOf(staged, pending[..n], canonical, target, root).Err?
    ensures OverlayOf(staged, pending, canonical, target, root) == OverlayOf(staged, pending[..n], canonical, target, root)
    decreases |pending| - n
  {
    if n == |pending| {
      assert pending[..n] == pending;
    } else {
      OverlayStep(staged, pending, n, canonical, target, root);
      OverlayErrorPersists(staged, pending, n + 1, canonical, target, root);
    }
  }

  /** The overlay loop of `build_visible_prefix`: skip what is irrelevant, canonical or already claimed. */
  method BuildOverlay(store: Store, pending: seq<Pending>, canonical: nat, target: nat, root: Hash) returns (r: MirrorResult<Overlay>)
    ensures r == OverlayOf(store.staged, pending, canonical, target, root)
  {
    var overlay: Overlay := map[];
    var i := 0;
    while i < |pending|
      invariant 0 <= i <= |pending|
      invariant OverlayOf(store.staged, pending[..i], canonical, target, root) == Ok(overlay)
    {
      var p := pending[i];
      OverlayStep(store.staged, pending, i, canonical, target, root);
      if canonical <= p.leafIndex < target && p.leafIndex !in overlay {
        var bytes := ProvenBytes(store.staged, p.entryId, p.leafIndex, p.path, target, root);
        if bytes.Err? {
          OverlayErrorPersists(store.staged, pending, i + 1, canonical, target, root);
          return Err(bytes.error);
        }
        overlay := overlay[p.leafIndex := bytes.value];
      }
      i := i + 1;
    }
    assert pending[..i] == pending;
    r := Ok(overlay);
  }

  /** `build_visible_prefix`. */
  method BuildVisiblePrefix(store: Store, pending: seq<Pending>, target: nat, root: Hash) returns (r: MirrorResult<seq<Blob>>)
    ensures r == VisiblePrefix(store.Snapshot(), pending, target, root)
  {
    if target > MAX_I64 {
      return Err(IndexOverflow);
    }
    var prefix := EntriesRange(store.entries, 0, target);
    ghost var canonical := prefix;
    var overlay :- BuildOverlay(store, pending, |prefix|, target, root);
    while |prefix| < target
      invariant ExtendRun(prefix, overlay, target) == ExtendRun(canonical, overlay, target)
      decreases target - |prefix|
    {
      if |prefix| !in overlay {
        break;
      }
      prefix := prefix + [overlay[|prefix|]];
    }
    r := Ok(prefix);
  }

  // ---- ingest ----

  lemma AnchoredStep(rotations: seq<Rotation>, i: nat, config: Governance.Config, c: Claim)
    requires i < |rotations|
    ensures Anchored(rotations[..i + 1], config, c) ==
      Anchored(rotations[..i], config, c) + (if Qualifies(rotations[i], config, c) then [rotations[i].manifestEntryIndex] else [])
  {
    var p := rotations[..i + 1];
    assert p[..i] == rotations[..i] && p[i] == rotations[i];
  }

  /** `rotation_anchors_for`. */
  method FindRotationAnchors(versions: seq<Governance.State>, config: Governance.Config, c: Claim, named: Option<nat>)
    returns (r: MirrorResult<seq<nat>>)
    ensures r == RotationAnchorsFor(versions, config, c, named)
  {
    var rotations := RotationsIn(versions);
    var anchored: seq<nat> := [];
    var i := 0;
    while i < |rotations|
      invariant 0 <= i <= |rotations|
      invariant anchored == Anchored(rotations[..i], config, c)
    {
      AnchoredStep(rotations, i, config, c);
      if Qualifies(rotations[i], config, c) {
        anchored := anchored + [rotations[i].manifestEntryIndex];
      }
      i := i + 1;
    }
    assert rotations[..i] == rotations;
    if named.Some? && named.value !in anchored {
      return Err(NotRotationMaterial(c.cp.treeSize, named.value));
    }
    r := Ok(anchored);
  }

  /** Steps 1 and 2 of `ingest_checkpoint`: nothing is written before the checkpoint is authenticated. */
  method AuthorizeSubmission(store: Store, config: Governance.Config, s: Submission) returns (r: MirrorResult<AdmissionOf>)
    ensures r == Authorize(store.Snapshot(), config, s)
  {
    hide Authenticate, VisiblePrefix, RotationAnchorsFor;
    if s.cp.treeSize > MAX_I64 {
      return Err(TreeSizeUnrepresentable(s.cp.treeSize));
    }
    var claimed :- ParseHashHex(s.cp.rootHash);
    var prefix :- BuildVisiblePrefix(store, s.pending, s.cp.treeSize, claimed);
    var walked := GovernanceWalk.RunWalk(prefix, config);
    if walked.Err? {
      return Err(walked.error);
    }
    var versions := walked.value.versions;
    if versions == [] {
      return Err(GovernanceChainUnresolvable(|prefix|));
    }
    var c := ClaimOf(s.cp, s.raw);
    var active := Authenticate(versions[|versions| - 1], c, config);
    var anchors :- FindRotationAnchors(versions, config, c, s.rotationFor);
    if active.Err? && anchors == [] {
      return Err(active.error);
    }
    r := Ok(AdmissionOf(active.Ok?, anchors));
  }

  lemma PromoteAllStep(db: Db, cp: Checkpoint, pending: seq<Pending>, i: nat)
    requires i < |pending| && PromoteAll(db, cp, pending[..i]).Ok?
    ensures var one := PromoteIn(PromoteAll(db, cp, pending[..i]).value, cp, pending[i]);
      PromoteAll(db, cp, pending[..i + 1]) == (if one.Ok? then Ok(one.value.db) else Err(one.error))
  {
    var p := pending[..i + 1];
    assert p[..i] == pending[..i] && p[i] == pending[i];
  }

  lemma {:induction false} PromoteAllErrorPersists(db: Db, cp: Checkpoint, pending: seq<Pending>, n: nat)
    requires n <= |pending| && PromoteAll(db, cp, pending[..n]).Err?
    ensures PromoteAll(db, cp, pending) == PromoteAll(db, cp, pending[..n])
    decreases |pending| - n
  {
    if n == |pending| {
      assert pending[..n] == pending;
    } else {
      var p := pending[..n + 1];
      assert p[..n] == pending[..n];
      PromoteAllErrorPersists(db, cp, pending, n + 1);
    }
  }

  /** The promotion loop of the transaction. */
  method PromoteEach(store: Store, cp: Checkpoint, pending: seq<Pending>) returns (r: MirrorResult<()>)
    modifies store
    ensures var spec := PromoteAll(old(store.Snapshot()), cp, pending);
      if spec.Ok? then r == Ok(()) && store.Snapshot() == spec.value else r == Err(spec.error)
  {
    hide PromoteIn;
    ghost var before := store.Snapshot();
    var i := 0;
    while i < |pending|
      invariant 0 <= i <= |pending|
      invariant PromoteAll(before, cp, pending[..i]) == Ok(store.Snapshot())
    {
      PromoteAllStep(before, cp, pending, i);
      var one := PromoteProven(store, cp, pending[i]);
      if one.Err? {
        PromoteAllErrorPersists(before, cp, pending, i + 1);
        return Err(one.error);
      }
      i := i + 1;
    }
    assert pending[..i] == pending;
    r := Ok(());
  }

  lemma InsertAnchorsStep(db: Db, ms: seq<nat>, cp: Checkpoint, i: nat)
    requires i < |ms| && InsertAnchors(db, ms[..i], cp).Ok?
    ensures var one := InsertAnchor(InsertAnchors(db, ms[..i], cp).value, ms[i], cp);
      InsertAnchors(db, ms[..i + 1], cp) == (if one.Ok? then Ok(one.value.db) else Err(one.error))
  {
    var p := ms[..i + 1];
    assert p[..i] == ms[..i] && p[i] == ms[i];
  }

  lemma {:induction false} InsertAnchorsErrorPersists(db: Db, ms: seq<nat>, cp: Checkpoint, n: nat)
    requires n <= |ms| && InsertAnchors(db, ms[..n], cp).Err?
    ensures InsertAnchors(db, ms, cp) == InsertAnchors(db, ms[..n], cp)
    decreases |ms| - n
  {
    if n == |ms| {
      assert ms[..n] == ms;
    } else {
      var p := ms[..n + 1];
      assert p[..n] == ms[..n];
      InsertAnchorsErrorPersists(db, ms, cp, n + 1);
    }
  }

  method InsertEachAnchor(store: Store, ms: seq<nat>, cp: Checkpoint) returns (r: MirrorResult<()>)
    modifies store
    ensures var spec := InsertAnchors(old(store.Snapshot()), ms, cp);
      if spec.Ok? then r == Ok(()) && store.Snapshot() == spec.value else r == Err(spec.error)
  {
    hide InsertAnchor;
    ghost var before := store.Snapshot();
    var i := 0;
    while i < |ms|
      invariant 0 <= i <= |ms|
      invariant InsertAnchors(before, ms[..i], cp) == Ok(store.Snapshot())
    {
      InsertAnchorsStep(before, ms, cp, i);
      var one := store.InsertRotationCheckpointRaw(ms[i], cp);
      if one.Err? {
        InsertAnchorsErrorPersists(before, ms, cp, i + 1);
        return Err(one.error);
      }
      i := i + 1;
    }
    assert ms[..i] == ms;
    r := Ok(());
  }

  /** `holds_prefix`. */
  method RunHoldsPrefix(store: Store, treeSize: nat) returns (r: MirrorResult<bool>)
    ensures r == Series.HoldsPrefix(store.Snapshot(), treeSize)
  {
    if treeSize > MAX_I64 {
      return Err(IndexOverflow);
    }
    if CountEntries(store.entries, 0, treeSize) != treeSize {
      return Ok(false);
    }
    var _ :- store.RequireSubtreeCache(treeSize);
    r := Ok(true);
  }

  /** The root comparison of step 3: only over a prefix this store holds. */
  method CheckStoredRoot(store: Store, cp: Checkpoint, claimed: Hash) returns (r: MirrorResult<()>)
    ensures r == CheckRoot(store.Snapshot(), cp, claimed)
  {
    var held :- RunHoldsPrefix(store, cp.treeSize);
    if held {
      var stored :- RunLogRoot(store.entries, store.subtrees, cp.treeSize);
      if stored.root != claimed {
        return Err(CheckpointRootMismatch(cp.treeSize));
      }
    }
    r := Ok(());
  }

  /** Steps 3 and 4, inside the transaction. */
  method CommitAdmission(store: Store, cp: Checkpoint, claimed: Hash, pending: seq<Pending>, admission: AdmissionOf)
    returns (r: MirrorResult<()>)
    modifies store
    ensures var spec := Commit(old(store.Snapshot()), cp, claimed, pending, admission);
      if spec.Ok? then r == Ok(()) && store.Snapshot() == spec.value else r == Err(spec.error)
  {
    var _ :- PromoteEach(store, cp, pending);
    var _ :- CheckStoredRoot(store, cp, claimed);
    if admission.seriesMember {
      var _ :- store.InsertCheckpointRaw(cp);
    }
    r := InsertEachAnchor(store, admission.rotationAnchors, cp);
  }

  /** `ingest_checkpoint`: what it commits is what `Ingest` says, and a failure anywhere leaves the
    * store exactly as it was.
    */
  method IngestCheckpoint(store: Store, config: Governance.Config, s: Submission) returns (r: MirrorResult<AdmissionOf>)
    modifies store
    ensures var spec := Ingest(old(store.Snapshot()), config, s);
      if spec.Ok? then r == Ok(spec.value.admission) && store.Snapshot() == spec.value.db
      else r == Err(spec.error) && store.Snapshot() == old(store.Snapshot())
  {
    var before := store.Snapshot();
    var admission :- AuthorizeSubmission(store, config, s);
    var claimed :- ParseHashHex(s.cp.rootHash);
    var committed := CommitAdmission(store, s.cp, claimed, s.pending, admission);
    if committed.Err? {
      store.Restore(before);
      return Err(committed.error);
    }
    r := Ok(admission);
  }

  // ---- the series view ----

  /** `series_usable_stored`. */
  method RunUsable(store: Store, cp: Checkpoint, pred: Option<Checkpoint>) returns (r: MirrorResult<bool>)
    ensures r == Series.UsableStored(store.Snapshot(), cp, pred)
  {
    var held :- RunHoldsPrefix(store, cp.treeSize);
    if !held {
      return Ok(false);
    }
    var claimed :- ParseHashHex(cp.rootHash);
    var stored :- RunLogRoot(store.entries, store.subtrees, cp.treeSize);
    if stored.root != claimed {
      return Ok(false);
    }
    if pred.None? {
      return Ok(true);
    }
    var fromRoot :- ParseHashHex(pred.value.rootHash);
    var proof :- RunConsistencyProof(store.entries, store.subtrees, pred.value.treeSize, cp.treeSize);
    r := Consistency.VerifyConsistency(pred.value.treeSize, cp.treeSize, proof.path, fromRoot, claimed);
  }

  lemma LabelStep(db: Db, rows: seq<Checkpoint>, i: nat)
    requires i < |rows|
    ensures var before := Series.Label(db, rows[..i]);
      Series.Label(db, rows[..i + 1]) == (if before.Err? then before else Series.LabelNext(db, before.value, rows[i]))
  {
    var p := rows[..i + 1];
    assert p[..i] == rows[..i] && p[i] == rows[i];
  }

  lemma {:induction false} LabelErrorPersists(db: Db, rows: seq<Checkpoint>, n: nat)
    requires n <= |rows| && Series.Label(db, rows[..n]).Err?
    ensures Series.Label(db, rows) == Series.Label(db, rows[..n])
    decreases |rows| - n
  {
    if n == |rows| {
      assert rows[..n] == rows;
    } else {
      LabelStep(db, rows, n);
      LabelErrorPersists(db, rows, n + 1);
    }
  }

  /** The member loop of `series_view`: a broken store is propagated, anything else leaves a member
    * merely authenticated.
    */
  method LabelMembers(store: Store, rows: seq<Checkpoint>) returns (r: MirrorResult<Series.Labels>)
    ensures r == Series.Label(store.Snapshot(), rows)
  {
    var members: seq<Series.Reported> := [];
    var lastUsable: Option<Checkpoint> := None;
    var i := 0;
    while i < |rows|
      invariant 0 <= i <= |rows|
      invariant Series.Label(store.Snapshot(), rows[..i]) == Ok(Series.Labels(members, lastUsable))
    {
      LabelStep(store.Snapshot(), rows, i);
      var answer := RunUsable(store, rows[i], lastUsable);
      if answer.Err? && Series.IsStorageFault(answer.error) {
        LabelErrorPersists(store.Snapshot(), rows, i + 1);
        return Err(answer.error);
      }
      var usable := answer.Ok? && answer.value;
      members := members + [Series.Reported(rows[i], usable)];
      if usable {
        lastUsable := Some(rows[i]);
      }
      i := i + 1;
    }
    assert rows[..i] == rows;
    r := Ok(Series.Labels(members, lastUsable));
  }

  /** `series_view`. */
  method RunSeriesView(store: Store, config: Governance.Config) returns (r: MirrorResult<Series.View>)
    ensures r == Series.SeriesView(store.Snapshot(), config)
  {
    var db := store.Snapshot();
    var labels :- LabelMembers(store, SeriesOrder.Sort(db.checkpoints));
    var usable := Series.UsableOf(labels.members);
    var divergences := SeriesOrder.ScanDivergences(SeriesOrder.Sort(Series.Records(db)));
    var floor := SeriesOrder.Least(divergences);
    var frontier :- Series.RunFrontier(Series.LookupIn(db.entries, config), usable, floor);
    r := Ok(Series.View(labels.members, frontier.reached, frontier.stop, divergences, floor));
  }
}
