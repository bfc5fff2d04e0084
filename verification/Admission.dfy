/** Admission: what an entry must show to be staged and promoted, what a checkpoint must show to be
  * recorded, and what one ingest does to the tables.
  */
module Admission {
  import opened Wrappers
  import opened Bits
  import opened Encoding
  import opened Merkle
  import opened Tables
  import opened StoreSpec
  import opened CheckpointTime
  import opened ProofOpening
  import opened Governance
  import Series
  import Inclusion

  // ---- staging ----

  /** The fixed adaptor metadata object every entry carries. */
  const ADAPTOR_METADATA: Json := JObject(Absent, Absent, 0)

  /** `ingest::stage_entry`'s format checks, in order. */
  function CheckFormat(claimed: EntryId, bytes: Blob, metadata: Json): MirrorResult<()> {
    if claimed != IdOf(bytes) then Err(EntryIdMismatch)
    else match ParseJson(bytes)
      case None => Err(Unparsable)
      case Some(value) =>
        if !value.JObject? || !value.payload.Present? then Err(MalformedEnvelope)
        else if !value.signatures.Present? || value.signatures.value == [] then Err(MalformedEnvelope)
        else if bytes != Jcs(value) then Err(NotCanonical)
        else if metadata != ADAPTOR_METADATA then Err(WrongAdaptorMetadata)
        else Ok(())
  }

  /** `ingest::stage_entry`. */
  function StageEntry(db: Db, claimed: EntryId, bytes: Blob, metadata: Json): MirrorResult<Written> {
    var _ :- CheckFormat(claimed, bytes, metadata);
    Stage(db, claimed, bytes)
  }

  // ---- proof-gated promotion ----

  /** `proof_from_hex`: a path of hash texts, leaf to root. */
  function PathOf(path: seq<HashText>): MirrorResult<ProofPath> {
    if path == [] then Ok(Start)
    else
      var below :- PathOf(path[..|path| - 1]);
      var node :- ParseHashHex(path[|path| - 1]);
      Ok(Up(below, node))
  }

  /** `verify_inclusion_for`. */
  function VerifyInclusionFor(bytes: Blob, leafIndex: nat, treeSize: nat, path: seq<HashText>, root: Hash): MirrorResult<bool> {
    var proof :- PathOf(path);
    Inclusion.VerifyInclusion(LogLeafHash(bytes), leafIndex, treeSize, proof, root)
  }

  /** The staged bytes of a claim whose proof opens `root` at its position. */
  function ProvenBytes(staged: map<EntryId, Blob>, id: EntryId, leafIndex: nat, path: seq<HashText>, treeSize: nat, root: Hash): MirrorResult<Blob> {
    if id !in staged then Err(NotStaged(id))
    else
      var opens :- VerifyInclusionFor(staged[id], leafIndex, treeSize, path, root);
      if opens then Ok(staged[id]) else Err(InclusionProofInvalid(leafIndex, treeSize))
  }

  /** One staged entry to promote alongside a checkpoint. */
  datatype Pending = Pending(entryId: EntryId, leafIndex: nat, path: seq<HashText>)

  /** `promote_entry_in`: the only way into canonical storage. */
  ghost function PromoteIn(db: Db, cp: Checkpoint, p: Pending): MirrorResult<Written> {
    if p.entryId !in db.staged then Err(NotStaged(p.entryId))
    else
      var root :- ParseHashHex(cp.rootHash);
      var _ :- ProvenBytes(db.staged, p.entryId, p.leafIndex, p.path, cp.treeSize, root);
      Promote(db, p.leafIndex, p.entryId)
  }

  ghost function PromoteAll(db: Db, cp: Checkpoint, pending: seq<Pending>): MirrorResult<Db> {
    if pending == [] then Ok(db)
    else
      var before :- PromoteAll(db, cp, pending[..|pending| - 1]);
      var written :- PromoteIn(before, cp, pending[|pending| - 1]);
      Ok(written.db)
  }

  // ---- the visible prefix ----

  type Overlay = map<nat, Blob>

  /** A claim the overlay consults: below the target, past canonical storage, on a free slot. */
  predicate Consulted(overlay: Overlay, p: Pending, canonical: nat, target: nat) {
    canonical <= p.leafIndex < target && p.leafIndex !in overlay
  }

  /** The overlay after one more claim: the first claim on a slot wins, and must prove itself. */
  function OverlayNext(staged: map<EntryId, Blob>, overlay: Overlay, p: Pending, canonical: nat, target: nat, root: Hash): MirrorResult<Overlay> {
    if !Consulted(overlay, p, canonical, target) then Ok(overlay)
    else
      var bytes :- ProvenBytes(staged, p.entryId, p.leafIndex, p.path, target, root);
      Ok(overlay[p.leafIndex := bytes])
  }

  function OverlayOf(staged: map<EntryId, Blob>, pending: seq<Pending>, canonical: nat, target: nat, root: Hash): MirrorResult<Overlay> {
    if pending == [] then Ok(map[])
    else
      var overlay :- OverlayOf(staged, pending[..|pending| - 1], canonical, target, root);
      OverlayNext(staged, overlay, pending[|pending| - 1], canonical, target, root)
  }

  /** Extend a run for as long as the overlay supplies the very next index. */
  function ExtendRun(run: seq<Blob>, overlay: Overlay, target: nat): seq<Blob>
    decreases target - |run|
  {
    if |run| < target && |run| in overlay then ExtendRun(run + [overlay[|run|]], overlay, target) else run
  }

  /** `build_visible_prefix`. */
  function VisiblePrefix(db: Db, pending: seq<Pending>, target: nat, root: Hash): MirrorResult<seq<Blob>> {
    if target > MAX_I64 then Err(IndexOverflow)
    else
      var canonical := EntriesRange(db.entries, 0, target);
      var overlay :- OverlayOf(db.staged, pending, |canonical|, target, root);
      Ok(ExtendRun(canonical, overlay, target))
  }

  // ---- authenticating a checkpoint ----

  /** Submitted raw bytes: an assembled blob, or anything else. */
  datatype Raw = Assembled(blob: CheckpointBlob) | OtherBytes(tag: nat)

  /** `checkpoint_blob`. */
  function BlobOf(cp: Checkpoint): MirrorResult<CheckpointBlob> {
    var origin :- ParseHashHex(cp.logId);
    var root :- ParseHashHex(cp.rootHash);
    var nanos :- ParseTime(cp.checkpointTime);
    Ok(CheckpointBlob(origin, cp.treeSize, nanos, root))
  }

  /** A checkpoint offered for admission, with the blob its members assemble to. */
  datatype Claim = Claim(cp: Checkpoint, blob: MirrorResult<CheckpointBlob>, raw: Option<Raw>)

  function ClaimOf(cp: Checkpoint, raw: Option<Raw>): Claim {
    Claim(cp, BlobOf(cp), raw)
  }

  /** `verify_checkpoint_signature`. */
  function VerifySignature(c: Claim, config: Config, key: nat): MirrorResult<()> {
    if c.cp.logId != config.logId then Err(WrongLogId)
    else
      var blob :- c.blob;
      if c.raw.Some? && c.raw.value != Assembled(blob) then Err(RawBlobMismatch)
      else match config.checkSignature(key, blob, c.cp.signature)
        case None => Err(MalformedSignature)
        case Some(good) => if good then Ok(()) else Err(SignatureInvalid)
  }

  /** A checkpoint against the log keys one governance state makes active for it. */
  function Authenticate(state: State, c: Claim, config: Config): MirrorResult<()> {
    var key :- ResolveLogKey(state, c.cp.keyId, c.cp.treeSize);
    VerifySignature(c, config, key)
  }

  // ---- rotations ----

  /** A governance-key rotation: the rotating manifest's index, and the state it retires. */
  datatype Rotation = Rotation(manifestEntryIndex: nat, outgoing: State)

  /** `rotations_in`. */
  function RotationsIn(versions: seq<State>): seq<Rotation> {
    if |versions| < 2 then []
    else
      var outgoing, incoming := versions[|versions| - 2], versions[|versions| - 1];
      RotationsIn(versions[..|versions| - 1])
      + (if Rotates(incoming, outgoing) then [Rotation(incoming.manifestIndex, outgoing)] else [])
  }

  predicate Qualifies(r: Rotation, config: Config, c: Claim) {
    c.cp.treeSize > r.manifestEntryIndex && Authenticate(r.outgoing, c, config).Ok?
  }

  function Anchored(rotations: seq<Rotation>, config: Config, c: Claim): seq<nat> {
    if rotations == [] then []
    else
      var r := rotations[|rotations| - 1];
      Anchored(rotations[..|rotations| - 1], config, c)
      + (if Qualifies(r, config, c) then [r.manifestEntryIndex] else [])
  }

  /** `rotation_anchors_for`: naming a rotation narrows nothing, and only turns absence into an error. */
  function RotationAnchorsFor(versions: seq<State>, config: Config, c: Claim, named: Option<nat>): MirrorResult<seq<nat>> {
    var anchored := Anchored(RotationsIn(versions), config, c);
    if named.Some? && named.value !in anchored then Err(NotRotationMaterial(c.cp.treeSize, named.value))
    else Ok(anchored)
  }

  // ---- ingest ----

  datatype AdmissionOf = AdmissionOf(seriesMember: bool, rotationAnchors: seq<nat>)

  /** What a checkpoint earns under the governance an entry prefix resolves to. */
  function Judge(prefix: seq<Blob>, config: Config, c: Claim, named: Option<nat>): MirrorResult<AdmissionOf> {
    var versions :- Versions(prefix, config);
    if versions == [] then Err(GovernanceChainUnresolvable(c.cp.treeSize))
    else
      var active := Authenticate(versions[|versions| - 1], c, config);
      var anchors :- RotationAnchorsFor(versions, config, c, named);
      if active.Err? && anchors == [] then Err(active.error) else Ok(AdmissionOf(active.Ok?, anchors))
  }

  function InsertAnchors(db: Db, anchors: seq<nat>, cp: Checkpoint): MirrorResult<Db> {
    if anchors == [] then Ok(db)
    else
      var before :- InsertAnchors(db, anchors[..|anchors| - 1], cp);
      var written :- InsertAnchor(before, anchors[|anchors| - 1], cp);
      Ok(written.db)
  }

  /** Refuse a checkpoint whose root provably disagrees with a prefix this store holds. */
  function CheckRoot(db: Db, cp: Checkpoint, claimed: Hash): MirrorResult<()> {
    var held :- Series.HoldsPrefix(db, cp.treeSize);
    if !held then Ok(())
    else
      var stored :- LogRoot(db.entries, db.subtrees, cp.treeSize);
      if stored.root != claimed then Err(CheckpointRootMismatch(cp.treeSize)) else Ok(())
  }

  /** Record an admitted checkpoint where it earned a place. */
  function RecordAdmission(db: Db, cp: Checkpoint, admission: AdmissionOf): MirrorResult<Db> {
    var listed :- if admission.seriesMember then InsertCheckpoint(db, cp) else Ok(Written(db, AlreadyPresent));
    InsertAnchors(listed.db, admission.rotationAnchors, cp)
  }

  /** What the transaction of one ingest commits. */
  ghost function Commit(db: Db, cp: Checkpoint, claimed: Hash, pending: seq<Pending>, admission: AdmissionOf): MirrorResult<Db> {
    var promoted :- PromoteAll(db, cp, pending);
    var _ :- CheckRoot(promoted, cp, claimed);
    RecordAdmission(promoted, cp, admission)
  }

  datatype Admitted = Admitted(db: Db, admission: AdmissionOf)

  /** A submission: the checkpoint, its raw bytes if given, the entries to promote, the rotation named. */
  datatype Submission = Submission(cp: Checkpoint, raw: Option<Raw>, pending: seq<Pending>, rotationFor: Option<nat>)

  /** The read-only half of an ingest: the visible prefix, and what the checkpoint earns under it. */
  function Authorize(db: Db, config: Config, s: Submission): MirrorResult<AdmissionOf> {
    if s.cp.treeSize > MAX_I64 then Err(TreeSizeUnrepresentable(s.cp.treeSize))
    else
      var claimed :- ParseHashHex(s.cp.rootHash);
      var prefix :- VisiblePrefix(db, s.pending, s.cp.treeSize, claimed);
      Judge(prefix, config, ClaimOf(s.cp, s.raw), s.rotationFor)
  }

  /** `ingest_checkpoint`. */
  ghost function Ingest(db: Db, config: Config, s: Submission): MirrorResult<Admitted> {
    var admission :- Authorize(db, config, s);
    var claimed :- ParseHashHex(s.cp.rootHash);
    var committed :- Commit(db, s.cp, claimed, s.pending, admission);
    Ok(Admitted(committed, admission))
  }
}
