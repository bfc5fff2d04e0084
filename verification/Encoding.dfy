/** The bytes, hashes and JSON values the mirror handles, as terms.
  *
  * SHA-256, base64, hex, JCS and JSON parsing are not modelled bit by bit. A digest is the term
  * that was hashed, so distinct inputs have distinct digests; bytes are either the canonical
  * serialization of a JSON value, some other spelling of one, or not JSON at all.
  */
module Encoding {
  import opened Wrappers

  /** A member of a JSON object: missing, present with the wrong shape, or present and readable. */
  datatype Field<+T> = Absent | Malformed(tag: nat) | Present(value: T)

  /** A digest. `Opaque` stands for every 32-octet string that is not the digest of a modelled input. */
  datatype Hash =
    | EmptyRoot
    | LeafHash(entry: Blob)
    | NodeHash(left: Hash, right: Hash)
    | Opaque(tag: nat)

  /** The textual family form of a hash; a malformed text has no value. */
  datatype HashText = Hex(hash: Hash) | BadHex(tag: nat)

  /** An AHL entry id: the digest of exactly the entry's bytes, or a text that is no such digest. */
  datatype EntryId = IdOf(bytes: Blob) | ForeignId(tag: nat)

  /** Submitted or stored bytes. */
  datatype Blob =
    | Jcs(value: Json)
    | Loose(value: Json, spelling: nat)
    | NotJson(data: nat)

  datatype Json =
    | JObject(payload: Field<Payload>, signatures: Field<seq<SignatureEntry>>, other: nat)
    | JOther(tag: nat)

  datatype SignatureEntry = SignatureEntry(keyId: KeyId, sig: nat)

  /** The members of a statement payload this mirror reads. `rest` is everything it does not. */
  datatype Payload = Payload(
    kind: Field<Kind>,
    ahlVersion: Field<nat>,
    predecessor: Field<EntryId>,
    keys: Field<seq<KeySpec>>,
    log: Field<LogBlock>,
    witnesses: Field<seq<WitnessBlock>>,
    action: Field<Action>,
    key: Field<KeySpec>,
    rest: nat)

  datatype Kind = Manifest | KeyStatement | OtherKind(tag: nat)

  datatype Action = Add | Retire | OtherAction(tag: nat)

  /** A public key text: a decodable Ed25519 key, or not. */
  datatype PubKey = Ed25519(key: nat) | Undecodable(tag: nat)

  /** A key id: the digest of a raw public key, or a text that is no such digest. */
  datatype KeyId = KeyIdOf(key: nat) | ForeignKeyId(tag: nat)

  datatype KeySpec = KeySpec(keyId: KeyId, pubkey: PubKey, validFromIndex: nat)

  datatype WitnessBlock = WitnessBlock(witnessId: nat, keys: seq<KeySpec>)

  datatype LogBlock = LogBlock(
    logId: HashText,
    checkpointCadence: string,
    cadenceEpoch: Field<int>,
    witnessGracePeriod: string,
    keys: seq<KeySpec>)

  /** `serde_json::from_slice`. */
  function ParseJson(bytes: Blob): Option<Json> {
    match bytes
    case Jcs(v) => Some(v)
    case Loose(v, _) => Some(v)
    case NotJson(_) => None
  }

  /** `ahl_core::entry_id`: the digest of the envelope's canonical bytes. */
  function EnvelopeId(envelope: Json): EntryId {
    IdOf(Jcs(envelope))
  }

  /** `log_leaf_hash` over entry bytes. */
  function LogLeafHash(bytes: Blob): Hash {
    LeafHash(bytes)
  }

  /** `parse_hash_hex`. */
  function ParseHashHex(text: HashText): Result<Hash, MirrorError> {
    match text
    case Hex(h) => Ok(h)
    case BadHex(_) => Err(BadHash)
  }

  /** A signed checkpoint object, field for field. */
  datatype Checkpoint = Checkpoint(
    logId: HashText,
    treeSize: nat,
    rootHash: HashText,
    checkpointTime: string,
    keyId: KeyId,
    signature: nat)

  /** The assembled blob a checkpoint signature is over. */
  datatype CheckpointBlob = CheckpointBlob(origin: Hash, treeSize: nat, nanos: nat, root: Hash)

  /** The errors the modelled operations raise, one per failed check. */
  datatype MirrorError =
    | BadHash
    | EntryIdMismatch
    | Unparsable
    | MalformedEnvelope
    | NotCanonical
    | WrongAdaptorMetadata
    | IndexOverflow
    | NotStaged(entryId: EntryId)
    | IndexConflict(index: nat)
    | EntryIdAtDifferentIndex(requestedIndex: nat)
    | OutOfOrderIndex(expected: nat, got: nat)
    | TreeMaterialMissing(level: nat, nodeIndex: nat)
    | Atl
    | IncompleteEntries(have: nat, need: nat)
    | InvalidRange
    | CheckpointRootMismatch(treeSize: nat)
    | InclusionProofInvalid(leafIndex: nat, treeSize: nat)
    | TreeSizeUnrepresentable(treeSize: nat)
    | BadCheckpointTime
    | WrongLogId
    | RawBlobMismatch
    | SignatureInvalid
    | MalformedSignature
    | UnknownSigningKey
    | KeyNotYetActive
    | ConfigKeyIdMismatch
    | GovernanceChainUnresolvable(treeSize: nat)
    | UnsupportedStatementVersion(entryIndex: nat)
    | EnvelopeVerification
    | NotRotationMaterial(treeSize: nat, manifestEntryIndex: nat)
    | SeriesMemberConflict(treeSize: nat)
    | BadDuration
    | ProhibitedDurationComponent(component: char)
    | DurationFractionTooLong
    | NonPositiveCadence
    | UnknownCheckpoint(treeSize: nat)
    | CheckpointNotSeriesUsable(treeSize: nat)
    | SeriesEquivocated(treeSize: nat, floor: nat)
    | UnknownRotationProof(manifestEntryIndex: nat)
    | ConsistencyOrder

  type MirrorResult<T> = Result<T, MirrorError>
}
