/** The verified governance chain: `manifest` and `key` statements walked from a configured genesis. */
module Governance {
  import opened Wrappers
  import opened Bits
  import opened Encoding
  import opened Duration

  /** A key object whose id recomputes from its key. */
  datatype KeyObject = KeyObject(keyId: KeyId, key: nat, validFromIndex: nat)

  /** What a deployment is configured with, and the two signature checks it is given.
    *
    * `checkEnvelope` is the producer-signature check of an envelope under the keys active for it; it
    * may fail outright rather than answer. `checkSignature` is Ed25519 over a checkpoint blob, and
    * fails outright on a signature text that does not decode.
    */
  datatype Config = Config(
    logId: HashText,
    genesisId: EntryId,
    genesisKeys: seq<KeyObject>,
    ahlVersion: nat,
    checkEnvelope: (Json, map<KeyId, PubKey>) -> Option<bool>,
    checkSignature: (nat, CheckpointBlob, nat) -> Option<bool>)

  /** A verified governance snapshot. */
  datatype State = State(
    producerKeys: map<KeyId, KeyObject>,
    logKeys: seq<KeyObject>,
    witnessKeys: seq<(nat, KeyObject)>,
    cadenceNanos: nat,
    epochNanos: nat,
    manifestIndex: nat,
    manifestId: EntryId,
    genesisIndex: nat)

  // ---- keys ----

  /** `ResolvedKeyObject::resolve`: recompute the id, never trust the carried one. */
  function ResolveKey(spec: KeySpec): MirrorResult<KeyObject> {
    match spec.pubkey
    case Undecodable(_) => Err(BadHash)
    case Ed25519(k) =>
      if spec.keyId != KeyIdOf(k) then Err(ConfigKeyIdMismatch)
      else Ok(KeyObject(spec.keyId, k, spec.validFromIndex))
  }

  function ResolveKeys(specs: seq<KeySpec>): Option<seq<KeyObject>> {
    if specs == [] then Some([])
    else match (ResolveKeys(specs[..|specs| - 1]), ResolveKey(specs[|specs| - 1]))
      case (Some(keys), Ok(k)) => Some(keys + [k])
      case _ => None
  }

  /** The producer-key snapshot: a later object under one id replaces an earlier one. */
  function KeyTable(keys: seq<KeyObject>): map<KeyId, KeyObject> {
    if keys == [] then map[]
    else KeyTable(keys[..|keys| - 1])[keys[|keys| - 1].keyId := keys[|keys| - 1]]
  }

  function ResolveWitnesses(blocks: seq<WitnessBlock>): Option<seq<(nat, KeyObject)>> {
    if blocks == [] then Some([])
    else match (ResolveWitnesses(blocks[..|blocks| - 1]), ResolveKeys(blocks[|blocks| - 1].keys))
      case (Some(found), Some(keys)) => Some(found + Declared(blocks[|blocks| - 1].witnessId, keys))
      case _ => None
  }

  function Declared(witnessId: nat, keys: seq<KeyObject>): seq<(nat, KeyObject)> {
    seq(|keys|, i requires 0 <= i < |keys| => (witnessId, keys[i]))
  }

  function FindKey(keys: seq<KeyObject>, id: KeyId): Option<KeyObject> {
    if keys == [] then None else if keys[0].keyId == id then Some(keys[0]) else FindKey(keys[1..], id)
  }

  /** The keys of a table that are active at `index`. */
  function ActiveOf(table: map<KeyId, KeyObject>, index: nat): map<KeyId, PubKey> {
    map id | id in table && table[id].validFromIndex <= index :: Ed25519(table[id].key)
  }

  /** The configured keys active at `index`; the first object under an id is the one consulted. */
  function ActiveOfSlice(keys: seq<KeyObject>, index: nat): map<KeyId, PubKey> {
    map id | id in (set k | k in keys :: k.keyId) && FindKey(keys, id).Some? && FindKey(keys, id).value.validFromIndex <= index
      :: Ed25519(FindKey(keys, id).value.key)
  }

  /** `resolve_log_key`. */
  function ResolveLogKey(state: State, keyId: KeyId, treeSize: nat): MirrorResult<nat> {
    match FindKey(state.logKeys, keyId)
    case None => Err(UnknownSigningKey)
    case Some(k) => if treeSize < k.validFromIndex then Err(KeyNotYetActive) else Ok(k.key)
  }

  /** `rotates`: the log key objects or the witness key objects differ, as sets. */
  predicate Rotates(incoming: State, outgoing: State) {
    || (set k | k in incoming.logKeys) != (set k | k in outgoing.logKeys)
    || (set k | k in incoming.witnessKeys) != (set k | k in outgoing.witnessKeys)
  }

  // ---- statements ----

  /** `parse_governance`: any schema or content defect is simply not governance. */
  function ParseGovernance(payload: Payload, index: nat, id: EntryId, logId: HashText,
                           genesisIndex: nat, requiredEpoch: Option<nat>): Option<State> {
    if !payload.keys.Present? || !payload.log.Present? then None
    else
      var log := payload.log.value;
      var producer := ResolveKeys(payload.keys.value);
      var logKeys := ResolveKeys(log.keys);
      var witnesses := match payload.witnesses
        case Absent => Some([])
        case Malformed(_) => None
        case Present(blocks) => ResolveWitnesses(blocks);
      var cadence := ParseCadence(log.checkpointCadence);
      if producer.None? || log.logId != logId || cadence.Err? || ParseDuration(log.witnessGracePeriod).Err? then None
      else if !log.cadenceEpoch.Present? || !(0 <= log.cadenceEpoch.value <= MAX_U64) then None
      else if requiredEpoch.Some? && log.cadenceEpoch.value != requiredEpoch.value then None
      else if logKeys.None? || witnesses.None? then None
      else Some(State(KeyTable(producer.value), logKeys.value, witnesses.value, cadence.value,
                      log.cadenceEpoch.value, index, id, genesisIndex))
  }

  function CheckVersion(payload: Payload, index: nat, config: Config): MirrorResult<()> {
    if payload.ahlVersion == Present(config.ahlVersion) then Ok(()) else Err(UnsupportedStatementVersion(index))
  }

  /** Authenticate an envelope, then read its declared revision: `false` is "candidate ignored". */
  function Authentic(envelope: Json, payload: Payload, keys: map<KeyId, PubKey>, index: nat, config: Config): MirrorResult<bool> {
    match config.checkEnvelope(envelope, keys)
    case None => Err(EnvelopeVerification)
    case Some(false) => Ok(false)
    case Some(true) =>
      var _ :- CheckVersion(payload, index, config);
      Ok(true)
  }

  /** `try_apply_manifest` with no version in force: only the configured genesis counts. */
  function ApplyGenesis(envelope: Json, payload: Payload, index: nat, config: Config): MirrorResult<Option<State>> {
    if EnvelopeId(envelope) != config.genesisId then Ok(None)
    else
      var authentic :- Authentic(envelope, payload, ActiveOfSlice(config.genesisKeys, index), index, config);
      if !authentic || !payload.predecessor.Absent? then Ok(None)
      else Ok(ParseGovernance(payload, index, EnvelopeId(envelope), config.logId, index, None))
  }

  /** `try_apply_manifest` over a version in force. */
  function ApplySuccessor(current: State, envelope: Json, payload: Payload, index: nat, config: Config): MirrorResult<State> {
    var authentic :- Authentic(envelope, payload, ActiveOf(current.producerKeys, index), index, config);
    if !authentic || payload.predecessor != Present(current.manifestId) then Ok(current)
    else match ParseGovernance(payload, index, EnvelopeId(envelope), config.logId, current.genesisIndex, Some(current.epochNanos))
      case None => Ok(current)
      case Some(next) => Ok(next)
  }

  /** `try_apply_key`. */
  function ApplyKey(current: State, envelope: Json, payload: Payload, index: nat, config: Config): MirrorResult<State> {
    var authentic :- Authentic(envelope, payload, ActiveOf(current.producerKeys, index), index, config);
    if !authentic || !payload.action.Present? || !payload.key.Present? then Ok(current)
    else match payload.action.value
      case Add =>
        (match ResolveKey(payload.key.value)
         case Err(_) => Ok(current)
         case Ok(k) => Ok(current.(producerKeys := current.producerKeys[k.keyId := k])))
      case Retire => Ok(current.(producerKeys := current.producerKeys - {payload.key.value.keyId}))
      case OtherAction(_) => Ok(current)
  }

  /** The payload of bytes that parse as an object carrying one. */
  function PayloadOf(bytes: Blob): Option<Payload> {
    match ParseJson(bytes)
    case Some(JObject(Present(payload), _, _)) => Some(payload)
    case _ => None
  }

  function EnvelopeOf(bytes: Blob): Json
    requires PayloadOf(bytes).Some?
  {
    ParseJson(bytes).value
  }

  function KindOf(bytes: Blob): Option<Kind> {
    if PayloadOf(bytes).Some? && PayloadOf(bytes).value.kind.Present? then Some(PayloadOf(bytes).value.kind.value) else None
  }

  /** One entry of the walk. */
  function Apply(state: Option<State>, bytes: Blob, index: nat, config: Config): MirrorResult<Option<State>> {
    if KindOf(bytes) == Some(Manifest) then
      match state
      case None => ApplyGenesis(EnvelopeOf(bytes), PayloadOf(bytes).value, index, config)
      case Some(current) =>
        var next :- ApplySuccessor(current, EnvelopeOf(bytes), PayloadOf(bytes).value, index, config);
        Ok(Some(next))
    else if KindOf(bytes) == Some(KeyStatement) && state.Some? then
      var next :- ApplyKey(state.value, EnvelopeOf(bytes), PayloadOf(bytes).value, index, config);
      Ok(Some(next))
    else Ok(state)
  }

  /** The state a walk reached, and the versions it saw installed. */
  datatype Walked = Walked(state: Option<State>, versions: seq<State>)

  predicate IndexMoved(before: Option<State>, after: Option<State>) {
    match (before, after)
    case (None, None) => false
    case (Some(a), Some(b)) => a.manifestIndex != b.manifestIndex
    case _ => true
  }

  /** The snapshot list after one entry: a version is recorded when the governing index moved. */
  function Snapshot(w: Walked, bytes: Blob, after: Option<State>): Walked {
    if KindOf(bytes) == Some(Manifest) && IndexMoved(w.state, after) && after.Some?
    then Walked(after, w.versions + [after.value])
    else Walked(after, w.versions)
  }

  /** The walk taken one entry further. */
  function WalkOn(w: Walked, bytes: Blob, index: nat, config: Config): MirrorResult<Walked> {
    var after :- Apply(w.state, bytes, index, config);
    Ok(Snapshot(w, bytes, after))
  }

  /** `walk`. */
  function Walk(entries: seq<Blob>, config: Config): MirrorResult<Walked> {
    if entries == [] then Ok(Walked(None, []))
    else
      var n := |entries| - 1;
      var w :- Walk(entries[..n], config);
      WalkOn(w, entries[n], n, config)
  }

  /** `resolve`: the state in force at the end of a prefix. */
  function Resolve(entries: seq<Blob>, config: Config): MirrorResult<State> {
    var w :- Walk(entries, config);
    if w.state.None? then Err(GovernanceChainUnresolvable(|entries|)) else Ok(w.state.value)
  }

  /** `versions`: every verified manifest version of a prefix, as each one left the state. */
  function Versions(entries: seq<Blob>, config: Config): MirrorResult<seq<State>> {
    var w :- Walk(entries, config);
    if w.versions == [] then Err(GovernanceChainUnresolvable(|entries|)) else Ok(w.versions)
  }

  // ---- one entry at a time ----

  lemma WalkStep(entries: seq<Blob>, n: nat, config: Config)
    requires n < |entries|
    ensures Walk(entries[..n], config).Err? ==> Walk(entries[..n + 1], config) == Walk(entries[..n], config)
    ensures Walk(entries[..n], config).Ok? ==>
      Walk(entries[..n + 1], config) == WalkOn(Walk(entries[..n], config).value, entries[n], n, config)
  {
    var p := entries[..n + 1];
    assert p[..n] == entries[..n] && p[n] == entries[n];
  }

  /** An error met in a prefix is the error of every extension. */
  lemma {:induction false} WalkErrorPersists(entries: seq<Blob>, n: nat, config: Config)
    requires n <= |entries| && Walk(entries[..n], config).Err?
    ensures Walk(entries, config) == Err(Walk(entries[..n], config).error)
    decreases |entries| - n
  {
    if n == |entries| {
      assert entries[..n] == entries;
    } else {
      WalkStep(entries, n, config);
      WalkErrorPersists(entries, n + 1, config);
    }
  }
}
