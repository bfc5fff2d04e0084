/** The governance walk: one mutable state, one growing list of versions. */
module GovernanceWalk {
  import opened Wrappers
  import opened Bits
  import opened Encoding
  import opened Duration
  import opened Governance

  // ---- reading a manifest ----

  lemma KeysStep(specs: seq<KeySpec>, i: nat)
    requires i < |specs|
    ensures ResolveKeys(specs[..i + 1]) ==
      if ResolveKeys(specs[..i]).Some? && ResolveKey(specs[i]).Ok?
      then Some(ResolveKeys(specs[..i]).value + [ResolveKey(specs[i]).value]) else None
  {
    var p := specs[..i + 1];
    assert p[..i] == specs[..i] && p[i] == specs[i];
  }

  lemma {:induction false} KeysRefused(specs: seq<KeySpec>, n: nat)
    requires n <= |specs| && ResolveKeys(specs[..n]).None?
    ensures ResolveKeys(specs).None?
    decreases |specs| - n
  {
    if n == |specs| {
      assert specs[..n] == specs;
    } else {
      KeysStep(specs, n);
      KeysRefused(specs, n + 1);
    }
  }

  /** The log-key loop: every object must check itself. */
  method ReadKeys(specs: seq<KeySpec>) returns (r: Option<seq<KeyObject>>)
    ensures r == ResolveKeys(specs)
  {
    var keys: seq<KeyObject> := [];
    var i := 0;
    while i < |specs|
      invariant 0 <= i <= |specs|
      invariant ResolveKeys(specs[..i]) == Some(keys)
    {
      KeysStep(specs, i);
      var k := ResolveKey(specs[i]);
      if k.Err? {
        KeysRefused(specs, i + 1);
        return None;
      }
      keys := keys + [k.value];
      i := i + 1;
    }
    assert specs[..i] == specs;
    r := Some(keys);
  }

  lemma TableStep(keys: seq<KeyObject>, k: KeyObject)
    ensures KeyTable(keys + [k]) == KeyTable(keys)[k.keyId := k]
  {
    assert (keys + [k])[..|keys|] == keys;
  }

  /** The producer-key loop: objects inserted into a map as they are resolved. */
  method ReadProducerKeys(specs: seq<KeySpec>) returns (r: Option<map<KeyId, KeyObject>>)
    ensures ResolveKeys(specs).None? ==> r.None?
    ensures ResolveKeys(specs).Some? ==> r == Some(KeyTable(ResolveKeys(specs).value))
  {
    var table: map<KeyId, KeyObject> := map[];
    var i := 0;
    while i < |specs|
      invariant 0 <= i <= |specs|
      invariant ResolveKeys(specs[..i]).Some? && table == KeyTable(ResolveKeys(specs[..i]).value)
    {
      KeysStep(specs, i);
      var k := ResolveKey(specs[i]);
      if k.Err? {
        KeysRefused(specs, i + 1);
        return None;
      }
      TableStep(ResolveKeys(specs[..i]).value, k.value);
      table := table[k.value.keyId := k.value];
      i := i + 1;
    }
    assert specs[..i] == specs;
    r := Some(table);
  }

  lemma WitnessStep(blocks: seq<WitnessBlock>, i: nat)
    requires i < |blocks|
    ensures ResolveWitnesses(blocks[..i + 1]) ==
      if ResolveWitnesses(blocks[..i]).Some? && ResolveKeys(blocks[i].keys).Some?
      then Some(ResolveWitnesses(blocks[..i]).value + Declared(blocks[i].witnessId, ResolveKeys(blocks[i].keys).value)) else None
  {
    var p := blocks[..i + 1];
    assert p[..i] == blocks[..i] && p[i] == blocks[i];
  }

  lemma {:induction false} WitnessesRefused(blocks: seq<WitnessBlock>, n: nat)
    requires n <= |blocks| && ResolveWitnesses(blocks[..n]).None?
    ensures ResolveWitnesses(blocks).None?
    decreases |blocks| - n
  {
    if n == |blocks| {
      assert blocks[..n] == blocks;
    } else {
      WitnessStep(blocks, n);
      WitnessesRefused(blocks, n + 1);
    }
  }

  /** The witness loop, over every key of every block. */
  method ReadWitnesses(blocks: seq<WitnessBlock>) returns (r: Option<seq<(nat, KeyObject)>>)
    ensures r == ResolveWitnesses(blocks)
  {
    var resolved: seq<(nat, KeyObject)> := [];
    var i := 0;
    while i < |blocks|
      invariant 0 <= i <= |blocks|
      invariant ResolveWitnesses(blocks[..i]) == Some(resolved)
    {
      WitnessStep(blocks, i);
      var keys := ReadKeys(blocks[i].keys);
      if keys.None? {
        WitnessesRefused(blocks, i + 1);
        return None;
      }
      resolved := resolved + Declared(blocks[i].witnessId, keys.value);
      i := i + 1;
    }
    assert blocks[..i] == blocks;
    r := Some(resolved);
  }

  /** `parse_governance`. */
  method ReadGovernance(payload: Payload, index: nat, id: EntryId, logId: HashText, genesisIndex: nat, requiredEpoch: Option<nat>)
    returns (r: Option<State>)
    ensures r == ParseGovernance(payload, index, id, logId, genesisIndex, requiredEpoch)
  {
    hide ResolveKeys, ResolveWitnesses, KeyTable, ParseDuration, ParseCadence;
    if !payload.keys.Present? {
      return None;
    }
    var producerKeys := ReadProducerKeys(payload.keys.value);
    if producerKeys.None? || !payload.log.Present? || payload.log.value.logId != logId {
      return None;
    }
    var log := payload.log.value;
    var cadence := ParseCadence(log.checkpointCadence);
    if cadence.Err? || ParseDuration(log.witnessGracePeriod).Err? {
      return None;
    }
    if !log.cadenceEpoch.Present? || !(0 <= log.cadenceEpoch.value <= MAX_U64) {
      return None;
    }
    var epoch := log.cadenceEpoch.value;
    if requiredEpoch.Some? && epoch != requiredEpoch.value {
      return None;
    }
    var logKeys := ReadKeys(log.keys);
    if logKeys.None? || payload.witnesses.Malformed? {
      return None;
    }
    var witnessKeys: Option<seq<(nat, KeyObject)>> := Some([]);
    if payload.witnesses.Present? {
      witnessKeys := ReadWitnesses(payload.witnesses.value);
      if witnessKeys.None? {
        return None;
      }
    }
    r := Some(State(producerKeys.value, logKeys.value, witnessKeys.value, cadence.value, epoch, index, id, genesisIndex));
  }

  // ---- the walk ----

  class Walker {
    const config: Config
    var state: Option<State>
    var snapshots: seq<State>

    constructor (config: Config)
      ensures this.config == config && state == None && snapshots == []
    {
      this.config := config;
      state := None;
      snapshots := [];
    }

    /** `try_apply_manifest`: select by identity, authenticate, check the revision, and only then read. */
    method TryApplyManifest(envelope: Json, payload: Payload, index: nat) returns (r: MirrorResult<()>)
      modifies this`state
      ensures old(state).None? ==>
        match ApplyGenesis(envelope, payload, index, config)
        case Ok(next) => r == Ok(()) && state == next
        case Err(e) => r == Err(e) && state == old(state)
      ensures old(state).Some? ==>
        match ApplySuccessor(old(state).value, envelope, payload, index, config)
        case Ok(next) => r == Ok(()) && state == Some(next)
        case Err(e) => r == Err(e) && state == old(state)
    {
      hide ParseGovernance, ActiveOf, ActiveOfSlice, CheckVersion;
      var id := EnvelopeId(envelope);
      if state.None? {
        if id != config.genesisId {
          return Ok(());
        }
        var authentic :- Authentic(envelope, payload, ActiveOfSlice(config.genesisKeys, index), index, config);
        if !authentic || !payload.predecessor.Absent? {
          return Ok(());
        }
        state := ReadGovernance(payload, index, id, config.logId, index, None);
      } else {
        var current := state.value;
        var authentic :- Authentic(envelope, payload, ActiveOf(current.producerKeys, index), index, config);
        if !authentic || payload.predecessor != Present(current.manifestId) {
          return Ok(());
        }
        var next := ReadGovernance(payload, index, id, config.logId, current.genesisIndex, Some(current.epochNanos));
        if next.Some? {
          state := next;
        }
      }
      r := Ok(());
    }

    /** `try_apply_key`: a running state's producer keys gain or lose one object. */
    method TryApplyKey(envelope: Json, payload: Payload, index: nat) returns (r: MirrorResult<()>)
      requires state.Some?
      modifies this`state
      ensures match ApplyKey(old(state).value, envelope, payload, index, config)
        case Ok(next) => r == Ok(()) && state == Some(next)
        case Err(e) => r == Err(e) && state == old(state)
    {
      var current := state.value;
      var authentic :- Authentic(envelope, payload, ActiveOf(current.producerKeys, index), index, config);
      if !authentic || !payload.action.Present? || !payload.key.Present? {
        return Ok(());
      }
      match payload.action.value {
        case Add =>
          var k := ResolveKey(payload.key.value);
          if k.Ok? {
            state := Some(current.(producerKeys := current.producerKeys[k.value.keyId := k.value]));
          }
        case Retire =>
          state := Some(current.(producerKeys := current.producerKeys - {payload.key.value.keyId}));
        case OtherAction(_) =>
      }
      r := Ok(());
    }

    /** One entry of `walk`. */
    method Step(bytes: Blob, index: nat) returns (r: MirrorResult<()>)
      modifies this
      ensures match WalkOn(Walked(old(state), old(snapshots)), bytes, index, config)
        case Ok(w) => r == Ok(()) && Walked(state, snapshots) == w
        case Err(e) => r == Err(e)
    {
      hide ApplyGenesis, ApplySuccessor, ApplyKey;
      if KindOf(bytes) == Some(Manifest) {
        var before := state;
        var _ :- TryApplyManifest(EnvelopeOf(bytes), PayloadOf(bytes).value, index);
        if IndexMoved(before, state) && state.Some? {
          snapshots := snapshots + [state.value];
        }
      } else if KindOf(bytes) == Some(KeyStatement) && state.Some? {
        var _ :- TryApplyKey(EnvelopeOf(bytes), PayloadOf(bytes).value, index);
      }
      r := Ok(());
    }
  }

  /** `walk`. */
  method RunWalk(entries: seq<Blob>, config: Config) returns (r: MirrorResult<Walked>)
    ensures r == Walk(entries, config)
  {
    hide WalkOn;
    var walker := new Walker(config);
    var i := 0;
    while i < |entries|
      invariant 0 <= i <= |entries|
      invariant walker.config == config
      invariant Walk(entries[..i], config) == Ok(Walked(walker.state, walker.snapshots))
    {
      WalkStep(entries, i, config);
      var stepped := walker.Step(entries[i], i);
      if stepped.Err? {
        WalkErrorPersists(entries, i + 1, config);
        return Err(stepped.error);
      }
      i := i + 1;
    }
    assert entries[..i] == entries;
    r := Ok(Walked(walker.state, walker.snapshots));
  }
}
