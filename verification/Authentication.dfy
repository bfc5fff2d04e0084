/** What it takes for a checkpoint to be authenticated, and what the keys it is held to are. */
module Authentication {
  import opened Wrappers
  import opened Bits
  import opened Encoding
  import opened CheckpointTime
  import opened Duration
  import opened Governance
  import opened Admission
  import opened RotationAnchors
  import DurationProofs
  import GovernanceChain

  // ---- key objects ----

  /** A key object that recomputes from the spec it was read from. */
  predicate SelfChecks(spec: KeySpec, k: KeyObject) {
    spec.pubkey == Ed25519(k.key) && spec.keyId == KeyIdOf(k.key) == k.keyId && spec.validFromIndex == k.validFromIndex
  }

  predicate SelfChecking(spec: KeySpec) {
    spec.pubkey.Ed25519? && spec.keyId == KeyIdOf(spec.pubkey.key)
  }

  /** A key list is read exactly when every object in it checks itself, one object per spec in order. */
  lemma {:induction false} ResolveKeysExact(specs: seq<KeySpec>)
    ensures var r := ResolveKeys(specs);
      && (r.Some? <==> forall i :: 0 <= i < |specs| ==> SelfChecking(specs[i]))
      && (r.Some? ==> |r.value| == |specs| && forall i :: 0 <= i < |specs| ==> SelfChecks(specs[i], r.value[i]))
    decreases |specs|
  {
    if specs == [] {
    } else {
      var n := |specs| - 1;
      ResolveKeysExact(specs[..n]);
      assert ResolveKey(specs[n]).Ok? <==> SelfChecking(specs[n]);
      forall i | 0 <= i < n
        ensures specs[..n][i] == specs[i]
      {
      }
    }
  }

  /** `keys[i]` is the last object under its id. */
  ghost predicate LastUnder(keys: seq<KeyObject>, id: KeyId, i: nat) {
    i < |keys| && keys[i].keyId == id && forall j :: i < j < |keys| ==> keys[j].keyId != id
  }

  /** The key table holds, for each id declared, the last object declared under it. */
  lemma {:induction false} KeyTableExact(keys: seq<KeyObject>, id: KeyId)
    ensures id in KeyTable(keys) <==> exists k :: k in keys && k.keyId == id
    ensures id in KeyTable(keys) ==> exists i: nat :: LastUnder(keys, id, i) && KeyTable(keys)[id] == keys[i]
    decreases |keys|
  {
    if keys != [] {
      var n := |keys| - 1;
      KeyTableExact(keys[..n], id);
      assert keys == keys[..n] + [keys[n]];
      if keys[n].keyId == id {
        assert LastUnder(keys, id, n);
      } else if id in KeyTable(keys[..n]) {
        var i: nat :| LastUnder(keys[..n], id, i) && KeyTable(keys[..n])[id] == keys[..n][i];
        assert LastUnder(keys, id, i);
      }
    }
  }

  /** `keys[i]` is the first object under its id. */
  ghost predicate FirstUnder(keys: seq<KeyObject>, id: KeyId, i: nat) {
    i < |keys| && keys[i].keyId == id && forall j :: 0 <= j < i ==> keys[j].keyId != id
  }

  /** The object consulted for an id is the first listed under it. */
  lemma {:induction false} FindKeyExact(keys: seq<KeyObject>, id: KeyId)
    ensures var r := FindKey(keys, id);
      && (r.None? <==> forall k :: k in keys ==> k.keyId != id)
      && (r.Some? ==> exists i: nat :: FirstUnder(keys, id, i) && keys[i] == r.value)
    decreases |keys|
  {
    if keys != [] {
      var rest := keys[1..];
      FindKeyExact(rest, id);
      assert keys == [keys[0]] + rest;
      if keys[0].keyId == id {
        assert FirstUnder(keys, id, 0);
      } else if FindKey(rest, id).Some? {
        var i: nat :| FirstUnder(rest, id, i) && rest[i] == FindKey(rest, id).value;
        FirstShifts(keys, id, i);
      }
    }
  }

  lemma FirstShifts(keys: seq<KeyObject>, id: KeyId, i: nat)
    requires keys != [] && keys[0].keyId != id && FirstUnder(keys[1..], id, i)
    ensures FirstUnder(keys, id, i + 1) && keys[i + 1] == keys[1..][i]
  {
    forall j | 0 <= j < i + 1
      ensures keys[j].keyId != id
    {
      assert j > 0 ==> keys[j] == keys[1..][j - 1];
    }
  }

  lemma FirstIsUnique(keys: seq<KeyObject>, id: KeyId, i: nat, j: nat)
    requires FirstUnder(keys, id, i) && FirstUnder(keys, id, j)
    ensures i == j
  {
  }

  /** Rotation is about sets of key objects: order and repetition do not matter, any object gained,
    * lost or changed does, on either side.
    */
  lemma RotatesExact(incoming: State, outgoing: State)
    ensures Rotates(incoming, outgoing) <==>
      (exists k :: (k in incoming.logKeys) != (k in outgoing.logKeys))
      || (exists w :: (w in incoming.witnessKeys) != (w in outgoing.witnessKeys))
  {
    var a, b := set k | k in incoming.logKeys, set k | k in outgoing.logKeys;
    var c, d := set k | k in incoming.witnessKeys, set k | k in outgoing.witnessKeys;
    assert forall k :: (k in a <==> k in incoming.logKeys) && (k in b <==> k in outgoing.logKeys);
    assert forall w :: (w in c <==> w in incoming.witnessKeys) && (w in d <==> w in outgoing.witnessKeys);
    assert a != b <==> exists k :: (k in a) != (k in b);
    assert c != d <==> exists w :: (w in c) != (w in d);
  }

  // ---- what a manifest declares ----

  /** The key specs of some witness blocks in order, each with the witness it is declared for. */
  function Flat(blocks: seq<WitnessBlock>): seq<(nat, KeySpec)> {
    if blocks == [] then []
    else
      var last := blocks[|blocks| - 1];
      Flat(blocks[..|blocks| - 1]) + seq(|last.keys|, i requires 0 <= i < |last.keys| => (last.witnessId, last.keys[i]))
  }

  /** Nothing is in that list but the keys of the blocks, and none of them is missing from it. */
  lemma {:induction false} FlatExact(blocks: seq<WitnessBlock>, w: nat, k: KeySpec)
    ensures (w, k) in Flat(blocks) <==> exists b :: b in blocks && b.witnessId == w && k in b.keys
    decreases |blocks|
  {
    if blocks == [] {
    } else {
      var init, last := blocks[..|blocks| - 1], blocks[|blocks| - 1];
      assert blocks == init + [last];
      FlatExact(init, w, k);
      var own := seq(|last.keys|, i requires 0 <= i < |last.keys| => (last.witnessId, last.keys[i]));
      if last.witnessId == w && k in last.keys {
        var i :| 0 <= i < |last.keys| && last.keys[i] == k;
        assert own[i] == (w, k);
      }
    }
  }

  ghost predicate AllSelfChecking(specs: seq<(nat, KeySpec)>) {
    forall i :: 0 <= i < |specs| ==> SelfChecking(specs[i].1)
  }

  /** One self-checking object per spec, in order, under the same witness. */
  ghost predicate Resolved(specs: seq<(nat, KeySpec)>, keys: seq<(nat, KeyObject)>) {
    |keys| == |specs| && forall i :: 0 <= i < |specs| ==> keys[i].0 == specs[i].0 && SelfChecks(specs[i].1, keys[i].1)
  }

  lemma ResolvedAppend(specs: seq<(nat, KeySpec)>, keys: seq<(nat, KeyObject)>, more: seq<(nat, KeySpec)>, objects: seq<(nat, KeyObject)>)
    requires Resolved(specs, keys) && Resolved(more, objects)
    ensures Resolved(specs + more, keys + objects)
  {
  }

  lemma AllSelfCheckingAppend(specs: seq<(nat, KeySpec)>, more: seq<(nat, KeySpec)>)
    ensures AllSelfChecking(specs + more) <==> AllSelfChecking(specs) && AllSelfChecking(more)
  {
    forall i | 0 <= i < |specs|
      ensures (specs + more)[i] == specs[i]
    {
    }
    forall i | 0 <= i < |more|
      ensures (specs + more)[|specs| + i] == more[i]
    {
    }
  }

  lemma BlockResolves(block: WitnessBlock, own: seq<(nat, KeySpec)>)
    requires own == seq(|block.keys|, i requires 0 <= i < |block.keys| => (block.witnessId, block.keys[i]))
    ensures ResolveKeys(block.keys).Some? <==> AllSelfChecking(own)
    ensures ResolveKeys(block.keys).Some? ==> Resolved(own, Declared(block.witnessId, ResolveKeys(block.keys).value))
  {
    ResolveKeysExact(block.keys);
    forall i | 0 <= i < |own|
      ensures own[i].1 == block.keys[i]
    {
    }
  }

  /** Witness blocks are read exactly when every key of every block checks itself, and give one object
    * per key, in order, each under the witness it was declared for.
    */
  lemma {:induction false} ResolveWitnessesExact(blocks: seq<WitnessBlock>)
    ensures var r := ResolveWitnesses(blocks);
      && (r.Some? <==> AllSelfChecking(Flat(blocks)))
      && (r.Some? ==> Resolved(Flat(blocks), r.value))
    decreases |blocks|
  {
    hide AllSelfChecking, Resolved, ResolveKeys, Declared;
    if blocks == [] {
      NothingToResolve();
    } else {
      var init, last := blocks[..|blocks| - 1], blocks[|blocks| - 1];
      var own := seq(|last.keys|, i requires 0 <= i < |last.keys| => (last.witnessId, last.keys[i]));
      ResolveWitnessesExact(init);
      BlockResolves(last, own);
      AllSelfCheckingAppend(Flat(init), own);
      if ResolveWitnesses(blocks).Some? {
        ResolvedAppend(Flat(init), ResolveWitnesses(init).value, own, Declared(last.witnessId, ResolveKeys(last.keys).value));
      }
    }
  }

  lemma NothingToResolve()
    ensures AllSelfChecking([]) && Resolved([], [])
  {
  }

  /** `specs[i]` is the last spec under its id. */
  ghost predicate LastDeclared(specs: seq<KeySpec>, id: KeyId, i: nat) {
    i < |specs| && specs[i].keyId == id && forall j :: i < j < |specs| ==> specs[j].keyId != id
  }

  /** Under `id` the table holds the object of the last spec declared for it, and nothing otherwise. */
  ghost predicate HoldsLast(table: map<KeyId, KeyObject>, specs: seq<KeySpec>, id: KeyId) {
    && (id in table <==> exists k :: k in specs && k.keyId == id)
    && (id in table ==> exists i: nat :: LastDeclared(specs, id, i) && SelfChecks(specs[i], table[id]))
  }

  lemma TableHoldsLast(specs: seq<KeySpec>, keys: seq<KeyObject>, id: KeyId)
    requires ResolveKeys(specs) == Some(keys)
    ensures HoldsLast(KeyTable(keys), specs, id)
  {
    ResolveKeysExact(specs);
    KeyTableExact(keys, id);
    if id in KeyTable(keys) {
      var i: nat :| LastUnder(keys, id, i) && KeyTable(keys)[id] == keys[i];
      assert SelfChecks(specs[i], keys[i]);
      LastOfSpecs(specs, keys, id, i);
    }
    if k :| k in specs && k.keyId == id {
      var i :| 0 <= i < |specs| && specs[i] == k;
      assert SelfChecks(specs[i], keys[i]) && keys[i] in keys;
    }
  }

  lemma LastOfSpecs(specs: seq<KeySpec>, keys: seq<KeyObject>, id: KeyId, i: nat)
    requires |keys| == |specs| && LastUnder(keys, id, i)
    requires forall j :: 0 <= j < |specs| ==> SelfChecks(specs[j], keys[j])
    ensures LastDeclared(specs, id, i) && specs[i] in specs
  {
    forall j | i < j < |specs|
      ensures specs[j].keyId != id
    {
      assert SelfChecks(specs[j], keys[j]);
    }
    assert SelfChecks(specs[i], keys[i]);
  }

  /** The witness keys a payload declares; without witnesses, none. */
  function WitnessSpecs(witnesses: Field<seq<WitnessBlock>>): seq<(nat, KeySpec)> {
    if witnesses.Present? then Flat(witnesses.value) else []
  }

  /** Every key a payload declares, for producer, log or witness, checks itself. */
  ghost predicate KeysCheck(payload: Payload)
    requires payload.keys.Present? && payload.log.Present?
  {
    && (forall i :: 0 <= i < |payload.keys.value| ==> SelfChecking(payload.keys.value[i]))
    && (forall i :: 0 <= i < |payload.log.value.keys| ==> SelfChecking(payload.log.value.keys[i]))
    && !payload.witnesses.Malformed? && AllSelfChecking(WitnessSpecs(payload.witnesses))
  }

  /** A text spells some duration that a `u64` of nanoseconds holds. */
  ghost predicate SpellsDuration(text: string) {
    exists nanos: nat :: DurationProofs.Spells(text, nanos) && nanos <= MAX_U64
  }

  /** And a positive one. */
  ghost predicate SpellsCadence(text: string) {
    exists nanos: nat :: DurationProofs.Spells(text, nanos) && 0 < nanos <= MAX_U64
  }

  /** The two duration members are durations, the cadence a positive one, and the epoch is in range and
    * the one required, if one is.
    */
  ghost predicate TimesCheck(log: LogBlock, epoch: Option<nat>) {
    && SpellsCadence(log.checkpointCadence) && SpellsDuration(log.witnessGracePeriod)
    && log.cadenceEpoch.Present? && 0 <= log.cadenceEpoch.value <= MAX_U64
    && (epoch.Some? ==> log.cadenceEpoch.value == epoch.value)
  }

  /** A payload declares governance for a log, at the epoch required if one is. */
  ghost predicate DeclaresGovernance(payload: Payload, logId: HashText, epoch: Option<nat>) {
    && payload.keys.Present? && payload.log.Present? && payload.log.value.logId == logId
    && KeysCheck(payload) && TimesCheck(payload.log.value, epoch)
  }

  /** `v` carries what the payload declares: the cadence its own text spells, its epoch, its log and
    * witness keys one object per spec in order, and under each producer key id the last one declared.
    */
  ghost predicate Carries(payload: Payload, v: State) {
    && payload.keys.Present? && payload.log.Present?
    && DurationProofs.Spells(payload.log.value.checkpointCadence, v.cadenceNanos) && 0 < v.cadenceNanos <= MAX_U64
    && payload.log.value.cadenceEpoch == Present(v.epochNanos)
    && |v.logKeys| == |payload.log.value.keys|
    && (forall i :: 0 <= i < |v.logKeys| ==> SelfChecks(payload.log.value.keys[i], v.logKeys[i]))
    && Resolved(WitnessSpecs(payload.witnesses), v.witnessKeys)
    && (forall k :: HoldsLast(v.producerKeys, payload.keys.value, k))
  }

  lemma CadenceExact(text: string)
    ensures ParseCadence(text).Ok? <==> SpellsCadence(text)
    ensures ParseCadence(text).Ok? ==> DurationProofs.Spells(text, ParseCadence(text).value) && 0 < ParseCadence(text).value <= MAX_U64
    ensures ParseDuration(text).Ok? <==> SpellsDuration(text)
  {
    hide ParseDuration, DurationProofs.Spells;
    if ParseDuration(text).Ok? {
      DurationProofs.DurationExact(text, ParseDuration(text).value);
    }
    if nanos: nat :| DurationProofs.Spells(text, nanos) && nanos <= MAX_U64 {
      DurationProofs.DurationExact(text, nanos);
    }
    if nanos: nat :| DurationProofs.Spells(text, nanos) && 0 < nanos <= MAX_U64 {
      DurationProofs.DurationExact(text, nanos);
    }
  }

  /** Each part of a payload resolves. */
  ghost predicate PartsResolve(payload: Payload, logId: HashText, epoch: Option<nat>) {
    && payload.keys.Present? && payload.log.Present? && payload.log.value.logId == logId && !payload.witnesses.Malformed?
    && ResolveKeys(payload.keys.value).Some? && ResolveKeys(payload.log.value.keys).Some?
    && (payload.witnesses.Present? ==> ResolveWitnesses(payload.witnesses.value).Some?)
    && ParseCadence(payload.log.value.checkpointCadence).Ok? && ParseDuration(payload.log.value.witnessGracePeriod).Ok?
    && payload.log.value.cadenceEpoch.Present? && 0 <= payload.log.value.cadenceEpoch.value <= MAX_U64
    && (epoch.Some? ==> payload.log.value.cadenceEpoch.value == epoch.value)
  }

  lemma ParsedParts(payload: Payload, index: nat, id: EntryId, logId: HashText, genesis: nat, epoch: Option<nat>)
    ensures var r := ParseGovernance(payload, index, id, logId, genesis, epoch);
      && (r.Some? <==> PartsResolve(payload, logId, epoch))
      && (r.Some? ==>
            && r.value.manifestIndex == index && r.value.manifestId == id && r.value.genesisIndex == genesis
            && payload.log.value.cadenceEpoch == Present(r.value.epochNanos)
            && ParseCadence(payload.log.value.checkpointCadence) == Ok(r.value.cadenceNanos)
            && ResolveKeys(payload.log.value.keys) == Some(r.value.logKeys)
            && r.value.producerKeys == KeyTable(ResolveKeys(payload.keys.value).value)
            && (if payload.witnesses.Present? then ResolveWitnesses(payload.witnesses.value) == Some(r.value.witnessKeys)
                else r.value.witnessKeys == []))
  {
    hide ParseCadence, ParseDuration, ResolveKeys, ResolveWitnesses, KeyTable;
  }

  lemma PartsExact(payload: Payload, logId: HashText, epoch: Option<nat>)
    ensures PartsResolve(payload, logId, epoch) <==> DeclaresGovernance(payload, logId, epoch)
  {
    hide ParseCadence, ParseDuration, ResolveKeys, ResolveWitnesses, SpellsCadence, SpellsDuration;
    if payload.keys.Present? && payload.log.Present? {
      CadenceExact(payload.log.value.checkpointCadence);
      CadenceExact(payload.log.value.witnessGracePeriod);
      ResolveKeysExact(payload.keys.value);
      ResolveKeysExact(payload.log.value.keys);
      if payload.witnesses.Present? {
        ResolveWitnessesExact(payload.witnesses.value);
      }
    }
  }

  lemma ParsedCarries(payload: Payload, v: State)
    requires payload.keys.Present? && payload.log.Present? && payload.log.value.cadenceEpoch == Present(v.epochNanos)
    requires ParseCadence(payload.log.value.checkpointCadence) == Ok(v.cadenceNanos)
    requires ResolveKeys(payload.log.value.keys) == Some(v.logKeys)
    requires ResolveKeys(payload.keys.value).Some? && v.producerKeys == KeyTable(ResolveKeys(payload.keys.value).value)
    requires if payload.witnesses.Present? then ResolveWitnesses(payload.witnesses.value) == Some(v.witnessKeys) else v.witnessKeys == []
    ensures Carries(payload, v)
  {
    hide ParseCadence, HoldsLast, KeyTable, ResolveKeys, ResolveWitnesses, DurationProofs.Spells;
    CadenceExact(payload.log.value.checkpointCadence);
    ResolveKeysExact(payload.log.value.keys);
    if payload.witnesses.Present? {
      ResolveWitnessesExact(payload.witnesses.value);
    }
    forall k
      ensures HoldsLast(KeyTable(ResolveKeys(payload.keys.value).value), payload.keys.value, k)
    {
      TableHoldsLast(payload.keys.value, ResolveKeys(payload.keys.value).value, k);
    }
  }

  /** A payload parses as governance exactly when it declares it: keys and log present, the log this one,
    * every key checking itself, witnesses well formed, a positive cadence, a grace period, and the epoch
    * required. What it parses to carries what it declares, at the position and under the id given.
    */
  lemma ParsedDeclares(payload: Payload, index: nat, id: EntryId, logId: HashText, genesis: nat, epoch: Option<nat>)
    ensures var r := ParseGovernance(payload, index, id, logId, genesis, epoch);
      && (r.Some? <==> DeclaresGovernance(payload, logId, epoch))
      && (r.Some? ==>
            && r.value.manifestIndex == index && r.value.manifestId == id && r.value.genesisIndex == genesis
            && (epoch.Some? ==> r.value.epochNanos == epoch.value)
            && Carries(payload, r.value))
  {
    hide ParseGovernance, DeclaresGovernance, Carries, ResolveKeys, ResolveWitnesses, KeyTable, ParseCadence, ParseDuration;
    ParsedParts(payload, index, id, logId, genesis, epoch);
    PartsExact(payload, logId, epoch);
    var r := ParseGovernance(payload, index, id, logId, genesis, epoch);
    if r.Some? {
      ParsedCarries(payload, r.value);
    }
  }

  /** A cadence text has one total: whichever spelling it is, the version carries that one's. */
  lemma CadenceIsSpelled(payload: Payload, v: State, sp: Spelling)
    requires Carries(payload, v) && WellFormed(sp) && Spell(sp) == payload.log.value.checkpointCadence
    ensures v.cadenceNanos == Total(sp)
  {
    DurationProofs.ParseSpelled(sp);
    DurationProofs.DurationExact(payload.log.value.checkpointCadence, v.cadenceNanos);
  }

  /** A list, block or table with one object that does not check itself is no governance at all. */
  lemma UncheckedIsRefused(payload: Payload, index: nat, id: EntryId, logId: HashText, genesis: nat, epoch: Option<nat>)
    requires payload.keys.Present? && payload.log.Present?
    requires (exists k :: k in payload.keys.value && !SelfChecking(k))
          || (exists k :: k in payload.log.value.keys && !SelfChecking(k))
          || !AllSelfChecking(WitnessSpecs(payload.witnesses))
    ensures ParseGovernance(payload, index, id, logId, genesis, epoch) == None
  {
    hide ResolveKeys, ResolveWitnesses;
    ResolveKeysExact(payload.keys.value);
    ResolveKeysExact(payload.log.value.keys);
    if payload.witnesses.Present? {
      ResolveWitnessesExact(payload.witnesses.value);
    }
  }

  /** An authentic key statement moves the producer keys of the version in force at the id of the object
    * it carries and nowhere else: adding binds the id to that object, which checks itself, and retiring
    * unbinds it. Anything else about it, or a signature that does not verify, changes nothing.
    */
  lemma KeyStatementExact(current: State, envelope: Json, payload: Payload, index: nat, config: Config, id: KeyId)
    requires ApplyKey(current, envelope, payload, index, config).Ok?
    ensures var next := ApplyKey(current, envelope, payload, index, config).value;
      var was, now := current.producerKeys, next.producerKeys;
      var authentic := config.checkEnvelope(envelope, ActiveOf(was, index)) == Some(true);
      var names := payload.key.Present? && payload.key.value.keyId == id;
      && next == current.(producerKeys := now)
      && (authentic ==> payload.ahlVersion == Present(config.ahlVersion))
      && (id in now <==>
            if authentic && names && payload.action == Present(Add) && SelfChecking(payload.key.value) then true
            else if authentic && names && payload.action == Present(Retire) then false
            else id in was)
      && (id in now ==>
            if authentic && names && payload.action == Present(Add) && SelfChecking(payload.key.value) then SelfChecks(payload.key.value, now[id])
            else id in was && now[id] == was[id])
  {
  }

  // ---- authentication ----

  /** A blob is the one a checkpoint's members assemble to: the log, the size, the root, and the instant
    * its time text renders.
    */
  predicate AssemblesTo(cp: Checkpoint, b: CheckpointBlob) {
    && cp.logId == Hex(b.origin) && cp.treeSize == b.treeSize && cp.rootHash == Hex(b.root)
    && b.nanos <= MAX_U64 && cp.checkpointTime == RenderTime(b.nanos)
  }

  /** A checkpoint assembles to a blob exactly when each of its members is the blob's. */
  lemma BlobExact(cp: Checkpoint, b: CheckpointBlob)
    ensures BlobOf(cp) == Ok(b) <==> AssemblesTo(cp, b)
  {
    hide ParseTime, RenderTime;
    ParseExact(cp.checkpointTime, b.nanos);
  }

  /** A key object signed a checkpoint of this log: it is named by it, active at its size, and its
    * signature is over the blob of its members, which is also what any raw bytes given are.
    */
  predicate SignedBy(k: KeyObject, cp: Checkpoint, b: CheckpointBlob, raw: Option<Raw>, config: Config) {
    && k.keyId == cp.keyId && k.validFromIndex <= cp.treeSize
    && cp.logId == config.logId && AssemblesTo(cp, b)
    && (raw.Some? ==> raw.value == Assembled(b))
    && config.checkSignature(k.key, b, cp.signature) == Some(true)
  }

  /** A checkpoint is authenticated exactly when the first object listed under its key id signed it; a
    * later object under the same id never counts.
    */
  lemma AuthenticateExact(state: State, cp: Checkpoint, raw: Option<Raw>, config: Config)
    ensures Authenticate(state, ClaimOf(cp, raw), config).Ok? <==>
      exists i: nat, b :: FirstUnder(state.logKeys, cp.keyId, i) && SignedBy(state.logKeys[i], cp, b, raw, config)
  {
    hide BlobOf, AssemblesTo, VerifySignature;
    if Authenticate(state, ClaimOf(cp, raw), config).Ok? {
      FindKeyExact(state.logKeys, cp.keyId);
      var k := FindKey(state.logKeys, cp.keyId).value;
      var i: nat :| FirstUnder(state.logKeys, cp.keyId, i) && state.logKeys[i] == k;
      var b := VerifiedOver(k, cp, raw, config);
      assert SignedBy(state.logKeys[i], cp, b, raw, config);
    }
    if i: nat, b :| FirstUnder(state.logKeys, cp.keyId, i) && SignedBy(state.logKeys[i], cp, b, raw, config) {
      FirstIsFound(state.logKeys, cp.keyId, i);
      SignedVerifies(state.logKeys[i], cp, b, raw, config);
    }
  }

  lemma FirstIsFound(keys: seq<KeyObject>, id: KeyId, i: nat)
    requires FirstUnder(keys, id, i)
    ensures FindKey(keys, id) == Some(keys[i])
  {
    FindKeyExact(keys, id);
    assert keys[i] in keys;
    var j: nat :| FirstUnder(keys, id, j) && keys[j] == FindKey(keys, id).value;
    FirstIsUnique(keys, id, i, j);
  }

  lemma VerifiedOver(k: KeyObject, cp: Checkpoint, raw: Option<Raw>, config: Config) returns (b: CheckpointBlob)
    requires VerifySignature(ClaimOf(cp, raw), config, k.key).Ok?
    ensures cp.logId == config.logId && AssemblesTo(cp, b) && (raw.Some? ==> raw.value == Assembled(b))
    ensures config.checkSignature(k.key, b, cp.signature) == Some(true)
  {
    hide BlobOf, AssemblesTo;
    b := BlobOf(cp).value;
    BlobExact(cp, b);
  }

  lemma SignedVerifies(k: KeyObject, cp: Checkpoint, b: CheckpointBlob, raw: Option<Raw>, config: Config)
    requires SignedBy(k, cp, b, raw, config)
    ensures VerifySignature(ClaimOf(cp, raw), config, k.key).Ok?
  {
    hide BlobOf, AssemblesTo;
    BlobExact(cp, b);
  }

  /** The blob binds every member a signature is meant to cover: two checkpoints of one log with equal
    * blobs commit the same root at the same size and time.
    */
  lemma BlobBinds(a: Checkpoint, b: Checkpoint)
    requires BlobOf(a).Ok? && BlobOf(a) == BlobOf(b)
    ensures a.logId == b.logId && a.treeSize == b.treeSize && a.rootHash == b.rootHash && a.checkpointTime == b.checkpointTime
  {
    hide BlobOf, RenderTime;
    BlobExact(a, BlobOf(a).value);
    BlobExact(b, BlobOf(b).value);
  }

  /** What an entry prefix admits a checkpoint as: a member when the version in force verifies it, an
    * anchor for each rotation whose outgoing state does, and nothing when neither holds or when a
    * rotation that was named is not among them.
    */
  lemma JudgeExact(prefix: seq<Blob>, config: Config, c: Claim, named: Option<nat>)
    requires Versions(prefix, config).Ok? && |Versions(prefix, config).value| > 0
    ensures var versions, r := Versions(prefix, config).value, Judge(prefix, config, c, named);
      var active := Authenticate(versions[|versions| - 1], c, config).Ok?;
      && (r.Ok? <==> (active || exists m: nat :: AnchorsAt(versions, config, c, m))
                     && (named.Some? ==> AnchorsAt(versions, config, c, named.value)))
      && (r.Ok? ==> r.value.seriesMember == active && AnchoredExactly(versions, config, c, r.value.rotationAnchors))
  {
    hide Authenticate, AnchorsRotation, Rotates, RotationAnchorsFor, Anchored, RotationsIn, Walk;
    var versions := Versions(prefix, config).value;
    var all := Anchored(RotationsIn(versions), config, c);
    RotationAnchorsExact(prefix, config, c, named);
    if all != [] {
      assert all[0] in all && AnchorsAt(versions, config, c, all[0]);
    }
    if m: nat :| AnchorsAt(versions, config, c, m) {
      assert m in all;
    }
  }
}
