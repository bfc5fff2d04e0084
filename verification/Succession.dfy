/** What each entry does to the governance walk: what it is checked against, when it installs a version,
  * when it moves the producer keys, and when it ends the walk.
  */
module Succession {
  import opened Wrappers
  import opened Bits
  import opened Encoding
  import opened Governance
  import opened Authentication
  import GovernanceChain

  // ---- the producer keys in force ----

  /** The keys a statement at `n` is checked against. */
  function KeysAt(state: Option<State>, n: nat, config: Config): map<KeyId, PubKey> {
    match state
    case None => ActiveOfSlice(config.genesisKeys, n)
    case Some(current) => ActiveOf(current.producerKeys, n)
  }

  /** A producer key is active under its id at `n`: it belongs to an object valid from `n` or before, in
    * the table in force, or, until a genesis is selected, first under its id among the configured ones.
    */
  ghost predicate IsActive(state: Option<State>, n: nat, config: Config, id: KeyId, key: nat) {
    match state
    case None =>
      exists i: nat :: FirstUnder(config.genesisKeys, id, i) && IsLive(config.genesisKeys[i], n, key)
    case Some(current) => id in current.producerKeys && IsLive(current.producerKeys[id], n, key)
  }

  predicate IsLive(k: KeyObject, n: nat, key: nat) {
    k.validFromIndex <= n && k.key == key
  }

  /** Those keys are exactly the active ones, each a decoded key. */
  lemma KeysAtExact(state: Option<State>, n: nat, config: Config, id: KeyId, key: nat)
    ensures id in KeysAt(state, n, config) && KeysAt(state, n, config)[id] == Ed25519(key) <==> IsActive(state, n, config, id, key)
    ensures id in KeysAt(state, n, config) ==> KeysAt(state, n, config)[id].Ed25519?
  {
    if state.None? {
      ConfiguredExact(config.genesisKeys, n, id, key);
    }
  }

  lemma ConfiguredExact(keys: seq<KeyObject>, n: nat, id: KeyId, key: nat)
    ensures id in ActiveOfSlice(keys, n) && ActiveOfSlice(keys, n)[id] == Ed25519(key) <==>
      exists i: nat :: FirstUnder(keys, id, i) && IsLive(keys[i], n, key)
  {
    FindKeyExact(keys, id);
    if FindKey(keys, id).Some? {
      var j: nat :| FirstUnder(keys, id, j) && keys[j] == FindKey(keys, id).value;
      assert keys[j] in keys;
    }
    if i: nat :| FirstUnder(keys, id, i) && IsLive(keys[i], n, key) {
      FirstIsFound(keys, id, i);
      assert keys[i] in keys;
    }
  }

  // ---- what an entry asks for ----

  /** The bytes are an object carrying this payload. */
  predicate Holds(bytes: Blob, envelope: Json, payload: Payload) {
    ParseJson(bytes) == Some(envelope) && envelope.JObject? && envelope.payload == Present(payload)
  }

  /** The walk looks at a statement: a manifest, which before the genesis must be the configured one, or,
    * after it, a key statement.
    */
  predicate Considered(state: Option<State>, envelope: Json, payload: Payload, config: Config) {
    || (payload.kind == Present(Manifest) && (state.None? ==> IdOf(Jcs(envelope)) == config.genesisId))
    || (payload.kind == Present(KeyStatement) && state.Some?)
  }

  function Checked(state: Option<State>, envelope: Json, n: nat, config: Config): Option<bool> {
    config.checkEnvelope(envelope, KeysAt(state, n, config))
  }

  /** A statement ends the walk: its signature check fails outright, or it is authentic and of another
    * revision.
    */
  predicate Ends(state: Option<State>, envelope: Json, payload: Payload, n: nat, config: Config) {
    && Considered(state, envelope, payload, config)
    && (Checked(state, envelope, n, config).None?
        || (Checked(state, envelope, n, config) == Some(true) && payload.ahlVersion != Present(config.ahlVersion)))
  }

  /** A statement installs a version: an authentic manifest of this revision that names the version in
    * force as its predecessor, or names none and is the configured genesis, and declares governance for
    * this log at the genesis epoch.
    */
  ghost predicate Installs(state: Option<State>, envelope: Json, payload: Payload, n: nat, config: Config) {
    && payload.kind == Present(Manifest) && Considered(state, envelope, payload, config)
    && Checked(state, envelope, n, config) == Some(true) && payload.ahlVersion == Present(config.ahlVersion)
    && payload.predecessor == (if state.None? then Absent else Present(state.value.manifestId))
    && DeclaresGovernance(payload, config.logId, if state.None? then None else Some(state.value.epochNanos))
  }

  /** The version a statement installs at `n`. */
  ghost predicate IsInstalled(state: Option<State>, envelope: Json, payload: Payload, n: nat, v: State) {
    && v.manifestIndex == n && v.manifestId == IdOf(Jcs(envelope))
    && v.genesisIndex == (if state.None? then n else state.value.genesisIndex)
    && (state.Some? ==> v.epochNanos == state.value.epochNanos)
    && Carries(payload, v)
  }

  /** An authentic key statement, over a version in force. */
  predicate Rekeys(state: Option<State>, envelope: Json, payload: Payload, n: nat, config: Config) {
    payload.kind == Present(KeyStatement) && state.Some? && Checked(state, envelope, n, config) == Some(true)
  }

  /** What a key statement makes of the producer key under `id`, if it acts at all. */
  predicate KeyMoves(was: map<KeyId, KeyObject>, now: map<KeyId, KeyObject>, payload: Payload, acts: bool, id: KeyId) {
    var names := acts && payload.key.Present? && payload.key.value.keyId == id;
    if names && payload.action == Present(Add) && SelfChecking(payload.key.value) then
      id in now && SelfChecks(payload.key.value, now[id])
    else if names && payload.action == Present(Retire) then id !in now
    else (id in now <==> id in was) && (id in now ==> now[id] == was[id])
  }

  /** The state after a statement that installs nothing: the same version, with at most its producer keys
    * moved, and those only as a key statement says.
    */
  ghost predicate OnlyRekeyed(before: Option<State>, after: Option<State>, payload: Payload, acts: bool) {
    && after.Some? == before.Some?
    && (before.Some? ==>
          && after.value == before.value.(producerKeys := after.value.producerKeys)
          && forall id :: KeyMoves(before.value.producerKeys, after.value.producerKeys, payload, acts, id))
  }

  // ---- one entry ----

  lemma HeldIs(bytes: Blob, envelope: Json, payload: Payload)
    requires Holds(bytes, envelope, payload)
    ensures PayloadOf(bytes) == Some(payload) && EnvelopeOf(bytes) == envelope
    ensures KindOf(bytes) == if payload.kind.Present? then Some(payload.kind.value) else None
  {
  }

  /** What applying a statement answers. */
  ghost predicate Applies(state: Option<State>, envelope: Json, payload: Payload, n: nat, config: Config, r: MirrorResult<Option<State>>) {
    if Ends(state, envelope, payload, n, config) then
      r == Err(if Checked(state, envelope, n, config).None? then EnvelopeVerification else UnsupportedStatementVersion(n))
    else if Installs(state, envelope, payload, n, config) then
      r.Ok? && r.value.Some? && IsInstalled(state, envelope, payload, n, r.value.value)
    else r.Ok? && OnlyRekeyed(state, r.value, payload, Rekeys(state, envelope, payload, n, config))
  }

  lemma GenesisApplies(envelope: Json, payload: Payload, n: nat, config: Config)
    requires payload.kind == Present(Manifest)
    ensures Applies(None, envelope, payload, n, config, ApplyGenesis(envelope, payload, n, config))
  {
    hide ParseGovernance, DeclaresGovernance, Carries, ActiveOfSlice;
    ParsedDeclares(payload, n, EnvelopeId(envelope), config.logId, n, None);
  }

  lemma SuccessorApplies(current: State, envelope: Json, payload: Payload, n: nat, config: Config)
    requires payload.kind == Present(Manifest)
    ensures var r := ApplySuccessor(current, envelope, payload, n, config);
      Applies(Some(current), envelope, payload, n, config, if r.Ok? then Ok(Some(r.value)) else Err(r.error))
  {
    hide ParseGovernance, DeclaresGovernance, Carries, ActiveOf;
    ParsedDeclares(payload, n, EnvelopeId(envelope), config.logId, current.genesisIndex, Some(current.epochNanos));
  }

  lemma KeyApplies(current: State, envelope: Json, payload: Payload, n: nat, config: Config)
    requires payload.kind == Present(KeyStatement)
    ensures var r := ApplyKey(current, envelope, payload, n, config);
      Applies(Some(current), envelope, payload, n, config, if r.Ok? then Ok(Some(r.value)) else Err(r.error))
  {
    hide ActiveOf, DeclaresGovernance;
  }

  lemma StatementApplies(state: Option<State>, bytes: Blob, envelope: Json, payload: Payload, n: nat, config: Config)
    requires Holds(bytes, envelope, payload)
    ensures Applies(state, envelope, payload, n, config, Apply(state, bytes, n, config))
  {
    hide ApplyGenesis, ApplySuccessor, ApplyKey, DeclaresGovernance, Carries, Checked;
    HeldIs(bytes, envelope, payload);
    if payload.kind == Present(Manifest) {
      if state.None? {
        GenesisApplies(envelope, payload, n, config);
      } else {
        SuccessorApplies(state.value, envelope, payload, n, config);
      }
    } else if payload.kind == Present(KeyStatement) && state.Some? {
      KeyApplies(state.value, envelope, payload, n, config);
    }
  }

  /** What a statement at `n` makes of a walk. */
  ghost predicate Moves(w: Walked, envelope: Json, payload: Payload, n: nat, config: Config, r: MirrorResult<Walked>) {
    if Ends(w.state, envelope, payload, n, config) then
      r == Err(if Checked(w.state, envelope, n, config).None? then EnvelopeVerification else UnsupportedStatementVersion(n))
    else if Installs(w.state, envelope, payload, n, config) then
      && r.Ok? && r.value.state.Some? && r.value.versions == w.versions + [r.value.state.value]
      && IsInstalled(w.state, envelope, payload, n, r.value.state.value)
    else
      && r.Ok? && r.value.versions == w.versions
      && OnlyRekeyed(w.state, r.value.state, payload, Rekeys(w.state, envelope, payload, n, config))
  }

  lemma AppliedMoves(w: Walked, bytes: Blob, envelope: Json, payload: Payload, n: nat, config: Config)
    requires Holds(bytes, envelope, payload) && (w.state.Some? ==> w.state.value.manifestIndex < n)
    ensures Moves(w, envelope, payload, n, config, WalkOn(w, bytes, n, config))
  {
    hide Apply, Ends, Installs, Carries, Rekeys, KeyMoves;
    StatementApplies(w.state, bytes, envelope, payload, n, config);
    HeldIs(bytes, envelope, payload);
    InstalledIsManifest(w.state, envelope, payload, n, config);
  }

  lemma InstalledIsManifest(state: Option<State>, envelope: Json, payload: Payload, n: nat, config: Config)
    ensures Installs(state, envelope, payload, n, config) ==> payload.kind == Present(Manifest)
  {
  }

  lemma InForceIsEarlier(entries: seq<Blob>, n: nat, config: Config)
    requires n <= |entries| && Walk(entries[..n], config).Ok?
    ensures var w := Walk(entries[..n], config).value;
      w.state.Some? ==> w.state.value.manifestIndex < n
  {
    GovernanceChain.WalkInvariant(entries[..n], config);
  }

  /** A statement met by the walk, exactly: it ends the walk when its signature check fails outright, or
    * when it is authentic and of another revision; it adds a version, and puts it in force, if and only
    * if it is a valid genesis or a valid successor; and otherwise the version in force stays, with its
    * producer keys moved at the one id an authentic key statement names.
    */
  lemma StatementExact(entries: seq<Blob>, n: nat, config: Config, envelope: Json, payload: Payload)
    requires n < |entries| && Walk(entries[..n], config).Ok? && Holds(entries[n], envelope, payload)
    ensures Moves(Walk(entries[..n], config).value, envelope, payload, n, config, Walk(entries[..n + 1], config))
  {
    hide Moves, WalkOn;
    WalkStep(entries, n, config);
    InForceIsEarlier(entries, n, config);
    AppliedMoves(Walk(entries[..n], config).value, entries[n], envelope, payload, n, config);
  }

  /** An entry that carries no payload changes nothing. */
  lemma OtherExact(entries: seq<Blob>, n: nat, config: Config)
    requires n < |entries| && Walk(entries[..n], config).Ok?
    requires forall envelope, payload :: !Holds(entries[n], envelope, payload)
    ensures Walk(entries[..n + 1], config) == Walk(entries[..n], config)
  {
    WalkStep(entries, n, config);
    if PayloadOf(entries[n]).Some? {
      assert Holds(entries[n], ParseJson(entries[n]).value, PayloadOf(entries[n]).value);
    }
  }

  // ---- the whole walk ----

  /** The entry at `n` installs a version over what the entries before it leave in force. */
  ghost predicate InstallsAt(entries: seq<Blob>, n: nat, config: Config)
    requires n < |entries|
  {
    exists envelope, payload :: Holds(entries[n], envelope, payload) && Walk(entries[..n], config).Ok?
                                && Installs(Walk(entries[..n], config).value.state, envelope, payload, n, config)
  }

  /** Some version was installed at `n`. */
  ghost predicate HasVersion(versions: seq<State>, n: nat) {
    exists j: nat :: j < |versions| && versions[j].manifestIndex == n
  }

  lemma NoneLater(entries: seq<Blob>, config: Config, n: nat)
    requires Walk(entries, config).Ok? && n >= |entries|
    ensures !HasVersion(Walk(entries, config).value.versions, n)
  {
    GovernanceChain.WalkInvariant(entries, config);
  }

  lemma LastEntry(entries: seq<Blob>, config: Config, n: nat)
    requires entries != [] && n == |entries| - 1 && Walk(entries, config).Ok? && Walk(entries[..n], config).Ok?
    ensures var before, after := Walk(entries[..n], config).value.versions, Walk(entries, config).value.versions;
      if InstallsAt(entries, n, config) then
        |after| == |before| + 1 && after[..|before|] == before && after[|before|].manifestIndex == n
      else after == before
  {
    hide Installs, Ends, OnlyRekeyed, Rekeys, Walk;
    assert entries[..n + 1] == entries;
    if envelope, payload :| Holds(entries[n], envelope, payload) {
      HeldIs(entries[n], envelope, payload);
      StatementExact(entries, n, config, envelope, payload);
      forall e, p | Holds(entries[n], e, p)
        ensures e == envelope && p == payload
      {
        HeldIs(entries[n], e, p);
      }
    } else {
      OtherExact(entries, n, config);
    }
  }

  lemma InstallsEarlier(entries: seq<Blob>, m: nat, config: Config, n: nat)
    requires n < m <= |entries|
    ensures InstallsAt(entries[..m], n, config) <==> InstallsAt(entries, n, config)
  {
    hide Installs, Walk;
    assert entries[..m][..n] == entries[..n];
  }

  lemma {:induction false} WalkedVersions(entries: seq<Blob>, config: Config, n: nat)
    requires Walk(entries, config).Ok? && n < |entries|
    ensures HasVersion(Walk(entries, config).value.versions, n) <==> InstallsAt(entries, n, config)
    decreases |entries|
  {
    hide InstallsAt, WalkOn;
    var m := |entries| - 1;
    GovernanceChain.VersionsOfPrefix(entries, m, config);
    LastEntry(entries, config, m);
    var before, after := Walk(entries[..m], config).value.versions, Walk(entries, config).value.versions;
    if n == m {
      NoneLater(entries[..m], config, m);
      if |after| > |before| {
        assert after[|before|].manifestIndex == m;
      }
    } else {
      WalkedVersions(entries[..m], config, n);
      InstallsEarlier(entries, m, config, n);
      EarlierVersions(before, after, m, n);
    }
  }

  /** The versions of a prefix are exactly the valid genesis and the valid successors among its entries:
    * there is one for an entry if and only if that entry is such a statement over the entries before it.
    * Without a failure of the walk they are unresolvable exactly when no entry is.
    */
  lemma VersionsExact(entries: seq<Blob>, config: Config, n: nat)
    requires Walk(entries, config).Ok? && n < |entries|
    ensures Versions(entries, config).Ok? <==> exists k: nat :: k < |entries| && InstallsAt(entries, k, config)
    ensures Versions(entries, config).Ok? ==>
      (HasVersion(Versions(entries, config).value, n) <==> InstallsAt(entries, n, config))
  {
    hide InstallsAt, Walk;
    var versions := Walk(entries, config).value.versions;
    WalkedVersions(entries, config, n);
    if versions != [] {
      GovernanceChain.WalkInvariant(entries, config);
      assert HasVersion(versions, versions[0].manifestIndex);
      WalkedVersions(entries, config, versions[0].manifestIndex);
    }
    if k: nat :| k < |entries| && InstallsAt(entries, k, config) {
      WalkedVersions(entries, config, k);
    }
  }

  lemma EarlierVersions(before: seq<State>, after: seq<State>, m: nat, n: nat)
    requires n != m && (after == before || (|after| == |before| + 1 && after[..|before|] == before && after[|before|].manifestIndex == m))
    ensures HasVersion(after, n) <==> HasVersion(before, n)
  {
    if j: nat :| j < |before| && before[j].manifestIndex == n {
      assert after[j] == before[j];
    }
    if j: nat :| j < |after| && after[j].manifestIndex == n {
      assert j < |before| && after[j] == before[j];
    }
  }
}
