/** What the governance walk keeps for every entry sequence. */
module GovernanceChain {
  import opened Wrappers
  import opened Bits
  import opened Encoding
  import opened Duration
  import opened Governance

  /** The producer keys a statement at `index` is checked against: the configured ones until a
    * genesis is installed, then whatever the statements before it left in force.
    */
  ghost function KeysInForce(entries: seq<Blob>, index: nat, config: Config): map<KeyId, PubKey>
    requires index <= |entries|
  {
    match Walk(entries[..index], config)
    case Err(_) => map[]
    case Ok(w) =>
      if w.state.None? then ActiveOfSlice(config.genesisKeys, index) else ActiveOf(w.state.value.producerKeys, index)
  }

  /** `v` is what the manifest at its index declares, signed under the producer keys then in force. */
  ghost predicate DeclaredAt(entries: seq<Blob>, v: State, predecessor: Field<EntryId>, epoch: Option<nat>, config: Config) {
    && v.manifestIndex < |entries|
    && KindOf(entries[v.manifestIndex]) == Some(Manifest)
    && var envelope, payload := EnvelopeOf(entries[v.manifestIndex]), PayloadOf(entries[v.manifestIndex]).value;
    && v.manifestId == EnvelopeId(envelope)
    && config.checkEnvelope(envelope, KeysInForce(entries, v.manifestIndex, config)) == Some(true)
    && payload.ahlVersion == Present(config.ahlVersion)
    && payload.predecessor == predecessor
    && ParseGovernance(payload, v.manifestIndex, v.manifestId, config.logId, v.genesisIndex, epoch) == Some(v)
  }

  /** The genesis version: the configured entry, naming no predecessor. */
  ghost predicate IsGenesis(entries: seq<Blob>, v: State, config: Config) {
    v.manifestId == config.genesisId && v.genesisIndex == v.manifestIndex && DeclaredAt(entries, v, Absent, None, config)
  }

  /** A version and the one it succeeds. */
  ghost predicate Succeeds(entries: seq<Blob>, v: State, before: State, config: Config) {
    && before.manifestIndex < v.manifestIndex
    && v.genesisIndex == before.genesisIndex
    && v.epochNanos == before.epochNanos
    && DeclaredAt(entries, v, Present(before.manifestId), Some(before.epochNanos), config)
  }

  /** The chain: a genesis, then successors, each signed under the keys in force before it. */
  ghost predicate IsChain(entries: seq<Blob>, versions: seq<State>, config: Config) {
    && (|versions| > 0 ==> IsGenesis(entries, versions[0], config))
    && (forall j :: 1 <= j < |versions| ==> Succeeds(entries, versions[j], versions[j - 1], config))
  }

  /** A later state of one version: key statements change the producer keys and nothing else. */
  predicate SameVersion(a: State, b: State) {
    a.(producerKeys := map[]) == b.(producerKeys := map[])
  }

  /** The walk's invariant. */
  ghost predicate WalkKeeps(entries: seq<Blob>, w: Walked, config: Config) {
    && (w.state.None? <==> w.versions == [])
    && (w.state.Some? ==> SameVersion(w.state.value, w.versions[|w.versions| - 1]))
    && (forall j :: 0 <= j < |w.versions| ==> w.versions[j].manifestIndex < |entries| && w.versions[j].cadenceNanos > 0)
    && IsChain(entries, w.versions, config)
  }

  // ---- one entry keeps it ----

  lemma DeclaredEarlier(entries: seq<Blob>, n: nat, v: State, predecessor: Field<EntryId>, epoch: Option<nat>, config: Config)
    requires n <= |entries| && DeclaredAt(entries[..n], v, predecessor, epoch, config)
    ensures DeclaredAt(entries, v, predecessor, epoch, config)
  {
    assert entries[..n][..v.manifestIndex] == entries[..v.manifestIndex];
  }

  lemma ChainExtends(entries: seq<Blob>, n: nat, versions: seq<State>, config: Config)
    requires n <= |entries| && IsChain(entries[..n], versions, config)
    ensures IsChain(entries, versions, config)
  {
    if |versions| > 0 {
      DeclaredEarlier(entries, n, versions[0], Absent, None, config);
    }
    forall j | 1 <= j < |versions|
      ensures Succeeds(entries, versions[j], versions[j - 1], config)
    {
      var before := versions[j - 1];
      DeclaredEarlier(entries, n, versions[j], Present(before.manifestId), Some(before.epochNanos), config);
    }
  }

  lemma CadencePositive(payload: Payload, index: nat, id: EntryId, logId: HashText, genesis: nat, epoch: Option<nat>)
    requires ParseGovernance(payload, index, id, logId, genesis, epoch).Some?
    ensures var v := ParseGovernance(payload, index, id, logId, genesis, epoch).value;
      v.cadenceNanos > 0 && v.manifestIndex == index && v.manifestId == id && v.genesisIndex == genesis
      && (epoch.Some? ==> v.epochNanos == epoch.value)
  {
  }

  /** Installing a genesis, or ignoring a candidate for one. */
  lemma GenesisKeeps(entries: seq<Blob>, n: nat, w: Walked, config: Config)
    requires n < |entries| && Walk(entries[..n], config) == Ok(w) && WalkKeeps(entries[..n], w, config)
    requires KindOf(entries[n]) == Some(Manifest) && w.state.None?
    requires Apply(w.state, entries[n], n, config).Ok?
    ensures WalkKeeps(entries[..n + 1], Snapshot(w, entries[n], Apply(w.state, entries[n], n, config).value), config)
  {
    var p := entries[..n + 1];
    var after := Apply(w.state, entries[n], n, config).value;
    if after.Some? {
      var v := after.value;
      assert p[..n] == entries[..n];
      CadencePositive(PayloadOf(entries[n]).value, n, EnvelopeId(EnvelopeOf(entries[n])), config.logId, n, None);
      assert IsGenesis(p, v, config);
    }
  }

  /** Installing a successor of the version in force. */
  lemma InstallKeeps(entries: seq<Blob>, n: nat, w: Walked, next: State, config: Config)
    requires n < |entries| && Walk(entries[..n], config) == Ok(w) && WalkKeeps(entries[..n], w, config)
    requires w.state.Some? && KindOf(entries[n]) == Some(Manifest)
    requires Succeeds(entries[..n + 1], next, w.versions[|w.versions| - 1], config)
    requires next.manifestIndex == n && next.cadenceNanos > 0
    ensures WalkKeeps(entries[..n + 1], Walked(Some(next), w.versions + [next]), config)
  {
    var p := entries[..n + 1];
    assert p[..n] == entries[..n];
    ChainExtends(p, n, w.versions, config);
  }

  /** Keeping the versions, with the state of the last one at most re-keyed. */
  lemma ReKeyKeeps(entries: seq<Blob>, n: nat, w: Walked, after: Option<State>, config: Config)
    requires n < |entries| && WalkKeeps(entries[..n], w, config)
    requires after.Some? == w.state.Some? && (after.Some? ==> SameVersion(after.value, w.state.value))
    ensures WalkKeeps(entries[..n + 1], Walked(after, w.versions), config)
  {
    var p := entries[..n + 1];
    assert p[..n] == entries[..n];
    ChainExtends(p, n, w.versions, config);
  }

  /** What a candidate for succession does: nothing, or install the version it declares. */
  lemma SuccessorCases(entries: seq<Blob>, n: nat, w: Walked, config: Config)
    requires n < |entries| && Walk(entries[..n], config) == Ok(w) && WalkKeeps(entries[..n], w, config)
    requires KindOf(entries[n]) == Some(Manifest) && w.state.Some?
    requires Apply(w.state, entries[n], n, config).Ok?
    ensures var after := Apply(w.state, entries[n], n, config).value;
      after == w.state ||
      (after.Some? && after.value.manifestIndex == n && after.value.cadenceNanos > 0
       && Succeeds(entries[..n + 1], after.value, w.versions[|w.versions| - 1], config))
  {
    var p := entries[..n + 1];
    assert p[..n] == entries[..n];
    var current := w.state.value;
    var payload, id := PayloadOf(entries[n]).value, EnvelopeId(EnvelopeOf(entries[n]));
    var next := Apply(w.state, entries[n], n, config).value.value;
    var parsed := ParseGovernance(payload, n, id, config.logId, current.genesisIndex, Some(current.epochNanos));
    if parsed == Some(next) {
      CadencePositive(payload, n, id, config.logId, current.genesisIndex, Some(current.epochNanos));
    }
  }

  lemma SuccessorKeeps(entries: seq<Blob>, n: nat, w: Walked, config: Config)
    requires n < |entries| && Walk(entries[..n], config) == Ok(w) && WalkKeeps(entries[..n], w, config)
    requires KindOf(entries[n]) == Some(Manifest) && w.state.Some?
    requires Apply(w.state, entries[n], n, config).Ok?
    ensures WalkKeeps(entries[..n + 1], Snapshot(w, entries[n], Apply(w.state, entries[n], n, config).value), config)
  {
    var after := Apply(w.state, entries[n], n, config).value;
    SuccessorCases(entries, n, w, config);
    if after == w.state {
      ReKeyKeeps(entries, n, w, after, config);
    } else {
      InstallKeeps(entries, n, w, after.value, config);
    }
  }

  /** A key statement changes the producer keys alone; any other entry changes nothing. */
  lemma OtherCases(state: Option<State>, bytes: Blob, n: nat, config: Config)
    requires KindOf(bytes) != Some(Manifest) && Apply(state, bytes, n, config).Ok?
    ensures var after := Apply(state, bytes, n, config).value;
      after.Some? == state.Some? && (after.Some? ==> SameVersion(after.value, state.value))
  {
  }

  lemma OtherKeeps(entries: seq<Blob>, n: nat, w: Walked, config: Config)
    requires n < |entries| && WalkKeeps(entries[..n], w, config)
    requires KindOf(entries[n]) != Some(Manifest)
    requires Apply(w.state, entries[n], n, config).Ok?
    ensures WalkKeeps(entries[..n + 1], Snapshot(w, entries[n], Apply(w.state, entries[n], n, config).value), config)
  {
    OtherCases(w.state, entries[n], n, config);
    ReKeyKeeps(entries, n, w, Apply(w.state, entries[n], n, config).value, config);
  }

  /** For every entry sequence: versions start at the configured genesis, rise strictly, each names
    * its predecessor and was signed under the producer keys then in force, the epoch and the genesis
    * index never move, cadence stays positive, and the state reached is the last version with
    * nothing but its producer keys changed.
    */
  lemma {:induction false} WalkInvariant(entries: seq<Blob>, config: Config)
    requires Walk(entries, config).Ok?
    ensures WalkKeeps(entries, Walk(entries, config).value, config)
    decreases |entries|
  {
    if entries != [] {
      var n := |entries| - 1;
      WalkStep(entries, n, config);
      assert entries[..n + 1] == entries;
      WalkInvariant(entries[..n], config);
      var w := Walk(entries[..n], config).value;
      if KindOf(entries[n]) != Some(Manifest) {
        OtherKeeps(entries, n, w, config);
      } else if w.state.None? {
        GenesisKeeps(entries, n, w, config);
      } else {
        SuccessorKeeps(entries, n, w, config);
      }
    }
  }

  // ---- consequences ----

  /** Indices rise over the whole list, and what the genesis fixed stays fixed. */
  lemma {:induction false} VersionsRise(entries: seq<Blob>, versions: seq<State>, config: Config, i: nat, j: nat)
    requires IsChain(entries, versions, config) && i < j < |versions|
    ensures versions[i].manifestIndex < versions[j].manifestIndex
    ensures versions[j].epochNanos == versions[i].epochNanos && versions[j].genesisIndex == versions[i].genesisIndex
    decreases j
  {
    assert Succeeds(entries, versions[j], versions[j - 1], config);
    if i == j - 1 {
    } else {
      VersionsRise(entries, versions, config, i, j - 1);
    }
  }

  /** The versions of a prefix are a prefix of the versions of an extension. */
  lemma {:induction false} VersionsOfPrefix(entries: seq<Blob>, n: nat, config: Config)
    requires n <= |entries| && Walk(entries, config).Ok?
    ensures Walk(entries[..n], config).Ok?
    ensures Walk(entries[..n], config).value.versions <= Walk(entries, config).value.versions
    decreases |entries| - n
  {
    if n == |entries| {
      assert entries[..n] == entries;
    } else {
      WalkStep(entries, n, config);
      VersionsOfPrefix(entries, n + 1, config);
    }
  }

  /** `versions` and `resolve` succeed and fail together, and agree on everything a checkpoint is
    * judged by, despite key statements between the last manifest and the end.
    */
  lemma VersionsAgreeWithResolve(entries: seq<Blob>, config: Config)
    ensures Versions(entries, config).Ok? <==> Resolve(entries, config).Ok?
    ensures Versions(entries, config).Err? ==> Resolve(entries, config).error == Versions(entries, config).error
    ensures Resolve(entries, config).Ok? ==>
      var versions := Versions(entries, config).value;
      |versions| > 0 && SameVersion(Resolve(entries, config).value, versions[|versions| - 1])
  {
    if Walk(entries, config).Ok? {
      WalkInvariant(entries, config);
    }
  }
}
