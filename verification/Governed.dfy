/** A run never records a checkpoint that its own store cannot govern. */
module Governed {
  import opened Wrappers
  import opened Bits
  import opened Encoding
  import opened Tables
  import opened StoreSpec
  import opened Admission
  import opened Commitment
  import opened Series
  import opened Views
  import opened Runs
  import opened Computability
  import Governance
  import GovernanceChain
  import SubtreeCache

  /** Some entries of the log, no more than the checkpoint commits, hold a verified version. */
  ghost predicate HasGovernance(log: seq<Blob>, config: Governance.Config, cp: Checkpoint) {
    exists k: nat :: k <= |log| && k <= cp.treeSize && Governance.Versions(log[..k], config).Ok?
  }

  lemma GovernanceKept(was: seq<Blob>, log: seq<Blob>, config: Governance.Config, cp: Checkpoint)
    requires was <= log && HasGovernance(was, config, cp)
    ensures HasGovernance(log, config, cp)
  {
    var k: nat :| k <= |was| && k <= cp.treeSize && Governance.Versions(was[..k], config).Ok?;
    assert log[..k] == was[..k];
  }

  lemma AdmittedHasGovernance(db: Db, config: Governance.Config, s: Submission)
    requires ValidTree(db) && Ingest(db, config, s).Ok?
    ensures ValidTree(Ingest(db, config, s).value.db)
    ensures HasGovernance(LogOf(Ingest(db, config, s).value.db), config, s.cp)
  {
    hide Ingest;
    IngestParts(db, config, s);
    CheckedIsCommitted(db, config, s);
    var log := LogOf(Ingest(db, config, s).value.db);
    var k := |SeenPrefix(db, s)|;
    assert log[..k] == SeenPrefix(db, s);
    assert Governance.Versions(log[..k], config).Ok?;
  }

  /** Every record of a store has governance in its log. */
  ghost predicate AllGoverned(db: Db, config: Governance.Config) {
    ValidTree(db) && forall cp :: Recorded(db, cp) ==> HasGovernance(LogOf(db), config, cp)
  }

  lemma StepGoverns(db: Db, config: Governance.Config, step: Step)
    requires AllGoverned(db, config)
    ensures AllGoverned(After(db, config, step), config)
  {
    hide After, AppendsProven, HasGovernance, SubtreeCache.CacheExact;
    StepExact(db, config, step);
    var after := After(db, config, step);
    StepAppends(db, config, step);
    forall cp | Recorded(after, cp)
      ensures HasGovernance(LogOf(after), config, cp)
    {
      if Recorded(db, cp) {
        GovernanceKept(LogOf(db), LogOf(after), config, cp);
      } else {
        assert NewlyAdmitted(db, config, step, cp);
        AdmittedHasGovernance(db, config, step.s);
        AdmittedIsAfter(db, config, step);
      }
    }
  }

  lemma AdmittedIsAfter(db: Db, config: Governance.Config, step: Step)
    requires step.Ingesting? && Ingest(db, config, step.s).Ok?
    ensures After(db, config, step) == Ingest(db, config, step.s).value.db
  {
  }

  lemma StepAppends(db: Db, config: Governance.Config, step: Step)
    requires StepMoves(db, config, step, After(db, config, step))
    ensures LogOf(db) <= LogOf(After(db, config, step))
  {
  }

  /** After any run every recorded checkpoint has governance in the log, at or below its size. */
  lemma {:induction false} RunGoverns(config: Governance.Config, steps: seq<Step>)
    ensures AllGoverned(Run(config, steps), config)
    decreases |steps|
  {
    hide After, HasGovernance;
    RunIsValid(config, steps);
    if steps == [] {
    } else {
      RunGoverns(config, steps[..|steps| - 1]);
      StepGoverns(Run(config, steps[..|steps| - 1]), config, steps[|steps| - 1]);
    }
  }

  // ---- what a governed prefix resolves to ----

  /** A version installed by a walk carries the index it was installed at. */
  lemma InstalledHere(w: Governance.Walked, bytes: Blob, n: nat, config: Governance.Config)
    requires w.state.None? && Governance.WalkOn(w, bytes, n, config).Ok?
    ensures var after := Governance.WalkOn(w, bytes, n, config).value;
      after.versions == w.versions || (|after.versions| == |w.versions| + 1 && after.versions[|w.versions|].genesisIndex == n)
  {
    var after := Governance.Apply(w.state, bytes, n, config).value;
    if after.Some? {
      var payload, id := Governance.PayloadOf(bytes).value, EnvelopeId(Governance.EnvelopeOf(bytes));
      GovernanceChain.CadencePositive(payload, n, id, config.logId, n, None);
    }
  }

  lemma FirstVersionAt(entries: seq<Blob>, config: Governance.Config)
    requires entries != [] && Governance.Walk(entries, config).Ok?
    requires Governance.Walk(entries[..|entries| - 1], config).value.versions == []
    requires Governance.Walk(entries, config).value.versions != []
    ensures Governance.Walk(entries, config).value.versions[0].genesisIndex == |entries| - 1
  {
    var n := |entries| - 1;
    var w := Governance.Walk(entries[..n], config).value;
    GovernanceChain.WalkInvariant(entries[..n], config);
    InstalledHere(w, entries[n], n, config);
  }

  /** The genesis a walk selected was already selected when its own entry had been walked. */
  lemma {:induction false} GenesisAppears(entries: seq<Blob>, config: Governance.Config)
    requires Governance.Walk(entries, config).Ok? && Governance.Walk(entries, config).value.versions != []
    ensures var g := Governance.Walk(entries, config).value.versions[0].genesisIndex;
      && g + 1 <= |entries| && Governance.Walk(entries[..g + 1], config).Ok?
      && Governance.Walk(entries[..g + 1], config).value.versions != []
    decreases |entries|
  {
    hide Governance.WalkOn;
    var n := |entries| - 1;
    var init := entries[..n];
    GovernanceChain.VersionsOfPrefix(entries, n, config);
    if Governance.Walk(init, config).value.versions == [] {
      FirstVersionAt(entries, config);
      assert entries[..n + 1] == entries;
    } else {
      GenesisAppears(init, config);
      var g := Governance.Walk(init, config).value.versions[0].genesisIndex;
      assert init[..g + 1] == entries[..g + 1];
    }
  }

  /** The state a walk reached, and its first version, share a genesis. */
  lemma StateHasGenesis(entries: seq<Blob>, config: Governance.Config)
    requires Governance.Walk(entries, config).Ok?
    ensures var w := Governance.Walk(entries, config).value;
      && (w.state.Some? <==> w.versions != [])
      && (w.state.Some? ==> w.state.value.genesisIndex == w.versions[0].genesisIndex)
  {
    GovernanceChain.WalkInvariant(entries, config);
    var w := Governance.Walk(entries, config).value;
    if |w.versions| > 1 {
      GovernanceChain.VersionsRise(entries, w.versions, config, 0, |w.versions| - 1);
    }
  }

  /** Past a governed prefix nothing is unresolvable. */
  lemma ReachesState(log: seq<Blob>, config: Governance.Config, k: nat, n: nat)
    requires k <= n <= |log| && Governance.Versions(log[..k], config).Ok?
    ensures Reached(log, config, n) != Ok(None)
  {
    if Governance.Walk(log[..n], config).Ok? {
      assert log[..n][..k] == log[..k];
      GovernanceChain.VersionsOfPrefix(log[..n], k, config);
      StateHasGenesis(log[..n], config);
    }
  }

  lemma ReachesGenesis(log: seq<Blob>, config: Governance.Config, n: nat)
    requires n <= |log| && Reached(log, config, n).Ok? && Reached(log, config, n).value.Some?
    ensures var g := Reached(log, config, n).value.value.genesisIndex;
      g + 1 <= n && Reached(log, config, g + 1) != Ok(None)
  {
    var prefix := log[..n];
    StateHasGenesis(prefix, config);
    GenesisAppears(prefix, config);
    var g := Reached(log, config, n).value.value.genesisIndex;
    assert prefix[..g + 1] == log[..g + 1];
    StateHasGenesis(prefix[..g + 1], config);
  }

  // ---- the frontier ----

  /** Neither the governance of a size nor that of the genesis it names is unresolvable. */
  predicate Resolves(lookup: Lookup, size: nat) {
    && lookup(size) != Ok(None)
    && (lookup(size).Ok? ==> lookup(lookup(size).value.value.genesisIndex + 1) != Ok(None))
  }

  ghost predicate AllResolve(lookup: Lookup, usable: seq<Member>) {
    forall i :: 0 <= i < |usable| ==> Resolves(lookup, usable[i].size)
  }

  predicate NotUnresolvable(stop: Option<Stop>) {
    stop.Some? ==> !stop.value.GovernanceUnresolvable?
  }

  predicate StopsResolved(r: MirrorResult<Frontier>) {
    r.Ok? ==> NotUnresolvable(r.value.stop)
  }

  lemma {:induction false} ExtendResolves(lookup: Lookup, usable: seq<Member>, floor: Option<nat>, i: nat)
    requires 1 <= i <= |usable| && AllResolve(lookup, usable)
    ensures StopsResolved(ExtendFrontier(lookup, usable, floor, i))
    decreases |usable| - i
  {
    if i >= |usable| {
    } else {
      assert Resolves(lookup, usable[i - 1].size);
      ExtendResolves(lookup, usable, floor, i + 1);
    }
  }

  lemma FrontierResolves(lookup: Lookup, usable: seq<Member>, floor: Option<nat>)
    requires AllResolve(lookup, usable)
    ensures StopsResolved(ComputeFrontier(lookup, usable, floor))
  {
    if usable != [] {
      assert Resolves(lookup, usable[0].size);
      ExtendResolves(lookup, usable, floor, 1);
    }
  }

  lemma HeldResolves(db: Db, config: Governance.Config, cp: Checkpoint)
    requires AllGoverned(db, config) && Recorded(db, cp) && cp.treeSize <= |db.entries| && cp.treeSize <= MAX_I64
    ensures Resolves(LookupIn(db.entries, config), cp.treeSize)
  {
    hide GovernanceFor, Reached, SubtreeCache.CacheExact, LeafColumn;
    var n, log := cp.treeSize, LogOf(db);
    var k: nat :| k <= |log| && k <= n && Governance.Versions(log[..k], config).Ok?;
    ReachesState(log, config, k, n);
    LookupExact(db, config, n);
    if Reached(log, config, n).Ok? {
      ReachesGenesis(log, config, n);
      LookupExact(db, config, Reached(log, config, n).value.value.genesisIndex + 1);
    }
  }

  /** Over any run a view that computes never stops for want of governance: that stop is unreachable. */
  lemma NeverUnresolvable(config: Governance.Config, steps: seq<Step>, view: View)
    requires SeriesView(Run(config, steps), config) == Ok(view)
    ensures NotUnresolvable(view.stop)
  {
    hide Floor, Resolves, ValidTree;
    var db := Run(config, steps);
    RunGoverns(config, steps);
    RunIsWellRecorded(config, steps);
    ViewUsable(db, config);
    forall i | 0 <= i < |UsableIn(db)|
      ensures Resolves(LookupIn(db.entries, config), Timed(UsableIn(db))[i].size)
    {
      UsableInIs(db, i);
      TimedAt(UsableIn(db), i);
      HeldResolves(db, config, UsableIn(db)[i]);
    }
    FrontierResolves(LookupIn(db.entries, config), Timed(UsableIn(db)), Floor(db));
  }
}
