/** When the computed view of the series errs rather than answers: exactly where the frontier asks for
  * the governance of a held member and the walk of the entries up to it fails outright.
  */
module Computability {
  import opened Wrappers
  import opened Bits
  import opened Encoding
  import opened Tables
  import opened StoreSpec
  import opened CheckpointTime
  import opened SeriesOrder
  import opened Series
  import opened Usability
  import opened GapFree
  import opened Views
  import opened Retroactivity
  import opened Runs
  import Governance
  import SubtreeCache

  // ---- which errors a walk can meet ----

  /** An authentic statement of another revision, or a signature check that failed outright. */
  predicate IsWalkError(e: MirrorError) {
    e.UnsupportedStatementVersion? || e == EnvelopeVerification
  }

  lemma {:induction false} WalkErrors(entries: seq<Blob>, config: Governance.Config)
    ensures Governance.Walk(entries, config).Err? ==> IsWalkError(Governance.Walk(entries, config).error)
    decreases |entries|
  {
    if entries == [] {
    } else {
      WalkErrors(entries[..|entries| - 1], config);
    }
  }

  /** The governance the entries up to `n` resolve to: the state a walk of them reaches, or its error. */
  function Reached(log: seq<Blob>, config: Governance.Config, n: nat): MirrorResult<Option<Governance.State>>
    requires n <= |log|
  {
    var w :- Governance.Walk(log[..n], config);
    Ok(w.state)
  }

  lemma ResolvedIsReached(entries: seq<Blob>, config: Governance.Config)
    ensures var r := Governance.Resolve(entries, config);
      Reached(entries, config, |entries|) ==
      (if r.Ok? then Ok(Some(r.value)) else if r.error.GovernanceChainUnresolvable? then Ok(None) else Err(r.error))
  {
    assert entries[..|entries|] == entries;
    WalkErrors(entries, config);
  }

  /** Over a held prefix the lookup is that walk: an unresolved chain is `None`, and any other error the
    * walk's own.
    */
  lemma LookupExact(db: Db, config: Governance.Config, n: nat)
    requires ValidTree(db) && n <= |db.entries| && n <= MAX_I64
    ensures GovernanceFor(db.entries, config, n) == Reached(LogOf(db), config, n)
  {
    RangeOfContiguous(db.entries, 0, n);
    var prefix := LogOf(db)[..n];
    assert prefix == LogOf(db)[0..n];
    assert prefix[..n] == prefix;
    ResolvedIsReached(prefix, config);
  }

  /** What a prefix of a walk reaches does not err if the walk does not. */
  lemma ReachedOfPrefix(log: seq<Blob>, config: Governance.Config, m: nat, n: nat)
    requires m <= n <= |log| && Reached(log, config, n).Ok?
    ensures Reached(log, config, m).Ok?
  {
    assert log[..n][..m] == log[..m];
    if Governance.Walk(log[..m], config).Err? {
      Governance.WalkErrorPersists(log[..n], m, config);
    }
  }

  /** Past what is held there is none to find. */
  lemma UnheldLookup(db: Db, config: Governance.Config, n: nat)
    requires ValidTree(db) && |db.entries| < n <= MAX_I64
    ensures GovernanceFor(db.entries, config, n) == Ok(None)
  {
    hide SubtreeCache.CacheExact, LeafColumn;
    RangeOfContiguous(db.entries, 0, n);
  }

  // ---- when the frontier errs ----

  /** Step `i` is taken, and errs. */
  ghost predicate StepErrs(lookup: Lookup, usable: seq<Member>, floor: Option<nat>, i: nat, e: MirrorError) {
    1 <= i < |usable| && GapFreePrefix(lookup, usable, floor, i) && StepAt(lookup, usable, floor, i) == Err(e)
  }

  /** Extending errs exactly when a step from here on does. */
  lemma {:induction false} ExtendErrs(lookup: Lookup, usable: seq<Member>, floor: Option<nat>, i: nat, e: MirrorError)
    requires 1 <= i <= |usable| && GapFreePrefix(lookup, usable, floor, i)
    ensures ExtendFrontier(lookup, usable, floor, i) == Err(e) <==> exists k :: i <= k && StepErrs(lookup, usable, floor, k, e)
    decreases |usable| - i
  {
    hide GapFreePrefix, StepAt;
    if i < |usable| {
      var step := StepAt(lookup, usable, floor, i);
      if step == Ok(None) {
        GoesOn(lookup, usable, floor, i);
        ExtendErrs(lookup, usable, floor, i + 1, e);
      } else {
        if step.Err? {
          assert step.error == e ==> StepErrs(lookup, usable, floor, i, e);
        }
        forall k | i < k
          ensures !StepErrs(lookup, usable, floor, k, e)
        {
          if GapFreePrefix(lookup, usable, floor, k) {
            PrefixPasses(lookup, usable, floor, i, k);
          }
        }
      }
    }
  }

  /** A longer gap-free prefix passes each step within it. */
  lemma PrefixPasses(lookup: Lookup, usable: seq<Member>, floor: Option<nat>, i: nat, k: nat)
    requires 1 <= i < k && GapFreePrefix(lookup, usable, floor, k)
    ensures i < |usable| && StepAt(lookup, usable, floor, i) == Ok(None)
  {
    assert !AtOrAbove(usable[i].size, floor);
    assert IntervalKept(lookup, usable, i);
  }

  /** The frontier errs exactly when its start or a step taken after it does. */
  lemma FrontierErrs(lookup: Lookup, usable: seq<Member>, floor: Option<nat>, e: MirrorError)
    ensures ComputeFrontier(lookup, usable, floor) == Err(e) <==>
      usable != [] && (StartStop(lookup, usable[0], floor) == Err(e) || exists k :: 1 <= k && StepErrs(lookup, usable, floor, k, e))
  {
    if usable != [] {
      var start := StartStop(lookup, usable[0], floor);
      if start == Ok(None) {
        StartStopExact(lookup, usable[0], floor);
        ExtendErrs(lookup, usable, floor, 1, e);
      } else {
        NoPrefix(lookup, usable, floor);
      }
    }
  }

  lemma NoPrefix(lookup: Lookup, usable: seq<Member>, floor: Option<nat>)
    requires usable != [] && StartStop(lookup, usable[0], floor) != Ok(None)
    ensures forall k: nat :: !GapFreePrefix(lookup, usable, floor, k)
  {
    if AtOrAbove(usable[0].size, floor) {
      forall k: nat
        ensures !GapFreePrefix(lookup, usable, floor, k)
      {
        assert 1 <= k <= |usable| ==> !AllBelow(usable, floor, k);
      }
    }
  }

  // ---- the question the frontier asks ----

  /** The frontier asks for the governance in force for member `k`: to start from it, or, once the first
    * `k + 1` members are gap-free, to judge the interval to the next member below the floor.
    */
  ghost predicate AsksAbout(lookup: Lookup, usable: seq<Member>, floor: Option<nat>, k: nat)
    requires k < |usable|
  {
    || (k == 0 && !AtOrAbove(usable[0].size, floor))
    || (k + 1 < |usable| && GapFreePrefix(lookup, usable, floor, k + 1)
        && !AtOrAbove(usable[k + 1].size, floor) && InOrder(usable[k], usable[k + 1]))
  }

  /** It asks about a member whose governance errs. */
  ghost predicate AsksInVain(lookup: Lookup, usable: seq<Member>, floor: Option<nat>, k: nat, e: MirrorError) {
    k < |usable| && AsksAbout(lookup, usable, floor, k) && lookup(usable[k].size) == Err(e)
  }

  /** Every time parses, and no genesis lookup errs where the lookup that named it does not. */
  ghost predicate WellAsked(lookup: Lookup, usable: seq<Member>) {
    forall k :: 0 <= k < |usable| ==> usable[k].time.Ok? && GenesisAnswers(lookup, usable[k].size)
  }

  predicate GenesisAnswers(lookup: Lookup, size: nat) {
    GovernanceAt(lookup, size).Some? ==> lookup(GovernanceAt(lookup, size).value.genesisIndex + 1).Ok?
  }

  lemma StartAsks(lookup: Lookup, usable: seq<Member>, floor: Option<nat>, e: MirrorError)
    requires WellAsked(lookup, usable) && usable != []
    ensures StartStop(lookup, usable[0], floor) == Err(e) <==> !AtOrAbove(usable[0].size, floor) && lookup(usable[0].size) == Err(e)
  {
    assert usable[0].time.Ok? && GenesisAnswers(lookup, usable[0].size);
  }

  lemma StepAsks(lookup: Lookup, usable: seq<Member>, floor: Option<nat>, k: nat, e: MirrorError)
    requires WellAsked(lookup, usable) && k + 1 < |usable| && GapFreePrefix(lookup, usable, floor, k + 1)
    ensures StepErrs(lookup, usable, floor, k + 1, e) <==>
      !AtOrAbove(usable[k + 1].size, floor) && InOrder(usable[k], usable[k + 1]) && lookup(usable[k].size) == Err(e)
  {
    hide GapFreePrefix;
    assert usable[k].time.Ok? && usable[k + 1].time.Ok?;
  }

  /** The frontier errs exactly where it asks in vain. */
  lemma FrontierAsks(lookup: Lookup, usable: seq<Member>, floor: Option<nat>, e: MirrorError)
    requires WellAsked(lookup, usable)
    ensures ComputeFrontier(lookup, usable, floor) == Err(e) <==> exists k: nat :: AsksInVain(lookup, usable, floor, k, e)
  {
    hide GapFreePrefix, ComputeFrontier, StartStop, WellAsked;
    FrontierErrs(lookup, usable, floor, e);
    if usable != [] {
      StartAsks(lookup, usable, floor, e);
      if StartStop(lookup, usable[0], floor) == Err(e) {
        assert AsksInVain(lookup, usable, floor, 0, e);
      }
      if k :| 1 <= k && StepErrs(lookup, usable, floor, k, e) {
        StepAsks(lookup, usable, floor, k - 1, e);
        assert AsksInVain(lookup, usable, floor, k - 1, e);
      }
      if k: nat :| AsksInVain(lookup, usable, floor, k, e) {
        if k > 0 || AtOrAbove(usable[0].size, floor) {
          StepAsks(lookup, usable, floor, k, e);
        }
      }
    }
  }

  // ---- the view ----

  /** The usable members of a store, in order: the established ones. */
  ghost function UsableIn(db: Db): seq<Checkpoint>
    requires ValidTree(db)
  {
    EstablishedOf(LeavesOf(db), Sort(db.checkpoints))
  }

  lemma UsableInIs(db: Db, k: nat)
    requires ValidTree(db) && AllWellRecorded(db) && k < |UsableIn(db)|
    ensures var cp := UsableIn(db)[k];
      cp in db.checkpoints && Established(LeavesOf(db), cp) && WellRecorded(cp) && cp.treeSize <= |db.entries|
  {
    SortIsOrdered(db.checkpoints);
    EstablishedOfMembers(LeavesOf(db), Sort(db.checkpoints));
    var cp := UsableIn(db)[k];
    assert cp in UsableIn(db);
    assert Recorded(db, cp);
  }

  lemma GenesisIsAnswered(db: Db, config: Governance.Config, n: nat)
    requires ValidTree(db) && n <= |db.entries| && n <= MAX_I64
    ensures GenesisAnswers(LookupIn(db.entries, config), n)
  {
    hide GovernanceFor, Reached, SubtreeCache.CacheExact, LeafColumn;
    var found := GovernanceFor(db.entries, config, n);
    if found.Ok? && found.value.Some? {
      var m := found.value.value.genesisIndex + 1;
      GenesisIsHeld(db.entries, config, n);
      LookupExact(db, config, n);
      LookupExact(db, config, m);
      ReachedOfPrefix(LogOf(db), config, m, n);
    }
  }

  lemma StoreIsWellAsked(db: Db, config: Governance.Config)
    requires ValidTree(db) && AllWellRecorded(db)
    ensures WellAsked(LookupIn(db.entries, config), Timed(UsableIn(db)))
  {
    hide ParseTime, GenesisAnswers, Established, UsableIn;
    forall k | 0 <= k < |UsableIn(db)|
      ensures Timed(UsableIn(db))[k].time.Ok? && GenesisAnswers(LookupIn(db.entries, config), Timed(UsableIn(db))[k].size)
    {
      UsableInIs(db, k);
      TimedAt(UsableIn(db), k);
      GenesisIsAnswered(db, config, UsableIn(db)[k].treeSize);
    }
  }

  /** The governance of some member the frontier asks about is out of reach: the walk of the entries up
    * to its size fails with `e`.
    */
  ghost predicate Breaks(db: Db, config: Governance.Config, k: nat, e: MirrorError)
    requires ValidTree(db)
  {
    && k < |UsableIn(db)| && UsableIn(db)[k].treeSize <= |db.entries|
    && AsksAbout(LookupIn(db.entries, config), Timed(UsableIn(db)), Floor(db), k)
    && Reached(LogOf(db), config, UsableIn(db)[k].treeSize) == Err(e)
  }

  lemma BreaksIsInVain(db: Db, config: Governance.Config, k: nat, e: MirrorError)
    requires ValidTree(db) && AllWellRecorded(db)
    ensures Breaks(db, config, k, e) <==> AsksInVain(LookupIn(db.entries, config), Timed(UsableIn(db)), Floor(db), k, e)
  {
    hide AsksAbout, ParseTime, Established, UsableIn, Floor;
    if k < |UsableIn(db)| {
      UsableInIs(db, k);
      TimedAt(UsableIn(db), k);
      LookupExact(db, config, UsableIn(db)[k].treeSize);
    }
  }

  /** Over a valid store of well-recorded checkpoints the view errs exactly when the frontier asks for
    * the governance of a usable member and the walk of the entries up to it fails; and then with the
    * walk's own error.
    */
  lemma ViewErrsExact(db: Db, config: Governance.Config, e: MirrorError)
    requires ValidTree(db) && AllWellRecorded(db) && PositiveSizes(db.checkpoints)
    ensures SeriesView(db, config) == Err(e) <==> exists k: nat :: Breaks(db, config, k, e)
  {
    hide ComputeFrontier, Floor, FindDivergences, AsksInVain, Breaks;
    StoreIsWellAsked(db, config);
    FrontierAsks(LookupIn(db.entries, config), Timed(UsableIn(db)), Floor(db), e);
    forall k: nat
      ensures Breaks(db, config, k, e) <==> AsksInVain(LookupIn(db.entries, config), Timed(UsableIn(db)), Floor(db), k, e)
    {
      BreaksIsInVain(db, config, k, e);
    }
    SortIsOrdered(db.checkpoints);
    LabelExact(db, Sort(db.checkpoints));
  }

  /** So a log whose walk goes through has a view, whatever was recorded. */
  lemma WalkedLogHasView(db: Db, config: Governance.Config)
    requires ValidTree(db) && AllWellRecorded(db) && PositiveSizes(db.checkpoints)
    requires Governance.Walk(LogOf(db), config).Ok?
    ensures SeriesView(db, config).Ok?
  {
    hide SeriesView;
    var r := SeriesView(db, config);
    if r.Err? {
      ViewErrsExact(db, config, r.error);
      var k: nat :| Breaks(db, config, k, r.error);
      Governance.WalkErrorPersists(LogOf(db), UsableIn(db)[k].treeSize, config);
    }
  }

  /** The log after a run. */
  ghost function LogAfter(config: Governance.Config, steps: seq<Step>): seq<Blob> {
    RunIsValid(config, steps);
    LogOf(Run(config, steps))
  }

  /** After every run, if the walk of what is held goes through, the view computes. */
  lemma RunHasView(config: Governance.Config, steps: seq<Step>)
    requires Governance.Walk(LogAfter(config, steps), config).Ok?
    ensures SeriesView(Run(config, steps), config).Ok?
  {
    RunIsValid(config, steps);
    RunIsWellRecorded(config, steps);
    WalkedLogHasView(Run(config, steps), config);
  }

  /** And exactly then: after a run the view computes if and only if no governance the frontier asks for
    * is out of reach.
    */
  lemma RunViewExact(config: Governance.Config, steps: seq<Step>)
    ensures ValidTree(Run(config, steps))
    ensures SeriesView(Run(config, steps), config).Ok? <==> forall k: nat, e :: !Breaks(Run(config, steps), config, k, e)
  {
    hide SeriesView, Breaks, ValidTree, Run;
    RunIsValid(config, steps);
    RunIsWellRecorded(config, steps);
    var db := Run(config, steps);
    if SeriesView(db, config).Err? {
      ViewErrsExact(db, config, SeriesView(db, config).error);
    }
    if k: nat, e :| Breaks(db, config, k, e) {
      ViewErrsExact(db, config, e);
    }
  }

  // ---- appending, with both views ----

  /** Entries appended under a walk that goes through take nothing back: both views compute, and the
    * later one keeps the floor, the frontier or a larger one, every violation and every bound.
    */
  lemma AppendingKeepsTheView(before: Db, after: Db, config: Governance.Config)
    requires Grown(before, after) && AllWellRecorded(before) && PositiveSizes(before.checkpoints)
    requires Governance.Walk(LogOf(after), config).Ok?
    ensures SeriesView(before, config).Ok? && SeriesView(after, config).Ok?
    ensures var v, w := SeriesView(before, config).value, SeriesView(after, config).value;
      && w.floor == v.floor && w.divergences == v.divergences
      && (v.frontier.Some? ==> w.frontier.Some? && v.frontier.value <= w.frontier.value)
      && (v.stop.Some? && !v.stop.value.Equivocation? ==> w.stop == v.stop && w.frontier == v.frontier)
      && (forall index :: Itub(v, index).Some? ==> Itub(w, index) == Itub(v, index))
  {
    hide SeriesView, SubtreeCache.CacheExact, LeafColumn;
    assert LogOf(after)[..|LogOf(before)|] == LogOf(before);
    if Governance.Walk(LogOf(before), config).Err? {
      Governance.WalkErrorPersists(LogOf(after), |LogOf(before)|, config);
    }
    SameRecords(before, after);
    WalkedLogHasView(before, config);
    WalkedLogHasView(after, config);
    var v, w := SeriesView(before, config).value, SeriesView(after, config).value;
    AppendingNeverTakesBack(before, after, config, v, w);
    forall index | Itub(v, index).Some?
      ensures Itub(w, index) == Itub(v, index)
    {
      BoundStays(before, after, config, v, w, index);
    }
  }

  lemma SameRecords(before: Db, after: Db)
    requires after.checkpoints == before.checkpoints && after.anchors == before.anchors && AllWellRecorded(before)
    ensures AllWellRecorded(after)
  {
    assert forall cp :: Recorded(after, cp) ==> Recorded(before, cp);
  }
}
