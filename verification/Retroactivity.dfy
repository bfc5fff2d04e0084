/** Appending canonical entries never takes back what a view already reported. */
module Retroactivity {
  import opened Wrappers
  import opened Bits
  import opened Encoding
  import opened Merkle
  import opened Tables
  import opened StoreSpec
  import opened TextOrder
  import opened SeriesOrder
  import opened Series
  import opened Usability
  import opened GapFree
  import opened Views
  import opened Incorporation
  import Governance
  import GovernanceChain

  /** A later state of one store whose checkpoint tables did not change. */
  ghost predicate Grown(before: Db, after: Db) {
    && ValidTree(before) && ValidTree(after)
    && LogOf(before) <= LogOf(after)
    && after.checkpoints == before.checkpoints && after.anchors == before.anchors
  }

  // ---- the usable series only gains members past the old log ----

  lemma EstablishedStays(d: seq<Hash>, e: seq<Hash>, cp: Checkpoint)
    requires d <= e && cp.treeSize <= |d|
    ensures Established(d, cp) <==> Established(e, cp)
  {
    if cp.treeSize > 0 {
      RootOfPrefix(d, e, 0, cp.treeSize);
    }
  }

  lemma {:induction false} EstablishedPrefix(d: seq<Hash>, e: seq<Hash>, rows: seq<Checkpoint>)
    requires d <= e && Sorted(rows)
    ensures EstablishedOf(d, rows) <= EstablishedOf(e, rows)
    ensures rows != [] && rows[|rows| - 1].treeSize <= |d| ==> EstablishedOf(d, rows) == EstablishedOf(e, rows)
    decreases |rows|
  {
    if rows == [] {
    } else {
      var init, last := rows[..|rows| - 1], rows[|rows| - 1];
      EstablishedPrefix(d, e, init);
      if last.treeSize <= |d| {
        EstablishedStays(d, e, last);
        if init != [] {
          assert KeyLe(init[|init| - 1], last);
        }
      }
    }
  }

  // ---- the governance of a held prefix does not change ----

  lemma RangeStays(before: Db, after: Db, n: nat)
    requires Grown(before, after) && n <= |before.entries|
    ensures EntriesRange(after.entries, 0, n) == EntriesRange(before.entries, 0, n)
  {
    RangeOfContiguous(before.entries, 0, n);
    RangeOfContiguous(after.entries, 0, n);
    assert LogOf(after)[0..n] == LogOf(before)[0..n];
  }

  lemma SameRangeSameGovernance(before: Entries, after: Entries, config: Governance.Config, n: nat)
    requires EntriesRange(after, 0, n) == EntriesRange(before, 0, n)
    ensures GovernanceFor(after, config, n) == GovernanceFor(before, config, n)
  {
  }

  lemma GenesisIsInside(entries: seq<Blob>, config: Governance.Config)
    requires Governance.Resolve(entries, config).Ok?
    ensures Governance.Resolve(entries, config).value.genesisIndex < |entries|
  {
    GovernanceChain.WalkInvariant(entries, config);
    var w := Governance.Walk(entries, config).value;
    if |w.versions| > 1 {
      GovernanceChain.VersionsRise(entries, w.versions, config, 0, |w.versions| - 1);
    }
  }

  lemma GenesisIsHeld(entries: Entries, config: Governance.Config, n: nat)
    ensures var r := GovernanceFor(entries, config, n);
      r.Ok? && r.value.Some? ==> r.value.value.genesisIndex + 1 <= n
  {
    if Governance.Resolve(EntriesRange(entries, 0, n), config).Ok? {
      GenesisIsInside(EntriesRange(entries, 0, n), config);
    }
  }

  /** Two lookups that agree on everything up to `n`, where the genesis of what they find also lies. */
  ghost predicate SameUpTo(was: Lookup, now: Lookup, n: nat) {
    forall m: nat :: m <= n ==> now(m) == was(m) && GenesisWithin(was(m), m)
  }

  predicate GenesisWithin(r: MirrorResult<Option<Governance.State>>, n: nat) {
    r.Ok? && r.value.Some? ==> r.value.value.genesisIndex + 1 <= n
  }

  lemma GovernanceStays(before: Db, after: Db, config: Governance.Config)
    requires Grown(before, after)
    ensures SameUpTo(LookupIn(before.entries, config), LookupIn(after.entries, config), |before.entries|)
  {
    forall m: nat | m <= |before.entries|
      ensures GovernanceFor(after.entries, config, m) == GovernanceFor(before.entries, config, m)
      ensures GenesisWithin(GovernanceFor(before.entries, config, m), m)
    {
      RangeStays(before, after, m);
      SameRangeSameGovernance(before.entries, after.entries, config, m);
      GenesisIsHeld(before.entries, config, m);
    }
    LookupsAgree(before.entries, after.entries, config, |before.entries|);
  }

  lemma LookupsAgree(before: Entries, after: Entries, config: Governance.Config, n: nat)
    requires forall m: nat :: m <= n ==> GovernanceFor(after, config, m) == GovernanceFor(before, config, m)
    requires forall m: nat :: m <= n ==> GenesisWithin(GovernanceFor(before, config, m), m)
    ensures SameUpTo(LookupIn(before, config), LookupIn(after, config), n)
  {
  }

  // ---- the frontier ----

  /** A frontier computed later: no shorter, and identical where a violation had stopped it. */
  ghost predicate Later(f: Frontier, g: Frontier) {
    && (f.reached.Some? ==> g.reached.Some? && f.reached.value <= g.reached.value)
    && (f.stop.Some? && !f.stop.value.Equivocation? ==> g == f)
  }

  ghost predicate LaterResult(a: MirrorResult<Frontier>, b: MirrorResult<Frontier>) {
    a.Ok? && b.Ok? ==> Later(a.value, b.value)
  }

  lemma {:induction false} ReachesAtLeast(lookup: Lookup, usable: seq<Member>, floor: Option<nat>, i: nat)
    requires 1 <= i <= |usable| && Rising(usable) && ExtendFrontier(lookup, usable, floor, i).Ok?
    ensures var f := ExtendFrontier(lookup, usable, floor, i).value;
      f.reached.Some? && f.reached.value >= usable[i - 1].size
    decreases |usable| - i
  {
    if i >= |usable| {
    } else {
      ExtendUnfolds(lookup, usable, floor, i);
      if StepAt(lookup, usable, floor, i) == Ok(None) {
        ReachesAtLeast(lookup, usable, floor, i + 1);
      }
    }
  }

  /** Every member of a listing lies within the first `n` entries. */
  ghost predicate AllWithin(usable: seq<Member>, n: nat) {
    forall i :: 0 <= i < |usable| ==> usable[i].size <= n
  }

  lemma StepStays(was: Lookup, now: Lookup, n: nat, usable: seq<Member>, more: seq<Member>, floor: Option<nat>, i: nat)
    requires usable <= more && 1 <= i < |usable| && SameUpTo(was, now, n) && AllWithin(usable, n)
    ensures StepAt(now, more, floor, i) == StepAt(was, usable, floor, i)
  {
    assert more[i - 1] == usable[i - 1] && more[i] == usable[i];
  }

  lemma {:induction false} ExtendLater(was: Lookup, now: Lookup, n: nat, usable: seq<Member>, more: seq<Member>, floor: Option<nat>, i: nat)
    requires 1 <= i <= |usable| && usable <= more && Rising(more) && SameUpTo(was, now, n) && AllWithin(usable, n)
    ensures LaterResult(ExtendFrontier(was, usable, floor, i), ExtendFrontier(now, more, floor, i))
    decreases |usable| - i
  {
    if i == |usable| {
      if ExtendFrontier(now, more, floor, i).Ok? {
        ReachesAtLeast(now, more, floor, i);
      }
    } else {
      StepStays(was, now, n, usable, more, floor, i);
      ExtendLater(was, now, n, usable, more, floor, i + 1);
    }
  }

  lemma StartStays(was: Lookup, now: Lookup, n: nat, first: Member, floor: Option<nat>)
    requires SameUpTo(was, now, n) && first.size <= n
    ensures StartStop(now, first, floor) == StartStop(was, first, floor)
  {
    assert GenesisWithin(was(first.size), first.size);
  }

  /** The frontier of a longer listing under lookups that agree on the old one. */
  lemma FrontierLater(was: Lookup, now: Lookup, n: nat, usable: seq<Member>, more: seq<Member>, floor: Option<nat>)
    requires SameUpTo(was, now, n) && AllWithin(usable, n) && usable <= more && Rising(more)
    ensures LaterResult(ComputeFrontier(was, usable, floor), ComputeFrontier(now, more, floor))
  {
    if usable != [] {
      assert more[0] == usable[0];
      StartStays(was, now, n, usable[0], floor);
      ExtendLater(was, now, n, usable, more, floor, 1);
    }
  }

  // ---- the views ----

  lemma TimedOfPrefix(a: seq<Checkpoint>, b: seq<Checkpoint>)
    requires a <= b
    ensures Timed(a) <= Timed(b)
  {
    forall i | 0 <= i < |a|
      ensures Timed(a)[i] == Timed(b)[i]
    {
      TimedAt(a, i);
      TimedAt(b, i);
    }
  }

  /** `more` keeps every member of `usable` in place, and gains only members past `n`. */
  ghost predicate GrowsPast(usable: seq<Checkpoint>, more: seq<Checkpoint>, n: nat) {
    && usable <= more
    && (forall i :: 0 <= i < |usable| ==> usable[i].treeSize <= n)
    && (forall i :: |usable| <= i < |more| ==> more[i].treeSize > n)
  }

  lemma {:induction false} EstablishedGrows(d: seq<Hash>, e: seq<Hash>, rows: seq<Checkpoint>)
    requires d <= e && Sorted(rows)
    ensures GrowsPast(EstablishedOf(d, rows), EstablishedOf(e, rows), |d|)
    decreases |rows|
  {
    if rows == [] {
    } else {
      EstablishedPrefix(d, e, rows);
      EstablishedGrows(d, e, rows[..|rows| - 1]);
    }
  }

  /** The usable subset of the later view. */
  lemma UsableGrows(before: Db, after: Db, config: Governance.Config, v: View, w: View)
    requires Grown(before, after) && PositiveSizes(before.checkpoints)
    requires SeriesView(before, config) == Ok(v) && SeriesView(after, config) == Ok(w)
    ensures GrowsPast(UsableOf(v.members), UsableOf(w.members), |before.entries|) && Sorted(UsableOf(w.members))
  {
    ViewUsable(before, config);
    ViewUsable(after, config);
    LeavesOfPrefix(LogOf(before), LogOf(after));
    SortIsOrdered(before.checkpoints);
    EstablishedGrows(LeavesOf(before), LeavesOf(after), Sort(before.checkpoints));
  }

  /** With the checkpoint tables fixed, appending entries never lowers the frontier, never changes a
    * start, time, cadence or governance violation already reported, and never moves the floor.
    */
  lemma AppendingNeverTakesBack(before: Db, after: Db, config: Governance.Config, v: View, w: View)
    requires Grown(before, after) && PositiveSizes(before.checkpoints)
    requires SeriesView(before, config) == Ok(v) && SeriesView(after, config) == Ok(w)
    ensures w.floor == v.floor && w.divergences == v.divergences
    ensures v.frontier.Some? ==> w.frontier.Some? && v.frontier.value <= w.frontier.value
    ensures v.stop.Some? && !v.stop.value.Equivocation? ==> w.stop == v.stop && w.frontier == v.frontier
  {
    UsableGrows(before, after, config, v, w);
    var usable, more := UsableOf(v.members), UsableOf(w.members);
    TimedOfPrefix(usable, more);
    EstablishedRises(more);
    forall i | 0 <= i < |usable|
      ensures Timed(usable)[i].size <= |before.entries|
    {
      TimedAt(usable, i);
    }
    GovernanceStays(before, after, config);
    FrontierLater(LookupIn(before.entries, config), LookupIn(after.entries, config), |before.entries|,
                  Timed(usable), Timed(more), Floor(before));
  }

  /** The first member past an index is the same one in any longer listing. */
  lemma FirstStays(usable: seq<Checkpoint>, more: seq<Checkpoint>, index: nat, p: nat, q: nat)
    requires usable <= more && FirstAt(usable, index, p) && FirstAt(more, index, q)
    ensures p == q && more[q] == usable[p]
  {
    assert more[p] == usable[p];
    assert forall k :: 0 <= k < p ==> more[k] == usable[k];
  }

  /** A bound once defined keeps its checkpoint. */
  lemma BoundStays(before: Db, after: Db, config: Governance.Config, v: View, w: View, index: nat)
    requires Grown(before, after) && PositiveSizes(before.checkpoints)
    requires SeriesView(before, config) == Ok(v) && SeriesView(after, config) == Ok(w)
    requires Itub(v, index).Some?
    ensures Itub(w, index) == Itub(v, index)
  {
    UsableGrows(before, after, config, v, w);
    AppendingNeverTakesBack(before, after, config, v, w);
    var i, p := ItubExact(before, config, v, index);
    var j, q := ItubExact(after, config, w, index);
    FirstStays(UsableOf(v.members), UsableOf(w.members), index, p, q);
  }
}
