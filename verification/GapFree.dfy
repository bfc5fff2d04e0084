/** The gap-free frontier against what it means over the usable series. */
module GapFree {
  import opened Wrappers
  import opened Bits
  import opened Encoding
  import opened Tables
  import opened Series
  import Governance

  // ---- what it means to be gap-free ----

  /** The governance a lookup found, if it did. */
  function Found(r: MirrorResult<Option<Governance.State>>): Option<Governance.State> {
    match r
    case Ok(state) => state
    case Err(_) => None
  }

  /** The governance in force for a prefix, where it resolves. */
  function GovernanceAt(lookup: Lookup, treeSize: nat): Option<Governance.State> {
    Found(lookup(treeSize))
  }

  /** The first member's time lies in the closed window of the genesis cadence from its epoch. */
  predicate StartsInWindow(lookup: Lookup, first: Member) {
    && GovernanceAt(lookup, first.size).Some?
    && var g := GovernanceAt(lookup, first.size).value;
    && GovernanceAt(lookup, g.genesisIndex + 1).Some?
    && var genesis := GovernanceAt(lookup, g.genesisIndex + 1).value;
    && first.time.Ok?
    && genesis.epochNanos <= first.time.value <= genesis.epochNanos + genesis.cadenceNanos
  }

  predicate InOrder(a: Member, b: Member) {
    a.time.Ok? && b.time.Ok?
    && a.time.value <= b.time.value
  }

  /** Time does not decrease, and the interval is within the cadence governing its earlier member. */
  predicate WithinCadence(governance: Option<Governance.State>, a: Member, b: Member) {
    && InOrder(a, b)
    && governance.Some?
    && b.time.value - a.time.value <= governance.value.cadenceNanos
  }

  /** The interval that begins at member `i - 1`, judged by the version governing that member. */
  predicate IntervalKept(lookup: Lookup, usable: seq<Member>, i: nat)
    requires 1 <= i < |usable|
  {
    WithinCadence(GovernanceAt(lookup, usable[i - 1].size), usable[i - 1], usable[i])
  }

  /** The first `j` members all lie below the floor. */
  ghost predicate AllBelow(usable: seq<Member>, floor: Option<nat>, j: nat)
    requires j <= |usable|
  {
    forall i :: 0 <= i < j ==> !AtOrAbove(usable[i].size, floor)
  }

  /** Every interval among the first `j` members is kept. */
  ghost predicate AllKept(lookup: Lookup, usable: seq<Member>, j: nat)
    requires j <= |usable|
  {
    forall i :: 1 <= i < j ==> IntervalKept(lookup, usable, i)
  }

  /** The first `j` usable members start in the window, stay below the floor and keep the cadence. */
  ghost predicate GapFreePrefix(lookup: Lookup, usable: seq<Member>, floor: Option<nat>, j: nat) {
    && 1 <= j <= |usable|
    && StartsInWindow(lookup, usable[0])
    && AllBelow(usable, floor, j)
    && AllKept(lookup, usable, j)
  }

  /** The longest gap-free prefix has `j` members; none at all when `j` is zero. */
  ghost predicate Longest(lookup: Lookup, usable: seq<Member>, floor: Option<nat>, j: nat) {
    && j <= |usable|
    && (j > 0 ==> GapFreePrefix(lookup, usable, floor, j))
    && (j < |usable| ==> !GapFreePrefix(lookup, usable, floor, j + 1))
  }

  /** Which condition the series fails to start on, first in order of the checks. */
  predicate NamesStartFailure(lookup: Lookup, first: Member, floor: Option<nat>, stop: Stop) {
    match stop
    case Equivocation(at) => AtOrAbove(first.size, floor) && floor == Some(at)
    case GovernanceUnresolvable(at) =>
      !AtOrAbove(first.size, floor) && GovernanceAt(lookup, at).None?
      && (at == first.size
          || (GovernanceAt(lookup, first.size).Some?
              && at == GovernanceAt(lookup, first.size).value.genesisIndex + 1))
    case NoValidStart =>
      !AtOrAbove(first.size, floor) && GovernanceAt(lookup, first.size).Some?
      && GovernanceAt(lookup, GovernanceAt(lookup, first.size).value.genesisIndex + 1).Some?
      && !StartsInWindow(lookup, first)
    case _ => false
  }

  /** Which condition the step from `prev` to `cp` fails, first in order of the checks. */
  predicate NamesStepFailure(governance: Option<Governance.State>, prev: Member, cp: Member, floor: Option<nat>, stop: Stop) {
    match stop
    case Equivocation(at) => AtOrAbove(cp.size, floor) && floor == Some(at)
    case DecreasingTime(after) => !AtOrAbove(cp.size, floor) && !InOrder(prev, cp) && after == prev.size
    case GovernanceUnresolvable(at) =>
      !AtOrAbove(cp.size, floor) && InOrder(prev, cp) && at == prev.size && governance.None?
    case CadenceExceeded(after) =>
      !AtOrAbove(cp.size, floor) && InOrder(prev, cp) && after == prev.size
      && governance.Some? && !WithinCadence(governance, prev, cp)
    case NoValidStart => false
  }

  /** The stop reported for a longest prefix of `j` members: nothing but the floor once every member
    * is in it, and otherwise the first condition the next member fails.
    */
  ghost predicate NamesStop(lookup: Lookup, usable: seq<Member>, floor: Option<nat>, j: nat, stop: Option<Stop>)
    requires j <= |usable|
  {
    if j == |usable| then stop == EquivocationStop(floor)
    else if stop.None? then false
    else if j == 0 then NamesStartFailure(lookup, usable[0], floor, stop.value)
    else NamesStepFailure(GovernanceAt(lookup, usable[j - 1].size), usable[j - 1], usable[j], floor, stop.value)
  }

  // ---- the frontier is the longest gap-free prefix ----

  lemma StartStopExact(lookup: Lookup, first: Member, floor: Option<nat>)
    requires StartStop(lookup, first, floor).Ok?
    ensures var stop := StartStop(lookup, first, floor).value;
      if stop.None? then !AtOrAbove(first.size, floor) && StartsInWindow(lookup, first)
      else NamesStartFailure(lookup, first, floor, stop.value)
           && (AtOrAbove(first.size, floor) || !StartsInWindow(lookup, first))
  {
  }

  lemma StepStopExact(governance: MirrorResult<Option<Governance.State>>, prev: Member, cp: Member, floor: Option<nat>)
    requires StepStop(governance, prev, cp, floor).Ok?
    ensures var stop := StepStop(governance, prev, cp, floor).value;
      if stop.None? then !AtOrAbove(cp.size, floor) && WithinCadence(Found(governance), prev, cp)
      else NamesStepFailure(Found(governance), prev, cp, floor, stop.value)
           && (AtOrAbove(cp.size, floor) || !WithinCadence(Found(governance), prev, cp))
  {
  }

  /** What a computed frontier says, for the length of the prefix it stopped after. */
  ghost predicate FrontierIs(lookup: Lookup, usable: seq<Member>, floor: Option<nat>, j: nat, f: Frontier) {
    && Longest(lookup, usable, floor, j)
    && f.reached == (if j == 0 then None else Some(usable[j - 1].size))
    && NamesStop(lookup, usable, floor, j, f.stop)
  }

  lemma AllKeptStep(lookup: Lookup, usable: seq<Member>, j: nat)
    requires 1 <= j < |usable|
    ensures AllKept(lookup, usable, j + 1) <==> AllKept(lookup, usable, j) && IntervalKept(lookup, usable, j)
  {
  }

  lemma AllBelowStep(usable: seq<Member>, floor: Option<nat>, j: nat)
    requires j < |usable|
    ensures AllBelow(usable, floor, j + 1) <==> AllBelow(usable, floor, j) && !AtOrAbove(usable[j].size, floor)
  {
  }

  lemma LastOfPrefix(lookup: Lookup, usable: seq<Member>, floor: Option<nat>, i: nat)
    requires 1 <= i < |usable|
    ensures GapFreePrefix(lookup, usable, floor, i + 1) <==>
      GapFreePrefix(lookup, usable, floor, i) && IntervalKept(lookup, usable, i) && !AtOrAbove(usable[i].size, floor)
  {
    AllKeptStep(lookup, usable, i);
    AllBelowStep(usable, floor, i);
  }

  /** Extending from member `i - 1` computes a frontier of a longest prefix of `j` members. */
  ghost predicate ExtendGives(lookup: Lookup, usable: seq<Member>, floor: Option<nat>, i: nat, j: nat)
    requires 1 <= i <= |usable|
  {
    var r := ExtendFrontier(lookup, usable, floor, i);
    r.Ok? && FrontierIs(lookup, usable, floor, j, r.value)
  }

  lemma ExtendAtEnd(lookup: Lookup, usable: seq<Member>, floor: Option<nat>)
    requires GapFreePrefix(lookup, usable, floor, |usable|)
    ensures ExtendGives(lookup, usable, floor, |usable|, |usable|)
  {
  }

  lemma ExtendUnfolds(lookup: Lookup, usable: seq<Member>, floor: Option<nat>, i: nat)
    requires 1 <= i < |usable| && ExtendFrontier(lookup, usable, floor, i).Ok?
    ensures StepAt(lookup, usable, floor, i).Ok?
    ensures var stop := StepAt(lookup, usable, floor, i).value;
      ExtendFrontier(lookup, usable, floor, i) ==
      if stop.Some? then Ok(Frontier(Some(usable[i - 1].size), stop)) else ExtendFrontier(lookup, usable, floor, i + 1)
  {
  }

  lemma StopsHere(lookup: Lookup, usable: seq<Member>, floor: Option<nat>, i: nat, stop: Option<Stop>)
    requires GapFreePrefix(lookup, usable, floor, i) && i < |usable|
    requires StepAt(lookup, usable, floor, i) == Ok(stop) && stop.Some?
    ensures FrontierIs(lookup, usable, floor, i, Frontier(Some(usable[i - 1].size), stop))
  {
    StepStopExact(lookup(usable[i - 1].size), usable[i - 1], usable[i], floor);
    LastOfPrefix(lookup, usable, floor, i);
  }

  lemma GoesOn(lookup: Lookup, usable: seq<Member>, floor: Option<nat>, i: nat)
    requires GapFreePrefix(lookup, usable, floor, i) && i < |usable|
    requires StepAt(lookup, usable, floor, i) == Ok(None)
    ensures GapFreePrefix(lookup, usable, floor, i + 1)
  {
    StepStopExact(lookup(usable[i - 1].size), usable[i - 1], usable[i], floor);
    LastOfPrefix(lookup, usable, floor, i);
  }

  lemma {:induction false} ExtendExact(lookup: Lookup, usable: seq<Member>, floor: Option<nat>, i: nat) returns (j: nat)
    requires GapFreePrefix(lookup, usable, floor, i) && ExtendFrontier(lookup, usable, floor, i).Ok?
    ensures i <= j && ExtendGives(lookup, usable, floor, i, j)
    decreases |usable| - i
  {
    if i == |usable| {
      j := i;
      ExtendAtEnd(lookup, usable, floor);
    } else {
      ExtendUnfolds(lookup, usable, floor, i);
      var stop := StepAt(lookup, usable, floor, i).value;
      if stop.Some? {
        j := i;
        StopsHere(lookup, usable, floor, i, stop);
      } else {
        GoesOn(lookup, usable, floor, i);
        j := ExtendExact(lookup, usable, floor, i + 1);
      }
    }
  }

  /** The frontier is the size of the last member of the longest gap-free prefix, and the stop names
    * the first condition that ended it.
    */
  lemma FrontierExact(lookup: Lookup, usable: seq<Member>, floor: Option<nat>) returns (j: nat)
    requires ComputeFrontier(lookup, usable, floor).Ok?
    ensures FrontierIs(lookup, usable, floor, j, ComputeFrontier(lookup, usable, floor).value)
  {
    if usable == [] {
      j := 0;
    } else {
      StartStopExact(lookup, usable[0], floor);
      if StartStop(lookup, usable[0], floor).value.Some? {
        j := 0;
      } else {
        j := ExtendExact(lookup, usable, floor, 1);
      }
    }
  }

  /** Gap-free prefixes are closed downward, so the longest one is unique. */
  lemma LongestUnique(lookup: Lookup, usable: seq<Member>, floor: Option<nat>, j: nat, k: nat)
    requires Longest(lookup, usable, floor, j) && 1 <= k <= |usable|
    ensures GapFreePrefix(lookup, usable, floor, k) <==> k <= j
  {
    if k > j && GapFreePrefix(lookup, usable, floor, k) {
      assert GapFreePrefix(lookup, usable, floor, j + 1);
    }
  }

  // ---- the floor cuts, and nothing else about it matters to the frontier ----

  /** `k` members lie below the floor and the rest at or above it. */
  ghost predicate CutAt(usable: seq<Member>, floor: nat, k: nat) {
    && k <= |usable|
    && (forall i :: 0 <= i < k ==> usable[i].size < floor)
    && (forall i :: k <= i < |usable| ==> usable[i].size >= floor)
  }

  /** How far a computation reached, whatever stopped it. */
  function ReachOf(r: MirrorResult<Frontier>): MirrorResult<Option<nat>> {
    match r
    case Ok(f) => Ok(f.reached)
    case Err(e) => Err(e)
  }

  lemma StepIgnoresFloor(governance: MirrorResult<Option<Governance.State>>, prev: Member, cp: Member, floor: nat)
    requires cp.size < floor
    ensures StepStop(governance, prev, cp, Some(floor)) == StepStop(governance, prev, cp, None)
  {
  }

  lemma CutAtEnd(lookup: Lookup, usable: seq<Member>, floor: nat, k: nat)
    requires CutAt(usable, floor, k) && 1 <= k
    ensures ReachOf(ExtendFrontier(lookup, usable, Some(floor), k))
         == ReachOf(ExtendFrontier(lookup, usable[..k], None, k))
  {
    if k < |usable| {
      assert usable[k].size >= floor;
    }
  }

  lemma CutStep(lookup: Lookup, usable: seq<Member>, floor: nat, k: nat, i: nat)
    requires CutAt(usable, floor, k) && 1 <= i < k
    requires ReachOf(ExtendFrontier(lookup, usable, Some(floor), i + 1))
          == ReachOf(ExtendFrontier(lookup, usable[..k], None, i + 1))
    ensures ReachOf(ExtendFrontier(lookup, usable, Some(floor), i))
         == ReachOf(ExtendFrontier(lookup, usable[..k], None, i))
  {
    StepIgnoresFloor(lookup(usable[i - 1].size), usable[i - 1], usable[i], floor);
  }

  lemma {:induction false} ExtendCut(lookup: Lookup, usable: seq<Member>, floor: nat, k: nat, i: nat)
    requires CutAt(usable, floor, k) && 1 <= i <= k
    ensures ReachOf(ExtendFrontier(lookup, usable, Some(floor), i))
         == ReachOf(ExtendFrontier(lookup, usable[..k], None, i))
    decreases k - i
  {
    if i == k {
      CutAtEnd(lookup, usable, floor, k);
    } else {
      ExtendCut(lookup, usable, floor, k, i + 1);
      CutStep(lookup, usable, floor, k, i);
    }
  }

  lemma StartIgnoresFloor(lookup: Lookup, first: Member, floor: nat)
    requires first.size < floor
    ensures StartStop(lookup, first, Some(floor)) == StartStop(lookup, first, None)
  {
  }

  /** The frontier under a floor is the frontier of the members below it under none. */
  lemma FloorOnlyCuts(lookup: Lookup, usable: seq<Member>, floor: nat, k: nat)
    requires CutAt(usable, floor, k)
    ensures ReachOf(ComputeFrontier(lookup, usable, Some(floor)))
         == ReachOf(ComputeFrontier(lookup, usable[..k], None))
  {
    if k > 0 {
      StartIgnoresFloor(lookup, usable[0], floor);
      ExtendCut(lookup, usable, floor, k, 1);
    }
  }

  /** Sizes do not fall along the listing. */
  ghost predicate Rising(usable: seq<Member>) {
    forall i, j :: 0 <= i < j < |usable| ==> usable[i].size <= usable[j].size
  }

  /** A listing in order has such a cut at every floor. */
  lemma {:induction false} RisingHasCut(usable: seq<Member>, floor: nat) returns (k: nat)
    requires Rising(usable)
    ensures CutAt(usable, floor, k)
    decreases |usable|
  {
    if usable == [] {
      k := 0;
    } else {
      var init, last := usable[..|usable| - 1], usable[|usable| - 1];
      k := RisingHasCut(init, floor);
      if last.size < floor {
        k := |usable|;
      } else {
        assert forall i :: 0 <= i < |init| ==> usable[i] == init[i];
      }
    }
  }
}
