/** The computed views of the checkpoint series: series-usability, the gap-free frontier, ITUB. */
module Series {
  import opened Wrappers
  import opened Bits
  import opened Encoding
  import opened Merkle
  import opened Tables
  import opened CacheRepair
  import opened ProofOpening
  import opened CheckpointTime
  import opened SeriesOrder
  import Consistency
  import Governance

  // ---- series-usability ----

  /** `holds_prefix`: a short prefix is an answer, a missing cache row is a fault. */
  function HoldsPrefix(db: Db, treeSize: nat): MirrorResult<bool> {
    if treeSize > MAX_I64 then Err(IndexOverflow)
    else if CountEntries(db.entries, 0, treeSize) != treeSize then Ok(false)
    else
      var _ :- RequireCache(db.subtrees, treeSize);
      Ok(true)
  }

  /** `root_matches_stored`. */
  function RootMatches(db: Db, cp: Checkpoint): MirrorResult<bool> {
    var claimed :- ParseHashHex(cp.rootHash);
    var stored :- LogRoot(db.entries, db.subtrees, cp.treeSize);
    Ok(stored.root == claimed)
  }

  /** `series_consistency_stored`. */
  function ConsistencyStored(db: Db, before: Checkpoint, cp: Checkpoint): MirrorResult<bool> {
    var fromRoot :- ParseHashHex(before.rootHash);
    var toRoot :- ParseHashHex(cp.rootHash);
    var proof :- ConsistencyProof(db.entries, db.subtrees, before.treeSize, cp.treeSize);
    Consistency.VerifyConsistency(before.treeSize, cp.treeSize, proof.path, fromRoot, toRoot)
  }

  /** `series_usable_stored`: held, recomputing, and consistent with the nearest earlier usable member. */
  function UsableStored(db: Db, cp: Checkpoint, pred: Option<Checkpoint>): MirrorResult<bool> {
    var held :- HoldsPrefix(db, cp.treeSize);
    if !held then Ok(false)
    else
      var matches :- RootMatches(db, cp);
      if !matches then Ok(false)
      else if pred.None? then Ok(true)
      else ConsistencyStored(db, pred.value, cp)
  }

  /** `is_storage_fault`, of the errors this model raises. */
  predicate IsStorageFault(e: MirrorError) {
    e.TreeMaterialMissing?
  }

  datatype Reported = Reported(checkpoint: Checkpoint, usable: bool)

  /** The labels of a listing, and the last usable member met. */
  datatype Labels = Labels(members: seq<Reported>, last: Option<Checkpoint>)

  /** Label one more member: a storage fault is propagated, any other failure is "not usable". */
  function LabelNext(db: Db, so: Labels, cp: Checkpoint): MirrorResult<Labels> {
    match UsableStored(db, cp, so.last)
    case Ok(true) => Ok(Labels(so.members + [Reported(cp, true)], Some(cp)))
    case Ok(false) => Ok(so.(members := so.members + [Reported(cp, false)]))
    case Err(e) => if IsStorageFault(e) then Err(e) else Ok(so.(members := so.members + [Reported(cp, false)]))
  }

  function Label(db: Db, rows: seq<Checkpoint>): MirrorResult<Labels> {
    if rows == [] then Ok(Labels([], None))
    else
      var so :- Label(db, rows[..|rows| - 1]);
      LabelNext(db, so, rows[|rows| - 1])
  }

  /** The usable members, in order. */
  function UsableOf(members: seq<Reported>): seq<Checkpoint> {
    if members == [] then []
    else
      UsableOf(members[..|members| - 1])
      + (if members[|members| - 1].usable then [members[|members| - 1].checkpoint] else [])
  }

  // ---- the gap-free frontier ----

  datatype Stop =
    | NoValidStart
    | DecreasingTime(after: nat)
    | CadenceExceeded(after: nat)
    | GovernanceUnresolvable(at: nat)
    | Equivocation(at: nat)

  datatype Frontier = Frontier(reached: Option<nat>, stop: Option<Stop>)

  /** `resolve_governance_for`: from canonical storage alone; an unresolvable chain is `None`. */
  function GovernanceFor(entries: Entries, config: Governance.Config, treeSize: nat): MirrorResult<Option<Governance.State>> {
    if treeSize > MAX_I64 then Err(IndexOverflow)
    else if |EntriesRange(entries, 0, treeSize)| != treeSize then Ok(None)
    else match Governance.Resolve(EntriesRange(entries, 0, treeSize), config)
      case Ok(state) => Ok(Some(state))
      case Err(e) => if e.GovernanceChainUnresolvable? then Ok(None) else Err(e)
  }

  /** How the frontier asks for the governance in force for a tree size. */
  type Lookup = nat -> MirrorResult<Option<Governance.State>>

  function LookupIn(entries: Entries, config: Governance.Config): Lookup {
    (treeSize: nat) => GovernanceFor(entries, config, treeSize)
  }

  function EquivocationStop(floor: Option<nat>): Option<Stop> {
    if floor.None? then None else Some(Equivocation(floor.value))
  }

  predicate AtOrAbove(size: nat, floor: Option<nat>) {
    floor.Some? && size >= floor.value
  }

  /** A usable member as the frontier reads it: its size, and its time if the text parses. */
  datatype Member = Member(size: nat, time: MirrorResult<nat>)

  /** A listing with every time read. */
  function Timed(rows: seq<Checkpoint>): (timed: seq<Member>)
    ensures |timed| == |rows|
  {
    if rows == [] then []
    else
      var last := rows[|rows| - 1];
      Timed(rows[..|rows| - 1]) + [Member(last.treeSize, ParseTime(last.checkpointTime))]
  }

  lemma {:induction false} TimedAt(rows: seq<Checkpoint>, i: nat)
    requires i < |rows|
    ensures Timed(rows)[i] == Member(rows[i].treeSize, ParseTime(rows[i].checkpointTime))
    decreases |rows|
  {
    if i == |rows| - 1 {
    } else {
      TimedAt(rows[..|rows| - 1], i);
    }
  }

  /** Why the series cannot start at its first usable member, if it cannot. */
  function StartStop(lookup: Lookup, first: Member, floor: Option<nat>): MirrorResult<Option<Stop>> {
    if AtOrAbove(first.size, floor) then Ok(EquivocationStop(floor))
    else
      var governance :- lookup(first.size);
      if governance.None? then Ok(Some(GovernanceUnresolvable(first.size)))
      else
        var genesisSize := governance.value.genesisIndex + 1;
        var genesis :- lookup(genesisSize);
        if genesis.None? then Ok(Some(GovernanceUnresolvable(genesisSize)))
        else
          var time :- first.time;
          if time < genesis.value.epochNanos || time - genesis.value.epochNanos > genesis.value.cadenceNanos
          then Ok(Some(NoValidStart)) else Ok(None)
  }

  /** Why the frontier cannot move from `prev` to `cp` under the governance of `prev`, if it cannot:
    * the first condition that fails.
    */
  function StepStop(governance: MirrorResult<Option<Governance.State>>, prev: Member, cp: Member, floor: Option<nat>): MirrorResult<Option<Stop>> {
    if AtOrAbove(cp.size, floor) then Ok(EquivocationStop(floor))
    else
      var prevTime :- prev.time;
      var time :- cp.time;
      if time < prevTime then Ok(Some(DecreasingTime(prev.size)))
      else
        var resolved :- governance;
        if resolved.None? then Ok(Some(GovernanceUnresolvable(prev.size)))
        else if time - prevTime > resolved.value.cadenceNanos then Ok(Some(CadenceExceeded(prev.size)))
        else Ok(None)
  }

  /** The step past member `i - 1`. */
  function StepAt(lookup: Lookup, usable: seq<Member>, floor: Option<nat>, i: nat): MirrorResult<Option<Stop>>
    requires 1 <= i < |usable|
  {
    StepStop(lookup(usable[i - 1].size), usable[i - 1], usable[i], floor)
  }

  /** Extend from member `i - 1` on. */
  function ExtendFrontier(lookup: Lookup, usable: seq<Member>, floor: Option<nat>, i: nat): MirrorResult<Frontier>
    requires 1 <= i <= |usable|
    decreases |usable| - i
  {
    if i == |usable| then Ok(Frontier(Some(usable[i - 1].size), EquivocationStop(floor)))
    else
      var stop :- StepAt(lookup, usable, floor, i);
      if stop.Some? then Ok(Frontier(Some(usable[i - 1].size), stop))
      else ExtendFrontier(lookup, usable, floor, i + 1)
  }

  /** `compute_gap_free_frontier`. */
  function ComputeFrontier(lookup: Lookup, usable: seq<Member>, floor: Option<nat>): MirrorResult<Frontier> {
    if usable == [] then Ok(Frontier(None, EquivocationStop(floor)))
    else
      var stop :- StartStop(lookup, usable[0], floor);
      if stop.Some? then Ok(Frontier(None, stop)) else ExtendFrontier(lookup, usable, floor, 1)
  }

  /** `compute_gap_free_frontier`: `reached` and `prev` move together. */
  method RunFrontier(lookup: Lookup, usable: seq<Checkpoint>, floor: Option<nat>)
    returns (r: MirrorResult<Frontier>)
    ensures r == ComputeFrontier(lookup, Timed(usable), floor)
  {
    hide ParseTime;
    ghost var timed := Timed(usable);
    if usable == [] {
      return Ok(Frontier(None, EquivocationStop(floor)));
    }
    TimedAt(usable, 0);
    var prev := Member(usable[0].treeSize, ParseTime(usable[0].checkpointTime));
    var start := StartStop(lookup, prev, floor);
    if start.Err? {
      return Err(start.error);
    }
    if start.value.Some? {
      return Ok(Frontier(None, start.value));
    }
    var reached := prev.size;
    var i := 1;
    while i < |usable|
      invariant 1 <= i <= |usable|
      invariant prev == timed[i - 1] && reached == prev.size
      invariant ComputeFrontier(lookup, timed, floor) == ExtendFrontier(lookup, timed, floor, i)
    {
      TimedAt(usable, i);
      var cp := Member(usable[i].treeSize, ParseTime(usable[i].checkpointTime));
      var stop := StepStop(lookup(prev.size), prev, cp, floor);
      if stop.Err? {
        return Err(stop.error);
      }
      if stop.value.Some? {
        return Ok(Frontier(Some(reached), stop.value));
      }
      reached := cp.size;
      prev := cp;
      i := i + 1;
    }
    r := Ok(Frontier(Some(reached), EquivocationStop(floor)));
  }

  // ---- the view ----

  datatype View = View(
    members: seq<Reported>,
    frontier: Option<nat>,
    stop: Option<Stop>,
    divergences: seq<nat>,
    floor: Option<nat>)

  function CheckpointsOf(anchors: seq<Anchor>): seq<Checkpoint> {
    if anchors == [] then [] else CheckpointsOf(anchors[..|anchors| - 1]) + [anchors[|anchors| - 1].checkpoint]
  }

  /** Everything this log was seen to publish, in either table. */
  function Records(db: Db): seq<Checkpoint> {
    Sort(db.checkpoints) + CheckpointsOf(db.anchors)
  }

  function Floor(db: Db): Option<nat> {
    FloorOf(Records(db))
  }

  /** `series_view`. */
  function SeriesView(db: Db, config: Governance.Config): MirrorResult<View> {
    var labels :- Label(db, Sort(db.checkpoints));
    var usable := UsableOf(labels.members);
    var frontier :- ComputeFrontier(LookupIn(db.entries, config), Timed(usable), Floor(db));
    Ok(View(labels.members, frontier.reached, frontier.stop, FindDivergences(Sort(Records(db))), Floor(db)))
  }

  /** `itub`: the first usable member past `index`, if it lies within the frontier. */
  function FirstPast(usable: seq<Checkpoint>, index: nat, frontier: nat): Option<Checkpoint> {
    if usable == [] then None
    else if usable[0].treeSize > index && usable[0].treeSize <= frontier then Some(usable[0])
    else FirstPast(usable[1..], index, frontier)
  }

  function Itub(view: View, index: nat): Option<Checkpoint> {
    if view.frontier.None? then None else FirstPast(UsableOf(view.members), index, view.frontier.value)
  }
}
