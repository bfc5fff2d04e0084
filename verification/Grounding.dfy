/** What the read routes may ground an answer on. */
module Grounding {
  import opened Wrappers
  import opened Bits
  import opened Encoding
  import opened Merkle
  import opened TextOrder
  import opened Tables
  import opened StoreSpec
  import opened ProofOpening
  import opened Range
  import opened Series
  import opened Usability
  import opened Views
  import Computability
  import Content
  import Consistency
  import Enumeration
  import GapFree
  import Governance
  import Inclusion
  import Publication
  import Runs
  import SeriesOrder
  import SubtreeCache

  // ---- the lookups ----

  /** The members of one size, in listing order. */
  function MembersAt(members: seq<Reported>, treeSize: nat): seq<Reported> {
    if members == [] then []
    else
      MembersAt(members[..|members| - 1], treeSize)
      + (if members[|members| - 1].checkpoint.treeSize == treeSize then [members[|members| - 1]] else [])
  }

  /** The first usable one. */
  function FirstUsable(members: seq<Reported>): Option<Checkpoint> {
    if members == [] then None
    else if members[0].usable then Some(members[0].checkpoint)
    else FirstUsable(members[1..])
  }

  /** `series_usable_checkpoint`: the floor is checked first, whatever exists at the size. */
  function UsableAt(db: Db, config: Governance.Config, treeSize: nat): MirrorResult<Checkpoint> {
    var view :- SeriesView(db, config);
    if AtOrAbove(treeSize, view.floor) then Err(SeriesEquivocated(treeSize, view.floor.value))
    else
      var candidates := MembersAt(view.members, treeSize);
      if candidates == [] then Err(UnknownCheckpoint(treeSize))
      else match FirstUsable(candidates)
        case None => Err(CheckpointNotSeriesUsable(treeSize))
        case Some(cp) => Ok(cp)
  }

  /** The latest of some members; of equally late ones, the last. */
  function Latest(members: seq<Reported>): Option<Reported> {
    if members == [] then None
    else
      var last := members[|members| - 1];
      match Latest(members[..|members| - 1])
      case None => Some(last)
      case Some(m) => if TextLe(m.checkpoint.checkpointTime, last.checkpoint.checkpointTime) then Some(last) else Some(m)
  }

  /** `get_checkpoint_handler`. */
  function LookupAt(db: Db, config: Governance.Config, treeSize: nat): MirrorResult<Reported> {
    var view :- SeriesView(db, config);
    if AtOrAbove(treeSize, view.floor) then Err(SeriesEquivocated(treeSize, view.floor.value))
    else match Latest(MembersAt(view.members, treeSize))
      case None => Err(UnknownCheckpoint(treeSize))
      case Some(m) => Ok(m)
  }

  /** `range_handler`. */
  function ServeRange(db: Db, config: Governance.Config, treeSize: nat, w: Window): MirrorResult<Enumeration.RangeResponse> {
    var cp :- UsableAt(db, config, treeSize);
    var built :- Enumeration.BuildRange(db.entries, db.subtrees, cp, w);
    Ok(built.response)
  }

  datatype ServedConsistency = ServedConsistency(before: Checkpoint, after: Checkpoint, path: ProofPath)

  /** `consistency_handler`. */
  function ServeConsistency(db: Db, config: Governance.Config, from: nat, upTo: nat): MirrorResult<ServedConsistency> {
    if from > upTo then Err(ConsistencyOrder)
    else
      var a :- UsableAt(db, config, from);
      var b :- UsableAt(db, config, upTo);
      var proof :- ConsistencyProof(db.entries, db.subtrees, a.treeSize, b.treeSize);
      Ok(ServedConsistency(a, b, proof.path))
  }

  datatype RotationElement = RotationElement(manifestEntryIndex: nat, checkpoint: Checkpoint, path: ProofPath)

  /** The element once the floor is out of the way: the prefix must be held, and the path must open the
    * checkpoint's own root before it is served.
    */
  function OpenRotation(db: Db, m: nat, cp: Checkpoint): MirrorResult<RotationElement> {
    if cp.treeSize > MAX_I64 then Err(IndexOverflow)
    else if CountEntries(db.entries, 0, cp.treeSize) != cp.treeSize then
      Err(IncompleteEntries(CountEntries(db.entries, 0, cp.treeSize), cp.treeSize))
    else
      var proof :- InclusionProof(db.entries, db.subtrees, m, cp.treeSize);
      var root :- ParseHashHex(cp.rootHash);
      var leaves :- LeafHashesRange(db.entries, m, m + 1);
      if leaves == [] then Err(TreeMaterialMissing(0, m))
      else
        var opens :- Inclusion.VerifyInclusion(leaves[0], m, cp.treeSize, proof.path, root);
        if opens then Ok(RotationElement(m, cp, proof.path)) else Err(CheckpointRootMismatch(cp.treeSize))
  }

  /** `rotation_proof_element`. */
  function ServeRotation(db: Db, config: Governance.Config, m: nat): MirrorResult<RotationElement> {
    if m > MAX_I64 then Err(IndexOverflow)
    else match ServedAnchor(db, m)
      case None => Err(UnknownRotationProof(m))
      case Some(cp) =>
        var view :- SeriesView(db, config);
        if AtOrAbove(cp.treeSize, view.floor) then Err(SeriesEquivocated(cp.treeSize, view.floor.value))
        else OpenRotation(db, m, cp)
  }

  // ---- nothing is grounded at or above the floor ----

  /** No two records of this store disagree at `size` or below it. */
  ghost predicate Canonical(db: Db, size: nat) {
    forall at: nat :: Equivocates(db, at) ==> size < at
  }

  lemma BelowFloorIsCanonical(db: Db, size: nat)
    ensures AtOrAbove(size, Floor(db)) <==> !Canonical(db, size)
  {
    SeriesOrder.FloorExact(Records(db));
    forall at: nat
      ensures Equivocates(db, at) <==> SeriesOrder.Disagree(Records(db), at)
    {
      EquivocatesIsDisagree(db, at);
    }
  }

  /** Whatever the lookup, range, consistency and rotation routes answer, they ground it below every
    * size at which two records disagree.
    */
  lemma GroundedIsCanonical(db: Db, config: Governance.Config, n: nat, w: Window, from: nat, upTo: nat, m: nat)
    ensures UsableAt(db, config, n).Ok? ==> Canonical(db, n)
    ensures LookupAt(db, config, n).Ok? ==> Canonical(db, n)
    ensures ServeRange(db, config, n, w).Ok? ==> Canonical(db, n)
    ensures ServeConsistency(db, config, from, upTo).Ok? ==> Canonical(db, upTo)
    ensures ServeRotation(db, config, m).Ok? ==> ServedAnchor(db, m).Some? && Canonical(db, ServedAnchor(db, m).value.treeSize)
  {
    hide Label, ComputeFrontier, SeriesOrder.FindDivergences, Floor, Enumeration.BuildRange, ConsistencyProof, OpenRotation;
    BelowFloorIsCanonical(db, n);
    BelowFloorIsCanonical(db, upTo);
    if ServedAnchor(db, m).Some? {
      BelowFloorIsCanonical(db, ServedAnchor(db, m).value.treeSize);
    }
  }

  /** So do the frontier and every incorporation bound. */
  lemma BoundsAreCanonical(db: Db, config: Governance.Config, view: View, index: nat)
    requires ValidTree(db) && PositiveSizes(db.checkpoints) && SeriesView(db, config) == Ok(view)
    ensures view.frontier.Some? ==> Canonical(db, view.frontier.value)
    ensures Itub(view, index).Some? ==> Canonical(db, Itub(view, index).value.treeSize)
  {
    hide Floor, Established;
    if view.frontier.Some? {
      BelowFloorIsCanonical(db, view.frontier.value);
      if view.floor.Some? {
        var k := FloorRemovesMembers(db, config, view);
      }
      if Itub(view, index).Some? {
        FirstPastWithin(UsableOf(view.members), index, view.frontier.value);
      }
    }
  }

  lemma {:induction false} FirstPastWithin(usable: seq<Checkpoint>, index: nat, frontier: nat)
    ensures var r := FirstPast(usable, index, frontier);
      r.Some? ==> index < r.value.treeSize <= frontier
    decreases |usable|
  {
    if usable == [] {
    } else {
      FirstPastWithin(usable[1..], index, frontier);
    }
  }

  // ---- what a usable lookup finds ----

  lemma {:induction false} MembersAtExact(members: seq<Reported>, treeSize: nat)
    ensures forall r :: r in MembersAt(members, treeSize) <==> r in members && r.checkpoint.treeSize == treeSize
    decreases |members|
  {
    if members == [] {
    } else {
      var init, last := members[..|members| - 1], members[|members| - 1];
      assert members == init + [last];
      MembersAtExact(init, treeSize);
    }
  }

  lemma {:induction false} FirstUsableExact(members: seq<Reported>)
    ensures FirstUsable(members).Some? <==> exists r :: r in members && r.usable
    ensures FirstUsable(members).Some? ==> Reported(FirstUsable(members).value, true) in members
    decreases |members|
  {
    if members == [] {
    } else {
      FirstUsableExact(members[1..]);
      assert members == [members[0]] + members[1..];
    }
  }

  lemma {:induction false} UsableOfMembers(members: seq<Reported>)
    ensures forall cp :: cp in UsableOf(members) <==> Reported(cp, true) in members
    decreases |members|
  {
    if members == [] {
    } else {
      var init, last := members[..|members| - 1], members[|members| - 1];
      assert members == init + [last];
      UsableOfMembers(init);
    }
  }

  lemma UsableAmong(view: View, n: nat)
    ensures var r := FirstUsable(MembersAt(view.members, n));
      && (r.Some? ==> r.value in UsableOf(view.members) && r.value.treeSize == n)
      && (r.None? ==> forall cp :: cp in UsableOf(view.members) ==> cp.treeSize != n)
  {
    var at := MembersAt(view.members, n);
    MembersAtExact(view.members, n);
    FirstUsableExact(at);
    UsableOfMembers(view.members);
    forall cp | cp in UsableOf(view.members) && cp.treeSize == n
      ensures FirstUsable(at).Some?
    {
      assert Reported(cp, true) in at;
    }
  }

  lemma {:induction false} FirstUsableAppend(members: seq<Reported>, m: Reported)
    ensures FirstUsable(members + [m]) ==
      if FirstUsable(members).Some? then FirstUsable(members) else if m.usable then Some(m.checkpoint) else None
    decreases |members|
  {
    var all := members + [m];
    if members == [] {
      assert all[1..] == [];
    } else {
      FirstUsableAppend(members[1..], m);
      assert all[1..] == members[1..] + [m];
    }
  }

  /** Of the usable members of a size the one found precedes the others in the series. */
  ghost predicate PrecedesAll(found: Option<Checkpoint>, usable: seq<Checkpoint>, n: nat) {
    forall cp :: cp in usable && cp.treeSize == n ==> found.Some? && KeyLe(found.value, cp)
  }

  lemma PrecedesAppend(found: Option<Checkpoint>, usable: seq<Checkpoint>, cp: Checkpoint, n: nat)
    requires PrecedesAll(found, usable, n) && SeriesOrder.Sorted(usable + [cp])
    requires found.Some? ==> found.value in usable
    ensures PrecedesAll(if found.None? && cp.treeSize == n then Some(cp) else found, usable + [cp], n)
  {
    KeyLeTotal(cp, cp);
    if found.Some? {
      var i :| 0 <= i < |usable| && usable[i] == found.value;
      assert KeyLe((usable + [cp])[i], (usable + [cp])[|usable|]);
    }
  }

  lemma SortedInit(usable: seq<Checkpoint>, cp: Checkpoint)
    requires SeriesOrder.Sorted(usable + [cp])
    ensures SeriesOrder.Sorted(usable)
  {
    forall i, j | 0 <= i < j < |usable|
      ensures KeyLe(usable[i], usable[j])
    {
      assert KeyLe((usable + [cp])[i], (usable + [cp])[j]);
    }
  }

  lemma {:induction false} FirstUsablePrecedes(members: seq<Reported>, n: nat)
    requires SeriesOrder.Sorted(UsableOf(members))
    ensures var r := FirstUsable(MembersAt(members, n));
      (r.Some? ==> r.value in UsableOf(members)) && PrecedesAll(r, UsableOf(members), n)
    decreases |members|
  {
    hide KeyLe, SeriesOrder.Sorted;
    if members == [] {
    } else {
      var init, last := members[..|members| - 1], members[|members| - 1];
      assert UsableOf(init) + [] == UsableOf(init);
      assert MembersAt(init, n) + [] == MembersAt(init, n);
      if last.usable {
        SortedInit(UsableOf(init), last.checkpoint);
      }
      FirstUsablePrecedes(init, n);
      FirstUsableAppend(MembersAt(init, n), last);
      if last.usable {
        PrecedesAppend(FirstUsable(MembersAt(init, n)), UsableOf(init), last.checkpoint, n);
      }
    }
  }

  /** Some published member of a size is established. */
  ghost predicate HasEstablished(db: Db, n: nat)
    requires ValidTree(db)
  {
    exists cp :: cp in db.checkpoints && cp.treeSize == n && Established(LeavesOf(db), cp)
  }

  /** A usable lookup answers exactly when no two records disagree at or below the size and some
    * published member of it is established, and it answers with the first of them in series order.
    */
  lemma UsableAtExact(db: Db, config: Governance.Config, n: nat)
    requires ValidTree(db) && PositiveSizes(db.checkpoints) && SeriesView(db, config).Ok?
    ensures UsableAt(db, config, n).Ok? <==> Canonical(db, n) && HasEstablished(db, n)
    ensures UsableAt(db, config, n).Ok? ==>
      var cp := UsableAt(db, config, n).value;
      && cp in db.checkpoints && cp.treeSize == n && Established(LeavesOf(db), cp)
      && forall x :: x in db.checkpoints && x.treeSize == n && Established(LeavesOf(db), x) ==> KeyLe(cp, x)
  {
    hide Label, ComputeFrontier, SeriesOrder.FindDivergences, Established, MembersAt, Floor, KeyLe;
    var view := SeriesView(db, config).value;
    BelowFloorIsCanonical(db, n);
    UsableAmong(view, n);
    ViewUsable(db, config);
    FirstUsablePrecedes(view.members, n);
    assert FirstUsable([]) == None;
    forall cp
      ensures cp in UsableOf(view.members) <==> cp in db.checkpoints && Established(LeavesOf(db), cp)
    {
      UsableIsEstablished(db, config, view, cp);
    }
  }

  /** A refusal of a usable lookup over a computed view says which condition fails: two records disagree
    * at or below the size, and the lowest such size; or nothing of the size is listed; or none of what is
    * listed is established.
    */
  lemma UsableAtRefusal(db: Db, config: Governance.Config, n: nat)
    requires ValidTree(db) && PositiveSizes(db.checkpoints) && SeriesView(db, config).Ok? && UsableAt(db, config, n).Err?
    ensures var e := UsableAt(db, config, n).error;
      var listed := exists cp :: cp in db.checkpoints && cp.treeSize == n;
      if !Canonical(db, n) then
        e.SeriesEquivocated? && e.treeSize == n && Equivocates(db, e.floor) && forall at: nat :: Equivocates(db, at) ==> e.floor <= at
      else e == if listed then CheckpointNotSeriesUsable(n) else UnknownCheckpoint(n)
  {
    hide Label, ComputeFrontier, SeriesOrder.FindDivergences, Established, MembersAt, Floor, KeyLe, Equivocates;
    var view := SeriesView(db, config).value;
    BelowFloorIsCanonical(db, n);
    FloorIsLeast(db);
    ListedAt(db, config, view, n);
  }

  lemma FloorIsLeast(db: Db)
    ensures Floor(db).Some? ==> Equivocates(db, Floor(db).value) && forall at: nat :: Equivocates(db, at) ==> Floor(db).value <= at
  {
    SeriesOrder.FloorExact(Records(db));
    forall at: nat
      ensures Equivocates(db, at) <==> SeriesOrder.Disagree(Records(db), at)
    {
      EquivocatesIsDisagree(db, at);
    }
  }

  lemma ListedAt(db: Db, config: Governance.Config, view: View, n: nat)
    requires ValidTree(db) && PositiveSizes(db.checkpoints) && SeriesView(db, config) == Ok(view)
    ensures MembersAt(view.members, n) != [] <==> exists cp :: cp in db.checkpoints && cp.treeSize == n
  {
    hide ComputeFrontier, SeriesOrder.FindDivergences, Established, Floor, KeyLe;
    var rows := SeriesOrder.Sort(db.checkpoints);
    SeriesOrder.SortIsOrdered(db.checkpoints);
    LabelExact(db, rows);
    MembersAtExact(view.members, n);
    if MembersAt(view.members, n) != [] {
      assert MembersAt(view.members, n)[0] in MembersAt(view.members, n);
    }
    if cp :| cp in db.checkpoints && cp.treeSize == n {
      var i :| 0 <= i < |rows| && rows[i] == cp;
      assert view.members[i] in MembersAt(view.members, n);
    }
  }

  lemma {:induction false} LatestExact(members: seq<Reported>)
    ensures var r := Latest(members);
      && (r.None? <==> members == [])
      && (r.Some? ==> r.value in members
                      && forall m :: m in members ==> TextLe(m.checkpoint.checkpointTime, r.value.checkpoint.checkpointTime))
    decreases |members|
  {
    if members == [] {
    } else {
      var init, last := members[..|members| - 1], members[|members| - 1];
      LatestExact(init);
      assert members == init + [last];
      var best := Latest(init);
      TextLeReflexive(last.checkpoint.checkpointTime);
      if best.Some? {
        TextLeTotal(best.value.checkpoint.checkpointTime, last.checkpoint.checkpointTime);
        forall m | m in init && TextLe(best.value.checkpoint.checkpointTime, last.checkpoint.checkpointTime)
          ensures TextLe(m.checkpoint.checkpointTime, last.checkpoint.checkpointTime)
        {
          TextLeTransitive(m.checkpoint.checkpointTime, best.value.checkpoint.checkpointTime, last.checkpoint.checkpointTime);
        }
      }
    }
  }

  /** A single lookup answers, below the floor, with the latest member of the size and its own state. */
  lemma LookupAtExact(db: Db, config: Governance.Config, n: nat)
    requires SeriesView(db, config).Ok?
    ensures var view, r := SeriesView(db, config).value, LookupAt(db, config, n);
      && (r.Ok? <==> Canonical(db, n) && exists m :: m in view.members && m.checkpoint.treeSize == n)
      && (r.Ok? ==> r.value in view.members && r.value.checkpoint.treeSize == n
                    && forall m :: m in view.members && m.checkpoint.treeSize == n ==>
                         TextLe(m.checkpoint.checkpointTime, r.value.checkpoint.checkpointTime))
  {
    hide Label, ComputeFrontier, SeriesOrder.FindDivergences, Floor;
    var view := SeriesView(db, config).value;
    BelowFloorIsCanonical(db, n);
    MembersAtExact(view.members, n);
    var at := MembersAt(view.members, n);
    LatestExact(at);
    if at != [] {
      assert at[0] in at;
    }
  }

  // ---- what is served verifies ----

  /** A served range verifies at the receiver, and carries exactly the window. */
  lemma ServedRangeVerifies(db: Db, config: Governance.Config, n: nat, w: Window)
    requires ValidTree(db) && Content.EntryContent(db.entries) && PositiveSizes(db.checkpoints)
    requires UsableAt(db, config, n).Ok? && w.from < w.upTo <= n
    ensures var r := ServeRange(db, config, n, w);
      && r.Ok? && Enumeration.VerifyResponse(r.value) == Ok(true)
      && Enumeration.Carries(r.value, LogOf(db)) && r.value.window == w
  {
    hide Enumeration.BuildRange, Enumeration.VerifyResponse, Established, SeriesView, HasEstablished, Canonical;
    UsableAtExact(db, config, n);
    var cp := UsableAt(db, config, n).value;
    Enumeration.RangeIsServed(db, cp, w);
    Enumeration.ServedVerifies(db, cp, w);
  }

  /** The range route answers exactly the windows of a usable size. */
  lemma ServeRangeExact(db: Db, config: Governance.Config, n: nat, w: Window)
    requires ValidTree(db) && Content.EntryContent(db.entries) && PositiveSizes(db.checkpoints)
    ensures ServeRange(db, config, n, w).Ok? <==> UsableAt(db, config, n).Ok? && w.from < w.upTo <= n
  {
    hide Enumeration.VerifyResponse, Established, SeriesView, HasEstablished, Canonical, Content.EntryContent, Enumeration.FinishRange, Enumeration.OpenSpans, UsableAt;
    if UsableAt(db, config, n).Ok? {
      UsableHasView(db, config, n);
      UsableAtExact(db, config, n);
      if w.from < w.upTo <= n {
        ServedRangeVerifies(db, config, n, w);
      }
    }
  }

  lemma UsableHasView(db: Db, config: Governance.Config, n: nat)
    requires UsableAt(db, config, n).Ok?
    ensures SeriesView(db, config).Ok?
  {
  }

  /** The consistency route answers exactly between two usable sizes in order. */
  lemma ServeConsistencyExact(db: Db, config: Governance.Config, from: nat, upTo: nat)
    requires ValidTree(db) && PositiveSizes(db.checkpoints)
    ensures ServeConsistency(db, config, from, upTo).Ok? <==>
      from <= upTo && UsableAt(db, config, from).Ok? && UsableAt(db, config, upTo).Ok?
  {
    hide UsableAt, SeriesView, Consistency.VerifyConsistency, ConsistencyProof;
    if from <= upTo && UsableAt(db, config, from).Ok? && UsableAt(db, config, upTo).Ok? {
      UsableHasView(db, config, from);
      ServedConsistencyVerifies(db, config, from, upTo);
    }
  }

  /** Between any two usable sizes a consistency proof is served, and it verifies between their roots. */
  lemma ServedConsistencyVerifies(db: Db, config: Governance.Config, from: nat, upTo: nat)
    requires ValidTree(db) && PositiveSizes(db.checkpoints) && from <= upTo
    requires UsableAt(db, config, from).Ok? && UsableAt(db, config, upTo).Ok?
    ensures var r := ServeConsistency(db, config, from, upTo);
      && r.Ok? && r.value.before.rootHash.Hex? && r.value.after.rootHash.Hex?
      && Consistency.VerifyConsistency(from, upTo, r.value.path, r.value.before.rootHash.hash, r.value.after.rootHash.hash) == Ok(true)
  {
    UsableAtExact(db, config, from);
    UsableAtExact(db, config, upTo);
    var a := UsableAt(db, config, from).value;
    ConsistencyProofExact(db, from, upTo);
    Consistency.ConsistencyExact(LeavesOf(db), from, upTo, Consistency.SubProof(LeavesOf(db), 0, from, upTo, true), a.rootHash.hash);
  }

  /** Over a held prefix the rotation's own leaf and path are read back exactly. */
  lemma RotationMaterial(db: Db, m: nat, n: nat)
    requires ValidTree(db) && m < n <= |db.entries|
    ensures CountEntries(db.entries, 0, n) == n
    ensures LeafHashesRange(db.entries, m, m + 1) == Ok([LeavesOf(db)[m]])
    ensures var r := InclusionProof(db.entries, db.subtrees, m, n);
      r.Ok? && r.value.path == Inclusion.Path(LeavesOf(db), 0, n, m)
  {
    CountOfContiguous(db.entries, n);
    LeafHashesOfContiguous(db.entries, m, m + 1);
    assert LeavesOf(db)[m..m + 1] == [LeavesOf(db)[m]];
    ValidIsSound(db, n);
    InclusionProofRefusesOrAgrees(db.entries, db.subtrees, LeavesOf(db), m, n);
    var r := InclusionProof(db.entries, db.subtrees, m, n);
    if r.Err? {
      NothingAbsent(db.entries, db.subtrees, LeavesOf(db), n, r.error);
    }
  }

  /** The rotation material of a held anchor is served exactly when the anchor's root is the root of
    * the held prefix, and what is served opens that root to the rotating manifest's own entry.
    */
  lemma RotationExact(db: Db, m: nat, cp: Checkpoint)
    requires ValidTree(db) && m < cp.treeSize <= |db.entries| && cp.treeSize <= MAX_I64
    ensures OpenRotation(db, m, cp).Ok? <==> Established(LeavesOf(db), cp)
    ensures OpenRotation(db, m, cp).Ok? ==>
      var e := OpenRotation(db, m, cp).value;
      && e.manifestEntryIndex == m && e.checkpoint == cp
      && Inclusion.VerifyInclusion(LogLeafHash(LogOf(db)[m]), m, cp.treeSize, e.path, cp.rootHash.hash) == Ok(true)
  {
    RotationMaterial(db, m, cp.treeSize);
    var d := LeavesOf(db);
    Inclusion.InclusionExact(d, cp.treeSize, m, Inclusion.Path(d, 0, cp.treeSize, m), d[m]);
    PathOpensItsRoot(d, m, cp.treeSize);
  }

  /** An anchor past what is held has no material yet. */
  lemma UnheldRotation(db: Db, m: nat, cp: Checkpoint)
    requires ValidTree(db) && cp.treeSize > |db.entries|
    ensures OpenRotation(db, m, cp).Err?
  {
    hide SubtreeCache.CacheExact, InclusionProof;
    CountOfContiguous(db.entries, cp.treeSize);
  }

  lemma ServedIsAnchored(db: Db, m: nat)
    requires ServedAnchor(db, m).Some? && Runs.AllWellRecorded(db) && Runs.AnchorsCommit(db)
    ensures var cp := ServedAnchor(db, m).value;
      m < cp.treeSize <= MAX_I64
  {
    Publication.ServedAmongHeld(db, m);
    assert Recorded(db, ServedAnchor(db, m).value);
  }

  /** After any run the rotation route answers exactly when the rotation has an anchor, the view computes,
    * no two records disagree at the anchor's size or below it, and its root is that of the held prefix;
    * it answers with the served anchor, and a path that opens its root to the rotating manifest's entry.
    */
  lemma ServeRotationExact(config: Governance.Config, steps: seq<Runs.Step>, m: nat)
    ensures ValidTree(Runs.Run(config, steps))
    ensures var db := Runs.Run(config, steps);
      var served, r := ServedAnchor(db, m), ServeRotation(db, config, m);
      && (r.Ok? <==> served.Some? && SeriesView(db, config).Ok?
                     && Canonical(db, served.value.treeSize) && Established(LeavesOf(db), served.value))
      && (r.Ok? ==> r.value.manifestEntryIndex == m && r.value.checkpoint == served.value
                    && m < served.value.treeSize <= |db.entries|
                    && Inclusion.VerifyInclusion(LogLeafHash(LogOf(db)[m]), m, served.value.treeSize, r.value.path, served.value.rootHash.hash) == Ok(true))
  {
    hide OpenRotation, ServedAnchor, Canonical, Runs.Run, SubtreeCache.CacheExact, LeafColumn, Label, ComputeFrontier, SeriesOrder.FindDivergences, Floor;
    var db := Runs.Run(config, steps);
    Runs.RunIsValid(config, steps);
    Runs.RunIsWellRecorded(config, steps);
    Runs.RunAnchorsCommit(config, steps);
    var served := ServedAnchor(db, m);
    if served.Some? {
      ServedIsAnchored(db, m);
      BelowFloorIsCanonical(db, served.value.treeSize);
      if served.value.treeSize <= |db.entries| {
        RotationExact(db, m, served.value);
      } else {
        UnheldRotation(db, m, served.value);
      }
    }
  }

  /** A path opens one root only. */
  lemma PathOpensItsRoot(d: seq<Hash>, m: nat, n: nat)
    requires m < n <= |d|
    ensures Inclusion.RootFromPath(d[m], m, n, Inclusion.Path(d, 0, n, m)) == Some(TreeRoot(d, n))
  {
    Inclusion.InclusionExact(d, n, m, Inclusion.Path(d, 0, n, m), d[m]);
  }

  // ---- end to end ----

  lemma OneLogIsUsable(config: Governance.Config, steps: seq<Runs.Step>, log: seq<Blob>, cp: Checkpoint)
    requires Runs.OneLog(config, log)
    requires cp in Runs.Run(config, steps).checkpoints && cp.treeSize <= |Runs.Run(config, steps).entries|
    requires SeriesView(Runs.Run(config, steps), config).Ok?
    ensures UsableAt(Runs.Run(config, steps), config, cp.treeSize).Ok?
  {
    var db := Runs.Run(config, steps);
    Runs.RunMirrors(config, steps, log);
    Runs.RunIsWellRecorded(config, steps);
    Runs.NoFloorOverOneLog(db, log);
    BelowFloorIsCanonical(db, cp.treeSize);
    assert Recorded(db, cp);
    Runs.HeldIsEstablished(db, log, cp);
    assert HasEstablished(db, cp.treeSize);
    UsableAtExact(db, config, cp.treeSize);
  }

  lemma ServedHasView(db: Db, config: Governance.Config, n: nat, w: Window)
    requires ServeRange(db, config, n, w).Ok?
    ensures SeriesView(db, config).Ok?
  {
    hide Enumeration.BuildRange;
  }

  lemma ViewIsServed(config: Governance.Config, steps: seq<Runs.Step>, log: seq<Blob>, cp: Checkpoint, w: Window)
    requires Runs.OneLog(config, log)
    requires cp in Runs.Run(config, steps).checkpoints && cp.treeSize <= |Runs.Run(config, steps).entries|
    requires SeriesView(Runs.Run(config, steps), config).Ok? && w.from < w.upTo <= cp.treeSize
    ensures var r := ServeRange(Runs.Run(config, steps), config, cp.treeSize, w);
      && r.Ok? && Enumeration.VerifyResponse(r.value) == Ok(true) && Enumeration.Carries(r.value, log) && r.value.window == w
  {
    hide ServeRange, Enumeration.VerifyResponse, Runs.OneLog, UsableAt, SeriesView;
    Runs.RunMirrors(config, steps, log);
    Runs.RunIsWellRecorded(config, steps);
    OneLogIsUsable(config, steps, log, cp);
    Content.RunIsContentAddressed(config, steps);
    ServedRangeVerifies(Runs.Run(config, steps), config, cp.treeSize, w);
  }

  /** If every checkpoint that verifies comes from one log, then after any run a published size this
    * mirror holds answers a window of it exactly when the view computes, which is when no governance the
    * frontier asks for is out of reach; and what it answers is accepted by a receiver that trusts the
    * checkpoint, and is exactly that part of the log.
    */
  lemma OneLogAnswers(config: Governance.Config, steps: seq<Runs.Step>, log: seq<Blob>, cp: Checkpoint, w: Window)
    requires Runs.OneLog(config, log)
    requires cp in Runs.Run(config, steps).checkpoints && cp.treeSize <= |Runs.Run(config, steps).entries|
    requires w.from < w.upTo <= cp.treeSize
    ensures ValidTree(Runs.Run(config, steps))
    ensures var db := Runs.Run(config, steps);
      var r := ServeRange(db, config, cp.treeSize, w);
      && (r.Ok? <==> forall k: nat, e :: !Computability.Breaks(db, config, k, e))
      && (r.Ok? ==> Enumeration.VerifyResponse(r.value) == Ok(true) && Enumeration.Carries(r.value, log) && r.value.window == w)
  {
    hide ServeRange, Enumeration.VerifyResponse, Runs.OneLog, SeriesView, Computability.Breaks, Runs.Run, ValidTree;
    Computability.RunViewExact(config, steps);
    if SeriesView(Runs.Run(config, steps), config).Ok? {
      ViewIsServed(config, steps, log, cp, w);
    } else if ServeRange(Runs.Run(config, steps), config, cp.treeSize, w).Ok? {
      ServedHasView(Runs.Run(config, steps), config, cp.treeSize, w);
    }
  }

  /** So if moreover the governance walk of that log goes through, then after any run, whatever was
    * submitted and whatever failed, every published size this mirror holds answers every window of it
    * with exactly that part of the log, and a receiver that trusts the checkpoint accepts the answer.
    */
  lemma OneLogIsServed(config: Governance.Config, steps: seq<Runs.Step>, log: seq<Blob>, cp: Checkpoint, w: Window)
    requires Runs.OneLog(config, log) && Governance.Walk(log, config).Ok?
    requires cp in Runs.Run(config, steps).checkpoints && cp.treeSize <= |Runs.Run(config, steps).entries|
    requires w.from < w.upTo <= cp.treeSize
    ensures var r := ServeRange(Runs.Run(config, steps), config, cp.treeSize, w);
      && r.Ok? && Enumeration.VerifyResponse(r.value) == Ok(true) && Enumeration.Carries(r.value, log) && r.value.window == w
  {
    hide ServeRange, Enumeration.VerifyResponse, Runs.OneLog, SeriesView;
    OneLogHasView(config, steps, log);
    ViewIsServed(config, steps, log, cp, w);
  }

  /** A mirror of a log whose walk goes through always has a view. */
  lemma OneLogHasView(config: Governance.Config, steps: seq<Runs.Step>, log: seq<Blob>)
    requires Runs.OneLog(config, log) && Governance.Walk(log, config).Ok?
    ensures SeriesView(Runs.Run(config, steps), config).Ok?
  {
    hide Runs.OneLog, SeriesView;
    Runs.RunMirrors(config, steps, log);
    var held := Computability.LogAfter(config, steps);
    if Governance.Walk(held, config).Err? {
      assert log[..|held|] == held;
      Governance.WalkErrorPersists(log, |held|, config);
    }
    Computability.RunHasView(config, steps);
  }
}
