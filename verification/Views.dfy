/** What a computed view of the series says about the store it was computed from. */
module Views {
  import opened Wrappers
  import opened Encoding
  import opened Tables
  import opened StoreSpec
  import opened TextOrder
  import opened SeriesOrder
  import opened Series
  import opened Usability
  import opened GapFree
  import Governance

  /** Over a valid store every member is labelled with whether it is established, and the usable
    * subset is in order.
    */
  lemma ViewUsable(db: Db, config: Governance.Config)
    requires ValidTree(db) && PositiveSizes(db.checkpoints)
    ensures Label(db, Sort(db.checkpoints)).Ok?
    ensures SeriesView(db, config).Ok? ==>
      var usable := UsableOf(SeriesView(db, config).value.members);
      usable == EstablishedOf(LeavesOf(db), Sort(db.checkpoints)) && Sorted(usable)
  {
    var rows := Sort(db.checkpoints);
    SortIsOrdered(db.checkpoints);
    LabelExact(db, rows);
    EstablishedOfMembers(LeavesOf(db), rows);
  }

  /** A member is reported series-usable exactly when it is published and established: its prefix is
    * held and its root recomputes.
    */
  lemma UsableIsEstablished(db: Db, config: Governance.Config, view: View, cp: Checkpoint)
    requires ValidTree(db) && PositiveSizes(db.checkpoints) && SeriesView(db, config) == Ok(view)
    ensures cp in UsableOf(view.members) <==> cp in db.checkpoints && Established(LeavesOf(db), cp)
  {
    ViewUsable(db, config);
    SortIsOrdered(db.checkpoints);
    EstablishedOfMembers(LeavesOf(db), Sort(db.checkpoints));
  }

  lemma {:induction false} AnchorRecords(anchors: seq<Anchor>)
    ensures forall cp :: cp in CheckpointsOf(anchors) <==> exists a :: a in anchors && a.checkpoint == cp
    decreases |anchors|
  {
    if anchors == [] {
    } else {
      var init, last := anchors[..|anchors| - 1], anchors[|anchors| - 1];
      assert anchors == init + [last];
      AnchorRecords(init);
    }
  }

  /** A checkpoint this store holds, in either table. */
  ghost predicate Recorded(db: Db, cp: Checkpoint) {
    cp in db.checkpoints || exists a :: a in db.anchors && a.checkpoint == cp
  }

  lemma RecordsAreBothTables(db: Db, cp: Checkpoint)
    ensures cp in Records(db) <==> Recorded(db, cp)
  {
    SortIsOrdered(db.checkpoints);
    AnchorRecords(db.anchors);
  }

  /** Two records of this store, from either table, commit different roots at one size. */
  ghost predicate Equivocates(db: Db, size: nat) {
    exists a, b :: Recorded(db, a) && Recorded(db, b) && a.treeSize == b.treeSize == size && a.rootHash != b.rootHash
  }

  lemma EquivocatesIsDisagree(db: Db, size: nat)
    ensures Equivocates(db, size) <==> Disagree(Records(db), size)
  {
    forall cp
      ensures cp in Records(db) <==> Recorded(db, cp)
    {
      RecordsAreBothTables(db, cp);
    }
  }

  /** The divergences reported are exactly the sizes at which two records of either table disagree,
    * ascending and without repeats, and the floor is the least of them.
    */
  lemma DivergencesExact(db: Db, config: Governance.Config, view: View)
    requires SeriesView(db, config) == Ok(view)
    ensures forall size: nat :: size in view.divergences <==> Equivocates(db, size)
    ensures Ascending(view.divergences)
    ensures view.floor.None? <==> view.divergences == []
    ensures view.floor.Some? ==> view.floor.value == view.divergences[0]
  {
    var rows := Sort(Records(db));
    SortIsOrdered(Records(db));
    ScanExact(rows);
    LeastExact(view.divergences);
    forall size: nat
      ensures size in view.divergences <==> Equivocates(db, size)
    {
      EquivocatesIsDisagree(db, size);
      assert Disagree(rows, size) <==> Disagree(Records(db), size);
    }
  }

  /** The frontier reported is the size of the last member of the longest gap-free prefix of the usable
    * series, and the stop reported names the first condition that ended it.
    */
  lemma FrontierOfView(db: Db, config: Governance.Config, view: View) returns (j: nat)
    requires SeriesView(db, config) == Ok(view)
    ensures FrontierIs(LookupIn(db.entries, config), Timed(UsableOf(view.members)), view.floor, j, Frontier(view.frontier, view.stop))
  {
    j := FrontierExact(LookupIn(db.entries, config), Timed(UsableOf(view.members)), view.floor);
  }

  lemma EstablishedRises(usable: seq<Checkpoint>)
    requires Sorted(usable)
    ensures Rising(Timed(usable))
  {
    forall i, j | 0 <= i < j < |usable|
      ensures Timed(usable)[i].size <= Timed(usable)[j].size
    {
      TimedAt(usable, i);
      TimedAt(usable, j);
      assert KeyLe(usable[i], usable[j]);
    }
  }

  /** Under a floor the frontier is the one computed with every member at or above it removed and no
    * floor at all, and it lies below the floor.
    */
  lemma FloorRemovesMembers(db: Db, config: Governance.Config, view: View) returns (k: nat)
    requires ValidTree(db) && PositiveSizes(db.checkpoints) && SeriesView(db, config) == Ok(view) && view.floor.Some?
    ensures var timed := Timed(UsableOf(view.members));
      && CutAt(timed, view.floor.value, k)
      && ReachOf(ComputeFrontier(LookupIn(db.entries, config), timed[..k], None)) == Ok(view.frontier)
    ensures view.frontier.Some? ==> view.frontier.value < view.floor.value
  {
    var usable := UsableOf(view.members);
    var timed := Timed(usable);
    ViewUsable(db, config);
    EstablishedRises(usable);
    k := RisingHasCut(timed, view.floor.value);
    FloorOnlyCuts(LookupIn(db.entries, config), timed, view.floor.value, k);
    var j := FrontierExact(LookupIn(db.entries, config), timed, view.floor);
    if j > 0 {
      assert !AtOrAbove(timed[j - 1].size, view.floor);
    }
  }
}
