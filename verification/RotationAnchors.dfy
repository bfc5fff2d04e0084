/** Rotation anchoring: which rotations a checkpoint anchors, and which anchor the store serves. */
module RotationAnchors {
  import opened Wrappers
  import opened Bits
  import opened Encoding
  import opened TextOrder
  import opened Tables
  import opened StoreSpec
  import opened Governance
  import opened Admission
  import GovernanceChain
  import SeriesOrder

  // ---- which rotations a checkpoint anchors ----

  /** Versions in strictly rising order of entry index. */
  ghost predicate RisingVersions(versions: seq<State>) {
    forall i, j :: 0 <= i < j < |versions| ==> versions[i].manifestIndex < versions[j].manifestIndex
  }

  lemma ChainRises(entries: seq<Blob>, config: Config)
    requires Versions(entries, config).Ok?
    ensures RisingVersions(Versions(entries, config).value)
  {
    var versions := Versions(entries, config).value;
    GovernanceChain.WalkInvariant(entries, config);
    forall i, j | 0 <= i < j < |versions|
      ensures versions[i].manifestIndex < versions[j].manifestIndex
    {
      GovernanceChain.VersionsRise(entries, versions, config, i, j);
    }
  }

  /** Version `j` rotates its predecessor below the checkpoint's size, and the state it retires
    * verifies the checkpoint.
    */
  ghost predicate AnchorsRotation(versions: seq<State>, config: Config, c: Claim, j: nat) {
    && 1 <= j < |versions|
    && Rotates(versions[j], versions[j - 1])
    && c.cp.treeSize > versions[j].manifestIndex
    && Authenticate(versions[j - 1], c, config).Ok?
  }

  /** Some version at entry index `m` is such a rotation. */
  ghost predicate AnchorsAt(versions: seq<State>, config: Config, c: Claim, m: nat) {
    exists j: nat :: AnchorsRotation(versions, config, c, j) && versions[j].manifestIndex == m
  }

  /** `ms` is exactly the ascending list of rotations the checkpoint anchors. */
  ghost predicate AnchoredExactly(versions: seq<State>, config: Config, c: Claim, ms: seq<nat>) {
    && SeriesOrder.Ascending(ms)
    && forall m: nat :: m in ms <==> AnchorsAt(versions, config, c, m)
  }

  lemma AnchoredAppend(rotations: seq<Rotation>, r: Rotation, config: Config, c: Claim)
    ensures Anchored(rotations + [r], config, c) ==
      Anchored(rotations, config, c) + (if Qualifies(r, config, c) then [r.manifestEntryIndex] else [])
  {
    var all := rotations + [r];
    assert all[..|all| - 1] == rotations && all[|all| - 1] == r;
  }

  lemma LastRotation(versions: seq<State>)
    requires |versions| >= 2
    ensures var n := |versions| - 1;
      RotationsIn(versions) ==
      if Rotates(versions[n], versions[n - 1]) then RotationsIn(versions[..n]) + [Rotation(versions[n].manifestIndex, versions[n - 1])]
      else RotationsIn(versions[..n])
  {
    assert RotationsIn(versions[..|versions| - 1]) + [] == RotationsIn(versions[..|versions| - 1]);
  }

  lemma LastAnchor(versions: seq<State>, config: Config, c: Claim)
    requires |versions| >= 2
    ensures var n := |versions| - 1;
      Anchored(RotationsIn(versions), config, c) ==
      Anchored(RotationsIn(versions[..n]), config, c)
      + (if AnchorsRotation(versions, config, c, n) then [versions[n].manifestIndex] else [])
  {
    var n := |versions| - 1;
    LastRotation(versions);
    AnchoredAppend(RotationsIn(versions[..n]), Rotation(versions[n].manifestIndex, versions[n - 1]), config, c);
  }

  lemma AnchorsOfPrefix(versions: seq<State>, config: Config, c: Claim, j: nat)
    requires |versions| >= 1 && j < |versions| - 1
    ensures AnchorsRotation(versions[..|versions| - 1], config, c, j) <==> AnchorsRotation(versions, config, c, j)
  {
  }

  /** The rotations found are all below the last version. */
  lemma {:induction false} AnchorsAreBelow(versions: seq<State>, config: Config, c: Claim)
    requires RisingVersions(versions) && |versions| >= 1
    ensures AnchoredExactly(versions, config, c, Anchored(RotationsIn(versions), config, c))
    ensures forall m :: m in Anchored(RotationsIn(versions), config, c) ==> m <= versions[|versions| - 1].manifestIndex
    decreases |versions|
  {
    if |versions| < 2 {
    } else {
      var n := |versions| - 1;
      var init := versions[..n];
      AnchorsAreBelow(init, config, c);
      LastAnchor(versions, config, c);
      AnchoredStep(versions, config, c, Anchored(RotationsIn(init), config, c));
    }
  }

  lemma AnchorsAtStep(versions: seq<State>, config: Config, c: Claim, m: nat)
    requires |versions| >= 2
    ensures var n := |versions| - 1;
      AnchorsAt(versions, config, c, m) <==>
      AnchorsAt(versions[..n], config, c, m) || (AnchorsRotation(versions, config, c, n) && versions[n].manifestIndex == m)
  {
    var n := |versions| - 1;
    var init := versions[..n];
    if AnchorsAt(versions, config, c, m) {
      var j: nat :| AnchorsRotation(versions, config, c, j) && versions[j].manifestIndex == m;
      if j < n {
        AnchorsOfPrefix(versions, config, c, j);
        assert AnchorsRotation(init, config, c, j) && init[j].manifestIndex == m;
      }
    }
    if AnchorsAt(init, config, c, m) {
      var j: nat :| AnchorsRotation(init, config, c, j) && init[j].manifestIndex == m;
      AnchorsOfPrefix(versions, config, c, j);
    }
  }

  lemma AnchoredStep(versions: seq<State>, config: Config, c: Claim, ms: seq<nat>)
    requires RisingVersions(versions) && |versions| >= 2
    requires AnchoredExactly(versions[..|versions| - 1], config, c, ms)
    requires forall m :: m in ms ==> m <= versions[|versions| - 2].manifestIndex
    ensures var n := |versions| - 1;
      var all := ms + (if AnchorsRotation(versions, config, c, n) then [versions[n].manifestIndex] else []);
      AnchoredExactly(versions, config, c, all)
      && forall m :: m in all ==> m <= versions[n].manifestIndex
  {
    if ms != [] {
      assert ms[|ms| - 1] in ms;
    }
    SeriesOrder.AscendingAppend(ms, versions[|versions| - 1].manifestIndex);
    forall m: nat
      ensures AnchorsAt(versions, config, c, m) <==>
        AnchorsAt(versions[..|versions| - 1], config, c, m)
        || (AnchorsRotation(versions, config, c, |versions| - 1) && versions[|versions| - 1].manifestIndex == m)
    {
      AnchorsAtStep(versions, config, c, m);
    }
  }

  /** The result is exactly the ascending set of rotations below the checkpoint's size whose outgoing
    * state verifies it; naming one changes nothing about it, and only turns absence into an error.
    */
  lemma RotationAnchorsExact(entries: seq<Blob>, config: Config, c: Claim, named: Option<nat>)
    requires Versions(entries, config).Ok?
    ensures var versions := Versions(entries, config).value;
      var all := Anchored(RotationsIn(versions), config, c);
      && AnchoredExactly(versions, config, c, all)
      && RotationAnchorsFor(versions, config, c, None) == Ok(all)
      && RotationAnchorsFor(versions, config, c, named) ==
           if named.Some? && named.value !in all then Err(NotRotationMaterial(c.cp.treeSize, named.value)) else Ok(all)
  {
    ChainRises(entries, config);
    AnchorsAreBelow(Versions(entries, config).value, config, c);
  }

  // ---- which anchor is served ----

  lemma {:induction false} EarliestExact(rows: seq<Checkpoint>)
    ensures Earliest(rows).None? <==> rows == []
    ensures Earliest(rows).Some? ==> Earliest(rows).value in rows && forall r :: r in rows ==> KeyLe(Earliest(rows).value, r)
    decreases |rows|
  {
    if rows == [] {
    } else {
      EarliestExact(rows[1..]);
      KeyLeTotal(rows[0], rows[0]);
      var rest := Earliest(rows[1..]);
      if rest.Some? {
        KeyLeTotal(rows[0], rest.value);
      }
      forall r | r in rows
        ensures KeyLe(Earliest(rows).value, r)
      {
        if r in rows[1..] && KeyLe(rows[0], rest.value) {
          KeyLeTransitive(rows[0], rest.value, r);
        }
      }
    }
  }

  lemma AnchorsForAppend(rows: seq<Anchor>, a: Anchor, m: nat)
    ensures AnchorsFor(rows + [a], m) == AnchorsFor(rows, m) + (if a.manifestEntryIndex == m then [a.checkpoint] else [])
  {
    var all := rows + [a];
    assert all[..|all| - 1] == rows && all[|all| - 1] == a;
  }

  lemma {:induction false} FindExact(rows: seq<Checkpoint>, cp: Checkpoint)
    ensures var r := FindCheckpoint(rows, cp.treeSize, cp.checkpointTime);
      && (r.Some? ==> r.value in rows && SameKey(r.value, cp))
      && (r.None? ==> forall x :: x in rows ==> !SameKey(x, cp))
    decreases |rows|
  {
    if rows == [] {
    } else {
      FindExact(rows[1..], cp);
    }
  }

  /** One submission of a rotation anchor. */
  datatype Offer = Offer(m: nat, cp: Checkpoint)

  /** The tables after a run of offers; a refused one leaves them as they were. */
  function Offered(db: Db, offers: seq<Offer>): Db {
    if offers == [] then db
    else
      var before := Offered(db, offers[..|offers| - 1]);
      match InsertAnchor(before, offers[|offers| - 1].m, offers[|offers| - 1].cp)
      case Ok(written) => written.db
      case Err(_) => before
  }

  /** The offers a run accepted: recorded, already held, or superseded. */
  function AcceptedOf(db: Db, offers: seq<Offer>): seq<Offer> {
    if offers == [] then []
    else
      var init, last := offers[..|offers| - 1], offers[|offers| - 1];
      AcceptedOf(db, init) + (if InsertAnchor(Offered(db, init), last.m, last.cp).Ok? then [last] else [])
  }

  /** An offer within what the store can address. */
  predicate Addressable(o: Offer) {
    o.m <= MAX_I64 && o.cp.treeSize <= MAX_I64
  }

  /** No addressable offer for `m`, accepted or refused, is earlier than the anchor served. */
  ghost predicate NoneEarlier(served: Option<Checkpoint>, offers: seq<Offer>, m: nat) {
    forall o :: o in offers && o.m == m && Addressable(o) ==> served.Some? && KeyLe(served.value, o.cp)
  }

  /** Every anchor held for `m` was accepted, and no offer is earlier than the earliest held. */
  ghost predicate Covered(rows: seq<Checkpoint>, accepted: seq<Offer>, offers: seq<Offer>, m: nat) {
    (forall r :: r in rows ==> Offer(m, r) in accepted) && NoneEarlier(Earliest(rows), offers, m)
  }

  /** What one accepted insertion does to the anchors held for one rotation. */
  ghost predicate Inserts(was: seq<Checkpoint>, now: seq<Checkpoint>, o: Offer, m: nat) {
    if m != o.m then now == was
    else now == was + [o.cp] || (now == was && Earliest(was).Some? && KeyLe(Earliest(was).value, o.cp))
  }

  lemma InsertAnchorInserts(db: Db, o: Offer, m: nat)
    requires InsertAnchor(db, o.m, o.cp).Ok?
    ensures Inserts(AnchorsFor(db.anchors, m), AnchorsFor(InsertAnchor(db, o.m, o.cp).value.db.anchors, m), o, m)
  {
    AnchorsForAppend(db.anchors, Anchor(o.m, o.cp), m);
    FindExact(AnchorsFor(db.anchors, o.m), o.cp);
    EarliestExact(AnchorsFor(db.anchors, o.m));
  }

  /** One more anchor makes the earliest one no later. */
  lemma EarliestAppend(rows: seq<Checkpoint>, cp: Checkpoint)
    ensures var e := Earliest(rows + [cp]);
      e.Some? && KeyLe(e.value, cp) && (Earliest(rows).Some? ==> KeyLe(e.value, Earliest(rows).value))
  {
    EarliestExact(rows);
    EarliestExact(rows + [cp]);
    assert cp in rows + [cp];
    if Earliest(rows).Some? {
      assert Earliest(rows).value in rows + [cp];
    }
  }

  lemma NoneEarlierAppend(rows: seq<Checkpoint>, offers: seq<Offer>, o: Offer)
    requires NoneEarlier(Earliest(rows), offers, o.m)
    ensures NoneEarlier(Earliest(rows + [o.cp]), offers + [o], o.m)
  {
    EarliestAppend(rows, o.cp);
    var e := Earliest(rows + [o.cp]);
    forall x | x in offers + [o] && x.m == o.m && Addressable(x)
      ensures e.Some? && KeyLe(e.value, x.cp)
    {
      if x in offers {
        KeyLeTransitive(e.value, Earliest(rows).value, x.cp);
      }
    }
  }

  lemma AcceptedStep(was: seq<Checkpoint>, now: seq<Checkpoint>, accepted: seq<Offer>, offers: seq<Offer>, o: Offer, m: nat)
    requires Covered(was, accepted, offers, m) && Inserts(was, now, o, m)
    ensures Covered(now, accepted + [o], offers + [o], m)
  {
    if m == o.m && now == was + [o.cp] {
      NoneEarlierAppend(was, offers, o);
    }
  }

  /** An addressable offer is refused only for a record held at its own key. */
  lemma RefusedIsCovered(db: Db, accepted: seq<Offer>, offers: seq<Offer>, o: Offer, m: nat)
    requires InsertAnchor(db, o.m, o.cp).Err? && Covered(AnchorsFor(db.anchors, m), accepted, offers, m)
    ensures Covered(AnchorsFor(db.anchors, m), accepted, offers + [o], m)
  {
    var rows := AnchorsFor(db.anchors, o.m);
    FindExact(rows, o.cp);
    EarliestExact(rows);
  }

  lemma {:induction false} OffersAreCovered(db: Db, offers: seq<Offer>, m: nat)
    requires db.anchors == []
    ensures Covered(AnchorsFor(Offered(db, offers).anchors, m), AcceptedOf(db, offers), offers, m)
    decreases |offers|
  {
    hide Covered, Inserts, InsertAnchor, AnchorsFor;
    if offers == [] {
      NothingOffered(m);
    } else {
      var init, last := offers[..|offers| - 1], offers[|offers| - 1];
      assert offers == init + [last];
      OffersAreCovered(db, init, m);
      var before := Offered(db, init);
      var r := InsertAnchor(before, last.m, last.cp);
      if r.Ok? {
        InsertAnchorInserts(before, last, m);
        AcceptedStep(AnchorsFor(before.anchors, m), AnchorsFor(r.value.db.anchors, m), AcceptedOf(db, init), init, last, m);
      } else {
        RefusedIsCovered(before, AcceptedOf(db, init), init, last, m);
        assert AcceptedOf(db, offers) == AcceptedOf(db, init);
      }
    }
  }

  lemma NothingOffered(m: nat)
    ensures Covered(AnchorsFor([], m), [], [], m)
  {
  }

  lemma {:induction false} AcceptedIsAddressable(db: Db, offers: seq<Offer>)
    ensures forall o :: o in AcceptedOf(db, offers) ==> o in offers && Addressable(o)
    decreases |offers|
  {
    if offers == [] {
    } else {
      AcceptedIsAddressable(db, offers[..|offers| - 1]);
    }
  }

  /** Whatever was offered and in whatever order, the served anchor is an offer the store accepted, and
    * no addressable offer, accepted or refused, is earlier.
    */
  lemma ServedIsEarliest(db: Db, offers: seq<Offer>, m: nat)
    requires db.anchors == []
    ensures var served := ServedAnchor(Offered(db, offers), m);
      && (served.Some? ==> Offer(m, served.value) in AcceptedOf(db, offers) && LeastFor(offers, m, Offer(m, served.value)))
      && NoneEarlier(served, offers, m)
  {
    OffersAreCovered(db, offers, m);
    EarliestExact(AnchorsFor(Offered(db, offers).anchors, m));
    AcceptedIsAddressable(db, offers);
  }

  // ---- when arrival order matters, and when it cannot ----

  /** An addressable offer for `m` with no earlier one beside it. */
  ghost predicate LeastFor(offers: seq<Offer>, m: nat, o: Offer) {
    o in offers && o.m == m && Addressable(o) && NoneEarlier(Some(o.cp), offers, m)
  }

  /** The same offers, however often and in whatever order. */
  ghost predicate SameOffers(a: seq<Offer>, b: seq<Offer>) {
    forall o :: o in a <==> o in b
  }

  /** A least offer that no other offer shares its rotation and key with is served, whatever was
    * accepted or refused around it.
    */
  lemma LeastOfferIsServed(db: Db, offers: seq<Offer>, o: Offer)
    requires db.anchors == [] && LeastFor(offers, o.m, o)
    requires forall x :: x in offers && x.m == o.m && SameKey(x.cp, o.cp) ==> x == o
    ensures ServedAnchor(Offered(db, offers), o.m) == Some(o.cp)
  {
    ServedIsEarliest(db, offers, o.m);
    var served := ServedAnchor(Offered(db, offers), o.m);
    KeyLeTotal(served.value, o.cp);
    assert SameKey(Offer(o.m, served.value).cp, o.cp);
  }

  lemma LeastOfSame(a: seq<Offer>, b: seq<Offer>, m: nat, o: Offer)
    requires SameOffers(a, b)
    ensures LeastFor(a, m, o) <==> LeastFor(b, m, o)
  {
  }

  /** The size and time of the anchor served never depend on arrival order. */
  lemma ServedKeyIgnoresOrder(db: Db, a: seq<Offer>, b: seq<Offer>, m: nat)
    requires db.anchors == [] && SameOffers(a, b)
    ensures var x, y := ServedAnchor(Offered(db, a), m), ServedAnchor(Offered(db, b), m);
      x.Some? == y.Some? && (x.Some? ==> SameKey(x.value, y.value))
  {
    ServedIsEarliest(db, a, m);
    ServedIsEarliest(db, b, m);
    var x, y := ServedAnchor(Offered(db, a), m), ServedAnchor(Offered(db, b), m);
    if x.Some? && y.Some? {
      LeastOfSame(a, b, m, Offer(m, x.value));
      LeastOfSame(a, b, m, Offer(m, y.value));
      assert Offer(m, x.value).cp == x.value && Offer(m, y.value).cp == y.value;
      KeyLeTotal(x.value, y.value);
    }
  }

  lemma FirstIsHeld(db: Db, x: Offer)
    requires db.anchors == [] && Addressable(x)
    ensures AnchorsFor(Offered(db, [x]).anchors, x.m) == [x.cp]
  {
    hide KeyLe;
    assert [x][..0] == [];
    AnchorsForAppend([], Anchor(x.m, x.cp), x.m);
  }

  /** Of several least offers the one that came first is served. */
  lemma {:induction false} FirstLeastWins(db: Db, x: Offer, rest: seq<Offer>)
    requires db.anchors == [] && LeastFor([x] + rest, x.m, x)
    ensures AnchorsFor(Offered(db, [x] + rest).anchors, x.m) == [x.cp]
    decreases |rest|
  {
    hide KeyLe, InsertAnchor, AnchorsFor;
    var offers := [x] + rest;
    if rest == [] {
      assert offers == [x];
      FirstIsHeld(db, x);
    } else {
      var init, last := rest[..|rest| - 1], rest[|rest| - 1];
      assert offers[..|offers| - 1] == [x] + init && offers[|offers| - 1] == last;
      FirstLeastWins(db, x, init);
      FirstStays(Offered(db, [x] + init), x, last);
    }
  }

  /** An anchor no offer precedes is not joined by another. */
  lemma FirstStays(db: Db, x: Offer, o: Offer)
    requires AnchorsFor(db.anchors, x.m) == [x.cp] && (o.m == x.m && Addressable(o) ==> KeyLe(x.cp, o.cp))
    ensures var r := InsertAnchor(db, o.m, o.cp);
      r.Ok? ==> AnchorsFor(r.value.db.anchors, x.m) == [x.cp]
  {
    AnchorsForAppend(db.anchors, Anchor(o.m, o.cp), x.m);
    assert Earliest([x.cp]) == Some(x.cp);
  }

  /** At most one offer is least. */
  ghost predicate OneLeast(offers: seq<Offer>, m: nat) {
    forall x, y :: LeastFor(offers, m, x) && LeastFor(offers, m, y) ==> x == y
  }

  ghost predicate ServesTheSame(db: Db, a: seq<Offer>, b: seq<Offer>, m: nat) {
    ServedAnchor(Offered(db, a), m) == ServedAnchor(Offered(db, b), m)
  }

  /** Two runs of the same offers serve the same anchor, if no two least offers differ; what was
    * offered for other rotations or at other keys, or refused, plays no part.
    */
  lemma ServedIgnoresOrder(db: Db, a: seq<Offer>, b: seq<Offer>, m: nat)
    requires db.anchors == [] && SameOffers(a, b) && OneLeast(a, m)
    ensures ServesTheSame(db, a, b, m)
  {
    ServedKeyIgnoresOrder(db, a, b, m);
    ServedIsEarliest(db, a, m);
    ServedIsEarliest(db, b, m);
    var y := ServedAnchor(Offered(db, b), m);
    if y.Some? {
      LeastOfSame(a, b, m, Offer(m, y.value));
    }
  }

  lemma FirstLeastIsServed(db: Db, offers: seq<Offer>, m: nat, x: Offer)
    requires db.anchors == [] && LeastFor(offers, m, x)
    ensures SameOffers(offers, [x] + offers) && ServedAnchor(Offered(db, [x] + offers), m) == Some(x.cp)
  {
    LeastOfSame(offers, [x] + offers, m, x);
    FirstLeastWins(db, x, offers);
    assert Earliest([x.cp]) == Some(x.cp);
  }

  /** And only then: arrival order cannot change what is served exactly when at most one offer is
    * least.
    */
  lemma OrderMattersExact(db: Db, a: seq<Offer>, m: nat)
    requires db.anchors == []
    ensures OneLeast(a, m) <==> forall b :: SameOffers(a, b) ==> ServesTheSame(db, a, b, m)
  {
    if OneLeast(a, m) {
      forall b | SameOffers(a, b)
        ensures ServesTheSame(db, a, b, m)
      {
        ServedIgnoresOrder(db, a, b, m);
      }
    }
    if forall b :: SameOffers(a, b) ==> ServesTheSame(db, a, b, m) {
      forall x, y | LeastFor(a, m, x) && LeastFor(a, m, y)
        ensures x == y
      {
        FirstLeastIsServed(db, a, m, x);
        FirstLeastIsServed(db, a, m, y);
        assert ServesTheSame(db, a, [x] + a, m) && ServesTheSame(db, a, [y] + a, m);
      }
    }
  }
}
