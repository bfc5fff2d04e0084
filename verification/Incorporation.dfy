/** ITUB against what it means: the tightest bound the proven part of the series supports. */
module Incorporation {
  import opened Wrappers
  import opened Encoding
  import opened Tables
  import opened TextOrder
  import opened SeriesOrder
  import opened StoreSpec
  import opened Series
  import opened Usability
  import opened Views
  import opened GapFree
  import CheckpointTime
  import Governance

  /** Member `p` is the first past `index`. */
  ghost predicate FirstAt(usable: seq<Checkpoint>, index: nat, p: nat) {
    p < |usable| && usable[p].treeSize > index && forall q :: 0 <= q < p ==> usable[q].treeSize <= index
  }

  lemma {:induction false} FirstPastExact(usable: seq<Checkpoint>, index: nat, frontier: nat) returns (p: nat)
    requires Sorted(usable)
    ensures var r := FirstPast(usable, index, frontier);
      if r.Some? then FirstAt(usable, index, p) && r.value == usable[p] && usable[p].treeSize <= frontier
      else forall q :: 0 <= q < |usable| ==> usable[q].treeSize <= index || usable[q].treeSize > frontier
    decreases |usable|
  {
    p := 0;
    if usable != [] && !(usable[0].treeSize > index && usable[0].treeSize <= frontier) {
      var rest := usable[1..];
      var q := FirstPastExact(rest, index, frontier);
      p := q + 1;
      if FirstPast(rest, index, frontier).Some? {
        assert KeyLe(usable[0], usable[p]);
        assert forall k :: 0 <= k < p ==> k == 0 || usable[k] == rest[k - 1];
      } else {
        assert forall k :: 0 <= k < |usable| ==> k == 0 || usable[k] == rest[k - 1];
      }
    }
  }


  /** The frontier of a listing, and the number of members proven gap-free. */
  ghost predicate ProvenTo(lookup: Lookup, usable: seq<Checkpoint>, floor: Option<nat>, frontier: Option<nat>, j: nat) {
    && Longest(lookup, Timed(usable), floor, j)
    && frontier == (if j == 0 then None else Some(Timed(usable)[j - 1].size))
  }

  lemma FrontierProven(lookup: Lookup, usable: seq<Checkpoint>, floor: Option<nat>) returns (j: nat)
    requires ComputeFrontier(lookup, Timed(usable), floor).Ok?
    ensures ProvenTo(lookup, usable, floor, ComputeFrontier(lookup, Timed(usable), floor).value.reached, j)
  {
    j := FrontierExact(lookup, Timed(usable), floor);
  }

  /** A bound over a listing: the first member past `index`, if the frontier reaches past it. */
  function BoundOf(usable: seq<Checkpoint>, frontier: Option<nat>, index: nat): Option<Checkpoint> {
    if frontier.None? then None else FirstPast(usable, index, frontier.value)
  }

  /** What ITUB answers: it is defined exactly below the frontier, so on a downward-closed set; its
    * answer is a member of the proven gap-free prefix, even where a later republication at that
    * size broke the cadence; and no usable member past the index comes before it.
    */
  lemma BoundExact(lookup: Lookup, usable: seq<Checkpoint>, floor: Option<nat>, frontier: Option<nat>, j: nat, index: nat)
    returns (p: nat)
    requires Sorted(usable) && ProvenTo(lookup, usable, floor, frontier, j)
    ensures BoundOf(usable, frontier, index).Some? <==> frontier.Some? && index < frontier.value
    ensures BoundOf(usable, frontier, index).Some? ==>
      && p < j <= |usable|
      && BoundOf(usable, frontier, index).value == usable[p]
      && FirstAt(usable, index, p)
      && forall q :: 0 <= q < |usable| && usable[q].treeSize > index ==> KeyLe(usable[p], usable[q])
  {
    p := 0;
    if frontier.Some? {
      p := FirstPastExact(usable, index, frontier.value);
      TimedAt(usable, j - 1);
      if FirstPast(usable, index, frontier.value).Some? {
        KeyLeTotal(usable[p], usable[p]);
      }
    }
  }

  /** Times do not fall along a proven prefix. */
  lemma {:induction false} TimesDoNotFall(lookup: Lookup, usable: seq<Member>, floor: Option<nat>, j: nat, p: nat, q: nat)
    requires GapFreePrefix(lookup, usable, floor, j) && p <= q < j
    ensures usable[p].time.Ok? && usable[q].time.Ok? && usable[p].time.value <= usable[q].time.value
    decreases q
  {
    if p < q {
      assert IntervalKept(lookup, usable, q);
      TimesDoNotFall(lookup, usable, floor, j, p, q - 1);
    } else if q > 0 {
      assert IntervalKept(lookup, usable, q);
    }
  }

  /** A later index is never bounded earlier. */
  lemma BoundRises(lookup: Lookup, usable: seq<Checkpoint>, floor: Option<nat>, frontier: Option<nat>, j: nat, index: nat, later: nat)
    requires Sorted(usable) && ProvenTo(lookup, usable, floor, frontier, j)
    requires index <= later && BoundOf(usable, frontier, later).Some?
    ensures BoundOf(usable, frontier, index).Some?
    ensures var a, b := BoundOf(usable, frontier, index).value, BoundOf(usable, frontier, later).value;
      && KeyLe(a, b)
      && CheckpointTime.ParseTime(a.checkpointTime).Ok? && CheckpointTime.ParseTime(b.checkpointTime).Ok?
      && CheckpointTime.ParseTime(a.checkpointTime).value <= CheckpointTime.ParseTime(b.checkpointTime).value
  {
    var p := BoundExact(lookup, usable, floor, frontier, j, index);
    var q := BoundExact(lookup, usable, floor, frontier, j, later);
    KeyLeTotal(usable[p], usable[q]);
    TimesDoNotFall(lookup, Timed(usable), floor, j, p, q);
    TimedAt(usable, p);
    TimedAt(usable, q);
  }

  /** The same, of the view computed over a valid store. */
  lemma ItubExact(db: Db, config: Governance.Config, view: View, index: nat) returns (j: nat, p: nat)
    requires ValidTree(db) && PositiveSizes(db.checkpoints) && SeriesView(db, config) == Ok(view)
    ensures ProvenTo(LookupIn(db.entries, config), UsableOf(view.members), view.floor, view.frontier, j)
    ensures Itub(view, index).Some? <==> view.frontier.Some? && index < view.frontier.value
    ensures Itub(view, index).Some? ==>
      var usable := UsableOf(view.members);
      && p < j <= |usable| && Itub(view, index).value == usable[p] && FirstAt(usable, index, p)
      && forall q :: 0 <= q < |usable| && usable[q].treeSize > index ==> KeyLe(usable[p], usable[q])
  {
    var usable := UsableOf(view.members);
    ViewUsable(db, config);
    j := FrontierProven(LookupIn(db.entries, config), usable, Floor(db));
    p := BoundExact(LookupIn(db.entries, config), usable, Floor(db), view.frontier, j, index);
  }

  /** ITUB is defined on a downward-closed set of indices and its time does not fall over it. */
  lemma ItubRises(db: Db, config: Governance.Config, view: View, index: nat, later: nat)
    requires ValidTree(db) && PositiveSizes(db.checkpoints) && SeriesView(db, config) == Ok(view)
    requires index <= later && Itub(view, later).Some?
    ensures Itub(view, index).Some?
    ensures var a, b := Itub(view, index).value, Itub(view, later).value;
      && CheckpointTime.ParseTime(a.checkpointTime).Ok? && CheckpointTime.ParseTime(b.checkpointTime).Ok?
      && CheckpointTime.ParseTime(a.checkpointTime).value <= CheckpointTime.ParseTime(b.checkpointTime).value
  {
    var usable := UsableOf(view.members);
    ViewUsable(db, config);
    var j := FrontierProven(LookupIn(db.entries, config), usable, Floor(db));
    BoundRises(LookupIn(db.entries, config), usable, Floor(db), view.frontier, j, index, later);
  }
}
