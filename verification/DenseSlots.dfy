/** The sparse overlay against the dense array of slots it replaced. */
module DenseSlots {
  import opened Wrappers
  import opened Bits
  import opened Encoding
  import opened Merkle
  import opened Tables
  import opened StoreSpec
  import opened Admission
  import SubtreeCache

  /** The first claim on a slot, among claims in order. */
  function FirstClaim(pending: seq<Pending>, i: nat): Option<Pending> {
    if pending == [] then None
    else
      var earlier := FirstClaim(pending[..|pending| - 1], i);
      if earlier.Some? then earlier
      else if pending[|pending| - 1].leafIndex == i then Some(pending[|pending| - 1]) else None
  }

  /** What a dense array holds at a slot: the canonical entry, or the staged bytes first claimed for it. */
  function Slot(db: Db, pending: seq<Pending>, i: nat): Option<Blob> {
    if i in db.entries then Some(db.entries[i].bytes)
    else
      var claim := FirstClaim(pending, i);
      if claim.None? || claim.value.entryId !in db.staged then None else Some(db.staged[claim.value.entryId])
  }

  /** `run` is the longest contiguous run of filled slots from zero, below `target`. */
  ghost predicate LongestRun(db: Db, pending: seq<Pending>, target: nat, run: seq<Blob>) {
    && |run| <= target
    && (forall i :: 0 <= i < |run| ==> Slot(db, pending, i) == Some(run[i]))
    && (|run| < target ==> Slot(db, pending, |run|).None?)
  }

  lemma RunIsFilled(db: Db, pending: seq<Pending>, target: nat, run: seq<Blob>, i: nat)
    requires LongestRun(db, pending, target, run)
    ensures i < |run| ==> Slot(db, pending, i) == Some(run[i])
  {
  }

  /** There is only one. */
  lemma LongestRunUnique(db: Db, pending: seq<Pending>, target: nat, a: seq<Blob>, b: seq<Blob>)
    requires LongestRun(db, pending, target, a) && LongestRun(db, pending, target, b)
    ensures a == b
  {
    RunIsFilled(db, pending, target, a, |b|);
    RunIsFilled(db, pending, target, b, |a|);
  }

  /** A first claim in the window proves itself. */
  ghost predicate ClaimProven(db: Db, pending: seq<Pending>, root: Hash, target: nat, i: nat) {
    var claim := FirstClaim(pending, i);
    claim.Some? ==> ProvenBytes(db.staged, claim.value.entryId, claim.value.leafIndex, claim.value.path, target, root).Ok?
  }

  /** The overlay holds exactly the first claims past canonical storage and below the target. */
  ghost predicate OverlayIs(db: Db, pending: seq<Pending>, canonical: nat, target: nat, overlay: Overlay) {
    forall i: nat :: OverlayAt(db, pending, canonical, target, overlay, i)
  }

  ghost predicate OverlayAt(db: Db, pending: seq<Pending>, canonical: nat, target: nat, overlay: Overlay, i: nat) {
    && (i in overlay <==> canonical <= i < target && FirstClaim(pending, i).Some?)
    && (i in overlay ==> FirstClaim(pending, i).value.entryId in db.staged
                         && overlay[i] == db.staged[FirstClaim(pending, i).value.entryId])
  }

  lemma ClaimStep(pending: seq<Pending>, i: nat)
    requires pending != []
    ensures FirstClaim(pending, i) ==
      var earlier, last := FirstClaim(pending[..|pending| - 1], i), pending[|pending| - 1];
      if earlier.Some? then earlier else if last.leafIndex == i then Some(last) else None
  {
  }

  lemma OverlayStep(db: Db, pending: seq<Pending>, canonical: nat, target: nat, root: Hash, overlay: Overlay)
    requires pending != [] && OverlayIs(db, pending[..|pending| - 1], canonical, target, overlay)
    requires OverlayNext(db.staged, overlay, pending[|pending| - 1], canonical, target, root).Ok?
    ensures OverlayIs(db, pending, canonical, target, OverlayNext(db.staged, overlay, pending[|pending| - 1], canonical, target, root).value)
  {
    var next := OverlayNext(db.staged, overlay, pending[|pending| - 1], canonical, target, root).value;
    forall i: nat
      ensures OverlayAt(db, pending, canonical, target, next, i)
    {
      ClaimStep(pending, i);
      assert OverlayAt(db, pending[..|pending| - 1], canonical, target, overlay, i);
    }
  }

  lemma {:induction false} OverlayExact(db: Db, pending: seq<Pending>, canonical: nat, target: nat, root: Hash)
    requires OverlayOf(db.staged, pending, canonical, target, root).Ok?
    ensures OverlayIs(db, pending, canonical, target, OverlayOf(db.staged, pending, canonical, target, root).value)
    decreases |pending|
  {
    if pending == [] {
    } else {
      OverlayExact(db, pending[..|pending| - 1], canonical, target, root);
      OverlayStep(db, pending, canonical, target, root, OverlayOf(db.staged, pending[..|pending| - 1], canonical, target, root).value);
    }
  }

  /** The overlay never holds more slots than there were claims. */
  lemma {:induction false} OverlayIsSmall(staged: map<EntryId, Blob>, pending: seq<Pending>, canonical: nat, target: nat, root: Hash)
    requires OverlayOf(staged, pending, canonical, target, root).Ok?
    ensures |OverlayOf(staged, pending, canonical, target, root).value| <= |pending|
    decreases |pending|
  {
    if pending == [] {
    } else {
      var before := OverlayOf(staged, pending[..|pending| - 1], canonical, target, root);
      OverlayIsSmall(staged, pending[..|pending| - 1], canonical, target, root);
      var p := pending[|pending| - 1];
      if Consulted(before.value, p, canonical, target) {
        InsertFreshSize(before.value, p.leafIndex, staged[p.entryId]);
      }
    }
  }

  /** Extending stops at the first index the overlay lacks. */
  lemma {:induction false} RunExact(run: seq<Blob>, overlay: Overlay, target: nat)
    requires |run| <= target
    ensures var r := ExtendRun(run, overlay, target);
      && run <= r && |r| <= target
      && (forall i :: |run| <= i < |r| ==> i in overlay && overlay[i] == r[i])
      && (|r| < target ==> |r| !in overlay)
    decreases target - |run|
  {
    if |run| < target && |run| in overlay {
      RunExact(run + [overlay[|run|]], overlay, target);
    }
  }

  lemma {:induction false} RunIsSmall(run: seq<Blob>, overlay: Overlay, target: nat, taken: set<nat>)
    requires |run| <= target
    requires taken <= overlay.Keys && forall i :: i in taken ==> i < |run|
    ensures |ExtendRun(run, overlay, target)| - |run| <= |overlay| - |taken|
    decreases target - |run|
  {
    if |run| < target && |run| in overlay {
      RunIsSmall(run + [overlay[|run|]], overlay, target, taken + {|run|});
    } else {
      SubtreeCache.SubsetNoLarger(taken, overlay.Keys);
    }
  }

  /** Canonical entries below the target, and the slots they fill. */
  lemma CanonicalRun(db: Db, target: nat)
    requires Contiguous(db.entries)
    ensures var run := EntriesRange(db.entries, 0, target);
      && |run| == (if target <= |db.entries| then target else |db.entries|)
      && forall i :: 0 <= i < |run| ==> i in db.entries && run[i] == db.entries[i].bytes
  {
    RangeOfContiguous(db.entries, 0, target);
  }

  /** The sparse overlay gives the same longest contiguous prefix as a dense first-claim-wins slot
    * array, and is sized by material in hand rather than by the claim.
    */
  lemma VisiblePrefixIsDense(db: Db, pending: seq<Pending>, target: nat, root: Hash)
    requires Contiguous(db.entries) && VisiblePrefix(db, pending, target, root).Ok?
    ensures var run := VisiblePrefix(db, pending, target, root).value;
      LongestRun(db, pending, target, run) && |run| <= |db.entries| + |pending|
  {
    var canonical := EntriesRange(db.entries, 0, target);
    var overlay := OverlayOf(db.staged, pending, |canonical|, target, root).value;
    CanonicalRun(db, target);
    OverlayExact(db, pending, |canonical|, target, root);
    OverlayIsSmall(db.staged, pending, |canonical|, target, root);
    RunExact(canonical, overlay, target);
    RunIsSmall(canonical, overlay, target, {});
    RunFillsSlots(db, pending, target, canonical, overlay, ExtendRun(canonical, overlay, target));
  }

  lemma RunFillsSlots(db: Db, pending: seq<Pending>, target: nat, canonical: seq<Blob>, overlay: Overlay, run: seq<Blob>)
    requires Contiguous(db.entries) && canonical <= run && |run| <= target
    requires |canonical| == (if target <= |db.entries| then target else |db.entries|)
    requires forall i :: 0 <= i < |canonical| ==> i in db.entries && canonical[i] == db.entries[i].bytes
    requires OverlayIs(db, pending, |canonical|, target, overlay)
    requires forall i :: |canonical| <= i < |run| ==> i in overlay && overlay[i] == run[i]
    requires |run| < target ==> |run| !in overlay
    ensures LongestRun(db, pending, target, run)
  {
    forall i | 0 <= i < |run|
      ensures Slot(db, pending, i) == Some(run[i])
    {
      if i < |canonical| {
        assert canonical[i] == run[i];
      } else {
        assert OverlayAt(db, pending, |canonical|, target, overlay, i);
      }
    }
    if |run| < target {
      assert OverlayAt(db, pending, |canonical|, target, overlay, |run|);
    }
  }

  // ---- when the prefix is refused ----

  /** Every claim the overlay consults proves itself. */
  ghost predicate ClaimsProven(db: Db, pending: seq<Pending>, canonical: nat, target: nat, root: Hash) {
    forall i: nat :: canonical <= i < target ==> ClaimProven(db, pending, root, target, i)
  }

  lemma ClaimsProvenStep(db: Db, pending: seq<Pending>, canonical: nat, target: nat, root: Hash, overlay: Overlay)
    requires pending != [] && OverlayIs(db, pending[..|pending| - 1], canonical, target, overlay)
    ensures ClaimsProven(db, pending, canonical, target, root) <==>
      ClaimsProven(db, pending[..|pending| - 1], canonical, target, root)
      && OverlayNext(db.staged, overlay, pending[|pending| - 1], canonical, target, root).Ok?
  {
    var init, last := pending[..|pending| - 1], pending[|pending| - 1];
    assert OverlayAt(db, init, canonical, target, overlay, last.leafIndex);
    forall i: nat
      ensures FirstClaim(pending, i) == FirstClaim(init, i) || (FirstClaim(init, i).None? && i == last.leafIndex)
    {
      ClaimStep(pending, i);
    }
    ClaimStep(pending, last.leafIndex);
    if ClaimsProven(db, pending, canonical, target, root) {
      forall i: nat | canonical <= i < target
        ensures ClaimProven(db, init, root, target, i)
      {
        assert ClaimProven(db, pending, root, target, i);
      }
      if canonical <= last.leafIndex < target {
        assert ClaimProven(db, pending, root, target, last.leafIndex);
      }
    }
    if ClaimsProven(db, init, canonical, target, root) && OverlayNext(db.staged, overlay, last, canonical, target, root).Ok? {
      forall i: nat | canonical <= i < target
        ensures ClaimProven(db, pending, root, target, i)
      {
        assert ClaimProven(db, init, root, target, i);
      }
    }
  }

  /** The prefix is refused exactly when a claim it consults does not prove itself; a gap never is. */
  lemma {:induction false} RefusedForBadClaims(db: Db, pending: seq<Pending>, canonical: nat, target: nat, root: Hash)
    ensures OverlayOf(db.staged, pending, canonical, target, root).Ok? <==> ClaimsProven(db, pending, canonical, target, root)
    decreases |pending|
  {
    if pending != [] {
      var init := pending[..|pending| - 1];
      RefusedForBadClaims(db, init, canonical, target, root);
      if OverlayOf(db.staged, init, canonical, target, root).Ok? {
        OverlayExact(db, init, canonical, target, root);
        ClaimsProvenStep(db, pending, canonical, target, root, OverlayOf(db.staged, init, canonical, target, root).value);
      } else if ClaimsProven(db, pending, canonical, target, root) {
        ClaimsOfLonger(db, pending, canonical, target, root);
      }
    }
  }

  lemma ClaimsOfLonger(db: Db, pending: seq<Pending>, canonical: nat, target: nat, root: Hash)
    requires pending != [] && ClaimsProven(db, pending, canonical, target, root)
    ensures ClaimsProven(db, pending[..|pending| - 1], canonical, target, root)
  {
    var init := pending[..|pending| - 1];
    forall i: nat | canonical <= i < target
      ensures ClaimProven(db, init, root, target, i)
    {
      assert ClaimProven(db, pending, root, target, i);
      ClaimStep(pending, i);
    }
  }
}
