/** Authenticated range enumeration: the windowed builder, the reference builder it replaced, and the
  * offline check a receiver makes.
  */
module Enumeration {
  import opened Wrappers
  import opened Bits
  import opened Encoding
  import opened Merkle
  import opened Tables
  import opened StoreSpec
  import opened TreeOpening
  import opened ProofOpening
  import opened Range
  import opened Usability
  import Content
  import SubtreeCache
  import Runs

  datatype EnumeratedEntry = EnumeratedEntry(index: nat, envelope: Json)

  /** The carried proof text: an encoded proof, or bytes that decode to none. */
  datatype ProofForm = Encoded(proof: RangeProof) | Garbled(tag: nat)

  datatype RangeResponse = RangeResponse(window: Window, entries: seq<EnumeratedEntry>, form: ProofForm, checkpoint: Checkpoint)

  /** What a response read: entry envelopes, and 32-octet tree nodes. */
  datatype RangeReadCost = RangeReadCost(entries: nat, treeNodes: nat)

  datatype MeasuredResponse = MeasuredResponse(response: RangeResponse, cost: RangeReadCost)

  // ---- the windowed builder ----

  /** The stored root of each span, in order. */
  function OpenSpans(entries: Entries, cache: Cache, spans: seq<Span>): MirrorResult<seq<Hash>> {
    if spans == [] then Ok([])
    else
      var nodes :- OpenSpans(entries, cache, spans[..|spans| - 1]);
      var root :- SubtreeRoot(entries, cache, spans[|spans| - 1].offset, spans[|spans| - 1].size);
      Ok(nodes + [root.root])
  }

  /** One node per set bit of each span's size: what the builder counts. */
  function CountSpans(spans: seq<Span>): nat {
    if spans == [] then 0 else CountSpans(spans[..|spans| - 1]) + PopCount(spans[|spans| - 1].size)
  }

  /** The entries of a window, parsed and numbered from `from`. */
  function Numbered(window: seq<Blob>, from: nat): MirrorResult<seq<EnumeratedEntry>> {
    if window == [] then Ok([])
    else
      var n := |window| - 1;
      var before :- Numbered(window[..n], from);
      match ParseJson(window[n])
      case None => Err(Unparsable)
      case Some(envelope) => Ok(before + [EnumeratedEntry(from + n, envelope)])
  }

  /** Whether a window can be asked of a tree size this store reaches. */
  function CheckWindow(entries: Entries, treeSize: nat, w: Window): (r: MirrorResult<()>)
    ensures r.Ok? ==> w.from < w.upTo <= treeSize
  {
    if treeSize > MAX_I64 then Err(IndexOverflow)
    else if CountEntries(entries, 0, treeSize) != treeSize then Err(IncompleteEntries(CountEntries(entries, 0, treeSize), treeSize))
    else if w.from >= w.upTo || w.upTo > treeSize then Err(InvalidRange)
    else Ok(())
  }

  /** The self-check and the window's entries, once the nodes are in hand. */
  function FinishRange(entries: Entries, cp: Checkpoint, w: Window, root: Hash, nodes: seq<Hash>, counted: nat): MirrorResult<MeasuredResponse> {
    var proof := RangeProof(cp.treeSize, w, nodes);
    var leaves :- LeafHashesRange(entries, w.from, w.upTo);
    var verified :- Verify(proof, leaves, root);
    if !verified then Err(CheckpointRootMismatch(cp.treeSize))
    else
      var window := EntriesRange(entries, w.from, w.upTo);
      var enumerated :- Numbered(window, w.from);
      Ok(MeasuredResponse(RangeResponse(w, enumerated, Encoded(proof), cp),
                          RangeReadCost(|window|, counted + |leaves|)))
  }

  /** `build_range_response_in`. */
  function BuildRange(entries: Entries, cache: Cache, cp: Checkpoint, w: Window): MirrorResult<MeasuredResponse> {
    var _ :- CheckWindow(entries, cp.treeSize, w);
    var root :- ParseHashHex(cp.rootHash);
    var stored :- SubtreeRoot(entries, cache, 0, cp.treeSize);
    if stored.root != root then Err(CheckpointRootMismatch(cp.treeSize))
    else
      var spans := OutsideSubtrees(0, cp.treeSize, w);
      var nodes :- OpenSpans(entries, cache, spans);
      FinishRange(entries, cp, w, root, nodes, PopCount(cp.treeSize) + CountSpans(spans))
  }

  /** `outside_subtrees`, pushing onto the spans collected so far. */
  method PushOutside(offset: nat, size: nat, w: Window, spans: seq<Span>) returns (r: seq<Span>)
    requires size >= 1
    ensures r == spans + OutsideSubtrees(offset, size, w)
    decreases size
  {
    match Classify(offset, size, w)
    case Outside => r := spans + [Span(offset, size)];
    case Inside => r := spans;
    case Straddles =>
      if size == 1 {
        return spans;
      }
      var k := Split(size);
      r := PushOutside(offset, k, w, spans);
      r := PushOutside(offset + k, size - k, w, r);
  }

  /** The node loop of `build_range_response_in`: each span opened in turn, and counted. */
  method RunOpenSpans(entries: Entries, cache: Cache, spans: seq<Span>, counted: nat) returns (r: MirrorResult<seq<Hash>>, treeNodes: nat)
    ensures r == OpenSpans(entries, cache, spans)
    ensures r.Ok? ==> treeNodes == counted + CountSpans(spans)
  {
    var nodes: seq<Hash> := [];
    treeNodes := counted;
    var i := 0;
    while i < |spans|
      invariant 0 <= i <= |spans|
      invariant OpenSpans(entries, cache, spans[..i]) == Ok(nodes)
      invariant treeNodes == counted + CountSpans(spans[..i])
    {
      SpansStep(entries, cache, spans, i);
      treeNodes := treeNodes + PopCount(spans[i].size);
      var root := SubtreeRoot(entries, cache, spans[i].offset, spans[i].size);
      if root.Err? {
        SpansErrorPersists(entries, cache, spans, i + 1);
        return Err(root.error), treeNodes;
      }
      nodes := nodes + [root.value.root];
      i := i + 1;
    }
    assert spans[..i] == spans;
    r := Ok(nodes);
  }

  /** `build_range_response_in`: one pass for the nodes, one for the entries. */
  method RunBuildRange(entries: Entries, cache: Cache, cp: Checkpoint, w: Window) returns (r: MirrorResult<MeasuredResponse>)
    ensures r == BuildRange(entries, cache, cp, w)
  {
    hide Verify, OutsideSubtrees, OpenSpans, FinishRange, SubtreeRoot, CheckWindow, PopCount, CountSpans;
    var _ :- CheckWindow(entries, cp.treeSize, w);
    var root :- ParseHashHex(cp.rootHash);
    var treeNodes := PopCount(cp.treeSize);
    var stored :- SubtreeRoot(entries, cache, 0, cp.treeSize);
    if stored.root != root {
      return Err(CheckpointRootMismatch(cp.treeSize));
    }
    var spans := PushOutside(0, cp.treeSize, w, []);
    assert spans == OutsideSubtrees(0, cp.treeSize, w);
    var nodes;
    nodes, treeNodes := RunOpenSpans(entries, cache, spans, treeNodes);
    if nodes.Err? {
      return Err(nodes.error);
    }
    r := FinishRange(entries, cp, w, root, nodes.value, treeNodes);
  }

  lemma SpansStep(entries: Entries, cache: Cache, spans: seq<Span>, i: nat)
    requires i < |spans|
    ensures CountSpans(spans[..i + 1]) == CountSpans(spans[..i]) + PopCount(spans[i].size)
    ensures OpenSpans(entries, cache, spans[..i]).Ok? ==>
      OpenSpans(entries, cache, spans[..i + 1]) ==
      match SubtreeRoot(entries, cache, spans[i].offset, spans[i].size)
      case Ok(root) => Ok(OpenSpans(entries, cache, spans[..i]).value + [root.root])
      case Err(e) => Err(e)
    ensures OpenSpans(entries, cache, spans[..i]).Err? ==> OpenSpans(entries, cache, spans[..i + 1]) == OpenSpans(entries, cache, spans[..i])
  {
    var p := spans[..i + 1];
    assert p[..i] == spans[..i] && p[i] == spans[i];
  }

  lemma {:induction false} SpansErrorPersists(entries: Entries, cache: Cache, spans: seq<Span>, n: nat)
    requires n <= |spans| && OpenSpans(entries, cache, spans[..n]).Err?
    ensures OpenSpans(entries, cache, spans) == Err(OpenSpans(entries, cache, spans[..n]).error)
    decreases |spans| - n
  {
    if n == |spans| {
      assert spans[..n] == spans;
    } else {
      SpansStep(entries, cache, spans, n);
      SpansErrorPersists(entries, cache, spans, n + 1);
    }
  }

  // ---- the reference builder ----

  /** `build_range_response_from_prefix`: hash every entry and generate from the whole leaf sequence. */
  function BuildFromPrefix(all: seq<Blob>, d: seq<Hash>, cp: Checkpoint, w: Window): MirrorResult<RangeResponse>
    requires |d| == |all|
  {
    if |all| != cp.treeSize then Err(IncompleteEntries(|all|, cp.treeSize))
    else if w.from >= w.upTo || w.upTo > cp.treeSize then Err(InvalidRange)
    else
      var root :- ParseHashHex(cp.rootHash);
      if MTH(d) != root then Err(CheckpointRootMismatch(cp.treeSize))
      else
        var proof := RangeProof(cp.treeSize, w, Generate(d, 0, |d|, w));
        var verified :- Verify(proof, d[w.from..w.upTo], root);
        if !verified then Err(CheckpointRootMismatch(cp.treeSize))
        else
          var entries :- Numbered(all[w.from..w.upTo], w.from);
          Ok(RangeResponse(w, entries, Encoded(proof), cp))
  }

  // ---- the receiver ----

  /** The log leaf hashes of the carried envelopes. */
  function CarriedLeaves(entries: seq<EnumeratedEntry>): (leaves: seq<Hash>)
    ensures |leaves| == |entries|
    ensures forall i :: 0 <= i < |entries| ==> leaves[i] == LogLeafHash(Jcs(entries[i].envelope))
  {
    seq(|entries|, i requires 0 <= i < |entries| => LogLeafHash(Jcs(entries[i].envelope)))
  }

  predicate Contiguously(entries: seq<EnumeratedEntry>, from: nat) {
    forall i :: 0 <= i < |entries| ==> entries[i].index == from + i
  }

  /** `verify_range_response`. */
  function VerifyResponse(r: RangeResponse): MirrorResult<bool> {
    if !Contiguously(r.entries, r.window.from) then Err(InvalidRange)
    else match r.form
      case Garbled(_) => Err(Atl)
      case Encoded(proof) =>
        if proof.treeSize != r.checkpoint.treeSize || proof.window != r.window then Err(InvalidRange)
        else
          var root :- ParseHashHex(r.checkpoint.rootHash);
          Verify(proof, CarriedLeaves(r.entries), root)
  }

  // ---- soundness, whatever nodes a response supplies ----

  /** A response carries exactly a window of the log. */
  ghost predicate Carries(r: RangeResponse, log: seq<Blob>) {
    && r.window.from < r.window.upTo <= |log|
    && |r.entries| == r.window.upTo - r.window.from
    && forall i :: 0 <= i < |r.entries| ==>
         r.entries[i].index == r.window.from + i && Jcs(r.entries[i].envelope) == log[r.window.from + i]
  }

  lemma SameLeavesSameEntries(entries: seq<EnumeratedEntry>, log: seq<Blob>, from: nat, upTo: nat)
    requires from <= upTo <= |log| && CarriedLeaves(entries) == Leaves(log)[from..upTo]
    ensures |entries| == upTo - from
    ensures forall i :: 0 <= i < |entries| ==> Jcs(entries[i].envelope) == log[from + i]
  {
    var leaves := CarriedLeaves(entries);
    forall i | 0 <= i < |entries|
      ensures Jcs(entries[i].envelope) == log[from + i]
    {
      assert leaves[i] == Leaves(log)[from..upTo][i] == LogLeafHash(log[from + i]);
    }
  }

  /** A response accepted against the root of a log carries exactly that log's entries, in order and
    * complete over the window, and its proof is the reference builder's, node for node.
    */
  lemma AcceptedCarriesTheLog(r: RangeResponse, log: seq<Blob>)
    requires VerifyResponse(r) == Ok(true) && Runs.Commits(log, r.checkpoint)
    ensures Carries(r, log) && r.window.upTo <= r.checkpoint.treeSize
    ensures r.form.Encoded? && r.form.proof.nodes == Generate(Leaves(log), 0, r.checkpoint.treeSize, r.window)
  {
    VerifyExact(Leaves(log), r.checkpoint.treeSize, r.window, CarriedLeaves(r.entries), r.form.proof.nodes);
    SameLeavesSameEntries(r.entries, log, r.window.from, r.window.upTo);
  }

  // ---- completeness, over a valid store ----

  lemma SpanOpens(db: Db, n: nat, s: Span)
    requires ValidTree(db) && n <= |db.entries|
    requires s.size >= 1 && s.offset + s.size <= n && AlignedFor(s.offset, s.size)
    ensures SubtreeRoot(db.entries, db.subtrees, s.offset, s.size)
         == Ok(MeasuredRoot(Root(LeavesOf(db), s.offset, s.size), PopCount(s.size)))
  {
    var bound := s.offset + s.size;
    ValidIsSound(db, bound);
    SubtreeRootRefusesOrAgrees(db.entries, db.subtrees, LeavesOf(db), s.offset, s.size);
    AlignedCost(s.offset, s.size);
    var r := SubtreeRoot(db.entries, db.subtrees, s.offset, s.size);
    if r.Err? {
      NothingAbsent(db.entries, db.subtrees, LeavesOf(db), bound, r.error);
    }
  }

  /** The spans of a walk, none of which reaches past `n` leaves. */
  ghost predicate Inside(spans: seq<Span>, n: nat) {
    forall i :: 0 <= i < |spans| ==> spans[i].size >= 1 && spans[i].offset + spans[i].size <= n && AlignedFor(spans[i].offset, spans[i].size)
  }

  lemma SpansOpenStep(entries: Entries, cache: Cache, d: seq<Hash>, spans: seq<Span>, nodes: seq<Hash>, root: MeasuredRoot)
    requires spans != [] && OpenSpans(entries, cache, spans[..|spans| - 1]) == Ok(nodes) && RootsOf(d, spans[..|spans| - 1], nodes)
    requires var last := spans[|spans| - 1];
      SubtreeRoot(entries, cache, last.offset, last.size) == Ok(root) && IsRootOf(d, last, root.root)
    ensures OpenSpans(entries, cache, spans) == Ok(nodes + [root.root]) && RootsOf(d, spans, nodes + [root.root])
  {
    var init, last := spans[..|spans| - 1], spans[|spans| - 1];
    RootsOfConcat(d, init, [last], nodes, [root.root]);
    assert spans == init + [last];
  }

  lemma {:induction false} SpansOpen(db: Db, n: nat, spans: seq<Span>) returns (nodes: seq<Hash>)
    requires ValidTree(db) && n <= |db.entries| && Inside(spans, n)
    ensures OpenSpans(db.entries, db.subtrees, spans) == Ok(nodes) && RootsOf(LeavesOf(db), spans, nodes)
    decreases |spans|
  {
    nodes := [];
    if spans == [] {
    } else {
      var init, last := spans[..|spans| - 1], spans[|spans| - 1];
      assert Inside(init, n);
      nodes := SpansOpen(db, n, init);
      SpanOpens(db, n, last);
      var root := MeasuredRoot(Root(LeavesOf(db), last.offset, last.size), PopCount(last.size));
      SpansOpenStep(db.entries, db.subtrees, LeavesOf(db), spans, nodes, root);
      nodes := nodes + [root.root];
    }
  }

  lemma WindowSpansInside(n: nat, w: Window)
    requires n >= 1
    ensures Inside(OutsideSubtrees(0, n, w), n)
  {
    var spans := OutsideSubtrees(0, n, w);
    ZeroIsAligned(n);
    SpansAreGood(0, n, w);
    forall i | 0 <= i < |spans|
      ensures spans[i].size >= 1 && spans[i].offset + spans[i].size <= n && AlignedFor(spans[i].offset, spans[i].size)
    {
      assert GoodSpan(spans[i], 0, n, w);
    }
  }

  /** The windowed builder opens exactly the reference builder's nodes. */
  lemma WindowOpens(db: Db, n: nat, w: Window)
    requires ValidTree(db) && 1 <= n <= |db.entries|
    ensures OpenSpans(db.entries, db.subtrees, OutsideSubtrees(0, n, w)) == Ok(Generate(LeavesOf(db), 0, n, w))
  {
    var spans := OutsideSubtrees(0, n, w);
    WindowSpansInside(n, w);
    var nodes := SpansOpen(db, n, spans);
    WindowedIsReference(LeavesOf(db), 0, n, w);
    RootsOfUnique(LeavesOf(db), spans, nodes, Generate(LeavesOf(db), 0, n, w));
  }

  /** Canonical entries parse, and carry on the wire what they were hashed as. */
  lemma {:induction false} NumberedExact(window: seq<Blob>, from: nat)
    requires forall i :: 0 <= i < |window| ==> window[i].Jcs?
    ensures var r := Numbered(window, from);
      && r.Ok? && |r.value| == |window|
      && forall i :: 0 <= i < |window| ==> r.value[i] == EnumeratedEntry(from + i, window[i].value)
    decreases |window|
  {
    if window == [] {
    } else {
      NumberedExact(window[..|window| - 1], from);
    }
  }

  /** The response the reference builder gives for a held window of the log. */
  ghost predicate IsReference(log: seq<Blob>, cp: Checkpoint, w: Window, r: RangeResponse) {
    && r.window == w && r.checkpoint == cp && Carries(r, log)
    && w.upTo <= cp.treeSize <= |log|
    && r.form == Encoded(RangeProof(cp.treeSize, w, Generate(Leaves(log), 0, cp.treeSize, w)))
  }

  lemma FinishUnfolds(entries: Entries, cp: Checkpoint, w: Window, root: Hash, nodes: seq<Hash>, counted: nat,
                      leaves: seq<Hash>, window: seq<Blob>, enumerated: seq<EnumeratedEntry>)
    requires LeafHashesRange(entries, w.from, w.upTo) == Ok(leaves)
    requires Verify(RangeProof(cp.treeSize, w, nodes), leaves, root) == Ok(true)
    requires EntriesRange(entries, w.from, w.upTo) == window && Numbered(window, w.from) == Ok(enumerated)
    ensures FinishRange(entries, cp, w, root, nodes, counted) ==
      Ok(MeasuredResponse(RangeResponse(w, enumerated, Encoded(RangeProof(cp.treeSize, w, nodes)), cp),
                          RangeReadCost(|window|, counted + |leaves|)))
  {
    hide Verify, LeafHashesRange, EntriesRange, Numbered;
  }

  /** A window of canonical entries, numbered, is what a reference response carries. */
  lemma WindowCarries(log: seq<Blob>, cp: Checkpoint, w: Window, enumerated: seq<EnumeratedEntry>)
    requires w.from < w.upTo <= cp.treeSize <= |log|
    requires forall i :: 0 <= i < |log| ==> log[i].Jcs?
    requires Numbered(log[w.from..w.upTo], w.from) == Ok(enumerated)
    ensures IsReference(log, cp, w, RangeResponse(w, enumerated, Encoded(RangeProof(cp.treeSize, w, Generate(Leaves(log), 0, cp.treeSize, w))), cp))
  {
    NumberedExact(log[w.from..w.upTo], w.from);
  }

  /** The log of a store is canonical JSON throughout. */
  lemma LogIsCanonical(db: Db)
    requires ValidTree(db) && Content.EntryContent(db.entries)
    ensures forall i :: 0 <= i < |LogOf(db)| ==> LogOf(db)[i].Jcs?
  {
  }

  lemma WindowEntries(db: Db, w: Window) returns (enumerated: seq<EnumeratedEntry>)
    requires ValidTree(db) && Content.EntryContent(db.entries) && w.from < w.upTo <= |db.entries|
    ensures EntriesRange(db.entries, w.from, w.upTo) == LogOf(db)[w.from..w.upTo]
    ensures Numbered(LogOf(db)[w.from..w.upTo], w.from) == Ok(enumerated)
  {
    RangeOfContiguous(db.entries, w.from, w.upTo);
    LogIsCanonical(db);
    NumberedExact(LogOf(db)[w.from..w.upTo], w.from);
    enumerated := Numbered(LogOf(db)[w.from..w.upTo], w.from).value;
  }

  /** A finished response is the reference one, at the counted cost. */
  ghost predicate ServedAs(db: Db, cp: Checkpoint, w: Window, counted: nat, r: MirrorResult<MeasuredResponse>)
    requires ValidTree(db)
  {
    && r.Ok? && IsReference(LogOf(db), cp, w, r.value.response)
    && r.value.cost == RangeReadCost(w.upTo - w.from, counted + (w.upTo - w.from))
  }

  lemma FinishExact(db: Db, cp: Checkpoint, w: Window, counted: nat)
    requires ValidTree(db) && Content.EntryContent(db.entries) && Established(LeavesOf(db), cp)
    requires w.from < w.upTo <= cp.treeSize
    ensures ServedAs(db, cp, w, counted,
                     FinishRange(db.entries, cp, w, cp.rootHash.hash, Generate(LeavesOf(db), 0, cp.treeSize, w), counted))
  {
    hide Verify, FinishRange, LeafHashesRange, EntriesRange, Numbered;
    var d := LeavesOf(db);
    var nodes := Generate(d, 0, cp.treeSize, w);
    LeafHashesOfContiguous(db.entries, w.from, w.upTo);
    VerifyExact(d, cp.treeSize, w, d[w.from..w.upTo], nodes);
    var enumerated := WindowEntries(db, w);
    FinishUnfolds(db.entries, cp, w, cp.rootHash.hash, nodes, counted, d[w.from..w.upTo], LogOf(db)[w.from..w.upTo], enumerated);
    LogIsCanonical(db);
    WindowCarries(LogOf(db), cp, w, enumerated);
  }

  lemma ServedEqual(db: Db, cp: Checkpoint, w: Window, counted: nat, a: MirrorResult<MeasuredResponse>, b: MirrorResult<MeasuredResponse>)
    requires ValidTree(db) && a == b && ServedAs(db, cp, w, counted, b)
    ensures ServedAs(db, cp, w, counted, a)
  {
  }

  lemma BuildUnfolds(entries: Entries, cache: Cache, cp: Checkpoint, w: Window, root: MeasuredRoot, nodes: seq<Hash>)
    requires CheckWindow(entries, cp.treeSize, w).Ok? && cp.rootHash == Hex(root.root)
    requires SubtreeRoot(entries, cache, 0, cp.treeSize) == Ok(root)
    requires OpenSpans(entries, cache, OutsideSubtrees(0, cp.treeSize, w)) == Ok(nodes)
    ensures BuildRange(entries, cache, cp, w) ==
      FinishRange(entries, cp, w, root.root, nodes, PopCount(cp.treeSize) + CountSpans(OutsideSubtrees(0, cp.treeSize, w)))
  {
  }

  lemma WindowIsAskable(db: Db, n: nat, w: Window)
    requires ValidTree(db) && w.from < w.upTo <= n <= |db.entries| && n <= MAX_I64
    ensures CheckWindow(db.entries, n, w).Ok?
  {
    CountOfContiguous(db.entries, n);
  }

  lemma RootOpens(db: Db, cp: Checkpoint)
    requires ValidTree(db) && Established(LeavesOf(db), cp) && cp.treeSize >= 1
    ensures SubtreeRoot(db.entries, db.subtrees, 0, cp.treeSize) == Ok(MeasuredRoot(cp.rootHash.hash, PopCount(cp.treeSize)))
  {
    ZeroIsAligned(cp.treeSize);
    SpanOpens(db, cp.treeSize, Span(0, cp.treeSize));
  }

  lemma BuildIsFinish(db: Db, cp: Checkpoint, w: Window)
    requires ValidTree(db) && Established(LeavesOf(db), cp) && w.from < w.upTo <= cp.treeSize
    ensures BuildRange(db.entries, db.subtrees, cp, w) ==
      FinishRange(db.entries, cp, w, cp.rootHash.hash, Generate(LeavesOf(db), 0, cp.treeSize, w),
                  PopCount(cp.treeSize) + CountSpans(OutsideSubtrees(0, cp.treeSize, w)))
  {
    WindowIsAskable(db, cp.treeSize, w);
    RootOpens(db, cp);
    WindowOpens(db, cp.treeSize, w);
    BuildUnfolds(db.entries, db.subtrees, cp, w, MeasuredRoot(cp.rootHash.hash, PopCount(cp.treeSize)), Generate(LeavesOf(db), 0, cp.treeSize, w));
  }

  /** Over a valid store, every window under an established checkpoint is served: entry bytes are read
    * for that window and for nothing else, the tree nodes read are the ones the geometry costs, and
    * the response is the reference builder's.
    */
  lemma RangeIsServed(db: Db, cp: Checkpoint, w: Window)
    requires ValidTree(db) && Content.EntryContent(db.entries) && Established(LeavesOf(db), cp)
    requires w.from < w.upTo <= cp.treeSize
    ensures ServedAs(db, cp, w, PopCount(cp.treeSize) + CountSpans(OutsideSubtrees(0, cp.treeSize, w)),
                     BuildRange(db.entries, db.subtrees, cp, w))
  {
    hide BuildRange, FinishRange, IsReference, Generate, OutsideSubtrees, CountSpans, PopCount, SubtreeCache.CacheExact, LeafColumn;
    var counted := PopCount(cp.treeSize) + CountSpans(OutsideSubtrees(0, cp.treeSize, w));
    BuildIsFinish(db, cp, w);
    FinishExact(db, cp, w, counted);
    ServedEqual(db, cp, w, counted, BuildRange(db.entries, db.subtrees, cp, w),
                FinishRange(db.entries, cp, w, cp.rootHash.hash, Generate(LeavesOf(db), 0, cp.treeSize, w), counted));
  }

  /** The stored nodes actually read in opening each span. */
  function ReadSpans(entries: Entries, cache: Cache, spans: seq<Span>): MirrorResult<nat> {
    if spans == [] then Ok(0)
    else
      var before :- ReadSpans(entries, cache, spans[..|spans| - 1]);
      var root :- SubtreeRoot(entries, cache, spans[|spans| - 1].offset, spans[|spans| - 1].size);
      Ok(before + root.nodes)
  }

  lemma ReadStep(entries: Entries, cache: Cache, spans: seq<Span>, root: MeasuredRoot)
    requires spans != [] && ReadSpans(entries, cache, spans[..|spans| - 1]) == Ok(CountSpans(spans[..|spans| - 1]))
    requires SubtreeRoot(entries, cache, spans[|spans| - 1].offset, spans[|spans| - 1].size) == Ok(root)
    requires root.nodes == PopCount(spans[|spans| - 1].size)
    ensures ReadSpans(entries, cache, spans) == Ok(CountSpans(spans))
  {
    hide SubtreeRoot, PopCount;
    var n := |spans| - 1;
    assert CountSpans(spans) == CountSpans(spans[..n]) + PopCount(spans[n].size);
    assert ReadSpans(entries, cache, spans) == Ok(CountSpans(spans[..n]) + root.nodes);
  }

  lemma {:induction false} CountedIsRead(db: Db, n: nat, spans: seq<Span>)
    requires ValidTree(db) && n <= |db.entries| && Inside(spans, n)
    ensures ReadSpans(db.entries, db.subtrees, spans) == Ok(CountSpans(spans))
    decreases |spans|
  {
    if spans == [] {
    } else {
      var last := spans[|spans| - 1];
      assert Inside(spans[..|spans| - 1], n);
      CountedIsRead(db, n, spans[..|spans| - 1]);
      SpanOpens(db, n, last);
      ReadStep(db.entries, db.subtrees, spans, SubtreeRoot(db.entries, db.subtrees, last.offset, last.size).value);
    }
  }

  /** What a response reports as read is what opening its spans reads, and a window under `n` leaves
    * has at most two spans per level.
    */
  lemma ReportedIsRead(db: Db, n: nat, w: Window)
    requires ValidTree(db) && n <= |db.entries| && w.from < w.upTo <= n
    ensures ReadSpans(db.entries, db.subtrees, OutsideSubtrees(0, n, w)) == Ok(CountSpans(OutsideSubtrees(0, n, w)))
    ensures |OutsideSubtrees(0, n, w)| <= 2 * CeilLog2(n)
  {
    WindowSpansInside(n, w);
    CountedIsRead(db, n, OutsideSubtrees(0, n, w));
    FewSpans(0, n, w);
  }

  lemma ReferenceVerifies(log: seq<Blob>, cp: Checkpoint, w: Window, r: RangeResponse)
    requires Runs.Commits(log, cp) && IsReference(log, cp, w, r)
    ensures VerifyResponse(r) == Ok(true)
  {
    var d := Leaves(log);
    assert CarriedLeaves(r.entries) == d[w.from..w.upTo];
    VerifyExact(d, cp.treeSize, w, CarriedLeaves(r.entries), r.form.proof.nodes);
  }

  /** What is served is what a receiver accepts. */
  lemma ServedVerifies(db: Db, cp: Checkpoint, w: Window)
    requires ValidTree(db) && Content.EntryContent(db.entries) && Established(LeavesOf(db), cp)
    requires w.from < w.upTo <= cp.treeSize
    ensures BuildRange(db.entries, db.subtrees, cp, w).Ok?
    ensures VerifyResponse(BuildRange(db.entries, db.subtrees, cp, w).value.response) == Ok(true)
  {
    hide BuildRange, VerifyResponse, SubtreeCache.CacheExact, IsReference, CountSpans, OutsideSubtrees;
    RangeIsServed(db, cp, w);
    ReferenceVerifies(LogOf(db), cp, w, BuildRange(db.entries, db.subtrees, cp, w).value.response);
  }

  lemma ReferenceUnique(log: seq<Blob>, cp: Checkpoint, w: Window, a: RangeResponse, b: RangeResponse)
    requires IsReference(log, cp, w, a) && IsReference(log, cp, w, b)
    ensures a == b
  {
    forall i | 0 <= i < |a.entries|
      ensures a.entries[i] == b.entries[i]
    {
      assert Jcs(a.entries[i].envelope) == Jcs(b.entries[i].envelope);
    }
    assert a.entries == b.entries;
  }

  lemma PrefixBuilds(log: seq<Blob>, cp: Checkpoint, w: Window)
    requires forall i :: 0 <= i < |log| ==> log[i].Jcs?
    requires |log| == cp.treeSize && w.from < w.upTo <= cp.treeSize && Runs.Commits(log, cp)
    ensures var r := BuildFromPrefix(log, Leaves(log), cp, w);
      r.Ok? && IsReference(log, cp, w, r.value)
  {
    var d := Leaves(log);
    TreeRootIsMTH(d, |d|);
    assert d[..|d|] == d;
    VerifyExact(d, cp.treeSize, w, d[w.from..w.upTo], Generate(d, 0, cp.treeSize, w));
    NumberedExact(log[w.from..w.upTo], w.from);
  }

  /** The nodes of a span walk under a prefix are the nodes under the whole log. */
  lemma {:induction false} GenerateOfPrefix(d: seq<Hash>, e: seq<Hash>, offset: nat, size: nat, w: Window)
    requires size >= 1 && offset + size <= |d| && d <= e
    ensures Generate(d, offset, size, w) == Generate(e, offset, size, w)
    decreases size
  {
    match Classify(offset, size, w)
    case Outside => RootOfPrefix(d, e, offset, size);
    case Inside =>
    case Straddles =>
      if size >= 2 {
        GenerateOfPrefix(d, e, offset, Split(size), w);
        GenerateOfPrefix(d, e, offset + Split(size), size - Split(size), w);
      }
  }

  /** The windowed builder and the full-prefix builder give the same response, for every tree size and
    * every window.
    */
  lemma WindowedBuilderIsReference(db: Db, cp: Checkpoint, w: Window)
    requires ValidTree(db) && Content.EntryContent(db.entries) && Established(LeavesOf(db), cp)
    requires w.from < w.upTo <= cp.treeSize
    ensures var all := LogOf(db)[..cp.treeSize];
      && BuildRange(db.entries, db.subtrees, cp, w).Ok?
      && BuildFromPrefix(all, Leaves(all), cp, w) == Ok(BuildRange(db.entries, db.subtrees, cp, w).value.response)
  {
    hide BuildRange, BuildFromPrefix, Generate, SubtreeCache.CacheExact, CountSpans, OutsideSubtrees, LeafColumn, Root, PopCount, Content.EntryContent;
    var log, n := LogOf(db), cp.treeSize;
    var all := log[..n];
    RangeIsServed(db, cp, w);
    LogIsCanonical(db);
    LeavesOfPrefix(all, log);
    RootOfPrefix(Leaves(all), Leaves(log), 0, n);
    PrefixBuilds(all, cp, w);
    GenerateOfPrefix(Leaves(all), Leaves(log), 0, n, w);
    var a, b := BuildFromPrefix(all, Leaves(all), cp, w).value, BuildRange(db.entries, db.subtrees, cp, w).value.response;
    assert IsReference(log, cp, w, a);
    ReferenceUnique(log, cp, w, a, b);
  }
}
