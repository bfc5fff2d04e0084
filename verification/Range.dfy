/** Range proofs: the nodes outside a window, the reference builder over the whole leaf sequence, and
  * the verifier that recomputes the root from both.
  */
module Range {
  import opened Wrappers
  import opened Bits
  import opened Encoding
  import opened Merkle
  import opened TreeOpening

  /** A window `[from, upTo)` of the log. */
  datatype Window = Window(from: nat, upTo: nat)

  /** A subtree by its first leaf and its number of leaves. */
  datatype Span = Span(offset: nat, size: nat)

  datatype Side = Outside | Inside | Straddles

  function Classify(offset: nat, size: nat, w: Window): Side {
    if offset + size <= w.from || offset >= w.upTo then Outside
    else if offset >= w.from && offset + size <= w.upTo then Inside
    else Straddles
  }

  /** `outside_subtrees`: every maximal subtree entirely outside the window, left to right. */
  function OutsideSubtrees(offset: nat, size: nat, w: Window): seq<Span>
    requires size >= 1
    decreases size
  {
    match Classify(offset, size, w)
    case Outside => [Span(offset, size)]
    case Inside => []
    case Straddles =>
      if size == 1 then []
      else OutsideSubtrees(offset, Split(size), w) + OutsideSubtrees(offset + Split(size), size - Split(size), w)
  }

  /** The reference builder: the hash of each outside subtree, from the whole leaf sequence. */
  function Generate(d: seq<Hash>, offset: nat, size: nat, w: Window): seq<Hash>
    requires size >= 1 && offset + size <= |d|
    decreases size
  {
    match Classify(offset, size, w)
    case Outside => [Root(d, offset, size)]
    case Inside => []
    case Straddles =>
      if size == 1 then []
      else Generate(d, offset, Split(size), w) + Generate(d, offset + Split(size), size - Split(size), w)
  }

  /** A recomputed hash and the position of the next unread node, or no hash at all. */
  datatype Recomputed = Stuck | At(hash: Hash, pos: nat)

  /** The verifier's walk: outside subtrees come from the proof, inside ones from the leaves. */
  function Recompute(offset: nat, size: nat, w: Window, leaves: seq<Hash>, nodes: seq<Hash>, pos: nat): Recomputed
    requires size >= 1 && w.from <= w.upTo && |leaves| == w.upTo - w.from
    decreases size
  {
    match Classify(offset, size, w)
    case Outside => if pos < |nodes| then At(nodes[pos], pos + 1) else Stuck
    case Inside => At(Root(leaves, offset - w.from, size), pos)
    case Straddles =>
      if size == 1 then Stuck
      else
        var left := Recompute(offset, Split(size), w, leaves, nodes, pos);
        if left.Stuck? then Stuck
        else
          var right := Recompute(offset + Split(size), size - Split(size), w, leaves, nodes, left.pos);
          if right.Stuck? then Stuck else At(NodeHash(left.hash, right.hash), right.pos)
  }

  datatype RangeProof = RangeProof(treeSize: nat, window: Window, nodes: seq<Hash>)

  /** `range_proof::verify`: the proof must be consumed exactly and open the root. */
  function Verify(proof: RangeProof, leaves: seq<Hash>, root: Hash): MirrorResult<bool> {
    var w := proof.window;
    if w.from >= w.upTo || w.upTo > proof.treeSize || |leaves| != w.upTo - w.from then Err(InvalidRange)
    else Ok(Recompute(0, proof.treeSize, w, leaves, proof.nodes, 0) == At(root, |proof.nodes|))
  }

  // ---- soundness and completeness ----

  /** On the part of the window under a span, the leaves are the log's. */
  ghost predicate LeavesMatch(d: seq<Hash>, offset: nat, size: nat, w: Window, leaves: seq<Hash>)
    requires offset + size <= |d| && w.from <= w.upTo && |leaves| == w.upTo - w.from
  {
    forall i :: offset <= i < offset + size && w.from <= i < w.upTo ==> leaves[i - w.from] == d[i]
  }

  /** The nodes from `pos` are the reference builder's for this span. */
  ghost predicate NodesMatch(d: seq<Hash>, offset: nat, size: nat, w: Window, nodes: seq<Hash>, pos: nat)
    requires size >= 1 && offset + size <= |d|
  {
    var g := Generate(d, offset, size, w);
    pos + |g| <= |nodes| && nodes[pos..pos + |g|] == g
  }

  /** Recomputing a span gives its root exactly when the leaves and the nodes are the right ones. */
  ghost predicate RecomputesExactly(d: seq<Hash>, offset: nat, size: nat, w: Window, leaves: seq<Hash>, nodes: seq<Hash>, pos: nat)
    requires size >= 1 && offset + size <= |d| && w.from <= w.upTo && |leaves| == w.upTo - w.from
  {
    var r := Recompute(offset, size, w, leaves, nodes, pos);
    && (r.At? && r.hash == Root(d, offset, size) <==>
          LeavesMatch(d, offset, size, w, leaves) && NodesMatch(d, offset, size, w, nodes, pos))
    && (r.At? ==> r.pos == pos + |Generate(d, offset, size, w)|)
  }

  lemma InsideExactly(d: seq<Hash>, offset: nat, size: nat, w: Window, leaves: seq<Hash>, nodes: seq<Hash>, pos: nat)
    requires size >= 1 && offset + size <= |d| && w.from <= w.upTo && |leaves| == w.upTo - w.from && pos <= |nodes|
    requires Classify(offset, size, w) == Inside
    ensures RecomputesExactly(d, offset, size, w, leaves, nodes, pos)
  {
    var at := offset - w.from;
    RootBinds(leaves, at, d, offset, size);
    var x, y := leaves[at..at + size], d[offset..offset + size];
    if LeavesMatch(d, offset, size, w, leaves) {
      forall i | 0 <= i < size
        ensures x[i] == y[i]
      {
        assert leaves[offset + i - w.from] == d[offset + i];
      }
      assert x == y;
    }
    if x == y {
      forall i | offset <= i < offset + size && w.from <= i < w.upTo
        ensures leaves[i - w.from] == d[i]
      {
        assert x[i - offset] == y[i - offset];
      }
    }
  }

  lemma OutsideExactly(d: seq<Hash>, offset: nat, size: nat, w: Window, leaves: seq<Hash>, nodes: seq<Hash>, pos: nat)
    requires size >= 1 && offset + size <= |d| && w.from <= w.upTo && |leaves| == w.upTo - w.from && pos <= |nodes|
    requires Classify(offset, size, w) == Outside
    ensures RecomputesExactly(d, offset, size, w, leaves, nodes, pos)
  {
    if pos < |nodes| {
      assert nodes[pos..pos + 1] == [nodes[pos]];
    }
  }

  /** Consecutive runs of nodes match exactly when their concatenation does. */
  lemma NodesMatchSplit(d: seq<Hash>, offset: nat, size: nat, w: Window, nodes: seq<Hash>, pos: nat)
    requires size >= 2 && offset + size <= |d| && Classify(offset, size, w) == Straddles
    ensures var k := Split(size);
      NodesMatch(d, offset, size, w, nodes, pos) <==>
      NodesMatch(d, offset, k, w, nodes, pos)
      && NodesMatch(d, offset + k, size - k, w, nodes, pos + |Generate(d, offset, k, w)|)
  {
    var k := Split(size);
    var a, b := Generate(d, offset, k, w), Generate(d, offset + k, size - k, w);
    assert Generate(d, offset, size, w) == a + b;
    ConcatMatches(nodes, pos, a, b);
  }

  lemma ConcatMatches(nodes: seq<Hash>, pos: nat, a: seq<Hash>, b: seq<Hash>)
    ensures pos + |a + b| <= |nodes| && nodes[pos..pos + |a + b|] == a + b <==>
      pos + |a| <= |nodes| && nodes[pos..pos + |a|] == a
      && pos + |a| + |b| <= |nodes| && nodes[pos + |a|..pos + |a| + |b|] == b
  {
    if pos + |a| + |b| <= |nodes| {
      var run := nodes[pos..pos + |a| + |b|];
      assert run[..|a|] == nodes[pos..pos + |a|] && run[|a|..] == nodes[pos + |a|..pos + |a| + |b|];
      assert run == run[..|a|] + run[|a|..];
      assert (a + b)[..|a|] == a && (a + b)[|a|..] == b;
    }
  }

  lemma LeavesMatchSplit(d: seq<Hash>, offset: nat, k: nat, size: nat, w: Window, leaves: seq<Hash>)
    requires k <= size && offset + size <= |d| && w.from <= w.upTo && |leaves| == w.upTo - w.from
    ensures LeavesMatch(d, offset, size, w, leaves) <==>
      LeavesMatch(d, offset, k, w, leaves) && LeavesMatch(d, offset + k, size - k, w, leaves)
  {
  }

  lemma StraddleExactly(d: seq<Hash>, offset: nat, size: nat, w: Window, leaves: seq<Hash>, nodes: seq<Hash>, pos: nat)
    requires size >= 2 && offset + size <= |d| && w.from <= w.upTo && |leaves| == w.upTo - w.from
    requires Classify(offset, size, w) == Straddles
    requires RecomputesExactly(d, offset, Split(size), w, leaves, nodes, pos)
    requires var left := Recompute(offset, Split(size), w, leaves, nodes, pos);
      left.At? ==> RecomputesExactly(d, offset + Split(size), size - Split(size), w, leaves, nodes, left.pos)
    ensures RecomputesExactly(d, offset, size, w, leaves, nodes, pos)
  {
    hide LeavesMatch, NodesMatch, Classify;
    NodesMatchSplit(d, offset, size, w, nodes, pos);
    LeavesMatchSplit(d, offset, Split(size), size, w, leaves);
  }

  lemma {:induction false} RecomputeExactly(d: seq<Hash>, offset: nat, size: nat, w: Window, leaves: seq<Hash>, nodes: seq<Hash>, pos: nat)
    requires size >= 1 && offset + size <= |d| && w.from <= w.upTo && |leaves| == w.upTo - w.from && pos <= |nodes|
    ensures RecomputesExactly(d, offset, size, w, leaves, nodes, pos)
    ensures Recompute(offset, size, w, leaves, nodes, pos).At? ==> Recompute(offset, size, w, leaves, nodes, pos).pos <= |nodes|
    decreases size
  {
    hide LeavesMatch, NodesMatch, RecomputesExactly, Generate, Root;
    match Classify(offset, size, w)
    case Outside => OutsideExactly(d, offset, size, w, leaves, nodes, pos);
    case Inside => InsideExactly(d, offset, size, w, leaves, nodes, pos);
    case Straddles =>
      RecomputeExactly(d, offset, Split(size), w, leaves, nodes, pos);
      var left := Recompute(offset, Split(size), w, leaves, nodes, pos);
      if left.At? {
        RecomputeExactly(d, offset + Split(size), size - Split(size), w, leaves, nodes, left.pos);
      }
      StraddleExactly(d, offset, size, w, leaves, nodes, pos);
  }

  /** Complete and sound at once: a range proof against the root of the first `n` leaves verifies
    * exactly when it carries the log's leaves for the window and the reference builder's nodes.
    */
  lemma VerifyExact(d: seq<Hash>, n: nat, w: Window, leaves: seq<Hash>, nodes: seq<Hash>)
    requires n <= |d|
    ensures Verify(RangeProof(n, w, nodes), leaves, TreeRoot(d, n)) == Ok(true) <==>
      w.from < w.upTo <= n && leaves == d[w.from..w.upTo] && nodes == Generate(d, 0, n, w)
  {
    if w.from < w.upTo <= n && |leaves| == w.upTo - w.from {
      RecomputeExactly(d, 0, n, w, leaves, nodes, 0);
      var x := d[w.from..w.upTo];
      if LeavesMatch(d, 0, n, w, leaves) {
        forall i | 0 <= i < |x|
          ensures leaves[i] == x[i]
        {
          assert leaves[(w.from + i) - w.from] == d[w.from + i];
        }
        assert leaves == x;
      }
      if leaves == x {
        assert LeavesMatch(d, 0, n, w, leaves);
      }
      var g := Generate(d, 0, n, w);
      if |g| == |nodes| {
        assert nodes[0..|g|] == nodes;
      }
    }
  }

  // ---- the spans the windowed builder opens ----

  /** A span the walk emits: inside the tree, outside the window, and aligned to its own top bit. */
  ghost predicate GoodSpan(s: Span, offset: nat, size: nat, w: Window) {
    && s.size >= 1 && offset <= s.offset && s.offset + s.size <= offset + size
    && Classify(s.offset, s.size, w) == Outside
    && AlignedFor(s.offset, s.size)
  }

  ghost predicate GoodSpans(spans: seq<Span>, offset: nat, size: nat, w: Window) {
    forall i :: 0 <= i < |spans| ==> GoodSpan(spans[i], offset, size, w)
  }

  lemma {:induction false} SpansAreGood(offset: nat, size: nat, w: Window)
    requires size >= 1 && AlignedFor(offset, size)
    ensures GoodSpans(OutsideSubtrees(offset, size, w), offset, size, w)
    decreases size
  {
    if Classify(offset, size, w) == Straddles && size >= 2 {
      AlignedSplit(offset, size);
      SpansAreGood(offset, Split(size), w);
      SpansAreGood(offset + Split(size), size - Split(size), w);
    }
  }

  /** `node` is the root of `s`, a span inside `d`. */
  ghost predicate IsRootOf(d: seq<Hash>, s: Span, node: Hash) {
    s.size >= 1 && s.offset + s.size <= |d| && node == Root(d, s.offset, s.size)
  }

  /** `nodes` are the roots of `spans`, in order. */
  ghost predicate RootsOf(d: seq<Hash>, spans: seq<Span>, nodes: seq<Hash>) {
    |nodes| == |spans| && forall i :: 0 <= i < |spans| ==> IsRootOf(d, spans[i], nodes[i])
  }

  lemma RootsOfConcat(d: seq<Hash>, s: seq<Span>, t: seq<Span>, a: seq<Hash>, b: seq<Hash>)
    requires RootsOf(d, s, a) && RootsOf(d, t, b)
    ensures RootsOf(d, s + t, a + b)
  {
  }

  lemma RootsOfUnique(d: seq<Hash>, spans: seq<Span>, a: seq<Hash>, b: seq<Hash>)
    requires RootsOf(d, spans, a) && RootsOf(d, spans, b)
    ensures a == b
  {
  }

  /** The windowed builder's nodes are the reference builder's, node for node. */
  ghost predicate Windowed(d: seq<Hash>, offset: nat, size: nat, w: Window)
    requires size >= 1 && offset + size <= |d|
  {
    RootsOf(d, OutsideSubtrees(offset, size, w), Generate(d, offset, size, w))
  }

  lemma WindowedStep(d: seq<Hash>, offset: nat, size: nat, w: Window)
    requires size >= 2 && offset + size <= |d| && Classify(offset, size, w) == Straddles
    requires Windowed(d, offset, Split(size), w) && Windowed(d, offset + Split(size), size - Split(size), w)
    ensures Windowed(d, offset, size, w)
  {
    var k := Split(size);
    RootsOfConcat(d, OutsideSubtrees(offset, k, w), OutsideSubtrees(offset + k, size - k, w),
                  Generate(d, offset, k, w), Generate(d, offset + k, size - k, w));
  }

  lemma {:induction false} WindowedIsReference(d: seq<Hash>, offset: nat, size: nat, w: Window)
    requires size >= 1 && offset + size <= |d|
    ensures Windowed(d, offset, size, w)
    decreases size
  {
    if Classify(offset, size, w) == Straddles && size >= 2 {
      WindowedIsReference(d, offset, Split(size), w);
      WindowedIsReference(d, offset + Split(size), size - Split(size), w);
      WindowedStep(d, offset, size, w);
    }
  }

  /** The window reaches the span's left or right end without leaving it. */
  predicate OneSided(offset: nat, size: nat, w: Window) {
    w.from <= offset < w.upTo || w.from < offset + size <= w.upTo
  }

  lemma {:induction false} FewSpansOneSided(offset: nat, size: nat, w: Window)
    requires size >= 1 && OneSided(offset, size, w)
    ensures |OutsideSubtrees(offset, size, w)| <= CeilLog2(size)
    decreases size
  {
    if Classify(offset, size, w) == Straddles {
      var k := Split(size);
      CeilLog2Split(size);
      if OneSided(offset, k, w) {
        FewSpansOneSided(offset, k, w);
      }
      if OneSided(offset + k, size - k, w) {
        FewSpansOneSided(offset + k, size - k, w);
      }
    }
  }

  /** At most two spans per level: a range proof is logarithmic in the log. */
  lemma {:induction false} FewSpans(offset: nat, size: nat, w: Window)
    requires size >= 1 && w.from < w.upTo && Classify(offset, size, w) != Outside
    ensures |OutsideSubtrees(offset, size, w)| <= 2 * CeilLog2(size)
    decreases size
  {
    if Classify(offset, size, w) == Straddles {
      var k := Split(size);
      CeilLog2Split(size);
      if Classify(offset, k, w) == Outside {
        FewSpans(offset + k, size - k, w);
      } else if Classify(offset + k, size - k, w) == Outside {
        FewSpans(offset, k, w);
      } else {
        FewSpansOneSided(offset, k, w);
        FewSpansOneSided(offset + k, size - k, w);
      }
    }
  }
}
