/** The series in `(tree_size, checkpoint_time)` order, and the scan for sizes where records disagree. */
module SeriesOrder {
  import opened Wrappers
  import opened Encoding
  import opened TextOrder

  predicate Sorted(rows: seq<Checkpoint>) {
    forall i, j :: 0 <= i < j < |rows| ==> KeyLe(rows[i], rows[j])
  }

  /** Put a row after every row it does not precede. */
  function Insert(rows: seq<Checkpoint>, cp: Checkpoint): seq<Checkpoint> {
    if rows == [] then [cp]
    else if KeyLe(rows[|rows| - 1], cp) then rows + [cp]
    else Insert(rows[..|rows| - 1], cp) + [rows[|rows| - 1]]
  }

  /** `ORDER BY tree_size ASC, checkpoint_time ASC`, and the stable sort of the equivocation scan. */
  function Sort(rows: seq<Checkpoint>): seq<Checkpoint> {
    if rows == [] then [] else Insert(Sort(rows[..|rows| - 1]), rows[|rows| - 1])
  }

  lemma {:induction false} InsertSorts(rows: seq<Checkpoint>, cp: Checkpoint)
    requires Sorted(rows)
    ensures Sorted(Insert(rows, cp))
    ensures multiset(Insert(rows, cp)) == multiset(rows) + multiset{cp}
    ensures forall x :: x in Insert(rows, cp) <==> x in rows || x == cp
    decreases |rows|
  {
    if rows != [] {
      var init, last := rows[..|rows| - 1], rows[|rows| - 1];
      assert rows == init + [last];
      if KeyLe(last, cp) {
        BelowLast(rows, cp);
      } else {
        InsertSorts(init, cp);
        KeyLeTotal(last, cp);
        forall x | x in Insert(init, cp)
          ensures KeyLe(x, last)
        {
        }
      }
    }
  }

  lemma BelowLast(rows: seq<Checkpoint>, cp: Checkpoint)
    requires Sorted(rows) && rows != [] && KeyLe(rows[|rows| - 1], cp)
    ensures Sorted(rows + [cp])
  {
    forall i | 0 <= i < |rows|
      ensures KeyLe(rows[i], cp)
    {
      if i < |rows| - 1 {
        KeyLeTransitive(rows[i], rows[|rows| - 1], cp);
      }
    }
  }

  /** The listing is the table's rows, each as often as it is held, in key order. */
  lemma {:induction false} SortIsOrdered(rows: seq<Checkpoint>)
    ensures Sorted(Sort(rows)) && multiset(Sort(rows)) == multiset(rows)
    ensures forall x :: x in Sort(rows) <==> x in rows
    decreases |rows|
  {
    if rows == [] {
    } else {
      var init, last := rows[..|rows| - 1], rows[|rows| - 1];
      assert rows == init + [last];
      SortIsOrdered(init);
      InsertSorts(Sort(init), last);
    }
  }

  // ---- equivocation ----

  /** Two records of one size that commit different roots. */
  ghost predicate Disagree(rows: seq<Checkpoint>, size: nat) {
    exists a, b :: a in rows && b in rows && a.treeSize == b.treeSize == size && a.rootHash != b.rootHash
  }

  /** `find_root_divergences` over the first `k` adjacent pairs. */
  function Divergences(rows: seq<Checkpoint>, k: nat): seq<nat>
    requires k == 0 || k < |rows|
  {
    if k == 0 then []
    else
      var found := Divergences(rows, k - 1);
      var a, b := rows[k - 1], rows[k];
      if a.treeSize == b.treeSize && a.rootHash != b.rootHash
         && (found == [] || found[|found| - 1] != a.treeSize)
      then found + [a.treeSize] else found
  }

  function FindDivergences(rows: seq<Checkpoint>): seq<nat> {
    if |rows| == 0 then [] else Divergences(rows, |rows| - 1)
  }

  /** `find_root_divergences`: adjacent pairs, each size once. */
  method ScanDivergences(rows: seq<Checkpoint>) returns (found: seq<nat>)
    ensures found == FindDivergences(rows)
  {
    found := [];
    if |rows| == 0 {
      return;
    }
    var k := 0;
    while k < |rows| - 1
      invariant 0 <= k <= |rows| - 1
      invariant found == Divergences(rows, k)
    {
      var a, b := rows[k], rows[k + 1];
      if a.treeSize == b.treeSize && a.rootHash != b.rootHash && (found == [] || found[|found| - 1] != a.treeSize) {
        found := found + [a.treeSize];
      }
      k := k + 1;
    }
  }

  /** An adjacent disagreement among the first `k` pairs. */
  ghost predicate AdjacentAt(rows: seq<Checkpoint>, k: nat, size: nat)
    requires k == 0 || k < |rows|
  {
    exists i :: 0 <= i < k && rows[i].treeSize == rows[i + 1].treeSize == size && rows[i].rootHash != rows[i + 1].rootHash
  }

  /** Strictly ascending, so without repeats. */
  predicate Ascending(sizes: seq<nat>) {
    forall i, j :: 0 <= i < j < |sizes| ==> sizes[i] < sizes[j]
  }

  lemma AscendingAppend(sizes: seq<nat>, s: nat)
    requires Ascending(sizes) && (sizes != [] ==> sizes[|sizes| - 1] < s)
    ensures Ascending(sizes + [s])
  {
  }

  lemma {:induction false} DivergencesAscend(rows: seq<Checkpoint>, k: nat)
    requires Sorted(rows) && (k == 0 || k < |rows|)
    ensures var found := Divergences(rows, k);
      Ascending(found) && (found != [] ==> found[|found| - 1] <= rows[k].treeSize)
    decreases k
  {
    if k == 0 {
    } else {
      DivergencesAscend(rows, k - 1);
      assert KeyLe(rows[k - 1], rows[k]);
      var found, a, b := Divergences(rows, k - 1), rows[k - 1], rows[k];
      if a.treeSize == b.treeSize && a.rootHash != b.rootHash && (found == [] || found[|found| - 1] != a.treeSize) {
        AscendingAppend(found, a.treeSize);
      }
    }
  }

  lemma AdjacentStep(rows: seq<Checkpoint>, k: nat, size: nat)
    requires 0 < k < |rows|
    ensures AdjacentAt(rows, k, size) <==>
      AdjacentAt(rows, k - 1, size) || (rows[k - 1].treeSize == rows[k].treeSize == size && rows[k - 1].rootHash != rows[k].rootHash)
  {
    if AdjacentAt(rows, k, size) {
      var i :| 0 <= i < k && rows[i].treeSize == rows[i + 1].treeSize == size && rows[i].rootHash != rows[i + 1].rootHash;
      assert i < k - 1 || i == k - 1;
    }
    if rows[k - 1].treeSize == rows[k].treeSize == size && rows[k - 1].rootHash != rows[k].rootHash {
      assert rows[k - 1].treeSize == rows[k - 1 + 1].treeSize == size;
    }
  }

  lemma {:induction false} DivergencesAreAdjacent(rows: seq<Checkpoint>, k: nat, size: nat)
    requires k == 0 || k < |rows|
    ensures size in Divergences(rows, k) <==> AdjacentAt(rows, k, size)
    decreases k
  {
    if k == 0 {
    } else {
      DivergencesAreAdjacent(rows, k - 1, size);
      AdjacentStep(rows, k, size);
    }
  }

  /** Between two disagreeing records of one size lies an adjacent disagreement at that size. */
  lemma {:induction false} DisagreementIsAdjacent(rows: seq<Checkpoint>, i: nat, j: nat)
    requires Sorted(rows) && i < j < |rows|
    requires rows[i].treeSize == rows[j].treeSize && rows[i].rootHash != rows[j].rootHash
    ensures AdjacentAt(rows, |rows| - 1, rows[i].treeSize)
    decreases j - i
  {
    var size := rows[i].treeSize;
    assert KeyLe(rows[i], rows[i + 1]);
    assert i + 1 < j ==> KeyLe(rows[i + 1], rows[j]);
    if rows[i].rootHash == rows[i + 1].rootHash {
      DisagreementIsAdjacent(rows, i + 1, j);
    } else {
      assert rows[i].treeSize == rows[i + 1].treeSize == size;
    }
  }

  lemma AdjacentIsDisagreement(rows: seq<Checkpoint>, size: nat)
    requires Sorted(rows) && |rows| > 0
    ensures AdjacentAt(rows, |rows| - 1, size) <==> Disagree(rows, size)
  {
    if AdjacentAt(rows, |rows| - 1, size) {
      var i :| 0 <= i < |rows| - 1 && rows[i].treeSize == rows[i + 1].treeSize == size && rows[i].rootHash != rows[i + 1].rootHash;
      assert rows[i] in rows && rows[i + 1] in rows;
    }
    if Disagree(rows, size) {
      var a, b :| a in rows && b in rows && a.treeSize == b.treeSize == size && a.rootHash != b.rootHash;
      var i :| 0 <= i < |rows| && rows[i] == a;
      var j :| 0 <= j < |rows| && rows[j] == b;
      DisagreementIsAdjacent(rows, if i < j then i else j, if i < j then j else i);
    }
  }

  /** The adjacent scan of a sorted listing finds exactly the sizes where two records disagree,
    * ascending and without repeats.
    */
  lemma ScanExact(rows: seq<Checkpoint>)
    requires Sorted(rows)
    ensures forall size: nat :: size in FindDivergences(rows) <==> Disagree(rows, size)
    ensures Ascending(FindDivergences(rows))
  {
    if |rows| > 0 {
      DivergencesAscend(rows, |rows| - 1);
      forall size: nat
        ensures size in FindDivergences(rows) <==> Disagree(rows, size)
      {
        DivergencesAreAdjacent(rows, |rows| - 1, size);
        AdjacentIsDisagreement(rows, size);
      }
    }
  }

  /** The least of the divergent sizes. */
  function Least(sizes: seq<nat>): Option<nat> {
    if sizes == [] then None
    else match Least(sizes[1..])
      case None => Some(sizes[0])
      case Some(m) => Some(if sizes[0] <= m then sizes[0] else m)
  }

  lemma {:induction false} LeastExact(sizes: seq<nat>)
    ensures Least(sizes).None? <==> sizes == []
    ensures Least(sizes).Some? ==> Least(sizes).value in sizes && forall s :: s in sizes ==> Least(sizes).value <= s
    decreases |sizes|
  {
    if sizes == [] {
    } else {
      LeastExact(sizes[1..]);
      assert sizes == [sizes[0]] + sizes[1..];
    }
  }

  /** The equivocation floor of a set of records: the lowest size at which two of them disagree. */
  function FloorOf(rows: seq<Checkpoint>): Option<nat> {
    Least(FindDivergences(Sort(rows)))
  }

  lemma FloorExact(rows: seq<Checkpoint>)
    ensures FloorOf(rows).None? <==> forall size: nat :: !Disagree(rows, size)
    ensures FloorOf(rows).Some? ==>
      Disagree(rows, FloorOf(rows).value) && forall size: nat :: Disagree(rows, size) ==> FloorOf(rows).value <= size
  {
    var s := Sort(rows);
    SortIsOrdered(rows);
    ScanExact(s);
    LeastExact(FindDivergences(s));
    forall size: nat
      ensures Disagree(s, size) <==> Disagree(rows, size)
    {
    }
  }

  /** More records never raise the floor and never remove it. */
  lemma FloorNeverRises(before: seq<Checkpoint>, after: seq<Checkpoint>)
    requires forall x :: x in before ==> x in after
    ensures FloorOf(before).Some? ==> FloorOf(after).Some? && FloorOf(after).value <= FloorOf(before).value
  {
    FloorExact(before);
    FloorExact(after);
    if FloorOf(before).Some? {
      assert Disagree(after, FloorOf(before).value);
    }
  }
}
