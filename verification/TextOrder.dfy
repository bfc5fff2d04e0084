/** The byte order of text, and the `(tree_size, checkpoint_time)` order the series is read in. */
module TextOrder {
  import opened Encoding

  /** Lexicographic order, as SQLite's BINARY collation and Rust's `str` compare ASCII text. */
  predicate TextLe(a: string, b: string) {
    if |a| == 0 then true
    else if |b| == 0 then false
    else a[0] < b[0] || (a[0] == b[0] && TextLe(a[1..], b[1..]))
  }

  lemma {:induction false} TextLeReflexive(a: string)
    ensures TextLe(a, a)
  {
    if |a| == 0 {
    } else {
      TextLeReflexive(a[1..]);
    }
  }

  lemma {:induction false} TextLeTotal(a: string, b: string)
    ensures TextLe(a, b) || TextLe(b, a)
  {
    if |a| > 0 && |b| > 0 {
      TextLeTotal(a[1..], b[1..]);
    }
  }

  lemma {:induction false} TextLeTransitive(a: string, b: string, c: string)
    requires TextLe(a, b) && TextLe(b, c)
    ensures TextLe(a, c)
  {
    if |a| > 0 && |b| > 0 && |c| > 0 && a[0] == b[0] == c[0] {
      TextLeTransitive(a[1..], b[1..], c[1..]);
    }
  }

  lemma {:induction false} TextLeAntisymmetric(a: string, b: string)
    requires TextLe(a, b) && TextLe(b, a)
    ensures a == b
  {
    if |a| > 0 && |b| > 0 {
      TextLeAntisymmetric(a[1..], b[1..]);
      assert a == [a[0]] + a[1..] && b == [b[0]] + b[1..];
    }
  }

  /** `ORDER BY tree_size ASC, checkpoint_time ASC`. */
  predicate KeyLe(a: Checkpoint, b: Checkpoint) {
    a.treeSize < b.treeSize || (a.treeSize == b.treeSize && TextLe(a.checkpointTime, b.checkpointTime))
  }

  predicate SameKey(a: Checkpoint, b: Checkpoint) {
    a.treeSize == b.treeSize && a.checkpointTime == b.checkpointTime
  }

  lemma KeyLeTotal(a: Checkpoint, b: Checkpoint)
    ensures KeyLe(a, a)
    ensures KeyLe(a, b) || KeyLe(b, a)
    ensures KeyLe(a, b) && KeyLe(b, a) <==> SameKey(a, b)
  {
    TextLeReflexive(a.checkpointTime);
    TextLeTotal(a.checkpointTime, b.checkpointTime);
    if KeyLe(a, b) && KeyLe(b, a) {
      TextLeAntisymmetric(a.checkpointTime, b.checkpointTime);
    }
  }

  lemma KeyLeTransitive(a: Checkpoint, b: Checkpoint, c: Checkpoint)
    requires KeyLe(a, b) && KeyLe(b, c)
    ensures KeyLe(a, c)
  {
    if a.treeSize == b.treeSize == c.treeSize {
      TextLeTransitive(a.checkpointTime, b.checkpointTime, c.checkpointTime);
    }
  }
}
