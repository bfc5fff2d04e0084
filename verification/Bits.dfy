/** Powers of two, bit counts and the RFC 6962 split point: the arithmetic every tree in this project is cut by. */
module Bits {

  /** Bounds of the integer types the program stores and computes with. */
  const MAX_I64: nat := 0x7FFF_FFFF_FFFF_FFFF
  const MAX_U64: nat := 0xFFFF_FFFF_FFFF_FFFF

  function Pow2(k: nat): (p: nat)
    ensures p >= 1
  {
    if k == 0 then 1 else 2 * Pow2(k - 1)
  }

  lemma {:induction false} Pow2Monotone(a: nat, b: nat)
    requires a <= b
    ensures Pow2(a) <= Pow2(b)
    ensures a < b ==> 2 * Pow2(a) <= Pow2(b)
    decreases b
  {
    if a >= b {
    } else {
      Pow2Monotone(a, b - 1);
    }
  }

  lemma Pow2Values()
    ensures Pow2(1) == 2 && Pow2(2) == 4
    ensures Pow2(63) == MAX_I64 + 1
    ensures Pow2(64) == MAX_U64 + 1
  {
    Pow2Of16();
    Pow2Sum(16, 16);
    Pow2Sum(32, 32);
  }

  lemma Pow2Of16()
    ensures Pow2(16) == 65536
  {
    assert Pow2(2) == 4;
    Pow2Sum(2, 2);
    Pow2Sum(4, 4);
    Pow2Sum(8, 8);
  }

  lemma {:induction false} Pow2Sum(a: nat, b: nat)
    ensures Pow2(a + b) == Pow2(a) * Pow2(b)
  {
    if b == 0 {
    } else {
      Pow2Sum(a, b - 1);
      assert Pow2(a) * (2 * Pow2(b - 1)) == 2 * (Pow2(a) * Pow2(b - 1));
    }
  }

  /** The exponent of the largest power of two strictly below `n`. */
  function SplitLevel(n: nat): (l: nat)
    requires n >= 2
    ensures Pow2(l) < n <= Pow2(l + 1)
  {
    if n == 2 then 0 else 1 + SplitLevel((n + 1) / 2)
  }

  /** The largest power of two strictly below `n`: where RFC 6962 section 2.1 splits a tree of `n` leaves. */
  function Split(n: nat): (k: nat)
    requires n >= 2
    ensures 1 <= k < n <= 2 * k
  {
    Pow2(SplitLevel(n))
  }

  lemma SplitIsPow2(n: nat)
    requires n >= 2
    ensures Split(n) == Pow2(SplitLevel(n))
  {
  }

  /** Exactly one exponent brackets `n` from below, so the split point is the one the RFC names. */
  lemma SplitLevelUnique(n: nat, l: nat)
    requires n >= 2 && Pow2(l) < n <= Pow2(l + 1)
    ensures SplitLevel(n) == l && Split(n) == Pow2(l)
  {
    SplitIsPow2(n);
    var s := SplitLevel(n);
    if s < l {
      Pow2Monotone(s + 1, l);
    } else if l < s {
      Pow2Monotone(l + 1, s);
    }
  }

  /** The exponent of the largest power of two not above `n`. */
  function FloorLog2(n: nat): (l: nat)
    requires n >= 1
    ensures Pow2(l) <= n < Pow2(l + 1)
  {
    if n == 1 then 0 else 1 + FloorLog2(n / 2)
  }

  lemma FloorLog2Unique(n: nat, l: nat)
    requires n >= 1 && Pow2(l) <= n < Pow2(l + 1)
    ensures FloorLog2(n) == l
  {
    var s := FloorLog2(n);
    if s < l {
      Pow2Monotone(s + 1, l);
    } else if l < s {
      Pow2Monotone(l + 1, s);
    }
  }

  predicate IsPow2(n: nat)
    requires n >= 1
  {
    n == Pow2(FloorLog2(n))
  }

  /** The smallest exponent whose power of two reaches `n`. */
  function CeilLog2(n: nat): (l: nat)
    requires n >= 1
  {
    if n == 1 then 0 else SplitLevel(n) + 1
  }

  /** A power of two halves at its split; anything else splits off its top bit. */
  lemma SplitShape(n: nat)
    requires n >= 2
    ensures IsPow2(n) ==> FloorLog2(n) == SplitLevel(n) + 1 && n == 2 * Split(n)
    ensures !IsPow2(n) ==> FloorLog2(n) == SplitLevel(n) && n < 2 * Split(n)
    ensures IsPow2(Split(n)) && FloorLog2(Split(n)) == SplitLevel(n)
  {
    var l := SplitLevel(n);
    FloorLog2Unique(Pow2(l), l);
    if n == Pow2(l + 1) {
      FloorLog2Unique(n, l + 1);
    } else {
      FloorLog2Unique(n, l);
    }
  }

  function PopCount(n: nat): nat {
    if n == 0 then 0 else n % 2 + PopCount(n / 2)
  }

  /** Setting a bit above every bit of `r` adds one to the count. */
  lemma {:induction false} PopCountTopBit(l: nat, r: nat)
    requires r < Pow2(l)
    ensures PopCount(Pow2(l) + r) == 1 + PopCount(r)
  {
    if l == 0 {
      assert PopCount(1) == 1 + PopCount(0);
    } else {
      PopCountTopBit(l - 1, r / 2);
      assert (Pow2(l) + r) / 2 == Pow2(l - 1) + r / 2;
      assert (Pow2(l) + r) % 2 == r % 2;
    }
  }

  lemma PopCountPow2(l: nat)
    ensures PopCount(Pow2(l)) == 1
  {
    PopCountTopBit(l, 0);
    assert PopCount(0) == 0;
  }

  lemma PopCountSplit(n: nat)
    requires n >= 2 && !IsPow2(n)
    ensures PopCount(n) == 1 + PopCount(n - Split(n))
  {
    SplitShape(n);
    PopCountTopBit(SplitLevel(n), n - Split(n));
  }

  lemma {:induction false} PopCountBound(n: nat, l: nat)
    requires n < Pow2(l)
    ensures PopCount(n) <= l
  {
    if l > 0 && n > 0 {
      PopCountBound(n / 2, l - 1);
    }
  }

  lemma {:induction false} PopCountPositive(n: nat)
    requires n >= 1
    ensures PopCount(n) >= 1
  {
    if n < 2 {
    } else {
      PopCountPositive(n / 2);
    }
  }

  lemma PopCountCeilLog2(n: nat)
    requires n >= 1
    ensures 1 <= PopCount(n) <= CeilLog2(n) + 1
    ensures n >= 2 ==> PopCount(n) <= CeilLog2(n)
  {
    assert n == 1 ==> PopCount(n) == 1 + PopCount(0);
    if n >= 2 {
      PopCountPositive(n);
      var l := SplitLevel(n);
      if n == Pow2(l + 1) {
        PopCountPow2(l + 1);
      } else {
        PopCountBound(n, l + 1);
      }
    }
  }

  /** Moving to the right part of a split lowers the height; the left part is one lower exactly. */
  lemma CeilLog2Split(n: nat)
    requires n >= 2
    ensures CeilLog2(Split(n)) == CeilLog2(n) - 1
    ensures CeilLog2(n - Split(n)) <= CeilLog2(n) - 1
  {
    var l := SplitLevel(n);
    CeilLog2Least(Pow2(l), l);
    CeilLog2Least(n - Split(n), l);
    if l > 0 {
      SplitLevelUnique(Pow2(l), l - 1);
    }
  }

  lemma CeilLog2Least(n: nat, l: nat)
    requires 1 <= n <= Pow2(l)
    ensures CeilLog2(n) <= l
  {
    if n >= 2 {
      var s := SplitLevel(n);
      if l <= s {
        Pow2Monotone(l, s);
      }
    }
  }

  /** Quotient and remainder by repeated subtraction: `/` and `%` without multiplication. */
  function Quot(a: nat, b: nat): nat
    requires b >= 1
    decreases a
  {
    if a < b then 0 else 1 + Quot(a - b, b)
  }

  function Rem(a: nat, b: nat): nat
    requires b >= 1
    decreases a
  {
    if a < b then a else Rem(a - b, b)
  }

  lemma {:induction false} QuotRemIsDivMod(a: nat, b: nat)
    requires b >= 1
    ensures Quot(a, b) == a / b && Rem(a, b) == a % b
    decreases a
  {
    if a >= b {
      QuotRemIsDivMod(a - b, b);
      var q, r := (a - b) / b, (a - b) % b;
      assert (q + 1) * b + r == a;
      DivideExactly(q + 1, b, r);
    } else {
      DivideExactly(0, b, a);
    }
  }

  lemma MulAtLeast(a: nat, b: nat)
    requires b >= 1
    ensures b * a >= a
  {
    assert b * a == (b - 1) * a + a;
  }

  lemma DivideExactly(h: nat, w: nat, r: nat)
    requires r < w
    ensures (h * w + r) / w == h && (h * w + r) % w == r
  {
    var x := h * w + r;
    var a := x / w;
    assert (a - h) * w == r - x % w;
    if a != h {
      MulAtLeast(w, if a > h then a - h else h - a);
    }
  }

  /** Whether a multiple of `p` is one of `2 * p` is the parity of the multiplier. */
  lemma {:induction false} QuotRemOfMultiple(q: nat, p: nat, x: nat)
    requires p >= 1 && x == q * p
    ensures Rem(x, 2 * p) == (if q % 2 == 0 then 0 else p)
    ensures Quot(x, 2 * p) == q / 2
    decreases q
  {
    if q < 2 {
    } else {
      assert x - 2 * p == (q - 2) * p;
      assert x >= 2 * p by { MulAtLeast(p, q - 1); assert q * p == (q - 1) * p + p; }
      QuotRemOfMultiple(q - 2, p, x - 2 * p);
    }
  }
}
