/** Decimal digit text and its value. */
module Digits {
  import opened Wrappers
  import opened Bits

  predicate IsDigit(c: char) {
    '0' <= c <= '9'
  }

  predicate AllDigits(s: string) {
    forall i :: 0 <= i < |s| ==> IsDigit(s[i])
  }

  function DigitValue(c: char): nat
    requires IsDigit(c)
  {
    c as int - '0' as int
  }

  /** The number a digit string spells, most significant digit first. */
  function Value(s: string): nat
    requires AllDigits(s)
  {
    if |s| == 0 then 0 else 10 * Value(s[..|s| - 1]) + DigitValue(s[|s| - 1])
  }

  /** Rust's `str::parse::<u64>`: digits with an optional leading plus sign, in range. */
  function ParseU64(s: string): Option<nat> {
    var digits := if |s| > 0 && s[0] == '+' then s[1..] else s;
    if |digits| == 0 || !AllDigits(digits) then None
    else if Value(digits) > MAX_U64 then None
    else Some(Value(digits))
  }

  function DigitChar(d: nat): (c: char)
    requires d < 10
    ensures IsDigit(c) && DigitValue(c) == d
  {
    ('0' as int + d) as char
  }

  /** The `width` low decimal digits of `n`, zero padded. */
  function Render(n: nat, width: nat): (s: string)
    ensures |s| == width && AllDigits(s)
  {
    if width == 0 then "" else Render(n / 10, width - 1) + [DigitChar(n % 10)]
  }

  function Pow10(k: nat): (p: nat)
    ensures p >= 1
  {
    if k == 0 then 1 else 10 * Pow10(k - 1)
  }

  /** `v * 10^k`, by repeated multiplication. */
  function Scale(v: nat, k: nat): nat
    decreases k
  {
    if k == 0 then v else Scale(10 * v, k - 1)
  }

  lemma {:induction false} ScaleIsProduct(v: nat, k: nat)
    ensures Scale(v, k) == v * Pow10(k)
    decreases k
  {
    if k == 0 {
    } else {
      ScaleIsProduct(10 * v, k - 1);
      var p := Pow10(k - 1);
      assert (10 * v) * p == v * (10 * p);
    }
  }

  lemma {:induction false} ValueBound(s: string)
    requires AllDigits(s)
    ensures Value(s) < Pow10(|s|)
  {
    if |s| == 0 {
    } else {
      ValueBound(s[..|s| - 1]);
    }
  }

  lemma {:induction false} ValueOfRender(n: nat, width: nat)
    requires n < Pow10(width)
    ensures Value(Render(n, width)) == n
  {
    if width == 0 {
    } else {
      ValueOfRender(n / 10, width - 1);
      assert Render(n, width)[..width - 1] == Render(n / 10, width - 1);
    }
  }

  lemma {:induction false} RenderOfValue(s: string)
    requires AllDigits(s)
    ensures Render(Value(s), |s|) == s
  {
    if |s| == 0 {
    } else {
      var t := s[..|s| - 1];
      RenderOfValue(t);
      assert Value(s) / 10 == Value(t) && Value(s) % 10 == DigitValue(s[|s| - 1]);
      assert s == t + [s[|s| - 1]];
    }
  }

  /** A digit and the digits after it: the value, most significant part first. */
  lemma {:induction false} ValueSplit(a: string, b: string)
    requires AllDigits(a) && AllDigits(b)
    ensures AllDigits(a + b) && Value(a + b) == Value(a) * Pow10(|b|) + Value(b)
    decreases |b|
  {
    if |b| == 0 {
      assert a + b == a;
    } else {
      var t := b[..|b| - 1];
      ValueSplit(a, t);
      assert (a + b)[..|a + b| - 1] == a + t;
      assert Value(a) * (10 * Pow10(|t|)) == 10 * (Value(a) * Pow10(|t|));
    }
  }
}
