/** 64-bit division built from a 64-by-32-bit divide
    (`pintos/src/lib/arithmetic.c`).  Widths are explicit: shifts, products and
    conversions that could lose bits are written with `Wrap`. */
module Division {
  import opened Basics

  const B31 := 0x8000_0000
  const B32 := 0x1_0000_0000
  const B63 := 0x8000_0000_0000_0000
  const B64 := 0x1_0000_0000_0000_0000

  type U32 = x: int | 0 <= x < B32
  type U64 = x: int | 0 <= x < B64
  type I32 = x: int | -B31 <= x < B31
  type I64 = x: int | -B63 <= x < B63

  /** What is left of a number in a register of 64 bits, unsigned or signed, or of
      32 bits. */
  function WrapU64(x: int): U64 { x % B64 }
  function WrapU32(x: int): U32 { x % B32 }
  function WrapI64(x: int): I64 { (x + B63) % B64 - B63 }
  function WrapI32(x: int): I32 { (x + B31) % B32 - B31 }

  lemma Fits64(x: int)
    requires 0 <= x < B64
    ensures WrapU64(x) == x
  {}

  lemma Fits32(x: int)
    requires 0 <= x < B32
    ensures WrapU32(x) == x
  {}

  lemma FitsI64(x: int)
    ensures WrapI64(x) == x <==> -B63 <= x < B63
  {}

  lemma Negated(x: U64)
    requires x <= B63
    ensures WrapI64(0 - WrapI64(x)) == WrapI64(0 - x)
  {}

  function Pow2(k: nat): (p: nat)
    ensures p > 0
  {
    if k == 0 then 1 else 2 * Pow2(k - 1)
  }

  lemma {:induction false} PowSum(a: nat, b: nat)
    ensures Pow2(a + b) == Pow2(a) * Pow2(b)
  {
    if a > 0 {
      PowSum(a - 1, b);
      assert a + b - 1 == a - 1 + b;
      assert Pow2(a + b) == 2 * (Pow2(a - 1) * Pow2(b)) == 2 * Pow2(a - 1) * Pow2(b);
    }
  }

  lemma SmallPowers()
    ensures Pow2(0) == 1 && Pow2(1) == 2 && Pow2(2) == 4 && Pow2(4) == 0x10 && Pow2(8) == 0x100 && Pow2(16) == 0x1_0000
    ensures Pow2(31) == B31
  {
    assert Pow2(4) == 0x10;
    PowSum(4, 4);
    PowSum(8, 8);
    PowSum(16, 8);
    PowSum(24, 4);
    PowSum(28, 3);
  }

  /** The `divl` instruction; it traps if the quotient needs more than 32 bits. */
  function Divl(n: U64, d: U32): U32
    requires d != 0 && n / d < B32
  {
    n / d
  }

  /** `y` is `x` shifted up by `n` bits. */
  predicate Shifted(x: nat, n: nat, y: nat) { y == x * Pow2(n) }

  lemma ShiftMore(x: nat, n: nat, y: nat, k: nat, c: nat)
    requires Shifted(x, n, y) && c == Pow2(k)
    ensures Shifted(x, n + k, y * c)
  {
    PowSum(n, k);
    Associate(x, Pow2(n), Pow2(k));
  }

  lemma Associate(a: int, b: int, c: int)
    ensures a * b * c == a * (b * c)
  {}

  /** The number of leading zeros of `x`: what it takes to bring its first one to
      the top. */
  method Nlz(x: U32) returns (n: nat)
    requires x != 0
    ensures n <= 31 && B31 <= x * Pow2(n) < B32
  {
    hide Pow2, Shifted, WrapU32;
    SmallPowers();
    n := 0;
    var y: U32 := x;
    assert Shifted(x, 0, x) by { ShiftNone(x); }
    if y <= 0x0000_FFFF {
      ShiftMore(x, n, y, 16, 0x1_0000);
      Fits32(y * 0x1_0000);
      n, y := n + 16, WrapU32(y * 0x1_0000);
    }
    if y <= 0x00FF_FFFF {
      ShiftMore(x, n, y, 8, 0x100);
      Fits32(y * 0x100);
      n, y := n + 8, WrapU32(y * 0x100);
    }
    if y <= 0x0FFF_FFFF {
      ShiftMore(x, n, y, 4, 0x10);
      Fits32(y * 0x10);
      n, y := n + 4, WrapU32(y * 0x10);
    }
    if y <= 0x3FFF_FFFF {
      ShiftMore(x, n, y, 2, 4);
      Fits32(y * 4);
      n, y := n + 2, WrapU32(y * 4);
    }
    ghost var z := y;
    if y <= 0x7FFF_FFFF {
      ShiftMore(x, n, y, 1, 2);
      n, z := n + 1, y * 2;
    }
    ShiftIs(x, n, z);
  }

  lemma ShiftNone(x: nat)
    ensures Shifted(x, 0, x)
  {}

  lemma ShiftIs(x: nat, n: nat, y: nat)
    requires Shifted(x, n, y)
    ensures x * Pow2(n) == y
  {}

  /** `q` is the quotient if the remainder fits. */
  lemma QuotientIs(n: int, d: int, q: int)
    requires d > 0 && q * d <= n < (q + 1) * d
    ensures n / d == q
  {
    var r := n / d;
    if r < q {
      Times(r + 1, q, d);
    } else if r > q {
      Times(q + 1, r, d);
    }
  }

  lemma DivBounds(n: int, d: int)
    requires d > 0
    ensures (n / d) * d <= n < (n / d + 1) * d
  {
    assert n == d * (n / d) + n % d;
    assert (n / d + 1) * d == d * (n / d) + d;
  }

  /** Dividing twice is dividing by the product. */
  lemma DivDiv(n: nat, a: nat, b: nat)
    requires a > 0 && b > 0
    ensures a * b > 0 && (n / a) / b == n / (a * b)
  {
    var q := (n / a) / b;
    DivBounds(n, a);
    DivBounds(n / a, b);
    assert q * b * a <= n by { Times(q * b, n / a, a); }
    assert n < (q + 1) * b * a by {
      assert n / a + 1 <= (q + 1) * b;
      Times(n / a + 1, (q + 1) * b, a);
    }
    assert q * b * a == q * (a * b) && (q + 1) * b * a == (q + 1) * (a * b);
    Positive(a, b);
    QuotientIs(n, a * b, q);
  }

  lemma Positive(a: int, b: int)
    requires a > 0 && b > 0
    ensures a * b > 0
  {}

  /** A divisor of 32 bits: two divisions, each with a quotient that fits. */
  lemma SmallDivisor(n: U64, d: U32)
    requires d != 0
    ensures var n1, n0 := n / B32, n % B32;
            && B32 * (n1 % d) + n0 < B64 && (B32 * (n1 % d) + n0) / d < B32
            && (B32 * (n1 % d) + n0) / d + B32 * (n1 / d) == n / d
  {
    var n1, n0 := n / B32, n % B32;
    var u := B32 * (n1 % d) + n0;
    DivBounds(u, d);
    var t := u / d;
    assert u < B32 * d;
    if t >= B32 {
      Times(B32, t, d);
    }
    var q := t + B32 * (n1 / d);
    assert n1 == d * (n1 / d) + n1 % d;
    assert n == B32 * d * (n1 / d) + u;
    assert q * d == t * d + B32 * d * (n1 / d);
    assert (q + 1) * d == (t + 1) * d + B32 * d * (n1 / d);
    QuotientIs(n, d, q);
  }

  /** Shifting the divisor up until its first bit is at the top loses nothing. */
  lemma Normalized(d: U64, p: nat, r: nat)
    requires p > 0 && r > 0 && r * p == B31 && B31 <= (d / B32) * p < B32
    ensures d * p < B64 && B31 <= d * p / B32 < B32
  {
    var d1 := d / B32;
    // B32 is a multiple of p that is above d1 * p.
    assert (2 * r) * p == B32;
    if d1 + 1 > 2 * r {
      Times(2 * r, d1, p);
    }
    Times(d1 + 1, 2 * r, p);
    Times(d + 1, B32 * (d1 + 1), p);
    assert B32 * (d1 + 1) * p == B32 * ((d1 + 1) * p);
    assert (d + 1) * p == d * p + p;
    Times(B32 * d1, d, p);
    assert B32 * d1 * p == B32 * (d1 * p);
  }

  /** The divisor with its low bits cut off: at most `d`, and more than `d - 2r`. */
  lemma CutOff(d: U64, p: nat, r: nat)
    requires r > 0 && p > 0 && r * p == B31
    ensures var v := d * p / B32; v * (2 * r) <= d < v * (2 * r) + 2 * r
  {
    var v := d * p / B32;
    DivBounds(d * p, B32);
    assert v * B32 == v * (2 * r) * p;
    assert (v + 1) * B32 == (v * (2 * r) + 2 * r) * p;
    var lo := v * (2 * r);
    assert lo * p <= d * p < (lo + 2 * r) * p;
    Cancel(lo, d, p);
    if d >= lo + 2 * r {
      Times(lo + 2 * r, d, p);
    }
  }

  lemma Cancel(a: int, b: int, p: int)
    requires p > 0 && a * p <= b * p
    ensures a <= b
  {
    if a > b {
      assert (a - b) * p == a * p - b * p;
      Positive(a - b, p);
    }
  }

  /** The estimate `n / (v * 2r)` is the quotient or one more. */
  lemma Estimate(n: U64, d: U64, v: U32, p: nat, r: nat)
    requires d > 0 && r > 0 && p > 0 && r * p == B31 && v >= B31
    requires v * (2 * r) <= d < v * (2 * r) + 2 * r
    ensures v * (2 * r) > 0 && n / d <= n / (v * (2 * r)) <= n / d + 1
  {
    var e := v * (2 * r);
    Times(B31, v, 2 * r);
    var q, t := n / d, n / e;
    DivBounds(n, d);
    DivBounds(n, e);
    QuotientFits(n, d);
    QuotientFits(n, e);
    QuotientSmall(n, d, q, p, r);
    NotLess(n, d, e, q, t);
    Slack(q, e, p, r);
    NotMore(n, d, e, q, t, 2 * r - 1);
  }

  lemma NotLess(n: nat, d: nat, e: nat, q: nat, t: nat)
    requires 0 < e <= d && q * d <= n < (t + 1) * e
    ensures q <= t
  {
    Times(e, d, q);
    Cancel(q, t + 1, e);
    if q == t + 1 {
      assert false;
    }
  }

  lemma NotMore(n: nat, d: nat, e: nat, q: nat, t: nat, cut: nat)
    requires 0 < e && t * e <= n < (q + 1) * d && d <= e + cut && (q + 1) * cut <= e
    ensures t <= q + 1
  {
    Times(d, e + cut, q + 1);
    assert (q + 1) * (e + cut) == (q + 1) * e + (q + 1) * cut;
    assert (q + 2) * e == (q + 1) * e + e;
    Cancel(t, q + 2, e);
    if t == q + 2 {
      assert false;
    }
  }

  /** The quotient is small because the divisor is large ... */
  lemma QuotientSmall(n: U64, d: nat, q: nat, p: nat, r: nat)
    requires r > 0 && p > 0 && r * p == B31 && B32 * r <= d && q * d <= n
    ensures q + 1 <= 2 * p
  {
    Times(B32 * r, d, 2 * p);
    assert (B32 * r) * (2 * p) == (2 * B32) * (r * p);
    Cancel(q, 2 * p, d);
  }

  /** ... so what the cut-off bits are worth is less than the divisor. */
  lemma Slack(q: nat, e: nat, p: nat, r: nat)
    requires r > 0 && p > 0 && r * p == B31 && B32 * r <= e && q + 1 <= 2 * p
    ensures (q + 1) * (2 * r - 1) <= e
  {
    Times(q + 1, 2 * p, 2 * r - 1);
    assert 2 * p * (2 * r - 1) == 4 * (r * p) - 2 * p;
    if r == 1 {
      assert p == B31;
    }
  }

  /** The last comparison turns an estimate that is at most one too large into the
      quotient, without wrapping. */
  lemma Correction(n: U64, d: U64, q: int)
    requires 0 < d <= n && n / d <= q <= n / d + 1
    ensures q >= 1 && 0 <= (q - 1) * d <= n
    ensures n - (q - 1) * d < d <==> n / d == q - 1
  {
    DivBounds(n, d);
    AtLeastOne(n, d);
    Times(q - 1, n / d, d);
    assert (q - 1) * d == q * d - d;
  }

  lemma AtLeastOne(n: int, d: int)
    requires 0 < d <= n
    ensures n / d >= 1
  {
    DivBounds(n, d);
    if n / d <= 0 {
      Times(n / d + 1, 1, d);
    }
  }

  /** What the large-divisor branch computes, with a shift by `s` for `p` and by
      `31 - s` for `r`. */
  lemma LargeDivisor(n: U64, d: U64, p: nat, r: nat)
    requires p > 0 && r > 0 && r * p == B31 && B31 <= (d / B32) * p < B32 && d <= n
    ensures d * p < B64 && 0 < d * p / B32 < B32 && n / 2 / (d * p / B32) < B32
    ensures var e := n / 2 / (d * p / B32) / r;
            && 1 <= e < B64 && 0 <= (e - 1) * d <= n && n / d == if n - (e - 1) * d < d then e - 1 else e
  {
    Normalized(d, p, r);
    var v := d * p / B32;
    DivlFits(n, v);
    DivDiv(n, 2, v);
    DivDiv(n, 2 * v, r);
    var e := n / 2 / v / r;
    assert (2 * v) * r == v * (2 * r);
    assert e == n / (v * (2 * r));
    CutOff(d, p, r);
    Estimate(n, d, v, p, r);
    Correction(n, d, e);
    QuotientFits(n, v * (2 * r));
  }

  /** `udiv64` is division: neither `divl` traps and nothing wraps. */
  method UDiv64(n: U64, d: U64) returns (q: U64)
    requires d != 0
    ensures q == n / d
  {
    if d / B32 == 0 {
      var n1, n0, d0: U32 := n / B32, n % B32, d;
      SmallDivisor(n, d0);
      QuotientFits(n, d);
      q := Divl(B32 * (n1 % d0) + n0, d0) + B32 * (n1 / d0);
    } else if n < d {
      QuotientIs(n, d, 0);
      q := 0;
    } else {
      hide Pow2, WrapU64;
      var s := Nlz(d / B32);
      SmallPowers();
      PowSum(31 - s, s);
      LargeDivisor(n, d, Pow2(s), Pow2(31 - s));
      Fits64(d * Pow2(s));
      var v: U32 := WrapU64(d * Pow2(s)) / B32;
      var e: U64 := Divl(n / 2, v) / Pow2(31 - s);
      Fits64((e - 1) * d);
      Fits64(n - (e - 1) * d);
      q := if WrapU64(n - WrapU64((e - 1) * d)) < d then e - 1 else e;
    }
  }

  lemma QuotientFits(n: nat, d: nat)
    requires d > 0
    ensures 0 <= n / d <= n
  {
    DivBounds(n, d);
    if n / d > n {
      Times(n + 1, n / d, d);
      assert (n + 1) * d == n * d + d;
      Times(1, d, n);
    }
  }

  /** The large-divisor branch does not trap. */
  lemma DivlFits(n: U64, v: U32)
    requires v >= B31
    ensures n / 2 / v < B32
  {
    DivBounds(n / 2, v);
    if n / 2 / v >= B32 {
      Times(B32, n / 2 / v, v);
    }
  }

  /** Truncating division, as section 6.5.5 of ISO C99 defines it. */
  function Quotient(n: int, d: int): int
    requires d != 0
  {
    if (n < 0) == (d < 0) then Abs(n) / Abs(d) else -(Abs(n) / Abs(d))
  }

  function Remainder(n: int, d: int): int
    requires d != 0
  {
    n - d * Quotient(n, d)
  }

  function Abs(n: int): nat { if n < 0 then -n else n }

  /** The quotient is rounded toward zero: the remainder is smaller than the
      divisor and has the sign of the dividend; nothing else is. */
  lemma QuotientTruncates(n: int, d: int, q: int)
    requires d != 0
    ensures q == Quotient(n, d) <==>
              Abs(n - d * q) < Abs(d) && (n >= 0 ==> n - d * q >= 0) && (n <= 0 ==> n - d * q <= 0)
  {
    var a, b := Abs(n), Abs(d);
    var sq := if (n < 0) == (d < 0) then q else -q;
    assert d * q == if n < 0 then -(b * sq) else b * sq;
    FloorIs(a, b, sq);
  }

  lemma FloorIs(a: nat, b: nat, q: int)
    requires b > 0
    ensures q == a / b <==> 0 <= a - b * q < b
  {
    DivBounds(a, b);
    if 0 <= a - b * q < b {
      assert (q + 1) * b == b * q + b;
      QuotientIs(a, b, q);
    }
  }

  /** `sdiv64` is truncating division except for the one quotient that does not
      fit. */
  method SDiv64(n: I64, d: I64) returns (q: I64)
    requires d != 0
    ensures q == Quotient(n, d) <==> !(n == -B63 && d == -1)
    ensures q == WrapI64(Quotient(n, d))
  {
    hide WrapU64, WrapI64;
    Fits64(Abs(n));
    Fits64(Abs(d));
    var nAbs: U64 := if n >= 0 then n else WrapU64(0 - n);
    var dAbs: U64 := if d >= 0 then d else WrapU64(0 - d);
    var qAbs := UDiv64(nAbs, dAbs);
    QuotientRange(n, d);
    Negated(qAbs);
    FitsI64(Quotient(n, d));
    q := if (n < 0) == (d < 0) then WrapI64(qAbs) else WrapI64(0 - WrapI64(qAbs));
  }

  lemma QuotientRange(n: I64, d: I64)
    requires d != 0
    ensures -B63 <= Quotient(n, d) <= B63
    ensures Quotient(n, d) == B63 <==> n == -B63 && d == -1
  {
    QuotientFits(Abs(n), Abs(d));
    if Abs(n) / Abs(d) == B63 {
      MaxQuotient(Abs(n), Abs(d));
    }
  }

  lemma MaxQuotient(n: U64, d: U64)
    requires n <= B63 && d > 0 && n / d == B63
    ensures n == B63 && d == 1
  {
    DivBounds(n, d);
    if d >= 2 {
      Times(2, d, B63);
    }
  }

  /** `umod64`: the remainder's low 32 bits. */
  method UMod64(n: U64, d: U64) returns (r: U32)
    requires d != 0
    ensures r == (n % d) % B32
  {
    hide WrapU64;
    var q := UDiv64(n, d);
    DivBounds(n, d);
    Fits64(d * q);
    Fits64(n - d * q);
    assert n == d * (n / d) + n % d;
    r := WrapU32(WrapU64(n - WrapU64(d * q)));
  }

  /** `smod64`: the remainder wrapped to 32 bits. */
  method SMod64(n: I64, d: I64) returns (r: I32)
    requires d != 0
    ensures r == WrapI32(Remainder(n, d))
  {
    var q := SDiv64(n, d);
    if n == -B63 && d == -1 {
      assert Quotient(n, d) == B63 by { QuotientRange(n, d); }
      assert WrapI64(d * q) == -B63;
      r := WrapI32(WrapI64(n - WrapI64(d * q)));
    } else {
      ProductFits(n, d);
      r := WrapI32(WrapI64(n - WrapI64(d * q)));
    }
  }

  lemma ProductFits(n: I64, d: I64)
    requires d != 0 && !(n == -B63 && d == -1)
    ensures WrapI64(d * Quotient(n, d)) == d * Quotient(n, d)
    ensures WrapI64(Remainder(n, d)) == Remainder(n, d)
  {
    QuotientTruncates(n, d, Quotient(n, d));
    FitsI64(d * Quotient(n, d));
    FitsI64(Remainder(n, d));
  }

  /** The remainder `umod64` returns is right for every dividend exactly if the
      divisor is at most 2^32 ... */
  lemma UModExact(d: U64)
    requires d != 0
    ensures (forall n: U64 :: (n % d) % B32 == n % d) <==> d <= B32
  {
    if d > B32 {
      var n: U64 := B32;
      assert n % d == B32 by { SmallMod(n, d); }
    }
  }

  lemma SmallMod(n: int, d: int)
    requires 0 <= n < d
    ensures n % d == n
  {}

  /** ... and `smod64` exactly if its magnitude is at most 2^31. */
  lemma SModExact(d: I64)
    requires d != 0
    ensures (forall n: I64 :: WrapI32(Remainder(n, d)) == Remainder(n, d)) <==> -B31 <= d <= B31
  {
    if -B31 <= d <= B31 {
      forall n: I64
        ensures WrapI32(Remainder(n, d)) == Remainder(n, d)
      {
        QuotientTruncates(n, d, Quotient(n, d));
      }
    } else {
      var n: I64 := B31;
      QuotientTruncates(n, d, 0);
      assert Remainder(n, d) == B31;
      assert WrapI32(B31) == -B31;
    }
  }
}
