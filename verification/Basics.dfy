/** What several modules share: bytes, the smaller of two numbers, lists without
    repetition, and the arithmetic of products and quotients. */
module Basics {
  type Byte = b: int | 0 <= b < 256

  function Min(a: int, b: int): int { if a < b then a else b }

  predicate NoDup(q: seq<nat>) {
    forall i, j :: 0 <= i < j < |q| ==> q[i] != q[j]
  }

  lemma Product(a: nat, b: nat)
    ensures a * b >= 0
  {}

  lemma Times(a: int, b: int, c: int)
    requires a <= b && c >= 0
    ensures a * c <= b * c
  {
    assert b * c - a * c == (b - a) * c;
    Product(b - a, c);
  }

  /** `n` pieces of size `b` have room for piece `i`. */
  lemma Room(b: nat, i: nat, n: nat)
    requires i < n
    ensures i * b + b <= n * b
  {
    assert n * b - (i * b + b) == (n - i - 1) * b;
    Product(n - i - 1, b);
  }

  lemma SignOf(b: nat, q: int)
    ensures if q >= 0 then b * q >= 0 else b * q + b <= 0
  {
    if q >= 0 {
      Product(b, q);
    } else {
      Product(b, -1 - q);
    }
  }

  lemma DivMod(n: int, d: int)
    requires d > 0
    ensures n == n % d + d * (n / d) && 0 <= n % d < d
  {}

  /** A quotient of natural numbers is one. */
  lemma DivNat(n: nat, d: nat)
    requires d > 0
    ensures 0 <= n / d && (n / d) * d <= n
  {
    DivMod(n, d);
    SignOf(d, n / d);
  }
}
