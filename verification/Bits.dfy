// Bitwise AND and OR on naturals, bit by bit, against the arithmetic of contiguous masks.
module Bits {

  function Pow2(n: nat): (r: nat)
    ensures r > 0
  {
    if n == 0 then 1 else 2 * Pow2(n - 1)
  }

  function And(x: nat, y: nat): nat {
    if x == 0 || y == 0 then 0
    else (if x % 2 == 1 && y % 2 == 1 then 1 else 0) + 2 * And(x / 2, y / 2)
  }

  function Or(x: nat, y: nat): nat {
    if x == 0 then y
    else if y == 0 then x
    else (if x % 2 == 1 || y % 2 == 1 then 1 else 0) + 2 * Or(x / 2, y / 2)
  }

  lemma {:induction false} AndBound(x: nat, y: nat)
    ensures And(x, y) <= x
  {
    if x == 0 || y == 0 {
    } else {
      AndBound(x / 2, y / 2);
    }
  }

  lemma {:induction false} OrBound(x: nat, y: nat, n: nat)
    requires x < Pow2(n) && y < Pow2(n)
    ensures Or(x, y) < Pow2(n)
  {
    if x == 0 || y == 0 {
    } else {
      OrBound(x / 2, y / 2, n - 1);
    }
  }

  lemma Monotone(d: int, a: int, b: int)
    requires 0 < d && a <= b
    ensures d * a <= d * b
  {
  }

  lemma SmallMultiple(d: int, k: int)
    requires -d < d * k < d
    ensures k == 0
  {
    if k >= 1 {
      Monotone(d, 1, k);
    } else if k <= -1 {
      Monotone(d, k, -1);
    }
  }

  /** The quotient and the remainder of a division are determined by their equation. */
  lemma DivisionUnique(x: int, d: int, q: int, r: int)
    requires 0 <= r < d && x == d * q + r
    ensures x / d == q && x % d == r
  {
    assert x == d * (x / d) + x % d;
    assert d * (q - x / d) == d * q - d * (x / d);
    SmallMultiple(d, q - x / d);
  }

  lemma SmallRemainder(x: nat, d: nat)
    requires x < d
    ensures x % d == x
  {
    DivisionUnique(x, d, 0, x);
  }

  /** Splitting off the lowest digit of a remainder. */
  lemma ModSplit(x: nat, base: nat, e: nat)
    requires base > 0 && e > 0
    ensures base * e > 0
    ensures x % (base * e) == base * ((x / base) % e) + x % base
  {
    var h, l := x / base, x % base;
    var a, r := h / e, h % e;
    assert base * r + l < base * e by {
      Monotone(base, r + 1, e);
      assert base * (r + 1) == base * r + base;
    }
    assert x == (base * e) * a + (base * r + l) by {
      assert h == e * a + r;
      assert base * h == base * (e * a) + base * r;
      assert base * (e * a) == (base * e) * a;
    }
    DivisionUnique(x, base * e, a, base * r + l);
  }

  /** The largest multiple of d up to x. */
  function Floor(x: nat, d: nat): (r: nat)
    requires d > 0
    ensures r <= x
  {
    if x < d then 0 else d + Floor(x - d, d)
  }

  lemma {:induction false} FloorIs(x: nat, d: nat)
    requires d > 0
    ensures Floor(x, d) == x - x % d
  {
    if x < d {
      SmallRemainder(x, d);
    } else {
      FloorIs(x - d, d);
      var q, r := (x - d) / d, (x - d) % d;
      assert x == d * (q + 1) + r;
      DivisionUnique(x, d, q + 1, r);
    }
  }

  lemma {:induction false} Pow2Mono(a: nat, b: nat)
    requires a <= b
    ensures Pow2(a) <= Pow2(b)
    decreases b
  {
    if a == b {
    } else {
      Pow2Mono(a, b - 1);
    }
  }

  lemma DoubledProduct(x: int, y: int)
    ensures 2 * (x * y) == (2 * x) * y
  {
  }

  lemma {:induction false} Pow2Split(a: nat, b: nat)
    requires a <= b
    ensures Pow2(b) == Pow2(a) * Pow2(b - a)
    decreases a
  {
    if a == 0 {
    } else {
      Pow2Split(a - 1, b - 1);
      DoubledProduct(Pow2(a - 1), Pow2(b - a));
    }
  }

  /** One more bit below h and k. */
  lemma AndCons(h: nat, a: nat, k: nat, b: nat)
    requires a < 2 && b < 2
    ensures And(2 * h + a, 2 * k + b) == 2 * And(h, k) + if a == 1 && b == 1 then 1 else 0
  {
    var x, y := 2 * h + a, 2 * k + b;
    assert x / 2 == h && x % 2 == a && y / 2 == k && y % 2 == b;
  }

  lemma OrCons(h: nat, a: nat, k: nat, b: nat)
    requires a < 2 && b < 2
    ensures Or(2 * h + a, 2 * k + b) == 2 * Or(h, k) + if a == 1 || b == 1 then 1 else 0
  {
    var x, y := 2 * h + a, 2 * k + b;
    assert x / 2 == h && x % 2 == a && y / 2 == k && y % 2 == b;
  }

  lemma {:induction false} AndOnes(x: nat, n: nat)
    requires x < Pow2(n)
    ensures And(x, Pow2(n) - 1) == x
  {
    if n == 0 {
    } else {
      AndOnes(x / 2, n - 1);
      AndCons(x / 2, x % 2, Pow2(n - 1) - 1, 1);
    }
  }

  /** A mask of high bits clears exactly the remainder below it. */
  lemma {:induction false} AndMask(x: nat, j: nat, n: nat, p: nat, q: nat)
    requires j <= n && p == Pow2(j) && q == Pow2(n) && x < q
    ensures p <= q && And(x, q - p) == x - x % p
    decreases j
  {
    Pow2Mono(j, n);
    if j == 0 {
      AndOnes(x, n);
    } else {
      var half, top := Pow2(j - 1), Pow2(n - 1);
      AndMask(x / 2, j - 1, n - 1, half, top);
      AndCons(x / 2, x % 2, top - half, 0);
      ModSplit(x, 2, half);
    }
  }

  /** Setting all bits below a mask rounds up to the last number of the block. */
  lemma {:induction false} OrMask(x: nat, j: nat, p: nat)
    requires p == Pow2(j)
    ensures Or(x, p - 1) == x - x % p + p - 1
  {
    if j == 0 {
    } else {
      var half := Pow2(j - 1);
      OrMask(x / 2, j - 1, half);
      OrCons(x / 2, x % 2, half - 1, 1);
      ModSplit(x, 2, half);
    }
  }
}
