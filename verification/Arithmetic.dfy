/** Small facts about powers of two and division, shared by the numeric models. */
module Arithmetic {

  const TWO_32 := 0x1_0000_0000

  function Max(a: int, b: int): int { if a < b then b else a }

  function Pow2(h: nat): (r: nat)
    ensures r > 0
  {
    if h == 0 then 1 else 2 * Pow2(h - 1)
  }

  /** Quotient and remainder are determined by x == q * d + r with 0 <= r < d. */
  lemma DivUnique(x: int, d: int, q: int, r: int)
    requires d > 0 && x == q * d + r && 0 <= r < d
    ensures x / d == q && x % d == r
  {
    var k := x / d - q;
    assert k * d == r - x % d by { assert x == (x / d) * d + x % d; }
    assert k >= 1 ==> k * d >= d;
    assert k <= -1 ==> k * d <= -d;
  }

  lemma DivMod(x: int, d: int)
    requires d > 0
    ensures x == (x / d) * d + x % d && 0 <= x % d < d
  {
  }

  lemma MulAssoc(a: int, b: int, c: int)
    ensures a * (b * c) == (a * b) * c
  {
  }

  lemma MulAdd(a: int, b: int, c: int)
    ensures (a + b) * c == a * c + b * c
  {
  }

  lemma MulDistribute(a: int, b: int, c: int)
    ensures a * (b + c) == a * b + a * c
  {
  }

  lemma {:induction false} Pow2Add(a: nat, b: nat)
    ensures Pow2(a + b) == Pow2(a) * Pow2(b)
  {
    if a == 0 {
    } else {
      Pow2Add(a - 1, b);
      MulAssoc(2, Pow2(a - 1), Pow2(b));
    }
  }

  lemma {:induction false} Pow2Monotone(a: nat, b: nat)
    requires a <= b
    ensures Pow2(a) <= Pow2(b)
  {
    if a == b {
    } else {
      Pow2Monotone(a, b - 1);
    }
  }

  /** Multiplying keeps an order. */
  lemma MulMonotone(a: int, b: int, c: int)
    requires a <= b && c >= 0
    ensures a * c <= b * c
  {
    MulNonNegative(b - a, c);
    MulAdd(b - a, a, c);
  }

  lemma MulNonNegative(a: int, b: int)
    requires a >= 0 && b >= 0
    ensures a * b >= 0
  {
  }

  /** A multiple of the modulus does not matter. */
  lemma ModDrop(x: int, k: int, m: int)
    requires m > 0
    ensures (x + k * m) % m == x % m && (x + k * m) / m == x / m + k
  {
    MulAdd(x / m, k, m);
    DivUnique(x + k * m, m, x / m + k, x % m);
  }

  lemma ModAdd(x: int, y: int, m: int)
    requires m > 0
    ensures (x % m + y) % m == (x + y) % m
  {
    ModDrop(x % m + y, x / m, m);
  }

  /** The two's complement difference. */
  lemma SubtractWraps(x: int, y: int, m: int)
    requires m > 0
    ensures (x + (m - y) % m) % m == (x - y) % m
  {
    ModAdd(m - y, x, m);
    ModDrop(x - y, 1, m);
  }

  /** x | y. */
  function BitOr(x: nat, y: nat): nat {
    if x == 0 then y else if y == 0 then x
    else (if x % 2 == 1 || y % 2 == 1 then 1 else 0) + 2 * BitOr(x / 2, y / 2)
  }

  lemma {:induction false} BitOrSymmetric(x: nat, y: nat)
    ensures BitOr(x, y) == BitOr(y, x)
  {
    if x > 0 && y > 0 { BitOrSymmetric(x / 2, y / 2); }
  }

  /** Where the bits of x lie below those of y, or-ing them adds them. */
  lemma {:induction false} BitOrAdds(x: nat, y: nat, s: nat)
    requires x < Pow2(s) && y % Pow2(s) == 0
    ensures BitOr(x, y) == x + y
    decreases s
  {
    if x > 0 && y > 0 {
      var p := Pow2(s - 1);
      var q := y / (2 * p);
      assert y == 2 * (p * q) by { MulAssoc(2, p, q); }
      DivUnique(p * q, p, q, 0);
      BitOrAdds(x / 2, y / 2, s - 1);
    }
  }

  /** Scaling dividend and divisor keeps the quotient and scales the remainder. */
  lemma ScaleDiv(a: int, p: int, q: int)
    requires p > 0 && q > 0
    ensures p * q > 0 && (a * q) / (p * q) == a / p && (a * q) % (p * q) == (a % p) * q
  {
    var hi, r := a / p, a % p;
    MulAdd(hi * p, r, q);
    MulAssoc(hi, p, q);
    MulPositive(p, q);
    MulNonNegative(r, q);
    MulMonotone(r + 1, p, q);
    MulAdd(r, 1, q);
    DivUnique(a * q, p * q, hi, r * q);
  }

  lemma MulPositive(a: int, b: int)
    requires a > 0 && b > 0
    ensures a * b > 0
  {
  }

  lemma QuotientBelow(a: int, p: int, q: int)
    requires p > 0 && 0 <= a < p * q
    ensures 0 <= a / p < q
  {
    var hi := a / p;
    assert a == hi * p + a % p;
    if hi >= q {
      MulMonotone(q, hi, p);
      assert false;
    }
    if hi < 0 {
      MulMonotone(hi, -1, p);
      assert false;
    }
  }

  lemma MultipleMod(r: int, q: int)
    requires q > 0
    ensures (r * q) % q == 0 && (r * q) / q == r
  {
    DivUnique(r * q, q, r, 0);
  }

  /** A multiple of p below p * q is at least p below it. */
  lemma MultipleBelow(v: int, p: int, q: int)
    requires p > 0 && v % p == 0 && 0 <= v < p * q
    ensures v + p <= p * q
  {
    var m := v / p;
    assert v == m * p;
    QuotientBelow(v, p, q);
    MulMonotone(m + 1, q, p);
    MulAdd(m, 1, p);
  }

  /** A number below p * q, scaled by q, split at p * q. */
  lemma SplitScaled(a: int, p: int, q: int)
    requires p > 0 && q > 0 && 0 <= a < p * q
    ensures (a * q) % (p * q) + (a / p) * (p * q) == a * q
    ensures 0 <= a / p < q && ((a * q) % (p * q)) % q == 0
  {
    ScaleDiv(a, p, q);
    MultipleMod(a % p, q);
    QuotientBelow(a, p, q);
    assert a * q == ((a * q) / (p * q)) * (p * q) + (a * q) % (p * q);
  }

  /** Dividing twice. */
  lemma DivDiv(x: int, p: int, q: int)
    requires x >= 0 && p > 0 && q > 0
    ensures p * q > 0 && x / (p * q) == (x / p) / q
  {
    MulPositive(p, q);
    var u, r := x / p, x % p;
    var v, s := u / q, u % q;
    assert x == u * p + r && u == v * q + s;
    MulAdd(v * q, s, p);
    MulAssoc(v, q, p);
    MulMonotone(s + 1, q, p);
    MulAdd(s, 1, p);
    MulNonNegative(s, p);
    DivUnique(x, p * q, v, s * p + r);
  }

  /** A 32-bit number as a fraction of n: the multiply and shift that replaces a remainder. */
  function FastRange(x: nat, n: nat): (r: nat)
    requires x < TWO_32
    ensures n > 0 ==> r < n
  {
    MulMonotone(x, TWO_32 - 1, n);
    MulNonNegative(x, n);
    x * n / TWO_32
  }
}
