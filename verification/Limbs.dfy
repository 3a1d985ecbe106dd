/** Numbers as sequences of 32-bit limbs: the arithmetic of columns, rows and shifted limbs. */
module Limbs {
  import opened Arithmetic

  /** A 32-bit limb. */
  type Limb = x: int | 0 <= x < TWO_32 witness 0

  /** The weight of the i-th limb. */
  function Weight(i: nat): (w: nat)
    ensures w > 0
  {
    if i == 0 then 1 else TWO_32 * Weight(i - 1)
  }

  /** The number that limbs stand for, least significant first. */
  function Value(s: seq<Limb>): nat {
    if s == [] then 0
    else MulNonNegative(s[|s| - 1], Weight(|s| - 1)); Value(s[..|s| - 1]) + s[|s| - 1] * Weight(|s| - 1)
  }

  lemma {:induction false} ValueBound(s: seq<Limb>)
    ensures Value(s) < Weight(|s|)
  {
    if s == [] {
    } else {
      var n := |s| - 1;
      ValueBound(s[..n]);
      MulMonotone(s[n], TWO_32 - 1, Weight(n));
    }
  }

  /** Growing a prefix by one limb. */
  lemma ValuePrefix(s: seq<Limb>, i: nat)
    requires i < |s|
    ensures Value(s[..i + 1]) == Value(s[..i]) + s[i] * Weight(i)
  {
    assert s[..i + 1][..i] == s[..i];
  }

  lemma {:induction false} WeightAdd(i: nat, j: nat)
    ensures Weight(i + j) == Weight(i) * Weight(j)
  {
    if i == 0 {
    } else {
      WeightAdd(i - 1, j);
      MulAssoc(TWO_32, Weight(i - 1), Weight(j));
    }
  }

  lemma {:induction false} ValueSplit(s: seq<Limb>, k: nat)
    requires k <= |s|
    ensures Value(s) == Value(s[..k]) + Value(s[k..]) * Weight(k)
  {
    var n := |s| - 1;
    if k == |s| {
      assert s[..k] == s;
    } else {
      ValueSplit(s[..n], k);
      var high := s[k..];
      assert s[..n][..k] == s[..k] && s[..n][k..] == high[..n - k] && high[n - k] == s[n];
      WeightAdd(n - k, k);
      MulAssoc(s[n], Weight(n - k), Weight(k));
      MulAdd(Value(high[..n - k]), s[n] * Weight(n - k), Weight(k));
    }
  }

  lemma ValueUpdate(s: seq<Limb>, i: nat, v: Limb)
    requires i < |s|
    ensures Value(s[i := v]) + s[i] * Weight(i) == Value(s) + v * Weight(i)
  {
    var t := s[i := v];
    ValueSplit(s, i + 1);
    ValueSplit(t, i + 1);
    ValuePrefix(s, i);
    ValuePrefix(t, i);
    assert t[..i] == s[..i] && t[i + 1..] == s[i + 1..];
  }

  /** One column of a carry loop: the low limb stays, the rest is carried to the next column. */
  lemma Column(n: int, i: nat)
    ensures (n % TWO_32) * Weight(i) + (n / TWO_32) * Weight(i + 1) == n * Weight(i)
  {
    var w := Weight(i);
    MulAssoc(n / TWO_32, TWO_32, w);
    MulAdd(n % TWO_32, (n / TWO_32) * TWO_32, w);
  }

  lemma CarryLimb(s: seq<Limb>, i: nat)
    requires i < |s| && s[i] == TWO_32 - 1
    ensures Value(s[i := 0]) + Weight(i + 1) == Value(s) + Weight(i)
  {
    ValueUpdate(s, i, 0);
  }

  lemma BumpLimb(s: seq<Limb>, i: nat)
    requires i < |s| && s[i] < TWO_32 - 1
    ensures Value(s[i := s[i] + 1]) == Value(s) + Weight(i)
  {
    ValueUpdate(s, i, s[i] + 1);
    MulAdd(s[i], 1, Weight(i));
  }

  lemma ComplementColumn(x: seq<Limb>, y: seq<Limb>, i: nat)
    requires i < |x| == |y| && y[i] == TWO_32 - 1 - x[i] && Value(y[..i]) + Value(x[..i]) == Weight(i) - 1
    ensures Value(y[..i + 1]) + Value(x[..i + 1]) == Weight(i + 1) - 1
  {
    ValuePrefix(x, i);
    ValuePrefix(y, i);
    MulAdd(y[i], x[i], Weight(i));
  }

  /** One column of a row of long multiplication. */
  lemma RowColumn(x: seq<Limb>, p: seq<Limb>, f: Limb, b: seq<Limb>, i: nat, j: nat, carry: nat, n: int, digit: Limb)
    requires i < |b| && i + j < |x| == |p|
    requires Value(p[..i + j]) + carry * Weight(i + j) == Value(x[..i + j]) + f * Value(b[..i]) * Weight(j)
    requires n == carry + x[i + j] + f * b[i] && digit == n % TWO_32
    ensures Value(p[i + j := digit][..i + j + 1]) + (n / TWO_32) * Weight(i + j + 1) ==
      Value(x[..i + j + 1]) + f * Value(b[..i + 1]) * Weight(j)
  {
    var w, p' := Weight(i + j), p[i + j := digit];
    assert p'[..i + j] == p[..i + j];
    ValuePrefix(x, i + j);
    ValuePrefix(p', i + j);
    ValuePrefix(b, i);
    Column(n, i + j);
    MulAdd(carry + x[i + j], f * b[i], w);
    MulAdd(carry, x[i + j], w);
    RowTerm(f, Value(b[..i]), b[i], i, j);
  }

  /** One column of a product with one limb. */
  lemma ScaleColumn(x: seq<Limb>, p: seq<Limb>, f: Limb, i: nat, carry: nat, n: int, digit: Limb)
    requires i < |x| == |p| && Value(p[..i]) + carry * Weight(i) == Value(x[..i]) * f
    requires n == carry + f * x[i] && digit == n % TWO_32
    ensures Value(p[i := digit][..i + 1]) + (n / TWO_32) * Weight(i + 1) == Value(x[..i + 1]) * f
  {
    var w, p' := Weight(i), p[i := digit];
    assert p'[..i] == p[..i];
    ValuePrefix(x, i);
    ValuePrefix(p', i);
    Column(n, i);
    MulAdd(carry, f * x[i], w);
    MulAssoc(f, x[i], w);
    MulAdd(Value(x[..i]), x[i] * w, f);
  }

  /** One column of a sum. */
  lemma SumColumn(x: seq<Limb>, y: seq<Limb>, p: seq<Limb>, i: nat, carry: nat, n: int, digit: Limb)
    requires i < |x| == |y| == |p| && Value(p[..i]) + carry * Weight(i) == Value(x[..i]) + Value(y[..i])
    requires n == carry + x[i] + y[i] && digit == n % TWO_32
    ensures Value(p[i := digit][..i + 1]) + (n / TWO_32) * Weight(i + 1) == Value(x[..i + 1]) + Value(y[..i + 1])
  {
    var w, p' := Weight(i), p[i := digit];
    assert p'[..i] == p[..i];
    ValuePrefix(x, i);
    ValuePrefix(y, i);
    ValuePrefix(p', i);
    Column(n, i);
    MulAdd(carry + x[i], y[i], w);
    MulAdd(carry, x[i], w);
  }

  lemma RowTerm(f: nat, v: nat, d: nat, i: nat, j: nat)
    ensures f * (v + d * Weight(i)) * Weight(j) == f * v * Weight(j) + f * d * Weight(i + j)
  {
    WeightAdd(i, j);
    MulAssoc(f, d, Weight(i));
    MulDistribute(f, v, d * Weight(i));
    MulAdd(f * v, f * d * Weight(i), Weight(j));
    MulAssoc(f * d, Weight(i), Weight(j));
  }

  /** A limb product plus two limbs still fits 64 bits. */
  lemma NoOverflow(a: Limb, b: Limb, c: Limb, d: Limb)
    ensures 0 <= a + b + c * d < TWO_32 * TWO_32 && (a + b + c * d) / TWO_32 < TWO_32
  {
    MulMonotone(c, TWO_32 - 1, d);
    MulNonNegative(c, d);
    MulMonotone(d, TWO_32 - 1, TWO_32 - 1);
  }

  /** The limbs of a row that do not fit make a multiple of the modulus. */
  lemma RowSplit(f: Limb, b: seq<Limb>, j: nat) returns (over: nat)
    requires j < |b|
    ensures f * Value(b) * Weight(j) == f * Value(b[..|b| - j]) * Weight(j) + over * Weight(|b|)
  {
    var k := |b| - j;
    var low, high := Value(b[..k]), Value(b[k..]);
    ValueSplit(b, k);
    RowTerm(f, low, high, k, j);
    MulNonNegative(f, high);
    over := f * high;
    assert k + j == |b|;
  }

  lemma RowEnd(x: seq<Limb>, r: seq<Limb>, f: Limb, b: seq<Limb>, j: nat, carry: nat) returns (over: nat)
    requires j < |x| == |r| == |b|
    requires Value(r) + carry * Weight(|x|) == Value(x) + f * Value(b[..|x| - j]) * Weight(j)
    ensures Value(r) + over * Weight(|x|) == Value(x) + f * Value(b) * Weight(j)
  {
    var cut := RowSplit(f, b, j);
    MulAdd(carry, cut, Weight(|x|));
    over := carry + cut;
  }

  lemma ProductStep(x: seq<Limb>, y: nat, j: nat)
    requires j < |x|
    ensures Value(x[..j + 1]) * y == Value(x[..j]) * y + x[j] * y * Weight(j)
  {
    var w := Weight(j);
    ValuePrefix(x, j);
    MulAdd(Value(x[..j]), x[j] * w, y);
    MulAssoc(x[j], w, y);
    MulAssoc(x[j], y, w);
  }

  lemma {:induction false} ZeroValue(s: seq<Limb>)
    requires forall i :: 0 <= i < |s| ==> s[i] == 0
    ensures Value(s) == 0
  {
    if s == [] {
    } else {
      ZeroValue(s[..|s| - 1]);
    }
  }

  // ----- shifts ---------------------------------------------------------------------------------

  lemma {:induction false} WeightIsPow2(k: nat)
    ensures Weight(k) == Pow2(32 * k)
  {
    if k == 0 {
    } else {
      WeightIsPow2(k - 1);
      BaseIsPow2();
      Pow2Add(32, 32 * (k - 1));
    }
  }

  lemma BaseIsPow2()
    ensures Pow2(32) == TWO_32
  {
    assert Pow2(4) == 16;
    Pow2Add(4, 4);
    Pow2Add(8, 8);
    Pow2Add(16, 16);
  }

  /** A limb shifted left by less than a limb: what stays, and what moves to the next limb. */
  function LowPart(a: Limb, s: nat): Limb { (a * Pow2(s)) % TWO_32 }

  function HighPart(a: Limb, s: nat): (r: Limb)
    requires s < 32
  {
    a / Pow2(32 - s)
  }

  lemma LimbShift(a: Limb, s: nat)
    requires s < 32
    ensures LowPart(a, s) + HighPart(a, s) * TWO_32 == a * Pow2(s)
    ensures HighPart(a, s) < Pow2(s) && LowPart(a, s) % Pow2(s) == 0
  {
    var p, q := Pow2(32 - s), Pow2(s);
    BaseIsPow2();
    Pow2Add(32 - s, s);
    SplitScaled(a, p, q);
  }

  /** A limb's part in a number shifted left. */
  lemma ShiftTerm(a: Limb, i: nat, k: nat, s: nat)
    requires s < 32
    ensures a * Weight(i) * Pow2(32 * k + s) == LowPart(a, s) * Weight(i + k) + HighPart(a, s) * Weight(i + k + 1)
  {
    var lo, hi, w := LowPart(a, s), HighPart(a, s), Weight(i + k);
    WeightIsPow2(k);
    Pow2Add(32 * k, s);
    WeightAdd(i, k);
    LimbShift(a, s);
    Regroup(a, Weight(i), Weight(k), Pow2(s));
    MulAdd(lo, hi * TWO_32, w);
    MulAssoc(hi, TWO_32, w);
  }

  lemma Regroup(a: int, b: int, c: int, d: int)
    ensures a * b * (c * d) == (a * d) * (b * c)
  {
  }

  /** The weight of a limb past the top is a multiple of the modulus. */
  lemma PastTop(v: nat, p: nat, n: nat) returns (over: nat)
    requires p >= n
    ensures v * Weight(p) == over * Weight(n)
  {
    WeightAdd(p - n, n);
    MulAssoc(v, Weight(p - n), Weight(n));
    MulNonNegative(v, Weight(p - n));
    over := v * Weight(p - n);
  }

  /** Or-ing a limb into lower bits that are free. */
  lemma OrFits(x: Limb, v: Limb, t: nat)
    requires t <= 32 && x < Pow2(t) && v % Pow2(t) == 0
    ensures BitOr(x, v) == x + v < TWO_32
  {
    BitOrAdds(x, v, t);
    BaseIsPow2();
    Pow2Add(t, 32 - t);
    MultipleBelow(v, Pow2(t), Pow2(32 - t));
  }

  /** What a limb adds to a number shifted right by 32 k + s. */
  function RightGain(a: Limb, i: nat, k: nat, s: nat): int
    requires s < 32
  {
    (if i > k && s != 0 then LowPart(a, 32 - s) * Weight(i - k - 1) else 0) +
    (if i >= k then (a / Pow2(s)) * Weight(i - k) else 0)
  }

  lemma ShiftRightStep(x: seq<Limb>, i: nat, k: nat, s: nat)
    requires i < |x| && s < 32
    ensures Value(x[..i + 1]) / Pow2(32 * k + s) == Value(x[..i]) / Pow2(32 * k + s) + RightGain(x[i], i, k, s)
  {
    var d, v, a := Pow2(32 * k + s), Value(x[..i]), x[i];
    WeightIsPow2(k);
    Pow2Add(32 * k, s);
    ValuePrefix(x, i);
    if i < k {
      ValueBound(x[..i + 1]);
      assert |x[..i + 1]| == i + 1;
      BelowShift(Value(x[..i + 1]), i + 1, k, s);
      BelowShift(v, i + 1, k, s) by { MulNonNegative(a, Weight(i)); }
    } else if i == k {
      ValueBound(x[..i]);
      TopOfShift(v, a, k, s);
    } else if s == 0 {
      WeightAdd(i - k, k);
      MulAssoc(a, Weight(i - k), Weight(k));
      ModDrop(v, a * Weight(i - k), d);
    } else {
      WholeShift(a, i, k, s);
      ModDrop(v, RightGain(a, i, k, s), d);
    }
  }

  lemma BelowShift(v: nat, i: nat, k: nat, s: nat)
    requires i <= k && v < Weight(i)
    ensures v / Pow2(32 * k + s) == 0
  {
    WeightIsPow2(i);
    Pow2Monotone(32 * i, 32 * k + s);
    DivUnique(v, Pow2(32 * k + s), 0, v);
  }

  lemma TopOfShift(v: nat, a: Limb, k: nat, s: nat)
    requires v < Weight(k)
    ensures v / Pow2(32 * k + s) == 0 && (v + a * Weight(k)) / Pow2(32 * k + s) == a / Pow2(s)
  {
    BelowShift(v, k, k, s);
    WeightIsPow2(k);
    Pow2Add(32 * k, s);
    MulNonNegative(a, Weight(k));
    DivUnique(v + a * Weight(k), Weight(k), a, v);
    DivDiv(v + a * Weight(k), Weight(k), Pow2(s));
  }

  /** Above the cut a limb's weight is a multiple of the divisor. */
  lemma WholeShift(a: Limb, i: nat, k: nat, s: nat)
    requires i > k && 0 < s < 32
    ensures a * Weight(i) == RightGain(a, i, k, s) * Pow2(32 * k + s)
  {
    var w, t := Weight(i - k - 1), 32 - s;
    LimbShift(a, t);
    WeightIsPow2(k);
    Pow2Add(32 * k, s);
    Pow2Add(t, s);
    BaseIsPow2();
    WeightAdd(i - k - 1, 1);
    WeightAdd(i - k, k);
    MulAssoc(a / Pow2(s), TWO_32, w);
    MulAdd(LowPart(a, t), (a / Pow2(s)) * TWO_32, w);
    assert RightGain(a, i, k, s) == (a * Pow2(t)) * w;
    RegroupRight(a, Pow2(t), w, Weight(k), Pow2(s));
  }

  lemma RegroupRight(a: int, p: int, w: int, k: int, s: int)
    ensures (a * p) * w * (k * s) == a * ((p * s) * w * k)
  {
  }

  // ----- order and magnitude --------------------------------------------------------------------

  /** The topmost limb that differs decides a comparison. */
  lemma TopLimbDecides(x: seq<Limb>, y: seq<Limb>, i: nat)
    requires i < |x| == |y| && (forall j :: i < j < |x| ==> x[j] == y[j]) && x[i] < y[i]
    ensures Value(x) < Value(y)
  {
    assert x[i + 1..] == y[i + 1..];
    ValueSplit(x, i + 1);
    ValueSplit(y, i + 1);
    ValuePrefix(x, i);
    ValuePrefix(y, i);
    ValueBound(x[..i]);
    MulMonotone(x[i] + 1, y[i], Weight(i));
    MulAdd(x[i], 1, Weight(i));
  }

  lemma Between(low: int, d: int, p: int, q: int, w: int)
    requires 0 <= low < w && p <= d < q
    ensures p * w <= low + d * w < q * w
  {
    MulMonotone(p, d, w);
    MulMonotone(d + 1, q, w);
    MulAdd(d, 1, w);
  }

  /** b is the number of bits of v: the position of the highest bit set plus one, or zero. */
  predicate IsBitLength(v: nat, b: nat) {
    v < Pow2(b) && (b > 0 ==> Pow2(b - 1) <= v)
  }

  /** The highest nonzero limb, with its highest bit, gives the bit length. */
  lemma TopBit(x: seq<Limb>, i: nat, n: nat)
    requires i < |x| && (forall j :: i < j < |x| ==> x[j] == 0) && IsBitLength(x[i], n) && n > 0
    ensures IsBitLength(Value(x), 32 * i + n)
  {
    TopValue(x, i);
    WeightIsPow2(i);
    Pow2Add(n, 32 * i);
    Pow2Add(n - 1, 32 * i);
    Between(Value(x[..i]), x[i], Pow2(n - 1), Pow2(n), Weight(i));
  }

  lemma TopValue(x: seq<Limb>, i: nat)
    requires i < |x| && forall j :: i < j < |x| ==> x[j] == 0
    ensures Value(x) == Value(x[..i]) + x[i] * Weight(i) && Value(x[..i]) < Weight(i)
  {
    var low, high := x[..i], x[i + 1..];
    assert |low| == i;
    ValueBound(low);
    ZeroValue(high);
    ValueSplit(x, i + 1);
    assert Value(high) * Weight(i + 1) == 0;
    ValuePrefix(x, i);
  }

  /** A nonzero limb above the second makes a number too large for 64 bits. */
  lemma HighLimb(x: seq<Limb>, i: nat, b: nat)
    requires 2 <= i < |x| && x[i] != 0 && (forall j :: i < j < |x| ==> x[j] == 0) && b < TWO_32 * TWO_32
    ensures Value(x) > b
  {
    TopValue(x, i);
    WeightAdd(i - 2, 2);
    assert Weight(2) == TWO_32 * TWO_32;
    MulMonotone(1, Weight(i - 2), Weight(2));
    MulMonotone(1, x[i], Weight(i));
  }

  // ----- bits of a quotient ---------------------------------------------------------------------

  /** The bits below position p are all zero. */
  predicate ClearBelow(x: seq<Limb>, p: nat) {
    forall j :: 0 <= j < |x| && 32 * j < p ==> if p >= 32 * (j + 1) then x[j] == 0 else x[j] % Pow2(p - 32 * j) == 0
  }

  lemma ZeroClear(x: seq<Limb>, p: nat)
    requires forall i :: 0 <= i < |x| ==> x[i] == 0
    ensures ClearBelow(x, p)
  {
    forall j | 0 <= j < |x| && 32 * j < p < 32 * (j + 1) ensures x[j] % Pow2(p - 32 * j) == 0 {
      DivUnique(0, Pow2(p - 32 * j), 0, 0);
    }
  }

  lemma ModHalf(v: nat, n: nat)
    requires v % Pow2(n + 1) == 0
    ensures v % Pow2(n) == 0
  {
    var q := v / Pow2(n + 1);
    assert v == q * (2 * Pow2(n));
    MulAssoc(q, 2, Pow2(n));
    MultipleMod(q * 2, Pow2(n));
  }

  /** Setting bit p where all bits up to it are zero. */
  lemma SetQuotientBit(x: seq<Limb>, p: nat)
    requires p < 32 * |x| && ClearBelow(x, p + 1)
    ensures BitOr(x[p / 32], Pow2(p % 32)) == x[p / 32] + Pow2(p % 32) < TWO_32
    ensures ClearBelow(x, p) && ClearBelow(x[p / 32 := x[p / 32] + Pow2(p % 32)], p)
    ensures Value(x[p / 32 := x[p / 32] + Pow2(p % 32)]) == Value(x) + Pow2(p)
  {
    var m, t := p / 32, p % 32;
    FreeBit(x, p);
    ModHalf(x[m], t);
    ModDrop(x[m], 1, Pow2(t));
    ClearStep(x, p);
    ValueUpdate(x, m, x[m] + Pow2(t));
    MulAdd(x[m], Pow2(t), Weight(m));
    WeightIsPow2(m);
    Pow2Add(t, 32 * m);
  }

  lemma FreeBit(x: seq<Limb>, p: nat)
    requires p < 32 * |x| && ClearBelow(x, p + 1)
    ensures x[p / 32] % Pow2(p % 32 + 1) == 0
    ensures BitOr(x[p / 32], Pow2(p % 32)) == x[p / 32] + Pow2(p % 32) < TWO_32
  {
    var t := p % 32;
    var d: Limb := x[p / 32];
    BaseIsPow2();
    Pow2Monotone(t, 31);
    assert Pow2(32) == 2 * Pow2(31);
    if t == 31 { DivUnique(0, Pow2(32), 0, 0); }
    assert d % Pow2(t + 1) == 0;
    BitOrSymmetric(d, Pow2(t));
    OrFits(Pow2(t), d, t + 1);
  }

  lemma ClearStep(x: seq<Limb>, p: nat)
    requires ClearBelow(x, p + 1)
    ensures ClearBelow(x, p)
  {
    forall j | 0 <= j < |x| && 32 * j < p
      ensures if p >= 32 * (j + 1) then x[j] == 0 else x[j] % Pow2(p - 32 * j) == 0
    {
      if p + 1 < 32 * (j + 1) {
        ModHalf(x[j], p - 32 * j);
      }
    }
  }
}
