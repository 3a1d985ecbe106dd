/** Error detection of the Bech32 checksum: a BCH code, whose generator vanishes at three successive powers
    of an element of order 1023 in the field of 1024 elements. */
module Bech32Distance {
  import opened Arithmetic
  import opened Bech32

  // ----- the field ------------------------------------------------------------------------------

  /** An element of the field: a polynomial modulo x^10 + x^8 + x^5 + x + 1, by its bits, lowest first. */
  datatype Element = Element(b0: bool, b1: bool, b2: bool, b3: bool, b4: bool,
                             b5: bool, b6: bool, b7: bool, b8: bool, b9: bool)

  const I := true
  const O := false

  const NONE := Element(O, O, O, O, O, O, O, O, O, O)

  const ONE := Element(I, O, O, O, O, O, O, O, O, O)

  function Add(a: Element, b: Element): Element {
    Element(a.b0 != b.b0, a.b1 != b.b1, a.b2 != b.b2, a.b3 != b.b3, a.b4 != b.b4,
            a.b5 != b.b5, a.b6 != b.b6, a.b7 != b.b7, a.b8 != b.b8, a.b9 != b.b9)
  }

  /** Times x. */
  function Double(a: Element): Element {
    Element(a.b9, a.b0 != a.b9, a.b1, a.b2, a.b3, a.b4 != a.b9, a.b5, a.b6, a.b7 != a.b9, a.b8)
  }

  lemma DoubleSum(a: Element, b: Element)
    ensures Double(Add(a, b)) == Add(Double(a), Double(b))
  {
  }

  /** Times the n-th power of x. */
  function Shift(n: nat, a: Element): Element { if n == 0 then a else Double(Shift(n - 1, a)) }

  lemma {:induction false} ShiftSum(n: nat, a: Element, b: Element)
    ensures Shift(n, Add(a, b)) == Add(Shift(n, a), Shift(n, b))
  {
    if n == 0 {
    } else {
      ShiftSum(n - 1, a, b);
      DoubleSum(Shift(n - 1, a), Shift(n - 1, b));
    }
  }

  lemma {:induction false} ShiftAdd(m: nat, n: nat, a: Element)
    ensures Shift(m + n, a) == Shift(m, Shift(n, a))
  {
    if m == 0 {
    } else {
      ShiftAdd(m - 1, n, a);
    }
  }

  lemma ShiftSwap(m: nat, n: nat, a: Element)
    ensures Shift(m, Shift(n, a)) == Shift(n, Shift(m, a))
  {
    ShiftAdd(m, n, a);
    ShiftAdd(n, m, a);
  }

  lemma DoubleInjective(a: Element, b: Element)
    requires Double(a) == Double(b)
    ensures a == b
  {
  }

  lemma {:induction false} ShiftInjective(n: nat, a: Element, b: Element)
    requires Shift(n, a) == Shift(n, b)
    ensures a == b
  {
    if n == 0 {
    } else {
      DoubleInjective(Shift(n - 1, a), Shift(n - 1, b));
      ShiftInjective(n - 1, a, b);
    }
  }

  lemma {:induction false} ShiftNone(n: nat)
    ensures Shift(n, NONE) == NONE
  {
    if n == 0 {
    } else {
      ShiftNone(n - 1);
    }
  }

  // ----- powers of x ----------------------------------------------------------------------------

  function If(b: bool, c: Element): Element { if b then c else NONE }

  function Bits(a: Element): seq<bool> { [a.b0, a.b1, a.b2, a.b3, a.b4, a.b5, a.b6, a.b7, a.b8, a.b9] }

  function Fold<T>(step: (bool, T) -> T, start: T, bits: seq<bool>): T {
    if bits == [] then start else step(bits[0], Fold(step, start, bits[1..]))
  }

  lemma FoldOne<T>(step: (bool, T) -> T, start: T, bits: seq<bool>, i: nat)
    requires i < |bits|
    ensures Fold(step, start, bits[i..]) == step(bits[i], Fold(step, start, bits[i + 1..]))
  {
    assert bits[i..][1..] == bits[i + 1..];
  }

  lemma FoldTen<T>(step: (bool, T) -> T, start: T, bits: seq<bool>)
    requires |bits| == 10
    ensures Fold(step, start, bits) == step(bits[0], step(bits[1], step(bits[2], step(bits[3], step(bits[4],
                                         step(bits[5], step(bits[6], step(bits[7],
                                           step(bits[8], step(bits[9], start))))))))))
  {
    assert bits[0..] == bits && bits[10..] == [];
    FoldOne(step, start, bits, 0);
    FoldOne(step, start, bits, 1);
    FoldOne(step, start, bits, 2);
    FoldOne(step, start, bits, 3);
    FoldOne(step, start, bits, 4);
    FoldOne(step, start, bits, 5);
    FoldOne(step, start, bits, 6);
    FoldOne(step, start, bits, 7);
    FoldOne(step, start, bits, 8);
    FoldOne(step, start, bits, 9);
  }

  function Next(c: Element, b: bool, rest: Element): Element { Add(If(b, c), Double(rest)) }

  /** The product of an element and a polynomial. */
  function Times(c: Element, bits: seq<bool>): Element {
    Fold((b: bool, rest: Element) => Next(c, b, rest), NONE, bits)
  }

  lemma {:induction false} TimesDouble(c: Element, bits: seq<bool>)
    ensures Times(Double(c), bits) == Double(Times(c, bits))
    decreases |bits|
  {
    if bits == [] {
    } else {
      TimesDouble(c, bits[1..]);
      DoubleSum(If(bits[0], c), Double(Times(c, bits[1..])));
    }
  }

  lemma {:induction false} TimesShift(n: nat, c: Element, bits: seq<bool>)
    ensures Times(Shift(n, c), bits) == Shift(n, Times(c, bits))
  {
    if n == 0 {
    } else {
      TimesShift(n - 1, c, bits);
      TimesDouble(Shift(n - 1, c), bits);
    }
  }

  /** The product, written out. */
  function Product(c: Element, a: Element): Element {
    Next(c, a.b0, Next(c, a.b1, Next(c, a.b2, Next(c, a.b3, Next(c, a.b4,
      Next(c, a.b5, Next(c, a.b6, Next(c, a.b7, Next(c, a.b8, Next(c, a.b9, NONE))))))))))
  }

  lemma ProductIsTimes(c: Element, a: Element)
    ensures Times(c, Bits(a)) == Product(c, a)
  {
    FoldTen((b: bool, rest: Element) => Next(c, b, rest), NONE, Bits(a));
  }

  lemma OneNext(b: bool, r: Element)
    requires !r.b9
    ensures Next(ONE, b, r) == Element(b, r.b0, r.b1, r.b2, r.b3, r.b4, r.b5, r.b6, r.b7, r.b8)
  {
  }

  predicate At(bits: seq<bool>, k: nat) { k < |bits| && bits[k] }

  function Reduced(bits: seq<bool>): Element {
    Element(At(bits, 0), At(bits, 1), At(bits, 2), At(bits, 3), At(bits, 4), At(bits, 5), At(bits, 6), At(bits, 7),
            At(bits, 8), At(bits, 9))
  }

  lemma {:induction false} TimesOne(bits: seq<bool>)
    requires |bits| <= 10
    ensures Times(ONE, bits) == Reduced(bits)
  {
    if bits == [] {
    } else {
      TimesOne(bits[1..]);
      OneNext(bits[0], Reduced(bits[1..]));
    }
  }

  lemma TimesOneIs(a: Element)
    ensures Times(ONE, Bits(a)) == a
  {
    TimesOne(Bits(a));
    ReducedIs(a);
  }

  lemma ReducedIs(a: Element)
    ensures Reduced(Bits(a)) == a
  {
  }

  /** Shifting is multiplying by a power of x. */
  lemma ShiftIsTimes(n: nat, a: Element)
    ensures Shift(n, a) == Times(Shift(n, ONE), Bits(a))
  {
    TimesOneIs(a);
    TimesShift(n, ONE, Bits(a));
  }

  lemma PowerAdd(m: nat, n: nat)
    ensures Shift(m + n, ONE) == Product(Shift(m, ONE), Shift(n, ONE))
  {
    ShiftAdd(m, n, ONE);
    ShiftIsTimes(m, Shift(n, ONE));
    ProductIsTimes(Shift(m, ONE), Shift(n, ONE));
  }

  lemma {:induction false} TimesSum(c: Element, d: Element, bits: seq<bool>)
    ensures Times(Add(c, d), bits) == Add(Times(c, bits), Times(d, bits))
    decreases |bits|
  {
    if bits == [] {
    } else {
      TimesSum(c, d, bits[1..]);
      NextSum(c, d, bits[0], Times(c, bits[1..]), Times(d, bits[1..]));
    }
  }

  lemma NextSum(c: Element, d: Element, b: bool, p: Element, q: Element)
    ensures Next(Add(c, d), b, Add(p, q)) == Add(Next(c, b, p), Next(d, b, q))
  {
    DoubleSum(p, q);
    IfSum(b, c, d);
    Exchange(If(b, c), If(b, d), Double(p), Double(q));
  }

  lemma IfSum(b: bool, c: Element, d: Element)
    ensures If(b, Add(c, d)) == Add(If(b, c), If(b, d))
  {
  }

  lemma Exchange(a: Element, b: Element, c: Element, d: Element)
    ensures Add(Add(a, b), Add(c, d)) == Add(Add(a, c), Add(b, d))
  {
  }

  lemma SelfSum(a: Element)
    ensures Add(a, a) == NONE
  {
  }

  /** What holds of powers of x holds of their multiples. */
  lemma RelationShifts(p: nat, q: nat, a: Element)
    requires Shift(q, ONE) == Add(Shift(p, ONE), ONE)
    ensures Shift(q, a) == Add(Shift(p, a), a)
  {
    TimesSum(Shift(p, ONE), ONE, Bits(a));
    ShiftIsTimes(p, a);
    ShiftIsTimes(q, a);
    TimesOneIs(a);
  }

  /** A power of x that differs from one by a power of x fixes nothing but zero. */
  lemma NoFixedPoint(p: nat, q: nat, a: Element)
    requires Shift(q, ONE) == Add(Shift(p, ONE), ONE) && Shift(p, a) == a
    ensures a == NONE
  {
    RelationShifts(p, q, a);
    SelfSum(a);
    ShiftNone(q);
    ShiftInjective(q, a, NONE);
  }

  const X5 := Element(O, O, O, O, O, I, O, O, O, O)
  const X10 := Element(I, I, O, O, O, I, O, O, I, O)
  const X20 := Element(I, I, I, I, I, I, O, O, O, O)
  const X25 := Element(I, I, O, O, O, O, I, I, O, I)
  const X30 := Element(O, I, I, O, I, O, O, O, O, O)
  const X40 := Element(O, I, I, O, I, I, I, O, O, O)
  const X80 := Element(O, O, O, I, I, O, O, I, I, O)
  const X85 := Element(I, O, O, O, I, I, I, I, I, O)
  const X90 := Element(O, O, I, O, I, I, O, I, I, I)
  const X170 := Element(I, I, O, I, O, O, O, O, I, I)
  const X340 := Element(I, I, O, I, I, O, O, O, O, O)
  const X425 := Element(O, O, I, O, O, I, O, O, I, I)

  const X341 := Element(O, I, I, O, I, I, O, O, O, O)
  const X682 := Element(I, I, I, O, I, I, O, O, O, O)

  // Each product is computed in a lemma of its own.

  lemma Power10(m: nat, n: nat)
    requires Shift(m, ONE) == X5 && Shift(n, ONE) == X5
    ensures Shift(m + n, ONE) == X10
  {
    PowerAdd(m, n);
  }

  lemma Power20(m: nat, n: nat)
    requires Shift(m, ONE) == X10 && Shift(n, ONE) == X10
    ensures Shift(m + n, ONE) == X20
  {
    PowerAdd(m, n);
  }

  lemma Power25(m: nat, n: nat)
    requires Shift(m, ONE) == X20 && Shift(n, ONE) == X5
    ensures Shift(m + n, ONE) == X25
  {
    PowerAdd(m, n);
  }

  lemma Power30(m: nat, n: nat)
    requires Shift(m, ONE) == X25 && Shift(n, ONE) == X5
    ensures Shift(m + n, ONE) == X30
  {
    PowerAdd(m, n);
  }

  lemma Power40(m: nat, n: nat)
    requires Shift(m, ONE) == X20 && Shift(n, ONE) == X20
    ensures Shift(m + n, ONE) == X40
  {
    PowerAdd(m, n);
  }

  lemma Power80(m: nat, n: nat)
    requires Shift(m, ONE) == X40 && Shift(n, ONE) == X40
    ensures Shift(m + n, ONE) == X80
  {
    PowerAdd(m, n);
  }

  lemma Power85(m: nat, n: nat)
    requires Shift(m, ONE) == X80 && Shift(n, ONE) == X5
    ensures Shift(m + n, ONE) == X85
  {
    PowerAdd(m, n);
  }

  lemma Power90(m: nat, n: nat)
    requires Shift(m, ONE) == X85 && Shift(n, ONE) == X5
    ensures Shift(m + n, ONE) == X90
  {
    PowerAdd(m, n);
  }

  lemma Power170(m: nat, n: nat)
    requires Shift(m, ONE) == X85 && Shift(n, ONE) == X85
    ensures Shift(m + n, ONE) == X170
  {
    PowerAdd(m, n);
  }

  lemma Power340(m: nat, n: nat)
    requires Shift(m, ONE) == X170 && Shift(n, ONE) == X170
    ensures Shift(m + n, ONE) == X340
  {
    PowerAdd(m, n);
  }

  lemma Power425(m: nat, n: nat)
    requires Shift(m, ONE) == X340 && Shift(n, ONE) == X85
    ensures Shift(m + n, ONE) == X425
  {
    PowerAdd(m, n);
  }

  lemma PowerMore(m: nat, k: nat, c: Element)
    requires Shift(m, ONE) == c
    ensures Shift(m + k, ONE) == Shift(k, c)
  {
    ShiftAdd(k, m, ONE);
  }

  lemma Power5()
    ensures Shift(5, ONE) == X5
  {
    assert Shift(2, ONE) == Element(O, O, I, O, O, O, O, O, O, O);
    PowerMore(2, 3, Element(O, O, I, O, O, O, O, O, O, O));
  }

  /** The exponents are multiples of a variable, so that they are not computed step by step. */
  lemma LowPowers(n: nat)
    requires Shift(n, ONE) == X5
    ensures Shift(6 * n, ONE) == X30 && Shift(17 * n, ONE) == X85 && Shift(18 * n, ONE) == X90
  {
    Power10(n, n);
    Power20(2 * n, 2 * n);
    Power25(4 * n, n);
    Power30(5 * n, n);
    Power40(4 * n, 4 * n);
    Power80(8 * n, 8 * n);
    Power85(16 * n, n);
    Power90(17 * n, n);
  }

  lemma HighPowers(n: nat)
    requires Shift(17 * n, ONE) == X85
    ensures Shift(68 * n, ONE) == X340 && Shift(85 * n, ONE) == X425
  {
    Power170(17 * n, 17 * n);
    Power340(34 * n, 34 * n);
    Power425(68 * n, 17 * n);
  }

  predicate Fixed(k: nat, a: Element) { Shift(k, a) == a }

  /** The shift by k fixes nothing but zero. */
  ghost predicate Free(k: nat) { forall a :: Fixed(k, a) ==> a == NONE }

  lemma FreeFrom(k: nat, m: nat)
    requires Shift(m, ONE) == Add(Shift(k, ONE), ONE)
    ensures Free(k)
  {
    forall a | Fixed(k, a) ensures a == NONE { NoFixedPoint(k, m, a); }
  }

  lemma Free33(n: nat)
    requires Shift(6 * n, ONE) == X30 && Shift(85 * n, ONE) == X425
    ensures Free(6 * n + 3)
  {
    PowerMore(6 * n, 3, X30);
    PowerMore(85 * n, 4, X425);
    assert Shift(2, X425) == Element(I, O, I, O, I, I, I, I, I, I)
        && Shift(4, X425) == Element(I, O, O, O, I, I, O, I, O, O);
    FreeFrom(6 * n + 3, 85 * n + 4);
  }

  lemma Free93(n: nat)
    requires Shift(18 * n, ONE) == X90 && Shift(85 * n, ONE) == X425
    ensures Free(18 * n + 3)
  {
    PowerMore(18 * n, 3, X90);
    PowerMore(85 * n, 1, X425);
    FreeFrom(18 * n + 3, 85 * n + 1);
  }

  lemma Power682(m: nat, n: nat)
    requires Shift(m, ONE) == X341 && Shift(n, ONE) == X341
    ensures Shift(m + n, ONE) == X682
  {
    PowerAdd(m, n);
  }

  lemma Power1023(m: nat, n: nat)
    requires Shift(m, ONE) == X682 && Shift(n, ONE) == X341
    ensures Shift(m + n, ONE) == ONE
  {
    PowerAdd(m, n);
  }

  lemma Free341(k: nat)
    requires Shift(k, ONE) == X341
    ensures Free(k) && Shift(3 * k, ONE) == ONE
  {
    Power682(k, k);
    Power1023(2 * k, k);
    FreeFrom(k, 2 * k);
  }

  lemma FixesAll(k: nat, a: Element)
    requires Shift(k, ONE) == ONE
    ensures Fixed(k, a)
  {
    ShiftIsTimes(k, a);
    TimesOneIs(a);
  }

  /** The shift that fixes everything, and its parts, which fix nothing but zero. */
  lemma Exponents() returns (full: nat, k31: nat, k11: nat, k3: nat)
    ensures full == 1023 && 31 * k31 == full && 11 * k11 == full && 3 * k3 == full
    ensures (forall a :: Fixed(full, a)) && Free(k31) && Free(k11) && Free(k3)
  {
    Power5();
    var n: nat :| n == 5;
    full, k31, k11, k3 := 204 * n + 3, 6 * n + 3, 18 * n + 3, 68 * n + 1;
    LowPowers(n);
    HighPowers(n);
    Free33(n);
    Free93(n);
    PowerMore(68 * n, 1, X340);
    Free341(k3);
    forall a ensures Fixed(full, a) { FixesAll(full, a); }
  }

  // ----- the order of x -------------------------------------------------------------------------

  lemma {:induction false} TurnsAgain(k: nat, t: nat, a: Element)
    requires Shift(k, a) == a
    ensures Shift(t * k, a) == a
  {
    if t == 0 {
    } else {
      TurnsAgain(k, t - 1, a);
      assert t * k == k + (t - 1) * k;
      ShiftAdd(k, (t - 1) * k, a);
    }
  }

  predicate Prime(q: nat, r: nat) { r < 2 || (q % r != 0 && Prime(q, r - 1)) }

  lemma {:induction false} NotDivided(q: nat, r: nat, s: nat)
    requires Prime(q, r) && 1 < s <= r
    ensures q % s != 0
  {
    if s == r {
    } else {
      NotDivided(q, r - 1, s);
    }
  }

  /** What is left when a shift that fixes an element is taken out of another. */
  lemma Remainder(total: nat, x: nat, y: nat, a: Element)
    requires total == x + y && Shift(total, a) == a && Shift(y, a) == a
    ensures Shift(x, a) == a
  {
    ShiftAdd(x, y, a);
  }

  lemma RemainderOf(k: nat, q: nat, d: nat, a: Element)
    requires q > 0 && Shift(d * k, a) == a && Shift(q * k, a) == a
    ensures Shift((d % q) * k, a) == a
  {
    var t, r := d / q, d % q;
    SplitProduct(k, q, d, t, r);
    TurnsAgain(q * k, t, a);
    Remainder(d * k, r * k, t * (q * k), a);
  }

  /** An element that two shifts fix, where one is a prime multiple of k and the other a smaller one, is
      fixed by the k-shift. */
  lemma {:induction false} CommonTurn(k: nat, q: nat, r: nat, a: Element)
    requires q > 0 && Prime(q, q - 1) && 0 < r < q && Shift(q * k, a) == a && Shift(r * k, a) == a
    ensures Shift(k, a) == a
    decreases r
  {
    if r > 1 {
      NotDivided(q, q - 1, r);
      RemainderOf(k, r, q, a);
      CommonTurn(k, q, q % r, a);
    } else {
      assert r * k == k;
    }
  }

  lemma PrimeTurn(full: nat, k: nat, q: nat, d: nat, a: Element)
    requires q > 0 && Prime(q, q - 1) && q * k == full && Shift(full, a) == a && d % q != 0 && Shift(d, a) == a
    ensures Shift(k, a) == a
  {
    TurnsAgain(d, k, a);
    assert k * d == d * k;
    RemainderOf(k, q, d, a);
    CommonTurn(k, q, d % q, a);
  }

  lemma SplitProduct(k: nat, q: nat, d: nat, t: nat, r: nat)
    requires d == q * t + r
    ensures d * k == r * k + t * (q * k)
  {
  }

  lemma Primes()
    ensures Prime(31, 30) && Prime(11, 10) && Prime(3, 2)
  {
    assert Prime(31, 15);
  }

  /** No shift by less than 1023 fixes anything but zero. */
  lemma OrderIsFull(d: nat, a: Element)
    requires 0 < d < 1023 && Shift(d, a) == a
    ensures a == NONE
  {
    var full, k31, k11, k3 := Exponents();
    assert Fixed(full, a);
    Primes();
    if d % 31 != 0 {
      PrimeTurn(full, k31, 31, d, a);
      assert Fixed(k31, a);
    } else if d % 11 != 0 {
      PrimeTurn(full, k11, 11, d, a);
      assert Fixed(k11, a);
    } else {
      PrimeTurn(full, k3, 3, d, a);
      assert Fixed(k3, a);
    }
  }

  lemma ShiftsDiffer(m: nat, n: nat, a: Element)
    requires m < 1023 && n < 1023 && m != n && Shift(m, a) == Shift(n, a)
    ensures a == NONE
  {
    if m > n {
      ShiftAdd(n, m - n, a);
      ShiftInjective(n, Shift(m - n, a), a);
      OrderIsFull(m - n, a);
    } else {
      ShiftAdd(m, n - m, a);
      ShiftInjective(m, Shift(n - m, a), a);
      OrderIsFull(n - m, a);
    }
  }

  // ----- three equations ------------------------------------------------------------------------

  lemma Cancel(a: Element, b: Element)
    requires Add(a, b) == NONE
    ensures a == b
  {
  }

  /** Three terms whose sums with the weights 0, 1 and 2 vanish are zero. */
  lemma Vandermonde(x: nat, y: nat, z: nat, u: Element, v: Element, w: Element)
    requires x < 1023 && y < 1023 && z < 1023 && x != y && y != z && x != z
    requires Add(Add(u, v), w) == NONE
    requires Add(Add(Shift(x, u), Shift(y, v)), Shift(z, w)) == NONE
    requires Add(Add(Shift(x, Shift(x, u)), Shift(y, Shift(y, v))), Shift(z, Shift(z, w))) == NONE
    ensures u == NONE
  {
    Cancel(Add(u, v), w);
    Cancel(Add(Shift(x, u), Shift(y, v)), Shift(z, w));
    ShiftSum(z, u, v);
    var p := Add(Shift(x, u), Shift(z, u));
    Exchanged(Shift(x, u), Shift(y, v), Shift(z, u), Shift(z, v));
    assert p == Add(Shift(y, v), Shift(z, v));
    Weighted(x, y, z, u, v, w);
    ShiftSum(x, Shift(x, u), Shift(z, u));
    ShiftSum(y, Shift(y, v), Shift(z, v));
    ShiftsDiffer(x, y, p);
    Cancel(Shift(x, u), Shift(z, u));
    ShiftsDiffer(x, z, u);
  }

  lemma Exchanged(a: Element, b: Element, c: Element, d: Element)
    requires Add(a, b) == Add(c, d)
    ensures Add(a, c) == Add(b, d)
  {
  }

  lemma Weighted(x: nat, y: nat, z: nat, u: Element, v: Element, w: Element)
    requires Shift(z, w) == Add(Shift(x, u), Shift(y, v))
    requires Add(Add(Shift(x, Shift(x, u)), Shift(y, Shift(y, v))), Shift(z, Shift(z, w))) == NONE
    ensures Add(Shift(x, Shift(x, u)), Shift(x, Shift(z, u))) == Add(Shift(y, Shift(y, v)), Shift(y, Shift(z, v)))
  {
    ThirdSum(x, y, z, u, v, w);
    Pairs(Shift(x, Shift(x, u)), Shift(y, Shift(y, v)), Shift(x, Shift(z, u)), Shift(y, Shift(z, v)),
          Shift(z, Shift(z, w)));
  }

  lemma ThirdSum(x: nat, y: nat, z: nat, u: Element, v: Element, w: Element)
    requires Shift(z, w) == Add(Shift(x, u), Shift(y, v))
    ensures Shift(z, Shift(z, w)) == Add(Shift(x, Shift(z, u)), Shift(y, Shift(z, v)))
  {
    ShiftSum(z, Shift(x, u), Shift(y, v));
    ShiftSwap(z, x, u);
    ShiftSwap(z, y, v);
  }

  lemma Pairs(a: Element, b: Element, c: Element, d: Element, e: Element)
    requires Add(Add(a, b), e) == NONE && e == Add(c, d)
    ensures Add(a, c) == Add(b, d)
  {
    Cancel(Add(a, b), e);
    Exchanged(a, b, c, d);
  }

  // ----- symbols and registers in the field -----------------------------------------------------

  /** Symbols as elements of the field: 2 stands for the 924th power of x. */
  function Embed(s: Symbol): Element {
    Element(s[0] != s[4], s[1] != s[4], (s[1] != s[2]) != s[4], (s[1] != s[3]) != s[4], (s[2] != s[3]) != s[4],
            s[4], s[2] != s[3], s[4], s[3], s[3])
  }

  lemma EmbedSum(s: Symbol, t: Symbol)
    ensures Embed(XorSymbol(s, t)) == Add(Embed(s), Embed(t))
  {
  }

  lemma EmbedNonzero(s: Symbol)
    requires Embed(s) == NONE
    ensures s == ZeroSymbol()
  {
  }

  function EmbedAll(w: Data): seq<Element> { seq(|w|, i requires 0 <= i < |w| => Embed(w[i])) }

  /** The value at the j-th power of x of the polynomial with these coefficients. */
  function Poly(j: nat, w: seq<Element>): Element {
    if w == [] then NONE else Add(Shift(j, Poly(j, w[..|w| - 1])), w[|w| - 1])
  }

  lemma PolyLast(j: nat, w: seq<Element>, t: Element)
    ensures Poly(j, w + [t]) == Add(Shift(j, Poly(j, w)), t)
  {
    assert (w + [t])[..|w|] == w;
  }

  function AddAll(v: seq<Element>, w: seq<Element>): seq<Element>
    requires |v| == |w|
  {
    seq(|v|, i requires 0 <= i < |v| => Add(v[i], w[i]))
  }

  lemma {:induction false} PolySum(j: nat, v: seq<Element>, w: seq<Element>)
    requires |v| == |w|
    ensures Poly(j, AddAll(v, w)) == Add(Poly(j, v), Poly(j, w))
  {
    if v == [] {
    } else {
      var n := |v| - 1;
      PolySum(j, v[..n], w[..n]);
      assert AddAll(v, w)[..n] == AddAll(v[..n], w[..n]);
      SumStep(j, Poly(j, v[..n]), Poly(j, w[..n]), v[n], w[n]);
    }
  }

  lemma SumStep(j: nat, p: Element, q: Element, s: Element, t: Element)
    ensures Add(Shift(j, Add(p, q)), Add(s, t)) == Add(Add(Shift(j, p), s), Add(Shift(j, q), t))
  {
    ShiftSum(j, p, q);
    Exchange(Shift(j, p), Shift(j, q), s, t);
  }

  lemma {:induction false} PolyFirst(j: nat, e: Element, w: seq<Element>)
    ensures Poly(j, [e] + w) == Add(Shift(|w| * j, e), Poly(j, w))
  {
    if w == [] {
      assert [e] + w == [] + [e];
      PolyLast(j, [], e);
      ShiftNone(j);
    } else {
      var n := |w| - 1;
      PolyFirst(j, e, w[..n]);
      assert [e] + w == ([e] + w[..n]) + [w[n]];
      PolyLast(j, [e] + w[..n], w[n]);
      assert j + n * j == |w| * j;
      FirstStep(j, n * j, e, Poly(j, w[..n]), w[n]);
    }
  }

  lemma FirstStep(j: nat, k: nat, e: Element, h: Element, t: Element)
    ensures Add(Shift(j, Add(Shift(k, e), h)), t) == Add(Shift(j + k, e), Add(Shift(j, h), t))
  {
    ShiftSum(j, Shift(k, e), h);
    ShiftAdd(j, k, e);
    Associate(Shift(j + k, e), Shift(j, h), t);
  }

  lemma Associate(a: Element, b: Element, c: Element)
    ensures Add(Add(a, b), c) == Add(a, Add(b, c))
  {
  }

  function Groups(c: Register): Data { seq(6, i requires 0 <= i < 6 => Group(c, i)) }

  lemma GroupsXor(c: Register, d: Register)
    ensures Groups(Xor(c, d)) == XorData(Groups(c), Groups(d))
  {
    forall i | 0 <= i < 6 ensures Group(Xor(c, d), i) == XorSymbol(Group(c, i), Group(d, i)) {
    }
  }

  lemma GroupsMoved(c: Register, v: Symbol)
    ensures [Group(c, 0)] + Groups(Moved(c, v)) == Groups(c) + [v]
  {
    var l, r := [Group(c, 0)] + Groups(Moved(c, v)), Groups(c) + [v];
    forall i | 0 <= i < 7 ensures l[i] == r[i] {
      if 0 < i < 6 { assert Group(Moved(c, v), i - 1) == Group(c, i); }
    }
    assert Group(Moved(c, v), 5) == v;
  }

  /** The value of a register, as a polynomial. */
  function Value(j: nat, c: Register): Element { Poly(j, EmbedAll(Groups(c))) }

  lemma ValueXorIf(j: nat, b: bool, c: Register, n: int)
    ensures Value(j, XorIf(b, c, n)) == Add(Value(j, c), If(b, Value(j, Constant(n))))
  {
    if b {
      var d := Constant(n);
      GroupsXor(c, d);
      EmbedXor(Groups(c), Groups(d));
      PolySum(j, EmbedAll(Groups(c)), EmbedAll(Groups(d)));
    }
  }

  lemma EmbedXor(v: Data, w: Data)
    requires |v| == |w|
    ensures EmbedAll(XorData(v, w)) == AddAll(EmbedAll(v), EmbedAll(w))
  {
    forall i | 0 <= i < |v| ensures Embed(XorData(v, w)[i]) == Add(Embed(v[i]), Embed(w[i])) { EmbedSum(v[i], w[i]); }
  }

  // ----- the roots of the generator -------------------------------------------------------------

  function Times8(a: Element): Element {
    Element((((a.b2 != a.b4) != a.b6) != a.b7) != a.b8, ((((a.b2 != a.b3) != a.b4) != a.b5) != a.b6) != a.b9,
            (((a.b3 != a.b4) != a.b5) != a.b6) != a.b7,
            (((a.b4 != a.b5) != a.b6) != a.b7) != a.b8, (((a.b5 != a.b6) != a.b7) != a.b8) != a.b9,
            (a.b2 != a.b4) != a.b9,
            a.b3 != a.b5, a.b4 != a.b6, ((((a.b0 != a.b2) != a.b4) != a.b5) != a.b6) != a.b8,
            ((((a.b1 != a.b3) != a.b5) != a.b6) != a.b7) != a.b9)
  }

  function Times4(a: Element): Element {
    Element(a.b6 != a.b8, ((a.b6 != a.b7) != a.b8) != a.b9, (a.b7 != a.b8) != a.b9, a.b8 != a.b9, a.b0 != a.b9,
            (a.b1 != a.b6) != a.b8, (a.b2 != a.b7) != a.b9, a.b3 != a.b8, ((a.b4 != a.b6) != a.b8) != a.b9,
            (a.b5 != a.b7) != a.b9)
  }

  lemma Shift4(n: nat, a: Element)
    requires n + 1 == 5
    ensures Shift(n, a) == Times4(a)
  {
    ShiftAdd(2, 2, a);
    Shift2(a);
    Shift2(Double(Double(a)));
    Four(a);
  }

  lemma Shift2(a: Element)
    ensures Shift(2, a) == Double(Double(a))
  {
    assert Shift(1, a) == Double(a);
  }

  lemma Four(a: Element)
    ensures Double(Double(Double(Double(a)))) == Times4(a)
  {
  }

  lemma Twice4(a: Element)
    ensures Times4(Times4(a)) == Times8(a)
  {
  }

  lemma Shift8(n: nat, a: Element)
    requires n + 1 == 5
    ensures Shift(2 * n, a) == Times8(a)
  {
    ShiftAdd(n, n, a);
    Shift4(n, a);
    Shift4(n, Times4(a));
    Twice4(a);
  }

  /** Times the 24th power of x. */
  function Times24(a: Element): Element { Times8(Times8(Times8(a))) }

  lemma Shift24(n: nat, a: Element)
    requires n + 1 == 5
    ensures Shift(6 * n, a) == Times24(a)
  {
    Shift8(n, a);
    Shift8(n, Times8(a));
    Shift8(n, Times8(Times8(a)));
    ShiftAdd(2 * n, 2 * n, a);
    ShiftAdd(2 * n, 4 * n, a);
  }

  /** Times the 24th, 25th or 26th power. */
  function TimesRoot(i: nat, a: Element): Element {
    if i == 0 then Times24(a) else if i == 1 then Double(Times24(a)) else Double(Double(Times24(a)))
  }

  predicate RootAt(i: nat, j: nat, a: Element) { Shift(j, a) == TimesRoot(i, a) }

  /** j is the exponent 24 + i. */
  ghost predicate IsRoot(i: nat, j: nat) { i < 3 && forall a {:trigger RootAt(i, j, a)} :: RootAt(i, j, a) }

  lemma ShiftRoot(j: nat, i: nat, a: Element)
    requires IsRoot(i, j)
    ensures Shift(j, a) == TimesRoot(i, a)
  {
    assert RootAt(i, j, a);
  }

  lemma RootExponents() returns (j: nat)
    ensures IsRoot(0, j) && IsRoot(1, j + 1) && IsRoot(2, j + 2)
  {
    var n: nat :| n + 1 == 5;
    j := 6 * n;
    var j1, j2 := j + 1, j + 2;
    forall a ensures RootAt(0, j, a) { RootsAt(n, j, a); }
    forall a ensures RootAt(1, j1, a) { RootsAt(n, j, a); }
    forall a ensures RootAt(2, j2, a) { RootsAt(n, j, a); }
  }

  lemma RootsAt(n: nat, j: nat, a: Element)
    requires n + 1 == 5 && j == 6 * n
    ensures RootAt(0, j, a) && RootAt(1, j + 1, a) && RootAt(2, j + 2, a)
  {
    Shift24(n, a);
    var b := Times24(a);
    assert Shift(j, a) == b;
    NextShift(j, a);
    NextShift(j + 1, a);
  }

  lemma NextShift(j: nat, a: Element)
    ensures Shift(j + 1, a) == Double(Shift(j, a))
  {
  }

  lemma PolySingle(j: nat, a: Element)
    ensures Poly(j, [a]) == a
  {
    ShiftNone(j);
    PolyLast(j, [], a);
    assert [] + [a] == [a];
  }

  /** The values of the first coefficients, one after another. */
  lemma {:induction false} PolySteps(j: nat, w: seq<Element>, h: seq<Element>, k: nat)
    requires k < |w| == |h| && w[0] == h[0]
    requires forall m :: 0 <= m < |w| - 1 ==> Add(Shift(j, h[m]), w[m + 1]) == h[m + 1]
    ensures Poly(j, w[..k + 1]) == h[k]
  {
    if k == 0 {
      PolySingle(j, w[0]);
      assert w[..1] == [w[0]];
    } else {
      PolySteps(j, w, h, k - 1);
      PolyLast(j, w[..k], w[k]);
      assert w[..k + 1] == w[..k] + [w[k]];
    }
  }

  lemma ThreePowers(j: nat, z0: Element, z1: Element, z2: Element, z3: Element)
    requires Shift(j, z0) == z1 && Shift(j, z1) == z2 && Shift(j, z2) == z3
    ensures Shift(3 * j, z0) == z3
  {
    ShiftAdd(j, j, z0);
    ShiftAdd(j, 2 * j, z0);
  }

  /** The coefficients of the sixth power modulo the generator: 29, 22, 20, 21, 29 and 18. */
  const K0 := Element(O, I, O, O, I, I, O, I, I, I)
  const K1 := Element(I, O, I, O, O, I, I, I, O, O)
  const K2 := Element(I, I, O, I, O, I, I, I, O, O)
  const K3 := Element(O, I, O, I, O, I, I, I, O, O)
  const K5 := Element(I, O, O, O, I, I, O, I, O, O)

  lemma Values24(j: nat)
    requires IsRoot(0, j)
    ensures Add(Shift(j, K0), K1) == Element(I, O, I, I, I, I, I, O, O, O)
    ensures Add(Shift(j, Element(I, O, I, I, I, I, I, O, O, O)), K2) == Element(I, O, I, I, I, I, I, O, O, O)
    ensures Add(Shift(j, Element(I, O, I, I, I, I, I, O, O, O)), K3) == Element(O, O, I, I, I, I, I, O, O, O)
    ensures Add(Shift(j, Element(O, O, I, I, I, I, I, O, O, O)), K0) == Element(O, O, I, O, I, O, I, I, O, O)
    ensures Add(Shift(j, Element(O, O, I, O, I, O, I, I, O, O)), K5) == Element(O, I, O, I, I, I, O, I, O, I)
  {
    ShiftRoot(j, 0, K0);
    ShiftRoot(j, 0, Element(I, O, I, I, I, I, I, O, O, O));
    ShiftRoot(j, 0, Element(O, O, I, I, I, I, I, O, O, O));
    ShiftRoot(j, 0, Element(O, O, I, O, I, O, I, I, O, O));
  }

  lemma Powers24(j: nat)
    requires IsRoot(0, j)
    ensures Shift(j, ONE) == Element(O, O, O, O, I, I, I, I, I, I)
    ensures Shift(j, Element(O, O, O, O, I, I, I, I, I, I)) == Element(I, O, I, I, O, O, I, O, O, I)
    ensures Shift(j, Element(I, O, I, I, O, O, I, O, O, I)) == Element(I, O, O, I, I, I, O, I, O, I)
    ensures Shift(j, Element(I, O, O, I, I, I, O, I, O, I)) == Element(I, O, O, I, I, I, O, I, O, O)
    ensures Shift(j, Element(I, O, O, I, I, I, O, I, O, O)) == Element(I, O, O, I, O, O, O, O, O, O)
    ensures Shift(j, Element(I, O, O, I, O, O, O, O, O, O)) == Element(O, I, O, I, I, I, O, I, O, I)
  {
    ShiftRoot(j, 0, ONE);
    ShiftRoot(j, 0, Element(O, O, O, O, I, I, I, I, I, I));
    ShiftRoot(j, 0, Element(I, O, I, I, O, O, I, O, O, I));
    ShiftRoot(j, 0, Element(I, O, O, I, I, I, O, I, O, I));
    ShiftRoot(j, 0, Element(I, O, O, I, I, I, O, I, O, O));
    ShiftRoot(j, 0, Element(I, O, O, I, O, O, O, O, O, O));
  }

  lemma Sixth24(j: nat)
    requires IsRoot(0, j)
    ensures Shift(6 * j, ONE) == Element(O, I, O, I, I, I, O, I, O, I)
  {
    Powers24(j);
    ThreePowers(j, ONE, Element(O, O, O, O, I, I, I, I, I, I), Element(I, O, I, I, O, O, I, O, O, I),
                Element(I, O, O, I, I, I, O, I, O, I));
    ThreePowers(j, Element(I, O, O, I, I, I, O, I, O, I), Element(I, O, O, I, I, I, O, I, O, O),
                Element(I, O, O, I, O, O, O, O, O, O), Element(O, I, O, I, I, I, O, I, O, I));
    ShiftAdd(3 * j, 3 * j, ONE);
  }

  lemma Root24(j: nat)
    requires IsRoot(0, j)
    ensures Poly(j, [K0, K1, K2, K3, K0, K5]) == Shift(6 * j, ONE)
  {
    Values24(j);
    var w := [K0, K1, K2, K3, K0, K5];
    var h := [K0, Element(I, O, I, I, I, I, I, O, O, O), Element(I, O, I, I, I, I, I, O, O, O),
              Element(O, O, I, I, I, I, I, O, O, O), Element(O, O, I, O, I, O, I, I, O, O),
                  Element(O, I, O, I, I, I, O, I, O, I)];
    PolySteps(j, w, h, 5);
    assert w[..6] == w;
    Sixth24(j);
  }

  lemma Values25(j: nat)
    requires IsRoot(1, j)
    ensures Add(Shift(j, K0), K1) == Element(I, O, I, O, I, O, I, I, I, O)
    ensures Add(Shift(j, Element(I, O, I, O, I, O, I, I, I, O)), K2) == Element(I, O, I, I, O, I, O, I, I, I)
    ensures Add(Shift(j, Element(I, O, I, I, O, I, O, I, I, I)), K3) == Element(I, O, O, I, O, I, I, O, O, O)
    ensures Add(Shift(j, Element(I, O, O, I, O, I, I, O, O, O)), K0) == Element(I, I, I, I, I, O, I, I, I, I)
    ensures Add(Shift(j, Element(I, I, I, I, I, O, I, I, I, I)), K5) == Element(O, I, I, O, O, I, O, I, O, O)
  {
    ShiftRoot(j, 1, K0);
    ShiftRoot(j, 1, Element(I, O, I, O, I, O, I, I, I, O));
    ShiftRoot(j, 1, Element(I, O, I, I, O, I, O, I, I, I));
    ShiftRoot(j, 1, Element(I, O, O, I, O, I, I, O, O, O));
    ShiftRoot(j, 1, Element(I, I, I, I, I, O, I, I, I, I));
  }

  lemma Powers25(j: nat)
    requires IsRoot(1, j)
    ensures Shift(j, ONE) == Element(I, I, O, O, O, O, I, I, O, I)
    ensures Shift(j, Element(I, I, O, O, O, O, I, I, O, I)) == Element(O, I, O, O, I, I, I, O, I, I)
    ensures Shift(j, Element(O, I, O, O, I, I, I, O, I, I)) == Element(O, O, I, O, O, O, I, O, I, O)
    ensures Shift(j, Element(O, O, I, O, O, O, I, O, I, O)) == Element(O, I, I, O, I, O, I, I, I, O)
    ensures Shift(j, Element(O, I, I, O, I, O, I, I, I, O)) == Element(O, O, O, O, O, I, O, O, I, O)
    ensures Shift(j, Element(O, O, O, O, O, I, O, O, I, O)) == Element(O, I, I, O, O, I, O, I, O, O)
  {
    ShiftRoot(j, 1, ONE);
    ShiftRoot(j, 1, Element(I, I, O, O, O, O, I, I, O, I));
    ShiftRoot(j, 1, Element(O, I, O, O, I, I, I, O, I, I));
    ShiftRoot(j, 1, Element(O, O, I, O, O, O, I, O, I, O));
    ShiftRoot(j, 1, Element(O, I, I, O, I, O, I, I, I, O));
    ShiftRoot(j, 1, Element(O, O, O, O, O, I, O, O, I, O));
  }

  lemma Sixth25(j: nat)
    requires IsRoot(1, j)
    ensures Shift(6 * j, ONE) == Element(O, I, I, O, O, I, O, I, O, O)
  {
    Powers25(j);
    ThreePowers(j, ONE, Element(I, I, O, O, O, O, I, I, O, I), Element(O, I, O, O, I, I, I, O, I, I),
                Element(O, O, I, O, O, O, I, O, I, O));
    ThreePowers(j, Element(O, O, I, O, O, O, I, O, I, O), Element(O, I, I, O, I, O, I, I, I, O),
                Element(O, O, O, O, O, I, O, O, I, O), Element(O, I, I, O, O, I, O, I, O, O));
    ShiftAdd(3 * j, 3 * j, ONE);
  }

  lemma Root25(j: nat)
    requires IsRoot(1, j)
    ensures Poly(j, [K0, K1, K2, K3, K0, K5]) == Shift(6 * j, ONE)
  {
    Values25(j);
    var w := [K0, K1, K2, K3, K0, K5];
    var h := [K0, Element(I, O, I, O, I, O, I, I, I, O), Element(I, O, I, I, O, I, O, I, I, I),
              Element(I, O, O, I, O, I, I, O, O, O), Element(I, I, I, I, I, O, I, I, I, I),
                  Element(O, I, I, O, O, I, O, I, O, O)];
    PolySteps(j, w, h, 5);
    assert w[..6] == w;
    Sixth25(j);
  }

  lemma Values26(j: nat)
    requires IsRoot(2, j)
    ensures Add(Shift(j, K0), K1) == Element(I, O, I, O, O, O, O, I, O, I)
    ensures Add(Shift(j, Element(I, O, I, O, O, O, O, I, O, I)), K2) == Element(O, I, O, I, O, I, O, I, O, O)
    ensures Add(Shift(j, Element(O, I, O, I, O, I, O, I, O, O)), K3) == Element(I, I, I, O, I, I, O, O, I, O)
    ensures Add(Shift(j, Element(I, I, I, O, I, I, O, O, I, O)), K0) == Element(I, I, O, O, I, O, O, I, I, O)
    ensures Add(Shift(j, Element(I, I, O, O, I, O, O, I, I, O)), K5) == Element(O, O, O, I, I, O, O, I, O, O)
  {
    ShiftRoot(j, 2, K0);
    ShiftRoot(j, 2, Element(I, O, I, O, O, O, O, I, O, I));
    ShiftRoot(j, 2, Element(O, I, O, I, O, I, O, I, O, O));
    ShiftRoot(j, 2, Element(I, I, I, O, I, I, O, O, I, O));
    ShiftRoot(j, 2, Element(I, I, O, O, I, O, O, I, I, O));
  }

  lemma Powers26(j: nat)
    requires IsRoot(2, j)
    ensures Shift(j, ONE) == Element(I, O, I, O, O, I, O, I, O, O)
    ensures Shift(j, Element(I, O, I, O, O, I, O, I, O, O)) == Element(I, O, I, I, O, I, O, I, O, I)
    ensures Shift(j, Element(I, O, I, I, O, I, O, I, O, I)) == Element(O, I, I, O, O, I, I, O, O, O)
    ensures Shift(j, Element(O, I, I, O, O, I, I, O, O, O)) == Element(O, I, O, I, O, I, O, I, I, I)
    ensures Shift(j, Element(O, I, O, I, O, I, O, I, I, I)) == Element(I, O, I, I, I, I, I, O, O, I)
    ensures Shift(j, Element(I, O, I, I, I, I, I, O, O, I)) == Element(O, O, O, I, I, O, O, I, O, O)
  {
    ShiftRoot(j, 2, ONE);
    ShiftRoot(j, 2, Element(I, O, I, O, O, I, O, I, O, O));
    ShiftRoot(j, 2, Element(I, O, I, I, O, I, O, I, O, I));
    ShiftRoot(j, 2, Element(O, I, I, O, O, I, I, O, O, O));
    ShiftRoot(j, 2, Element(O, I, O, I, O, I, O, I, I, I));
    ShiftRoot(j, 2, Element(I, O, I, I, I, I, I, O, O, I));
  }

  lemma Sixth26(j: nat)
    requires IsRoot(2, j)
    ensures Shift(6 * j, ONE) == Element(O, O, O, I, I, O, O, I, O, O)
  {
    Powers26(j);
    ThreePowers(j, ONE, Element(I, O, I, O, O, I, O, I, O, O), Element(I, O, I, I, O, I, O, I, O, I),
                Element(O, I, I, O, O, I, I, O, O, O));
    ThreePowers(j, Element(O, I, I, O, O, I, I, O, O, O), Element(O, I, O, I, O, I, O, I, I, I),
                Element(I, O, I, I, I, I, I, O, O, I), Element(O, O, O, I, I, O, O, I, O, O));
    ShiftAdd(3 * j, 3 * j, ONE);
  }

  lemma Root26(j: nat)
    requires IsRoot(2, j)
    ensures Poly(j, [K0, K1, K2, K3, K0, K5]) == Shift(6 * j, ONE)
  {
    Values26(j);
    var w := [K0, K1, K2, K3, K0, K5];
    var h := [K0, Element(I, O, I, O, O, O, O, I, O, I), Element(O, I, O, I, O, I, O, I, O, O),
              Element(I, I, I, O, I, I, O, O, I, O), Element(I, I, O, O, I, O, O, I, I, O),
                  Element(O, O, O, I, I, O, O, I, O, O)];
    PolySteps(j, w, h, 5);
    assert w[..6] == w;
    Sixth26(j);
  }

  /** The generator vanishes at the 24th, 25th and 26th powers of x. */
  lemma Roots(j: nat, i: nat)
    requires IsRoot(i, j)
    ensures Poly(j, [K0, K1, K2, K3, K0, K5]) == Shift(6 * j, ONE)
  {
    if i == 0 {
      Root24(j);
    } else if i == 1 {
      Root25(j);
    } else {
      Root26(j);
    }
  }

  // ----- the multiples of the generator ---------------------------------------------------------

  /** Twice a symbol, modulo x^5 + x^3 + 1. */
  function DoubleSymbol(s: Symbol): Symbol { [s[4], s[0], s[1], s[2] != s[4], s[3]] }

  /** Times the element that 2 stands for. */
  function Zeta(a: Element): Element { Double(Add(a, Double(Add(a, Double(a))))) }

  lemma EmbedDouble(s: Symbol)
    ensures Embed(DoubleSymbol(s)) == Zeta(Embed(s))
  {
  }

  lemma ZetaSum(a: Element, b: Element)
    ensures Zeta(Add(a, b)) == Add(Zeta(a), Zeta(b))
  {
    var p, q := Add(a, Double(a)), Add(b, Double(b));
    DoubleSum(a, b);
    Exchange(a, b, Double(a), Double(b));
    DoubleSum(p, q);
    Exchange(a, b, Double(p), Double(q));
    DoubleSum(Add(a, Double(p)), Add(b, Double(q)));
  }

  lemma {:induction false} DoubleShift(n: nat, a: Element)
    ensures Double(Shift(n, a)) == Shift(n, Double(a))
  {
    if n == 0 {
    } else {
      DoubleShift(n - 1, a);
    }
  }

  lemma ZetaShift(n: nat, a: Element)
    ensures Zeta(Shift(n, a)) == Shift(n, Zeta(a))
  {
    var p := Add(a, Double(a));
    DoubleShift(n, a);
    ShiftSum(n, a, Double(a));
    DoubleShift(n, p);
    ShiftSum(n, a, Double(p));
    DoubleShift(n, Add(a, Double(p)));
  }

  lemma {:induction false} PolyZeta(j: nat, v: seq<Element>, w: seq<Element>)
    requires |v| == |w| && forall i :: 0 <= i < |v| ==> w[i] == Zeta(v[i])
    ensures Poly(j, w) == Zeta(Poly(j, v))
  {
    if v == [] {
    } else {
      var n := |v| - 1;
      PolyZeta(j, v[..n], w[..n]);
      ZetaStep(j, Poly(j, v[..n]), v[n]);
    }
  }

  lemma ZetaStep(j: nat, p: Element, t: Element)
    ensures Add(Shift(j, Zeta(p)), Zeta(t)) == Zeta(Add(Shift(j, p), t))
  {
    ZetaShift(j, p);
    ZetaSum(Shift(j, p), t);
  }

  lemma GroupOf(n: int, i: nat)
    requires n >= 0 && i < 6
    ensures Group(Constant(n), i) == Bits5(n / Pow2(5 * (5 - i)))
  {
    var q := 5 * (5 - i);
    Pow2Add(q, 1);
    Pow2Add(q, 2);
    Pow2Add(q, 3);
    Pow2Add(q, 4);
    assert Pow2(0) == 1 && Pow2(1) == 2 && Pow2(2) == 4 && Pow2(3) == 8 && Pow2(4) == 16;
    DivDiv(n, Pow2(q), 2);
    DivDiv(n, Pow2(q), 4);
    DivDiv(n, Pow2(q), 8);
    DivDiv(n, Pow2(q), 16);
    forall b | 0 <= b < 5 ensures Group(Constant(n), i)[b] == Bits5(n / Pow2(q))[b] {
      assert Constant(n)[q + b] == Bit(n, q + b);
    }
  }

  lemma Powers()
    ensures Pow2(0) == 1 && Pow2(5) == 32 && Pow2(10) == 1024 && Pow2(15) == 32768
    ensures Pow2(20) == 1048576 && Pow2(25) == 33554432
  {
    assert Pow2(5) == 32;
    Pow2Add(5, 5);
    Pow2Add(10, 5);
    Pow2Add(15, 5);
    Pow2Add(20, 5);
  }

  lemma EvenPart(x: int, k: int, d: int)
    requires d > 0
    ensures (x + 2 * k * d) / d % 2 == x / d % 2
  {
    ModDrop(x, 2 * k, d);
  }

  lemma LowFive(t: int, c: int)
    ensures Bits5(32 * t + c) == Bits5(c)
  {
    EvenPart(c, 16 * t, 1);
    EvenPart(c, 8 * t, 2);
    EvenPart(c, 4 * t, 4);
    EvenPart(c, 2 * t, 8);
    EvenPart(c, t, 16);
  }

  lemma GroupNumber(n: int, i: nat, p: int, t: int, c: int)
    requires n >= 0 && i < 6 && p == Pow2(5 * (5 - i)) && n / p == 32 * t + c
    ensures Group(Constant(n), i) == Bits5(c)
  {
    GroupOf(n, i);
    LowFive(t, c);
  }

  lemma Once()
    ensures Groups(Constant(0x3b6a57b2)) == [Bits5(29), Bits5(22), Bits5(20), Bits5(21), Bits5(29), Bits5(18)]
  {
    Powers();
    GroupNumber(0x3b6a57b2, 0, 33554432, 0, 29);
    GroupNumber(0x3b6a57b2, 1, 1048576, 29, 22);
    GroupNumber(0x3b6a57b2, 2, 32768, 950, 20);
    GroupNumber(0x3b6a57b2, 3, 1024, 30420, 21);
    GroupNumber(0x3b6a57b2, 4, 32, 973461, 29);
    GroupNumber(0x3b6a57b2, 5, 1, 31150781, 18);
  }

  lemma Twice()
    ensures Groups(Constant(0x26508e6d)) == [Bits5(19), Bits5(5), Bits5(1), Bits5(3), Bits5(19), Bits5(13)]
  {
    Powers();
    GroupNumber(0x26508e6d, 0, 33554432, 0, 19);
    GroupNumber(0x26508e6d, 1, 1048576, 19, 5);
    GroupNumber(0x26508e6d, 2, 32768, 613, 1);
    GroupNumber(0x26508e6d, 3, 1024, 19617, 3);
    GroupNumber(0x26508e6d, 4, 32, 627747, 19);
    GroupNumber(0x26508e6d, 5, 1, 20087923, 13);
  }

  lemma FourTimes()
    ensures Groups(Constant(0x1ea119fa)) == [Bits5(15), Bits5(10), Bits5(2), Bits5(6), Bits5(15), Bits5(26)]
  {
    Powers();
    GroupNumber(0x1ea119fa, 0, 33554432, 0, 15);
    GroupNumber(0x1ea119fa, 1, 1048576, 15, 10);
    GroupNumber(0x1ea119fa, 2, 32768, 490, 2);
    GroupNumber(0x1ea119fa, 3, 1024, 15682, 6);
    GroupNumber(0x1ea119fa, 4, 32, 501830, 15);
    GroupNumber(0x1ea119fa, 5, 1, 16058575, 26);
  }

  lemma EightTimes()
    ensures Groups(Constant(0x3d4233dd)) == [Bits5(30), Bits5(20), Bits5(4), Bits5(12), Bits5(30), Bits5(29)]
  {
    Powers();
    GroupNumber(0x3d4233dd, 0, 33554432, 0, 30);
    GroupNumber(0x3d4233dd, 1, 1048576, 30, 20);
    GroupNumber(0x3d4233dd, 2, 32768, 980, 4);
    GroupNumber(0x3d4233dd, 3, 1024, 31364, 12);
    GroupNumber(0x3d4233dd, 4, 32, 1003660, 30);
    GroupNumber(0x3d4233dd, 5, 1, 32117150, 29);
  }

  lemma SixteenTimes()
    ensures Groups(Constant(0x2a1462b3)) == [Bits5(21), Bits5(1), Bits5(8), Bits5(24), Bits5(21), Bits5(19)]
  {
    Powers();
    GroupNumber(0x2a1462b3, 0, 33554432, 0, 21);
    GroupNumber(0x2a1462b3, 1, 1048576, 21, 1);
    GroupNumber(0x2a1462b3, 2, 32768, 673, 8);
    GroupNumber(0x2a1462b3, 3, 1024, 21544, 24);
    GroupNumber(0x2a1462b3, 4, 32, 689432, 21);
    GroupNumber(0x2a1462b3, 5, 1, 22061845, 19);
  }

  /** d is twice c, symbol by symbol. */
  ghost predicate Doubled(c: Register, d: Register) {
    forall i :: 0 <= i < 6 ==> Groups(d)[i] == DoubleSymbol(Groups(c)[i])
  }

  lemma DoubledValue(j: nat, c: Register, d: Register)
    requires Doubled(c, d)
    ensures Value(j, d) == Zeta(Value(j, c))
  {
    var v, w := EmbedAll(Groups(c)), EmbedAll(Groups(d));
    forall i | 0 <= i < 6 ensures w[i] == Zeta(v[i]) { EmbedDouble(Groups(c)[i]); }
    PolyZeta(j, v, w);
  }

  lemma DoubledSix(c: Register, d: Register, a0: Symbol, a1: Symbol, a2: Symbol, a3: Symbol, a4: Symbol, a5: Symbol,
                   b0: Symbol, b1: Symbol, b2: Symbol, b3: Symbol, b4: Symbol, b5: Symbol)
    requires Groups(c) == [a0, a1, a2, a3, a4, a5] && Groups(d) == [b0, b1, b2, b3, b4, b5]
    requires DoubleSymbol(a0) == b0 && DoubleSymbol(a1) == b1 && DoubleSymbol(a2) == b2
    requires DoubleSymbol(a3) == b3 && DoubleSymbol(a4) == b4 && DoubleSymbol(a5) == b5
    ensures Doubled(c, d)
  {
  }

  lemma TwinsOnce()
    ensures DoubleSymbol(Bits5(29)) == Bits5(19) && DoubleSymbol(Bits5(22)) == Bits5(5)
    ensures DoubleSymbol(Bits5(20)) == Bits5(1)
    ensures DoubleSymbol(Bits5(21)) == Bits5(3) && DoubleSymbol(Bits5(18)) == Bits5(13)
  {
  }

  lemma DoubledOnce()
    ensures Doubled(Constant(0x3b6a57b2), Constant(0x26508e6d))
  {
    Once();
    Twice();
    TwinsOnce();
    DoubledSix(Constant(0x3b6a57b2), Constant(0x26508e6d),
               Bits5(29), Bits5(22), Bits5(20), Bits5(21), Bits5(29), Bits5(18),
               Bits5(19), Bits5(5), Bits5(1), Bits5(3), Bits5(19), Bits5(13));
  }

  lemma TwinsTwice()
    ensures DoubleSymbol(Bits5(19)) == Bits5(15) && DoubleSymbol(Bits5(5)) == Bits5(10)
    ensures DoubleSymbol(Bits5(1)) == Bits5(2)
    ensures DoubleSymbol(Bits5(3)) == Bits5(6) && DoubleSymbol(Bits5(13)) == Bits5(26)
  {
  }

  lemma DoubledTwice()
    ensures Doubled(Constant(0x26508e6d), Constant(0x1ea119fa))
  {
    Twice();
    FourTimes();
    TwinsTwice();
    DoubledSix(Constant(0x26508e6d), Constant(0x1ea119fa),
               Bits5(19), Bits5(5), Bits5(1), Bits5(3), Bits5(19), Bits5(13),
               Bits5(15), Bits5(10), Bits5(2), Bits5(6), Bits5(15), Bits5(26));
  }

  lemma TwinsFour()
    ensures DoubleSymbol(Bits5(15)) == Bits5(30) && DoubleSymbol(Bits5(10)) == Bits5(20)
    ensures DoubleSymbol(Bits5(2)) == Bits5(4)
    ensures DoubleSymbol(Bits5(6)) == Bits5(12) && DoubleSymbol(Bits5(26)) == Bits5(29)
  {
  }

  lemma DoubledFour()
    ensures Doubled(Constant(0x1ea119fa), Constant(0x3d4233dd))
  {
    FourTimes();
    EightTimes();
    TwinsFour();
    DoubledSix(Constant(0x1ea119fa), Constant(0x3d4233dd),
               Bits5(15), Bits5(10), Bits5(2), Bits5(6), Bits5(15), Bits5(26),
               Bits5(30), Bits5(20), Bits5(4), Bits5(12), Bits5(30), Bits5(29));
  }

  lemma TwinsEight()
    ensures DoubleSymbol(Bits5(30)) == Bits5(21) && DoubleSymbol(Bits5(20)) == Bits5(1)
    ensures DoubleSymbol(Bits5(4)) == Bits5(8)
    ensures DoubleSymbol(Bits5(12)) == Bits5(24) && DoubleSymbol(Bits5(29)) == Bits5(19)
  {
  }

  lemma DoubledEight()
    ensures Doubled(Constant(0x3d4233dd), Constant(0x2a1462b3))
  {
    EightTimes();
    SixteenTimes();
    TwinsEight();
    DoubledSix(Constant(0x3d4233dd), Constant(0x2a1462b3),
               Bits5(30), Bits5(20), Bits5(4), Bits5(12), Bits5(30), Bits5(29),
               Bits5(21), Bits5(1), Bits5(8), Bits5(24), Bits5(21), Bits5(19));
  }

  lemma FirstValue(j: nat, i: nat)
    requires IsRoot(i, j)
    ensures Value(j, Constant(0x3b6a57b2)) == Shift(6 * j, ONE)
  {
    Once();
    Coefficients();
    assert EmbedAll(Groups(Constant(0x3b6a57b2))) == [K0, K1, K2, K3, K0, K5];
    Roots(j, i);
  }

  lemma Coefficients()
    ensures Embed(Bits5(29)) == K0 && Embed(Bits5(22)) == K1 && Embed(Bits5(20)) == K2
    ensures Embed(Bits5(21)) == K3 && Embed(Bits5(18)) == K5
  {
  }

  // ----- a step of the register in the field ----------------------------------------------------

  const Z1 := Element(O, I, I, I, O, O, O, O, O, O)
  const Z2 := Element(O, O, I, O, I, O, I, O, O, O)
  const Z3 := Element(O, O, O, I, I, O, I, O, I, I)
  const Z4 := Element(I, I, I, I, I, I, O, I, O, O)

  lemma Zetas()
    ensures Zeta(ONE) == Z1 && Zeta(Z1) == Z2 && Zeta(Z2) == Z3 && Zeta(Z3) == Z4
  {
  }

  /** Each multiple of the generator has, at a root, the value of its highest term. */
  lemma MultiplesVanish(i: nat, j: nat)
    requires IsRoot(i, j)
    ensures Value(j, Constant(0x3b6a57b2)) == Shift(6 * j, ONE) && Value(j, Constant(0x26508e6d)) == Shift(6 * j, Z1)
    ensures Value(j, Constant(0x1ea119fa)) == Shift(6 * j, Z2) && Value(j, Constant(0x3d4233dd)) == Shift(6 * j, Z3)
    ensures Value(j, Constant(0x2a1462b3)) == Shift(6 * j, Z4)
  {
    FirstValue(j, i);
    Zetas();
    DoubledOnce();
    NextValue(j, Constant(0x3b6a57b2), Constant(0x26508e6d), ONE);
    DoubledTwice();
    NextValue(j, Constant(0x26508e6d), Constant(0x1ea119fa), Z1);
    DoubledFour();
    NextValue(j, Constant(0x1ea119fa), Constant(0x3d4233dd), Z2);
    DoubledEight();
    NextValue(j, Constant(0x3d4233dd), Constant(0x2a1462b3), Z3);
  }

  lemma NextValue(j: nat, c: Register, d: Register, z: Element)
    requires Doubled(c, d) && Value(j, c) == Shift(6 * j, z)
    ensures Value(j, d) == Shift(6 * j, Zeta(z))
  {
    DoubledValue(j, c, d);
    ZetaShift(6 * j, z);
  }

  /** A symbol is the sum of its bits. */
  function BySum(s: Symbol, e0: Element, e1: Element, e2: Element, e3: Element, e4: Element): Element {
    Add(Add(Add(Add(If(s[0], e0), If(s[1], e1)), If(s[2], e2)), If(s[3], e3)), If(s[4], e4))
  }

  lemma EmbedBySum(s: Symbol)
    ensures BySum(s, ONE, Z1, Z2, Z3, Z4) == Embed(s)
  {
    LowTwo(s[0], s[1]);
    ThirdBit(s[0], s[1], s[2]);
    FourthBit(s[0], s[1], s[2], s[3]);
    FifthBit(s[0], s[1], s[2], s[3], s[4]);
  }

  lemma LowTwo(a: bool, b: bool)
    ensures Add(If(a, ONE), If(b, Z1)) == Element(a, b, b, b, O, O, O, O, O, O)
  {
  }

  lemma ThirdBit(a: bool, b: bool, c: bool)
    ensures Add(Element(a, b, b, b, O, O, O, O, O, O), If(c, Z2)) == Element(a, b, b != c, b, c, O, c, O, O, O)
  {
  }

  lemma FourthBit(a: bool, b: bool, c: bool, d: bool)
    ensures Add(Element(a, b, b != c, b, c, O, c, O, O, O), If(d, Z3))
         == Element(a, b, b != c, b != d, c != d, O, c != d, O, d, d)
  {
  }

  lemma FifthBit(a: bool, b: bool, c: bool, d: bool, e: bool)
    ensures Add(Element(a, b, b != c, b != d, c != d, O, c != d, O, d, d), If(e, Z4))
         == Element(a != e, b != e, (b != c) != e, (b != d) != e, (c != d) != e, e, c != d, e, d, d)
  {
  }

  lemma ShiftIf(n: nat, b: bool, a: Element)
    ensures Shift(n, If(b, a)) == If(b, Shift(n, a))
  {
    ShiftNone(n);
  }

  lemma ShiftBySum(n: nat, s: Symbol, e0: Element, e1: Element, e2: Element, e3: Element, e4: Element)
    ensures Shift(n, BySum(s, e0, e1, e2, e3, e4))
         == BySum(s, Shift(n, e0), Shift(n, e1), Shift(n, e2), Shift(n, e3), Shift(n, e4))
  {
    ShiftIf(n, s[0], e0);
    ShiftIf(n, s[1], e1);
    ShiftIf(n, s[2], e2);
    ShiftIf(n, s[3], e3);
    ShiftIf(n, s[4], e4);
    ShiftFive(n, If(s[0], e0), If(s[1], e1), If(s[2], e2), If(s[3], e3), If(s[4], e4));
  }

  lemma ShiftFive(n: nat, a: Element, b: Element, c: Element, d: Element, e: Element)
    ensures Shift(n, Add(Add(Add(Add(a, b), c), d), e))
         == Add(Add(Add(Add(Shift(n, a), Shift(n, b)), Shift(n, c)), Shift(n, d)), Shift(n, e))
  {
    ShiftSum(n, a, b);
    ShiftSum(n, Add(a, b), c);
    ShiftSum(n, Add(Add(a, b), c), d);
    ShiftSum(n, Add(Add(Add(a, b), c), d), e);
  }

  lemma Chain(v: Element, a: Element, b: Element, c: Element, d: Element, e: Element)
    ensures Add(Add(Add(Add(Add(v, a), b), c), d), e) == Add(v, Add(Add(Add(Add(a, b), c), d), e))
  {
    Associate(v, a, b);
    Associate(v, Add(a, b), c);
    Associate(v, Add(Add(a, b), c), d);
    Associate(v, Add(Add(Add(a, b), c), d), e);
  }

  /** The values of the multiples of the generator that the high symbol selects. */
  lemma SelectedValue(i: nat, j: nat, g: Symbol, e0: Element, e1: Element, e2: Element, e3: Element, e4: Element)
    requires IsRoot(i, j) && e0 == Value(j, Constant(0x3b6a57b2)) && e1 == Value(j, Constant(0x26508e6d))
    requires e2 == Value(j, Constant(0x1ea119fa)) && e3 == Value(j, Constant(0x3d4233dd))
    requires e4 == Value(j, Constant(0x2a1462b3))
    ensures BySum(g, e0, e1, e2, e3, e4) == Shift(6 * j, Embed(g))
  {
    MultiplesVanish(i, j);
    ShiftBySum(6 * j, g, ONE, Z1, Z2, Z3, Z4);
    EmbedBySum(g);
  }

  /** The exclusive ors of a step add the values of what they add. */
  lemma XorsValue(j: nat, c: Register, v: Symbol, e0: Element, e1: Element, e2: Element, e3: Element, e4: Element)
    requires e0 == Value(j, Constant(0x3b6a57b2)) && e1 == Value(j, Constant(0x26508e6d))
    requires e2 == Value(j, Constant(0x1ea119fa)) && e3 == Value(j, Constant(0x3d4233dd))
    requires e4 == Value(j, Constant(0x2a1462b3))
    ensures Value(j, Step(c, v)) == Add(Value(j, Moved(c, v)), BySum(Group(c, 0), e0, e1, e2, e3, e4))
  {
    var m := Moved(c, v);
    var m1 := XorIf(c[25], m, 0x3b6a57b2);
    var m2 := XorIf(c[26], m1, 0x26508e6d);
    var m3 := XorIf(c[27], m2, 0x1ea119fa);
    var m4 := XorIf(c[28], m3, 0x3d4233dd);
    ValueXorIf(j, c[25], m, 0x3b6a57b2);
    ValueXorIf(j, c[26], m1, 0x26508e6d);
    ValueXorIf(j, c[27], m2, 0x1ea119fa);
    ValueXorIf(j, c[28], m3, 0x3d4233dd);
    ValueXorIf(j, c[29], m4, 0x2a1462b3);
    Chain(Value(j, m), If(c[25], e0), If(c[26], e1), If(c[27], e2), If(c[28], e3), If(c[29], e4));
  }

  /** A step adds the value of what was shifted out. */
  lemma StepValue(i: nat, j: nat, c: Register, v: Symbol)
    requires IsRoot(i, j)
    ensures Value(j, Step(c, v)) == Add(Value(j, Moved(c, v)), Shift(6 * j, Embed(Group(c, 0))))
  {
    var e0, e1, e2 := Value(j, Constant(0x3b6a57b2)), Value(j, Constant(0x26508e6d)), Value(j, Constant(0x1ea119fa));
    var e3, e4 := Value(j, Constant(0x3d4233dd)), Value(j, Constant(0x2a1462b3));
    XorsValue(j, c, v, e0, e1, e2, e3, e4);
    SelectedValue(i, j, Group(c, 0), e0, e1, e2, e3, e4);
  }

  lemma MovedValue(j: nat, c: Register, v: Symbol)
    ensures Add(Value(j, Moved(c, v)), Shift(6 * j, Embed(Group(c, 0)))) == Add(Shift(j, Value(j, c)), Embed(v))
  {
    var e, w, u := Embed(Group(c, 0)), EmbedAll(Groups(Moved(c, v))), EmbedAll(Groups(c));
    GroupsMoved(c, v);
    EmbedAppend([Group(c, 0)], Groups(Moved(c, v)));
    EmbedAppend(Groups(c), [v]);
    assert EmbedAll([Group(c, 0)]) == [e] && EmbedAll([v]) == [Embed(v)];
    PolyFirst(j, e, w);
    PolyLast(j, u, Embed(v));
    Commute(Shift(6 * j, e), Poly(j, w));
  }

  lemma EmbedAppend(v: Data, w: Data)
    ensures EmbedAll(v + w) == EmbedAll(v) + EmbedAll(w)
  {
  }

  lemma Commute(a: Element, b: Element)
    ensures Add(a, b) == Add(b, a)
  {
  }

  /** At a root, the register has the value of all symbols so far: it is their remainder by the generator. */
  lemma {:induction false} RunValue(i: nat, j: nat, w: Data)
    requires IsRoot(i, j)
    ensures Value(j, Run(Zero(), w)) == Poly(j, EmbedAll(w))
  {
    if w == [] {
      ZeroValue(j);
    } else {
      var k := |w| - 1;
      var c := Run(Zero(), w[..k]);
      RunValue(i, j, w[..k]);
      StepValue(i, j, c, w[k]);
      MovedValue(j, c, w[k]);
      assert EmbedAll(w)[..k] == EmbedAll(w[..k]);
    }
  }

  lemma ZeroValue(j: nat)
    ensures Value(j, Zero()) == NONE
  {
    var c := Zero();
    forall i | 0 <= i < 6 ensures Embed(Group(c, i)) == NONE { assert Group(c, i) == ZeroSymbol(); }
    PolyZero(j, EmbedAll(Groups(c)));
  }

  lemma {:induction false} PolyZero(j: nat, w: seq<Element>)
    requires forall i :: 0 <= i < |w| ==> w[i] == NONE
    ensures Poly(j, w) == NONE
  {
    if w == [] {
    } else {
      PolyZero(j, w[..|w| - 1]);
      ShiftNone(j);
    }
  }

  // ----- up to three errors ---------------------------------------------------------------------

  /** One coefficient among zeros. */
  function Term(n: nat, p: nat, t: Element): seq<Element> {
    seq(n, i requires 0 <= i < n => if i == p then t else NONE)
  }

  /** The exponent of a position; positions outside get exponents that no other has. */
  function Exponent(n: nat, p: nat): nat { if p < n then n - 1 - p else p }

  lemma {:induction false} TermValue(j: nat, n: nat, p: nat, t: Element)
    requires p >= n ==> t == NONE
    ensures Poly(j, Term(n, p, t)) == Shift(Exponent(n, p) * j, t)
  {
    if p >= n {
      PolyZero(j, Term(n, p, t));
      ShiftNone(Exponent(n, p) * j);
    } else if p == n - 1 {
      LastTerm(j, n, t);
    } else {
      TermValue(j, n - 1, p, t);
      TermStep(j, n, p, t);
      OneMore(Exponent(n - 1, p), j);
      ShiftAdd(j, Exponent(n - 1, p) * j, t);
    }
  }

  lemma OneMore(k: nat, j: nat)
    ensures j + k * j == (k + 1) * j
  {
  }

  lemma LastTerm(j: nat, n: nat, t: Element)
    requires n > 0
    ensures Poly(j, Term(n, n - 1, t)) == t == Shift(0 * j, t)
  {
    PolyZero(j, Term(n, n - 1, t)[..n - 1]);
    ShiftNone(j);
    AddNone(t);
  }

  lemma TermStep(j: nat, n: nat, p: nat, t: Element)
    requires p < n - 1
    ensures Poly(j, Term(n, p, t)) == Shift(j, Poly(j, Term(n - 1, p, t)))
  {
    assert Term(n, p, t)[..n - 1] == Term(n - 1, p, t);
    AddNone(Shift(j, Poly(j, Term(n - 1, p, t))));
  }

  /** Nothing but these three positions, which may lie outside. */
  ghost predicate OnlyAt(w: seq<Element>, p: nat, q: nat, r: nat) {
    p != q && p != r && q != r && forall i :: 0 <= i < |w| && i != p && i != q && i != r ==> w[i] == NONE
  }

  function ItemAt(w: seq<Element>, p: nat): Element { if p < |w| then w[p] else NONE }

  lemma ThreeTerms(j: nat, w: seq<Element>, p: nat, q: nat, r: nat)
    requires OnlyAt(w, p, q, r)
    ensures Poly(j, w) == Add(Add(Shift(Exponent(|w|, p) * j, ItemAt(w, p)), Shift(Exponent(|w|, q) * j, ItemAt(w, q))),
                              Shift(Exponent(|w|, r) * j, ItemAt(w, r)))
  {
    var n := |w|;
    var a, b, c := Term(n, p, ItemAt(w, p)), Term(n, q, ItemAt(w, q)), Term(n, r, ItemAt(w, r));
    assert w == AddAll(AddAll(a, b), c) by {
      forall i | 0 <= i < n ensures w[i] == Add(Add(a[i], b[i]), c[i]) { AddNone(w[i]); }
    }
    PolySum(j, a, b);
    PolySum(j, AddAll(a, b), c);
    TermValue(j, n, p, ItemAt(w, p));
    TermValue(j, n, q, ItemAt(w, q));
    TermValue(j, n, r, ItemAt(w, r));
  }

  lemma AddNone(a: Element)
    ensures Add(a, NONE) == a && Add(NONE, a) == a
  {
  }

  /** The term of a position at successive roots. */
  lemma NextRoot(k: nat, j: nat, t: Element)
    ensures Shift(k * (j + 1), t) == Shift(k, Shift(k * j, t))
  {
    assert k * (j + 1) == k + k * j;
    ShiftAdd(k, k * j, t);
  }

  /** A sum of three terms that vanishes at a root. */
  ghost predicate Vanish(j: nat, x: nat, y: nat, z: nat, a: Element, b: Element, c: Element) {
    Add(Add(Shift(x * j, a), Shift(y * j, b)), Shift(z * j, c)) == NONE
  }

  ghost predicate AtRoots(j: nat, x: nat, y: nat, z: nat, a: Element, b: Element, c: Element) {
    forall k :: j <= k < j + 3 ==> Vanish(k, x, y, z, a, b, c)
  }

  lemma VanishNext(j: nat, x: nat, y: nat, z: nat, a: Element, b: Element, c: Element, u: Element, v: Element,
                   w: Element)
    requires Vanish(j + 1, x, y, z, a, b, c) && u == Shift(x * j, a) && v == Shift(y * j, b) && w == Shift(z * j, c)
    ensures Add(Add(Shift(x, u), Shift(y, v)), Shift(z, w)) == NONE
  {
    NextRoot(x, j, a);
    NextRoot(y, j, b);
    NextRoot(z, j, c);
  }

  lemma VanishTwice(j: nat, x: nat, y: nat, z: nat, a: Element, b: Element, c: Element, u: Element, v: Element,
                    w: Element)
    requires Vanish(j + 2, x, y, z, a, b, c) && u == Shift(x * j, a) && v == Shift(y * j, b) && w == Shift(z * j, c)
    ensures Add(Add(Shift(x, Shift(x, u)), Shift(y, Shift(y, v))), Shift(z, Shift(z, w))) == NONE
  {
    NextRoot(x, j, a);
    NextRoot(y, j, b);
    NextRoot(z, j, c);
    VanishNext(j + 1, x, y, z, a, b, c, Shift(x, u), Shift(y, v), Shift(z, w));
  }

  lemma AllVanish(j: nat, x: nat, y: nat, z: nat, a: Element, b: Element, c: Element, u: Element, v: Element,
                  w: Element)
    requires x < 1023 && y < 1023 && z < 1023 && x != y && y != z && x != z
    requires u == Shift(x * j, a) && v == Shift(y * j, b) && w == Shift(z * j, c)
    requires AtRoots(j, x, y, z, a, b, c)
    ensures u == NONE
  {
    assert Vanish(j, x, y, z, a, b, c);
    VanishNext(j, x, y, z, a, b, c, u, v, w);
    VanishTwice(j, x, y, z, a, b, c, u, v, w);
    Vandermonde(x, y, z, u, v, w);
  }

  /** Three coefficients of a polynomial that vanishes at the three roots are zero. */
  lemma FirstIsZero(j: nat, w: seq<Element>, p: nat, q: nat, r: nat)
    requires OnlyAt(w, p, q, r) && p < 1023 && q < 1023 && r < 1023 && |w| <= 1023
    requires forall k :: j <= k < j + 3 ==> Poly(k, w) == NONE
    ensures ItemAt(w, p) == NONE
  {
    var x, y, z, a, b, c :=
        Exponent(|w|, p), Exponent(|w|, q), Exponent(|w|, r), ItemAt(w, p), ItemAt(w, q), ItemAt(w, r);
    forall k | j <= k < j + 3 ensures Vanish(k, x, y, z, a, b, c) { TermsVanish(k, w, p, q, r); }
    Settle(j, x, y, z, a, b, c);
  }

  lemma TermsVanish(j: nat, w: seq<Element>, p: nat, q: nat, r: nat)
    requires OnlyAt(w, p, q, r) && Poly(j, w) == NONE
    ensures Vanish(j, Exponent(|w|, p), Exponent(|w|, q), Exponent(|w|, r), ItemAt(w, p), ItemAt(w, q), ItemAt(w, r))
  {
    ThreeTerms(j, w, p, q, r);
  }

  lemma Settle(j: nat, x: nat, y: nat, z: nat, a: Element, b: Element, c: Element)
    requires x < 1023 && y < 1023 && z < 1023 && x != y && y != z && x != z
    requires AtRoots(j, x, y, z, a, b, c)
    ensures a == NONE
  {
    AllVanish(j, x, y, z, a, b, c, Shift(x * j, a), Shift(y * j, b), Shift(z * j, c));
    ShiftNone(x * j);
    ShiftInjective(x * j, a, NONE);
  }

  /** Symbols that leave an empty register form a polynomial that vanishes at the three roots. */
  lemma EmptyAtRoots(e: Data) returns (j: nat)
    requires Run(Zero(), e) == Zero()
    ensures forall k :: j <= k < j + 3 ==> Poly(k, EmbedAll(e)) == NONE
  {
    j := RootExponents();
    EmptyVanishes(0, j, e);
    EmptyVanishes(1, j + 1, e);
    EmptyVanishes(2, j + 2, e);
  }

  /** Of 1023 symbols that leave an empty register, up to three nonzero ones are zero too. */
  lemma FewAreZero(e: Data, p: nat, q: nat, r: nat)
    requires |e| <= 1023 && p < |e| && q < 1023 && r < 1023 && p != q && p != r && q != r && Run(Zero(), e) == Zero()
    requires forall i :: 0 <= i < |e| && i != p && i != q && i != r ==> e[i] == ZeroSymbol()
    ensures e[p] == ZeroSymbol()
  {
    var j := EmptyAtRoots(e);
    EmbedZeros(e, p, q, r);
    FirstIsZero(j, EmbedAll(e), p, q, r);
    EmbedNonzero(e[p]);
  }

  lemma EmptyVanishes(i: nat, j: nat, e: Data)
    requires IsRoot(i, j) && Run(Zero(), e) == Zero()
    ensures Poly(j, EmbedAll(e)) == NONE
  {
    RunValue(i, j, e);
    ZeroValue(j);
  }

  lemma EmbedZeros(e: Data, p: nat, q: nat, r: nat)
    requires p != q && p != r && q != r
    requires forall i :: 0 <= i < |e| && i != p && i != q && i != r ==> e[i] == ZeroSymbol()
    ensures OnlyAt(EmbedAll(e), p, q, r)
  {
    assert Embed(ZeroSymbol()) == NONE;
  }

  /** Where two inputs differ. */
  ghost function Differences(a: Data, b: Data): set<nat>
    requires |a| == |b|
  {
    set i: nat | i < |a| && a[i] != b[i]
  }

  /** Up to three wrong symbols within 1023 change the checksum, whatever the length. */
  lemma ThreeErrorsDetected(before: Data, a: Data, b: Data, after: Data)
    requires |a| == |b| <= 1023 && 0 < |Differences(a, b)| <= 3
    ensures Run(Start(), before + a + after) != Run(Start(), before + b + after)
  {
    var e, d := XorData(a, b), Differences(a, b);
    var p, q, r := Positions(d);
    forall i | 0 <= i < |e| ensures e[i] == ZeroSymbol() <==> a[i] == b[i] { SymbolsDiffer(a[i], b[i]); }
    assert a[p] != b[p];
    forall i | 0 <= i < |e| && i != p && i != q && i != r ensures e[i] == ZeroSymbol() { assert i !in d; }
    if Run(Zero(), e) == Zero() { FewAreZero(e, p, q, r); }
    ChangeDetected(before, a, b, after);
  }

  lemma SymbolsDiffer(s: Symbol, t: Symbol)
    ensures XorSymbol(s, t) == ZeroSymbol() <==> s == t
  {
    if XorSymbol(s, t) == ZeroSymbol() {
      forall k | 0 <= k < 5 ensures s[k] == t[k] { assert !XorSymbol(s, t)[k]; }
    }
  }

  /** Verification fails after up to three of at most 1023 symbols of what verified were changed. */
  lemma ThreeErrorsRejected(hrp: string, values: Data, wrong: Data)
    requires |values| == |wrong| <= 1023 && 0 < |Differences(values, wrong)| <= 3 && Verifies(hrp, values)
    ensures !Verifies(hrp, wrong)
  {
    var prefix := ExpandHRP(hrp);
    ThreeErrorsDetected(prefix, values, wrong, []);
    assert prefix + values + [] == prefix + values && prefix + wrong + [] == prefix + wrong;
  }

  /** Three positions that include all of up to three. */
  lemma Positions(d: set<nat>) returns (p: nat, q: nat, r: nat)
    requires 0 < |d| <= 3 && forall i :: i in d ==> i < 1023
    ensures p in d && d <= {p, q, r} && p != q && p != r && q != r && q < 1023 && r < 1023
  {
    p :| p in d;
    var d1 := d - {p};
    if d1 == {} {
      q := if p == 0 then 1 else 0;
      r := if p == 2 then 1 else 2;
    } else {
      q :| q in d1;
      var d2 := d1 - {q};
      if d2 == {} {
        r := if p != 0 && q != 0 then 0 else if p != 1 && q != 1 then 1 else 2;
      } else {
        r :| r in d2;
        var d3 := d2 - {r};
        assert |d3| == 0;
      }
    }
  }
}
