/** The compact target codec of arith_uint256.cpp and the block proof of chain.cpp. */
module CompactTarget {
  import opened Arithmetic
  import opened Limbs
  import opened ArithUint256

  const WIDTH := 8
  const SIGN_BIT := 0x80_0000
  const SIZE_UNIT := 0x100_0000

  type Compact = x: int | 0 <= x < TWO_32

  // ----- the format -----------------------------------------------------------------------------

  function Size(c: Compact): nat { c / SIZE_UNIT }

  function Mantissa(c: Compact): nat { c % SIGN_BIT }

  predicate Sign(c: Compact) { (c / SIGN_BIT) % 2 == 1 }

  /** 256^k. */
  function Power256(k: nat): (p: nat)
    ensures p > 0
  {
    if k == 0 then 1 else 256 * Power256(k - 1)
  }

  lemma {:induction false} Power256IsPow2(k: nat)
    ensures Power256(k) == Pow2(8 * k)
  {
    if k == 0 {
    } else {
      Power256IsPow2(k - 1);
      Pow2Add(8, 8 * (k - 1));
      assert Pow2(8) == 256;
    }
  }

  /** One unit in the last place of the mantissa. */
  function Unit(c: Compact): nat { if Size(c) <= 3 then 1 else Power256(Size(c) - 3) }

  /** The whole number that a compact value stands for, without a bound. */
  function Decoded(c: Compact): int {
    if Size(c) <= 3 then Mantissa(c) / Power256(3 - Size(c)) else Mantissa(c) * Power256(Size(c) - 3)
  }

  /** The word that SetCompactBase256 tests: the mantissa, after the right shift of small sizes. */
  function Word(c: Compact): int { if Size(c) <= 3 then Mantissa(c) / Power256(3 - Size(c)) else Mantissa(c) }

  /** The overflow test for numbers of n bytes; n is 32. */
  predicate Overflows(c: Compact, n: nat) {
    Word(c) != 0 && (Size(c) > n + 2 || (Word(c) > 0xff && Size(c) > n + 1) || (Word(c) > 0xffff && Size(c) > n))
  }

  lemma {:induction false} Power256Monotone(a: nat, b: nat)
    requires a <= b
    ensures Power256(a) <= Power256(b)
  {
    if a == b {
    } else {
      Power256Monotone(a, b - 1);
    }
  }

  /** The overflow test says exactly whether the number does not fit. */
  lemma OverflowExact(c: Compact, n: nat)
    requires n >= 3
    ensures Overflows(c, n) <==> Decoded(c) >= Power256(n)
  {
    var e, m := Size(c), Mantissa(c);
    if e <= 3 {
      SmallFits(m, 3 - e, n);
    } else if m == 0 {
    } else if e > n + 2 {
      Power256Monotone(n, e - 3);
      MulMonotone(1, m, Power256(e - 3));
    } else if e <= n {
      FitsBelow(m, e, n);
    } else if e == n + 1 {
      BoundaryFits(m, Power256(n - 2), 0x1_0000);
    } else {
      BoundaryFits(m, Power256(n - 1), 0x100);
    }
  }

  lemma SmallFits(m: nat, k: nat, n: nat)
    requires m < SIGN_BIT && n >= 3
    ensures 0 <= m / Power256(k) < Power256(n)
  {
    Power256Monotone(3, n);
    QuotientAtMost(m, Power256(k));
  }

  lemma QuotientAtMost(m: nat, d: nat)
    requires d > 0
    ensures 0 <= m / d <= m
  {
    MulMonotone(1, d, m + 1);
    QuotientBelow(m, d, m + 1);
  }

  lemma FitsBelow(m: nat, e: nat, n: nat)
    requires m < SIGN_BIT && 3 < e <= n
    ensures m * Power256(e - 3) < Power256(n)
  {
    Power256Monotone(e - 3, n - 3);
    assert Power256(n) == 256 * Power256(n - 1) == 256 * (256 * Power256(n - 2))
        == 256 * (256 * (256 * Power256(n - 3)));
    MulMonotone(Power256(e - 3), Power256(n - 3), m);
    MulMonotone(m, SIGN_BIT, Power256(n - 3));
  }

  lemma BoundaryFits(m: nat, p: nat, k: nat)
    requires p > 0
    ensures m * p >= k * p <==> m >= k
  {
    if m >= k { MulMonotone(k, m, p); } else { MulMonotone(m + 1, k, p); MulAdd(m, 1, p); }
  }

  // ----- encoding -------------------------------------------------------------------------------

  function ByteLength(x: nat): nat { if x == 0 then 0 else 1 + ByteLength(x / 256) }

  lemma {:induction false} ByteLengthBounds(x: nat)
    ensures x < Power256(ByteLength(x)) && (x > 0 ==> Power256(ByteLength(x) - 1) <= x)
  {
    if x == 0 {
    } else {
      ByteLengthBounds(x / 256);
    }
  }

  lemma ByteLengthUnique(x: nat, n: nat)
    requires n > 0 && Power256(n - 1) <= x < Power256(n)
    ensures ByteLength(x) == n
  {
    var l := ByteLength(x);
    ByteLengthBounds(x);
    if l < n { Power256Monotone(l, n - 1); }
    if l > n { Power256Monotone(n, l - 1); }
  }

  /** The three leading bytes, which may be one too many for the mantissa. */
  function Leading(x: nat): int {
    var n := ByteLength(x);
    if n <= 3 then x * Power256(3 - n) else x / Power256(n - 3)
  }

  lemma LeadingBounds(x: nat)
    ensures 0 <= Leading(x) < SIZE_UNIT && (x > 0 ==> Leading(x) >= 0x1_0000)
    ensures var n := ByteLength(x); n > 3 ==>
      Leading(x) * Power256(n - 3) <= x < Leading(x) * Power256(n - 3) + Power256(n - 3)
  {
    var n := ByteLength(x);
    ByteLengthBounds(x);
    if n > 3 {
      LeadingLarge(x, Power256(n - 3)) by {
        assert Power256(n) == 256 * Power256(n - 1) && Power256(n - 1) == 256 * Power256(n - 2)
            && Power256(n - 2) == 256 * Power256(n - 3);
      }
    } else {
      LeadingSmall(x, n);
    }
  }

  lemma LeadingLarge(x: nat, u: nat)
    requires u > 0 && 0x1_0000 * u <= x < SIZE_UNIT * u
    ensures 0x1_0000 <= x / u < SIZE_UNIT && (x / u) * u <= x < (x / u) * u + u
  {
    QuotientBelow(x, u, SIZE_UNIT);
    QuotientAtLeast(x, u, 0x1_0000);
    DivMod(x, u);
  }

  lemma LeadingSmall(x: nat, n: nat)
    requires n <= 3 && x < Power256(n) && (x > 0 ==> n > 0 && Power256(n - 1) <= x)
    ensures 0 <= x * Power256(3 - n) < SIZE_UNIT && (x > 0 ==> x * Power256(3 - n) >= 0x1_0000)
  {
    assert Power256(0) == 1 && Power256(1) == 256 && Power256(2) == 0x1_0000 && Power256(3) == SIZE_UNIT;
  }

  lemma QuotientAtLeast(x: int, d: int, k: int)
    requires d > 0 && x >= k * d
    ensures x / d >= k
  {
    var q := x / d;
    assert x == q * d + x % d;
    if q < k {
      MulMonotone(q + 1, k, d);
      MulAdd(q, 1, d);
      assert false;
    }
  }

  function Pack(size: nat, mantissa: nat, negative: bool): Compact
    requires size < 256 && mantissa < SIGN_BIT
  {
    size * SIZE_UNIT + mantissa + (if negative && mantissa != 0 then SIGN_BIT else 0)
  }

  lemma PackParts(size: nat, mantissa: nat, negative: bool)
    requires size < 256 && mantissa < SIGN_BIT
    ensures var c := Pack(size, mantissa, negative);
      Size(c) == size && Mantissa(c) == mantissa && (Sign(c) <==> negative && mantissa != 0)
  {
  }

  /** GetCompactBase256: the leading bytes, or one fewer where the sign bit is in the way. */
  function Truncated(x: nat, negative: bool): Compact
    requires ByteLength(x) < 255
  {
    LeadingBounds(x);
    if Leading(x) >= SIGN_BIT then Pack(ByteLength(x) + 1, Leading(x) / 256, negative)
    else Pack(ByteLength(x), Leading(x), negative)
  }

  /** Rounds w / 2^k to nearest, halves up, as far as the largest value allows. */
  function RoundedBits(t: nat, largest: nat): nat {
    if (t / 8) % 2 == 1 && t / 16 < largest then t / 16 + 1 else t / 16
  }

  function RoundedLeading(x: nat): int {
    var n := ByteLength(x);
    if n <= 3 then x * Power256(3 - n)
    else
      QuotientAtMost(x, Pow2(8 * (n - 3) - 4));
      RoundedBits(x / Pow2(8 * (n - 3) - 4), 0xff_ffff)
  }

  lemma SixteenthShift(n: nat)
    requires n > 3
    ensures Power256(n - 3) == 16 * Pow2(8 * (n - 3) - 4)
  {
    Power256IsPow2(n - 3);
    Pow2Add(4, 8 * (n - 3) - 4);
    assert Pow2(4) == 16;
  }

  /** GetCompactRounded: rounded to the leading bytes, and rounded again where the sign bit is in the way. */
  function Rounded(x: nat, negative: bool): Compact
    requires ByteLength(x) < 255
  {
    RoundedBounds(x);
    if RoundedLeading(x) >= SIGN_BIT then Pack(ByteLength(x) + 1, RoundedBits(RoundedLeading(x) / 16, 0xffff), negative)
    else Pack(ByteLength(x), RoundedLeading(x), negative)
  }

  /** The rounded leading bytes: half a unit off at most, unless saturated. */
  lemma RoundedBounds(x: nat)
    ensures 0 <= RoundedLeading(x) < SIZE_UNIT && (x > 0 ==> RoundedLeading(x) >= 0x1_0000)
    ensures var n := ByteLength(x); n > 3 ==> Near(x, RoundedLeading(x), Power256(n - 3))
  {
    var n := ByteLength(x);
    ByteLengthBounds(x);
    if n > 3 {
      SixteenthShift(n);
      var h := Pow2(8 * (n - 3) - 4);
      assert 0x10_0000 * h <= x < 0x1000_0000 * h by {
        assert Power256(n) == 256 * Power256(n - 1) && Power256(n - 1) == 256 * Power256(n - 2)
            && Power256(n - 2) == 256 * Power256(n - 3);
      }
      QuotientBelow(x, h, 0x1000_0000);
      QuotientAtLeast(x, h, 0x10_0000);
      DivMod(x, h);
      RoundedNear(x, x / h, h);
    } else {
      LeadingSmall(x, n);
    }
  }

  /** w units are at most half a unit above x, and less than one unit below it. */
  predicate Near(x: int, w: int, u: int) { 2 * (w * u) - u <= 2 * x && x < w * u + u }

  lemma RoundedNear(x: nat, t: nat, h: nat)
    requires h > 0 && t * h <= x < t * h + h && t < 0x1000_0000
    ensures Near(x, RoundedBits(t, 0xff_ffff), 16 * h)
  {
    var w, r, u := t / 16, t % 16, 16 * h;
    MulAdd(16 * w, r, h);
    MulAssoc(w, 16, h);
    assert t * h == w * u + r * h;
    MulMonotone(r, 15, h);
    if r >= 8 { MulMonotone(8, r, h); } else { MulNonNegative(r, h); }
    MulAdd(w, 1, u);
  }

  // ----- what encoding loses --------------------------------------------------------------------

  /** The form the encoders produce: a nonzero mantissa with one of its two top bytes in use, exact for
      numbers of fewer than three bytes. */
  predicate Normal(c: Compact) {
    Mantissa(c) >= 0x8000 && (Size(c) < 3 ==> Mantissa(c) % Power256(3 - Size(c)) == 0)
  }

  /** The number behind size and mantissa, for mantissas that are whole. */
  lemma DecodedWhole(c: Compact, x: nat)
    requires Size(c) <= 3 && Mantissa(c) == x * Power256(3 - Size(c))
    ensures Decoded(c) == x && Unit(c) == 1 && Mantissa(c) % Power256(3 - Size(c)) == 0
  {
    MultipleMod(x, Power256(3 - Size(c)));
  }

  /** GetCompactBase256 rounds down, by less than one unit of the last place. */
  lemma TruncatedFaithful(x: nat, negative: bool)
    requires ByteLength(x) < 255
    ensures var c := Truncated(x, negative);
      && Decoded(c) <= x < Decoded(c) + Unit(c)
      && (Sign(c) <==> negative && x != 0) && (x != 0 ==> Normal(c)) && Size(c) <= ByteLength(x) + 1
  {
    LeadingBounds(x);
    if Leading(x) >= SIGN_BIT {
      TruncatedAgain(x, negative);
    } else {
      PackParts(ByteLength(x), Leading(x), negative);
      if ByteLength(x) <= 3 { DecodedWhole(Truncated(x, negative), x); }
      assert x == 0 ==> Leading(x) == 0;
    }
  }

  lemma TruncatedAgain(x: nat, negative: bool)
    requires ByteLength(x) < 255 && Leading(x) >= SIGN_BIT
    ensures var c := Truncated(x, negative);
      && Decoded(c) <= x < Decoded(c) + Unit(c)
      && (Sign(c) <==> negative && x != 0) && (x != 0 ==> Normal(c)) && Size(c) <= ByteLength(x) + 1
  {
    var n, w, c := ByteLength(x), Leading(x), Truncated(x, negative);
    LeadingBounds(x);
    PackParts(n + 1, w / 256, negative);
    if n < 3 {
      DropByte(x, n);
      DecodedWhole(c, x);
    } else {
      assert n == 3 ==> w == x && Power256(0) == 1;
      TruncatedByte(x, w, Power256(n - 3));
    }
  }

  lemma DropByte(x: nat, n: nat)
    requires n < 3
    ensures (x * Power256(3 - n)) / 256 == x * Power256(2 - n) && (x * Power256(3 - n)) % 256 == 0
  {
    MulAssoc(x, Power256(2 - n), 256);
    MultipleMod(x * Power256(2 - n), 256);
  }

  lemma TruncatedByte(x: nat, w: nat, u: nat)
    requires u > 0 && w * u <= x < w * u + u
    ensures (w / 256) * (256 * u) <= x < (w / 256) * (256 * u) + 256 * u
  {
    var m, r := w / 256, w % 256;
    MulAssoc(m, 256, u);
    MulAdd(m * 256, r, u);
    MulMonotone(r, 255, u);
    MulNonNegative(r, u);
  }

  /** GetCompactRounded is off by less than one unit of the last place, double rounding and saturation
      included. */
  lemma RoundedFaithful(x: nat, negative: bool)
    requires ByteLength(x) < 255
    ensures var c := Rounded(x, negative);
      && Decoded(c) - Unit(c) < x < Decoded(c) + Unit(c)
      && (Sign(c) <==> negative && x != 0) && (x != 0 ==> Normal(c)) && Size(c) <= ByteLength(x) + 1
  {
    RoundedBounds(x);
    if RoundedLeading(x) >= SIGN_BIT {
      RoundedAgain(x, negative);
    } else {
      PackParts(ByteLength(x), RoundedLeading(x), negative);
      if ByteLength(x) <= 3 { DecodedWhole(Rounded(x, negative), x); }
      assert x == 0 ==> RoundedLeading(x) == 0;
    }
  }

  lemma RoundedAgain(x: nat, negative: bool)
    requires ByteLength(x) < 255 && RoundedLeading(x) >= SIGN_BIT
    ensures var c := Rounded(x, negative);
      && Decoded(c) - Unit(c) < x < Decoded(c) + Unit(c)
      && (Sign(c) <==> negative && x != 0) && (x != 0 ==> Normal(c)) && Size(c) <= ByteLength(x) + 1
  {
    var n, w, c := ByteLength(x), RoundedLeading(x), Rounded(x, negative);
    RoundedBounds(x);
    ByteBits(w);
    PackParts(n + 1, RoundedBits(w / 16, 0xffff), negative);
    if n < 3 {
      DropByte(x, n);
      DecodedWhole(c, x);
    } else {
      RoundedUnits(x, n, w);
    }
  }

  lemma RoundedUnits(x: nat, n: nat, w: nat)
    requires n == ByteLength(x) >= 3 && w == RoundedLeading(x) && SIGN_BIT <= w < SIZE_UNIT
    requires n > 3 ==> Near(x, w, Power256(n - 3))
    ensures var m, u := RoundedBits(w / 16, 0xffff), Power256(n - 2); m * u - u < x < m * u + u
  {
    assert Power256(n - 2) == 256 * Power256(n - 3);
    if n == 3 { assert w == x && Power256(0) == 1 && Near(x, w, 1); }
    RoundedByte(x, w, Power256(n - 3));
  }

  /** Rounding leading bytes that are near x to one byte fewer. */
  lemma RoundedByte(x: nat, w: nat, u: nat)
    requires u > 0 && Near(x, w, u) && SIGN_BIT <= w < SIZE_UNIT
    ensures var m := RoundedBits(w / 16, 0xffff); m * (256 * u) - 256 * u < x < m * (256 * u) + 256 * u
  {
    var m, r := w / 256, w % 256;
    ByteBits(w);
    MulAssoc(m, 256, u);
    MulAdd(m * 256, r, u);
    MulMonotone(r, 255, u);
    MulNonNegative(r, u);
    assert w * u == m * (256 * u) + r * u;
    if r >= 128 {
      MulMonotone(128, r, u);
      MulAdd(m, 1, 256 * u);
    }
  }

  /** The bit that decides the second rounding is the top bit of the byte dropped. */
  lemma ByteBits(w: nat)
    ensures RoundedBits(w / 16, 0xffff) == if w % 256 >= 128 && w / 256 < 0xffff then w / 256 + 1 else w / 256
  {
    DivDiv(w, 16, 16);
    DivDiv(w, 16, 8);
    assert (w / 128) % 2 == 1 <==> w % 256 >= 128;
  }

  /** What the encoders produce for a number of n bytes does not overflow n bytes. */
  lemma EncodersFit(x: nat, negative: bool, n: nat)
    requires ByteLength(x) <= n && 3 <= n < 255
    ensures !Overflows(Truncated(x, negative), n) && !Overflows(Rounded(x, negative), n)
  {
    LeadingBounds(x);
    RoundedBounds(x);
    var l, w, r := ByteLength(x), Leading(x), RoundedLeading(x);
    ByteBits(r);
    if w >= SIGN_BIT { PackParts(l + 1, w / 256, negative); } else { PackParts(l, w, negative); }
    if r >= SIGN_BIT { PackParts(l + 1, RoundedBits(r / 16, 0xffff), negative); } else { PackParts(l, r, negative); }
    SmallWordFits(Truncated(x, negative), n);
    SmallWordFits(Rounded(x, negative), n);
  }

  lemma SmallWordFits(c: Compact, n: nat)
    requires n >= 3 && Size(c) <= n + 1 && (Size(c) == n + 1 ==> Mantissa(c) <= 0xffff)
    ensures !Overflows(c, n)
  {
  }

  // ----- encoding again -------------------------------------------------------------------------

  /** Decoding a normal value and taking the leading bytes gives its mantissa back, exactly. */
  lemma LeadingOfNormal(c: Compact)
    requires Normal(c)
    ensures var x := Decoded(c);
      && x > 0 && Size(c) >= 1
      && ByteLength(x) == (if Mantissa(c) >= 0x1_0000 then Size(c) else Size(c) - 1)
      && Leading(x) == (if Mantissa(c) >= 0x1_0000 then Mantissa(c) else 256 * Mantissa(c))
      && (ByteLength(x) > 3 ==> x == Leading(x) * Power256(ByteLength(x) - 3))
  {
    var e, m := Size(c), Mantissa(c);
    assert Power256(0) == 1 && Power256(1) == 256 && Power256(2) == 0x1_0000 && Power256(3) == SIZE_UNIT;
    if e <= 3 {
      SmallNormal(c);
    } else {
      LargeNormal(m, e);
    }
  }

  lemma SmallNormal(c: Compact)
    requires Normal(c) && Size(c) <= 3
    ensures var x := Decoded(c);
      && x > 0 && Size(c) >= 1
      && ByteLength(x) == (if Mantissa(c) >= 0x1_0000 then Size(c) else Size(c) - 1)
      && Leading(x) == (if Mantissa(c) >= 0x1_0000 then Mantissa(c) else 256 * Mantissa(c))
  {
    var e, m, x := Size(c), Mantissa(c), Decoded(c);
    assert Power256(0) == 1 && Power256(1) == 256 && Power256(2) == 0x1_0000 && Power256(3) == SIZE_UNIT;
    assert e >= 1;
    assert x * Power256(3 - e) == m;
    ByteLengthUnique(x, if m >= 0x1_0000 then e else e - 1);
  }

  lemma LargeNormal(m: nat, e: nat)
    requires 0x8000 <= m < SIGN_BIT && e > 3
    ensures var x := m * Power256(e - 3);
      && x > 0 && ByteLength(x) == (if m >= 0x1_0000 then e else e - 1)
      && Leading(x) == (if m >= 0x1_0000 then m else 256 * m)
      && (ByteLength(x) > 3 ==> x == Leading(x) * Power256(ByteLength(x) - 3))
  {
    var u := Power256(e - 3);
    var x := m * u;
    assert Power256(e) == 256 * Power256(e - 1) && Power256(e - 1) == 256 * Power256(e - 2)
        && Power256(e - 2) == 256 * u;
    if m >= 0x1_0000 {
      MulMonotone(0x1_0000, m, u);
      MulMonotone(m + 1, SIZE_UNIT, u);
      MulAdd(m, 1, u);
      ByteLengthUnique(x, e);
      MultipleMod(m, u);
    } else {
      MulMonotone(0x8000, m, u);
      MulMonotone(m + 1, 0x1_0000, u);
      MulAdd(m, 1, u);
      ByteLengthUnique(x, e - 1);
      MulAssoc(m, 256, Power256(e - 4));
      MultipleMod(m * 256, Power256(e - 4));
    }
  }

  lemma PartsMakeIt(c: Compact)
    requires Mantissa(c) != 0
    ensures Size(c) < 256 && c == Pack(Size(c), Mantissa(c), Sign(c))
  {
    assert c / SIGN_BIT == 2 * Size(c) + (c / SIGN_BIT) % 2;
  }

  /** Both encoders return a normal value that they are given the number and the sign of. */
  lemma NormalIsStable(c: Compact)
    requires Normal(c) && Size(c) < 255
    ensures Decoded(c) >= 0 && ByteLength(Decoded(c)) < 255
    ensures Truncated(Decoded(c), Sign(c)) == c && Rounded(Decoded(c), Sign(c)) == c
  {
    var x, m := Decoded(c), Mantissa(c);
    var n := ByteLength(x);
    LeadingOfNormal(c);
    PartsMakeIt(c);
    LeadingBounds(x);
    RoundedBounds(x);
    assert RoundedLeading(x) == Leading(x) by {
      if n > 3 { RoundedExact(x, n, Leading(x)); }
    }
    if m < 0x1_0000 { ByteBits(256 * m); }
  }

  /** Decoding and encoding gives back exactly the normal values and zero, negative ones included. */
  lemma EncodingStable(c: Compact)
    requires Size(c) < 255
    ensures Decoded(c) >= 0 && ByteLength(Decoded(c)) < 255
    ensures Truncated(Decoded(c), Sign(c)) == c <==> Normal(c) || c == 0
    ensures Rounded(Decoded(c), Sign(c)) == c <==> Normal(c) || c == 0
  {
    DecodedNatural(c);
    DecodedLength(c);
    if Normal(c) {
      NormalIsStable(c);
    } else if Decoded(c) > 0 {
      TruncatedFaithful(Decoded(c), Sign(c));
      RoundedFaithful(Decoded(c), Sign(c));
    }
  }

  lemma DecodedLength(c: Compact)
    requires Size(c) < 255
    ensures Decoded(c) >= 0 && ByteLength(Decoded(c)) < 255
  {
    var x := Decoded(c);
    DecodedNatural(c);
    ByteLengthBounds(x);
    if ByteLength(x) > 254 {
      Power256Monotone(254, ByteLength(x) - 1);
      if Size(c) <= 3 { SmallFits(Mantissa(c), 3 - Size(c), 254); } else { FitsBelow(Mantissa(c), Size(c), 254); }
    }
  }

  lemma RoundedExact(x: nat, n: nat, w: nat)
    requires n == ByteLength(x) > 3 && x == w * Power256(n - 3)
    ensures RoundedLeading(x) == w
  {
    SixteenthShift(n);
    var h := Pow2(8 * (n - 3) - 4);
    MulAssoc(w, 16, h);
    MultipleMod(w * 16, h);
    assert (w * 16 / 8) % 2 == 0;
  }

  // ----- the operations -------------------------------------------------------------------------

  lemma WeightIsPower256(w: nat)
    ensures Weight(w) == Power256(4 * w)
  {
    WeightIsPow2(w);
    Power256IsPow2(4 * w);
  }

  method SetCompactBase256(x: BaseUint, nCompact: Compact) returns (negative: bool, overflow: bool)
    requires x.pn.Length == WIDTH
    modifies x.pn
    ensures x.Number() == Decoded(nCompact) % x.Modulus()
    ensures negative <==> Word(nCompact) != 0 && Sign(nCompact)
    ensures overflow <==> Decoded(nCompact) >= x.Modulus()
  {
    var nSize, nWord := nCompact / SIZE_UNIT, nCompact % SIGN_BIT;
    if nSize <= 3 {
      Power256IsPow2(3 - nSize);
      QuotientAtMost(nWord, Pow2(8 * (3 - nSize)));
      nWord := nWord / Pow2(8 * (3 - nSize));
      x.Set(nWord);
      ValueBound(x.pn[..]);
      DivUnique(nWord, x.Modulus(), 0, nWord);
    } else {
      Power256IsPow2(nSize - 3);
      x.Set(nWord);
      x.ShiftLeft(8 * (nSize - 3));
    }
    negative := nWord != 0 && (nCompact / SIGN_BIT) % 2 == 1;
    overflow := nWord != 0 && (nSize > 34 || (nWord > 0xff && nSize > 33) || (nWord > 0xffff && nSize > 32));
    WeightIsPower256(x.pn.Length);
    OverflowExact(nCompact, 4 * x.pn.Length);
  }

  /** The byte count that the encoders compute from the bit length. */
  lemma ByteLengthOfBits(x: nat, b: nat)
    requires IsBitLength(x, b)
    ensures ByteLength(x) == (b + 7) / 8
  {
    var n := (b + 7) / 8;
    Power256IsPow2(n);
    Pow2Monotone(b, 8 * n);
    if n > 0 {
      Power256IsPow2(n - 1);
      Pow2Monotone(8 * (n - 1), b - 1);
      ByteLengthUnique(x, n);
    } else {
      assert Pow2(0) == 1;
    }
  }

  method CountBytes(x: BaseUint) returns (nSize: nat)
    ensures nSize == ByteLength(x.Number()) && nSize <= 4 * x.pn.Length
  {
    var bits := x.BitLength();
    ByteLengthOfBits(x.Number(), bits);
    nSize := (bits + 7) / 8;
  }

  /** The low 32 bits of a number shifted right. */
  method ShiftedWord(x: BaseUint, shift: nat) returns (word: nat)
    requires x.pn.Length == WIDTH && x.Number() / Pow2(shift) < TWO_32
    ensures word == x.Number() / Pow2(shift)
  {
    var bn := new BaseUint.Copy(x);
    bn.ShiftRight(shift);
    var low := bn.GetLow64();
    assert Weight(2) == TWO_32 * TWO_32;
    DivUnique(bn.Number(), Weight(2), 0, bn.Number());
    word := low % TWO_32;
  }

  /** The leading bytes of a number of at most three, shifted up. */
  method SmallWord(x: BaseUint, nSize: nat) returns (word: nat)
    requires x.pn.Length == WIDTH && nSize == ByteLength(x.Number()) <= 3
    ensures word == x.Number() * Power256(3 - nSize)
  {
    var low := x.GetLow64();
    LeadingBounds(x.Number());
    ByteLengthBounds(x.Number());
    Power256Monotone(nSize, 3);
    assert Power256(3) == SIZE_UNIT && Weight(2) == TWO_32 * TWO_32;
    DivUnique(x.Number(), Weight(2), 0, x.Number());
    Power256IsPow2(3 - nSize);
    word := low * Pow2(8 * (3 - nSize)) % TWO_32;
  }

  lemma JoinParts(size: nat, word: nat)
    requires size < 256 && word < SIGN_BIT
    ensures var c := BitOr(word, size * SIZE_UNIT);
      c == word + size * SIZE_UNIT && c % SIGN_BIT == word && (c / SIGN_BIT) % 2 == 0
  {
    MultipleMod(size, SIZE_UNIT);
    assert Pow2(8) == 256;
    Pow2Add(8, 8);
    Pow2Add(16, 8);
    BitOrAdds(word, size * SIZE_UNIT, 24);
    DivUnique(word + size * SIZE_UNIT, SIGN_BIT, 2 * size, word);
  }

  /** The final steps of both encoders. */
  method Assemble(nSize: nat, nWord: nat, negative: bool) returns (nCompact: Compact)
    requires nSize < 256 && nWord < SIGN_BIT
    ensures nCompact == Pack(nSize, nWord, negative)
  {
    JoinParts(nSize, nWord);
    var c := BitOr(nWord, nSize * SIZE_UNIT);
    nCompact := c;
    if negative && nCompact % SIGN_BIT != 0 && (nCompact / SIGN_BIT) % 2 == 0 {
      nCompact := nCompact + SIGN_BIT;
    }
  }

  method GetCompactBase256(x: BaseUint, negative: bool) returns (nCompact: Compact)
    requires x.pn.Length == WIDTH
    ensures ByteLength(x.Number()) <= 32 && nCompact == Truncated(x.Number(), negative)
  {
    var nSize := CountBytes(x);
    LeadingBounds(x.Number());
    var nWord;
    if nSize <= 3 {
      nWord := SmallWord(x, nSize);
    } else {
      Power256IsPow2(nSize - 3);
      nWord := ShiftedWord(x, 8 * (nSize - 3));
    }
    nCompact := FinishTruncated(nSize, nWord, negative, x.Number());
  }

  method FinishTruncated(nSize: nat, nWord: nat, negative: bool, ghost x: nat) returns (nCompact: Compact)
    requires nSize == ByteLength(x) < 255 && nWord == Leading(x) < SIZE_UNIT
    ensures nCompact == Truncated(x, negative)
  {
    SignTest(nWord);
    if (nWord / SIGN_BIT) % 2 == 1 {
      nCompact := Assemble(nSize + 1, nWord / 256, negative);
    } else {
      nCompact := Assemble(nSize, nWord, negative);
    }
  }

  lemma SignTest(w: nat)
    requires w < SIZE_UNIT
    ensures (w / SIGN_BIT) % 2 == 1 <==> w >= SIGN_BIT
  {
  }

  method GetCompactRounded(x: BaseUint, negative: bool) returns (nCompact: Compact)
    requires x.pn.Length == WIDTH
    ensures ByteLength(x.Number()) <= 32 && nCompact == Rounded(x.Number(), negative)
  {
    var nSize := CountBytes(x);
    RoundedBounds(x.Number());
    var nWord;
    if nSize <= 3 {
      nWord := SmallWord(x, nSize);
    } else {
      ShiftedFits(x.Number(), nSize);
      nWord := ShiftedWord(x, 8 * (nSize - 3) - 4);
      nWord := RoundNibble(nWord, 0xff_ffff);
    }
    nCompact := FinishRounded(nSize, nWord, negative, x.Number());
  }

  method FinishRounded(nSize: nat, nWord: nat, negative: bool, ghost x: nat) returns (nCompact: Compact)
    requires nSize == ByteLength(x) < 255 && nWord == RoundedLeading(x) < SIZE_UNIT
    ensures nCompact == Rounded(x, negative)
  {
    SignTest(nWord);
    if (nWord / SIGN_BIT) % 2 == 1 {
      var word := RoundNibble(nWord / 16, 0xffff);
      ByteBits(nWord);
      nCompact := Assemble(nSize + 1, word, negative);
    } else {
      nCompact := Assemble(nSize, nWord, negative);
    }
  }

  /** Drops four bits, rounding on the highest of them. */
  method RoundNibble(t: nat, largest: nat) returns (w: nat)
    ensures w == RoundedBits(t, largest)
  {
    var roundUp := (t / 8) % 2 == 1;
    w := t / 16;
    if roundUp && w < largest { w := w + 1; }
  }

  lemma ShiftedFits(x: nat, n: nat)
    requires n == ByteLength(x) > 3
    ensures 0 <= x / Pow2(8 * (n - 3) - 4) < 0x1000_0000
  {
    SixteenthShift(n);
    ByteLengthBounds(x);
    assert Power256(n) == 256 * Power256(n - 1) && Power256(n - 1) == 256 * Power256(n - 2)
        && Power256(n - 2) == 256 * Power256(n - 3);
    QuotientBelow(x, Pow2(8 * (n - 3) - 4), 0x1000_0000);
  }

  // ----- block proof ----------------------------------------------------------------------------

  /** The expected number of hashes for a target: 2^256 / (target + 1), and none for a bad target. */
  ghost function Proof(nBits: Compact, modulus: nat): int {
    var target := Decoded(nBits);
    if (Word(nBits) != 0 && Sign(nBits)) || target >= modulus || target == 0 then 0
    else if target < 0 then 0 else modulus / (target + 1)
  }

  /** A target that fits leaves room for one more: adding one to it never wraps to a zero divisor. */
  lemma TargetBelowMax(c: Compact, n: nat)
    requires n >= 3 && 0 <= Decoded(c) < Power256(n)
    ensures Decoded(c) + 1 < Power256(n)
  {
    Power256Monotone(3, n);
    assert Power256(3) == SIZE_UNIT && Power256(n) == 256 * Power256(n - 1);
    if Size(c) <= 3 {
      QuotientAtMost(Mantissa(c), Power256(3 - Size(c)));
    } else {
      MulAssoc(Mantissa(c), 256, Power256(Size(c) - 4));
      MulAssoc(Mantissa(c), Power256(Size(c) - 4), 256);
    }
  }

  /** The division as the source does it, which avoids 2^256 itself. */
  lemma ProofQuotient(t: int, m: int)
    requires 0 < t && t + 1 < m
    ensures (m - 1 - t) / (t + 1) + 1 == m / (t + 1) && 0 <= m / (t + 1) < m
  {
    ModDrop(m - 1 - t, 1, t + 1);
    MulMonotone(2, t + 1, m);
    QuotientBelow(m, t + 1, m);
  }

  method ProofOfTarget(target: BaseUint) returns (proof: BaseUint)
    requires 0 < target.Number() && target.Number() + 1 < target.Modulus()
    modifies target.pn
    ensures fresh(proof) && fresh(proof.pn) && proof.pn.Length == target.pn.Length
    ensures proof.Number() == target.Modulus() / (old(target.Number()) + 1)
  {
    ghost var t: int, m: int := target.Number(), target.Modulus();
    ProofQuotient(t, m);
    proof := target.Complement();
    target.Increment();
    DivUnique(t + 1, m, 0, t + 1);
    var ok := proof.Divide(target);
    proof.Increment();
    DivUnique(m / (t + 1), m, 0, m / (t + 1));
  }

  /** GetBlockProof. */
  method GetBlockProof(nBits: Compact) returns (proof: BaseUint)
    ensures fresh(proof) && fresh(proof.pn) && proof.pn.Length == WIDTH
    ensures proof.Number() == Proof(nBits, proof.Modulus())
  {
    var target := new BaseUint(WIDTH);
    var negative, overflow := SetCompactBase256(target, nBits);
    proof := new BaseUint(WIDTH);
    var zero := target.EqualTo(0);
    ProperTarget(nBits, target.pn.Length);
    if negative || overflow || zero { return; }
    proof := ProofOfTarget(target);
  }

  lemma ProperTarget(c: Compact, w: nat)
    requires w >= 1
    ensures Decoded(c) >= 0
    ensures Decoded(c) < Weight(w) ==> Decoded(c) + 1 < Weight(w) && Decoded(c) % Weight(w) == Decoded(c)
  {
    DecodedNatural(c);
    WeightIsPower256(w);
    if Decoded(c) < Weight(w) {
      TargetBelowMax(c, 4 * w);
      DivUnique(Decoded(c), Weight(w), 0, Decoded(c));
    }
  }

  lemma DecodedNatural(c: Compact)
    ensures Decoded(c) >= 0
  {
    if Size(c) <= 3 { QuotientAtMost(Mantissa(c), Power256(3 - Size(c))); }
    else { MulNonNegative(Mantissa(c), Power256(Size(c) - 3)); }
  }
}
