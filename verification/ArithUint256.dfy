/** The big integers of arith_uint256: limb loops with carries, against the numbers they stand for. */
module ArithUint256 {
  import opened Arithmetic
  import opened Limbs

  class BaseUint {
    const pn: array<Limb>

    ghost function Number(): nat
      reads pn
    {
      Value(pn[..])
    }

    ghost function Modulus(): nat { Weight(pn.Length) }

    /** A zero of the given width. */
    constructor (width: nat)
      ensures fresh(pn) && pn.Length == width && Number() == 0
    {
      pn := new Limb[width](_ => 0);
      new;
      ZeroValue(pn[..]);
    }

    /** operator+=, where b may be this number itself. */
    method Add(b: BaseUint)
      requires b.pn.Length == pn.Length
      modifies pn
      ensures Number() == old(Number() + b.Number()) % Modulus()
    {
      var carry: nat := 0;
      var i := 0;
      ghost var x, y := pn[..], b.pn[..];
      ghost var p := x;
      while i < pn.Length
        invariant i <= pn.Length && carry <= 1 && p == pn[..] && |p| == |x|
        invariant forall m :: i <= m < |x| ==> p[m] == x[m] && b.pn[m] == y[m]
        invariant Value(p[..i]) + carry * Weight(i) == Value(x[..i]) + Value(y[..i])
      {
        var n := carry + pn[i] + b.pn[i];
        var digit: Limb := n % TWO_32;
        pn[i] := digit;
        SumColumn(x, y, p, i, carry, n, digit);
        p := p[i := digit];
        carry := n / TWO_32;
        i := i + 1;
      }
      assert p[..i] == p && x[..i] == x && y[..i] == y;
      ValueBound(p);
      DivUnique(Value(x) + Value(y), Modulus(), carry, Value(p));
    }

    constructor Copy(b: BaseUint)
      ensures fresh(pn) && pn.Length == b.pn.Length && pn[..] == b.pn[..]
    {
      var src := b.pn;
      pn := new Limb[src.Length](i requires 0 <= i < src.Length reads src => src[i]);
    }

    /** operator=. */
    method Assign(b: BaseUint)
      requires b.pn.Length == pn.Length
      modifies pn
      ensures pn[..] == old(b.pn[..])
    {
      var i := 0;
      ghost var y := b.pn[..];
      while i < pn.Length
        invariant i <= pn.Length && pn[..i] == y[..i] && b.pn[..] == (if b.pn == pn then pn[..] else y)
        invariant (b.pn == pn ==> pn[..] == y)
      {
        pn[i] := b.pn[i];
        i := i + 1;
      }
    }

    /** operator= from a 64-bit number. */
    method Set(b: nat)
      requires pn.Length >= 2 && b < TWO_32 * TWO_32
      modifies pn
      ensures Number() == b
    {
      Clear();
      ghost var zero := pn[..];
      var low: Limb, high: Limb := b % TWO_32, b / TWO_32;
      pn[0] := low;
      pn[1] := high;
      ghost var one := zero[0 := low];
      assert pn[..] == one[1 := high];
      ValueUpdate(zero, 0, low);
      ValueUpdate(one, 1, high);
      assert Weight(1) == TWO_32;
    }

    method GetLow64() returns (low: nat)
      requires pn.Length >= 2
      ensures low == Number() % Weight(2)
    {
      low := pn[0] + pn[1] * TWO_32;
      ghost var x := pn[..];
      ValueSplit(x, 2);
      ValuePrefix(x, 0);
      ValuePrefix(x, 1);
      assert x[..0] == [] && Weight(1) == TWO_32;
      ValueBound(x[..2]);
      DivUnique(Value(x), Weight(2), Value(x[2..]), low);
    }

    /** operator~. */
    method Complement() returns (ret: BaseUint)
      ensures fresh(ret) && fresh(ret.pn) && ret.pn.Length == pn.Length
      ensures ret.Number() == Modulus() - 1 - Number()
    {
      ret := new BaseUint(pn.Length);
      var i := 0;
      while i < pn.Length
        invariant i <= pn.Length
        invariant Value(ret.pn[..i]) + Value(pn[..i]) == Weight(i) - 1
        modifies ret.pn
      {
        ghost var low := ret.pn[..i];
        ret.pn[i] := TWO_32 - 1 - pn[i];
        assert ret.pn[..][..i] == ret.pn[..i] == low && pn[..][..i] == pn[..i];
        ComplementColumn(pn[..], ret.pn[..], i);
        assert ret.pn[..][..i + 1] == ret.pn[..i + 1] && pn[..][..i + 1] == pn[..i + 1];
        i := i + 1;
      }
      assert ret.pn[..i] == ret.pn[..] && pn[..i] == pn[..];
    }

    /** operator++: limbs of all ones carry. */
    method Increment()
      modifies pn
      ensures Number() == (old(Number()) + 1) % Modulus()
    {
      var i := 0;
      ghost var x := pn[..];
      ValueBound(x);
      while i < pn.Length && pn[i] == TWO_32 - 1
        invariant i <= pn.Length
        invariant Number() + Weight(i) == Value(x) + 1
      {
        CarryLimb(pn[..], i);
        ghost var before := pn[..];
        pn[i] := 0;
        assert pn[..] == before[i := 0];
        i := i + 1;
      }
      ghost var carried := Number();
      if i < pn.Length {
        BumpLimb(pn[..], i);
        ghost var before := pn[..];
        pn[i] := pn[i] + 1;
        assert pn[..] == before[i := before[i] + 1];
      }
      ValueBound(pn[..]);
      DivUnique(Value(x) + 1, Modulus(), if i < pn.Length then 0 else 1, Number());
    }

    /** operator- on one number: two's complement. */
    method Negate() returns (ret: BaseUint)
      ensures fresh(ret) && fresh(ret.pn) && ret.pn.Length == pn.Length
      ensures ret.Number() == (Modulus() - Number()) % Modulus()
    {
      ret := Complement();
      ret.Increment();
    }

    /** operator-=: the difference modulo the width. */
    method Subtract(b: BaseUint)
      requires b.pn.Length == pn.Length
      modifies pn
      ensures Number() == old(Number() - b.Number()) % Modulus()
    {
      var neg := b.Negate();
      SubtractWraps(Number(), b.Number(), Modulus());
      Add(neg);
    }

    /** operator-= where nothing wraps. */
    method SubtractSmaller(b: BaseUint)
      requires b.pn.Length == pn.Length && b.Number() <= Number()
      modifies pn
      ensures Number() == old(Number() - b.Number())
    {
      ValueBound(pn[..]);
      ghost var rest := Number() - b.Number();
      DivUnique(rest, Modulus(), 0, rest);
      Subtract(b);
    }

    /** operator<<= where nothing is lost. */
    method ShiftLeftFits(shift: nat)
      requires Number() * Pow2(shift) < Modulus()
      modifies pn
      ensures Number() == old(Number()) * Pow2(shift)
    {
      MulNonNegative(Number(), Pow2(shift));
      DivUnique(Number() * Pow2(shift), Modulus(), 0, Number() * Pow2(shift));
      ShiftLeft(shift);
    }

    /** operator*= by one limb. */
    method MultiplySmall(b32: Limb)
      modifies pn
      ensures Number() == old(Number()) * b32 % Modulus()
    {
      var carry: Limb := 0;
      var i := 0;
      ghost var x := pn[..];
      ghost var p := x;
      while i < pn.Length
        invariant i <= pn.Length && p == pn[..] && |p| == |x|
        invariant forall m :: i <= m < |x| ==> p[m] == x[m]
        invariant Value(p[..i]) + carry * Weight(i) == Value(x[..i]) * b32
      {
        NoOverflow(carry, 0, b32, pn[i]);
        var n := carry + b32 * pn[i];
        var digit: Limb := n % TWO_32;
        pn[i] := digit;
        ScaleColumn(x, p, b32, i, carry, n, digit);
        p := p[i := digit];
        carry := n / TWO_32;
        i := i + 1;
      }
      assert p[..i] == p && x[..i] == x;
      ValueBound(p);
      DivUnique(Value(x) * b32, Modulus(), carry, Value(p));
    }

    /** The inner loop of operator*=: adds factor * b * 2^(32 j), without the limbs that do not fit. */
    method AddRow(factor: Limb, b: BaseUint, j: nat) returns (ghost over: nat)
      requires b.pn.Length == pn.Length && b.pn != pn && j < pn.Length
      modifies pn
      ensures Number() + over * Modulus() == old(Number()) + factor * b.Number() * Weight(j)
    {
      var carry: Limb := 0;
      var i := 0;
      ghost var x, y := pn[..], b.pn[..];
      ghost var p := x;
      while i + j < pn.Length
        invariant i + j <= pn.Length && p == pn[..] && |p| == |x|
        invariant forall m :: i + j <= m < |x| ==> p[m] == x[m]
        invariant Value(p[..i + j]) + carry * Weight(i + j) == Value(x[..i + j]) + factor * Value(y[..i]) * Weight(j)
      {
        NoOverflow(carry, pn[i + j], factor, b.pn[i]);
        var n := carry + pn[i + j] + factor * b.pn[i];
        var digit: Limb := n % TWO_32;
        pn[i + j] := digit;
        RowColumn(x, p, factor, y, i, j, carry, n, digit);
        p := p[i + j := digit];
        carry := n / TWO_32;
        i := i + 1;
      }
      assert p[..i + j] == p && x[..i + j] == x && y[..i] == y[..|x| - j];
      over := RowEnd(x, p, factor, y, j, carry);
    }

    /** operator*=: the product modulo the width; b may be this number itself. */
    method Multiply(b: BaseUint)
      requires b.pn.Length == pn.Length
      modifies pn
      ensures Number() == old(Number() * b.Number()) % Modulus()
    {
      var a := new BaseUint(pn.Length);
      var j := 0;
      ghost var x, y := pn[..], b.Number();
      ghost var over := 0;
      while j < pn.Length
        invariant j <= pn.Length
        invariant a.Number() + over * Modulus() == Value(x[..j]) * y
        modifies a.pn
      {
        ghost var more := a.AddRow(pn[j], b, j);
        ProductStep(x, y, j);
        MulAdd(over, more, Modulus());
        over := over + more;
        j := j + 1;
      }
      assert x[..j] == x;
      ValueBound(a.pn[..]);
      DivUnique(Value(x) * y, Modulus(), over, a.Number());
      Assign(a);
    }

    method Clear()
      modifies pn
      ensures Number() == 0 && forall i :: 0 <= i < pn.Length ==> pn[i] == 0
    {
      var i := 0;
      while i < pn.Length
        invariant i <= pn.Length && forall j :: 0 <= j < i ==> pn[j] == 0
      {
        pn[i] := 0;
        i := i + 1;
      }
      ZeroValue(pn[..]);
    }

    /** pn[m] |= v, where the bits do not overlap. */
    method OrLimb(m: nat, v: Limb, ghost t: nat)
      requires m < pn.Length && t <= 32 && pn[m] < Pow2(t) && v % Pow2(t) == 0
      modifies pn
      ensures pn[m] == old(pn[m]) + v && forall j :: 0 <= j < pn.Length && j != m ==> pn[j] == old(pn[j])
      ensures Number() == old(Number()) + v * Weight(m)
    {
      OrFits(pn[m], v, t);
      ghost var x := pn[..];
      pn[m] := BitOr(pn[m], v);
      assert pn[..] == x[m := x[m] + v];
      ValueUpdate(x, m, x[m] + v);
      MulAdd(x[m], v, Weight(m));
    }

    /** operator<<=: multiplication by a power of two, modulo the width. */
    method ShiftLeft(shift: nat)
      modifies pn
      ensures Number() == old(Number()) * Pow2(shift) % Modulus()
    {
      var a := new BaseUint.Copy(this);
      Clear();
      var k, s := shift / 32, shift % 32;
      var i := 0;
      ghost var x, over := a.pn[..], 0;
      while i < pn.Length
        invariant i <= pn.Length && a.pn[..] == x
        invariant forall m :: i + k < m < pn.Length ==> pn[m] == 0
        invariant i + k < pn.Length ==> pn[i + k] < Pow2(s)
        invariant Number() + over * Modulus() == Value(x[..i]) * Pow2(shift)
      {
        ghost var more := OrShifted(a.pn[i], i, k, s);
        ValuePrefix(x, i);
        MulAdd(Value(x[..i]), x[i] * Weight(i), Pow2(shift));
        MulAdd(over, more, Modulus());
        over := over + more;
        i := i + 1;
      }
      assert x[..i] == x;
      ValueBound(pn[..]);
      DivUnique(Value(x) * Pow2(shift), Modulus(), over, Number());
    }

    /** One limb of a left shift, into the limb it stays in and the next. */
    method OrShifted(d: Limb, i: nat, k: nat, s: nat) returns (ghost over: nat)
      requires s < 32
      requires forall m :: i + k < m < pn.Length ==> pn[m] == 0
      requires i + k < pn.Length ==> pn[i + k] < Pow2(s)
      modifies pn
      ensures forall m :: i + k + 1 < m < pn.Length ==> pn[m] == 0
      ensures i + k + 1 < pn.Length ==> pn[i + k + 1] < Pow2(s)
      ensures Number() + over * Modulus() == old(Number()) + d * Weight(i) * Pow2(32 * k + s)
    {
      over := 0;
      LimbShift(d, s);
      ShiftTerm(d, i, k, s);
      if i + k + 1 < pn.Length && s != 0 {
        OrLimb(i + k + 1, HighPart(d, s), 0);
      }
      if i + k < pn.Length {
        OrLimb(i + k, LowPart(d, s), s);
      }
      if i + k + 1 >= pn.Length { over := PastTop(HighPart(d, s), i + k + 1, pn.Length); }
      if i + k >= pn.Length {
        ghost var more := PastTop(LowPart(d, s), i + k, pn.Length);
        MulAdd(over, more, Modulus());
        over := over + more;
      }
    }

    /** operator>>=: division by a power of two. */
    method ShiftRight(shift: nat)
      modifies pn
      ensures Number() == old(Number()) / Pow2(shift)
    {
      var a := new BaseUint.Copy(this);
      Clear();
      var k, s := shift / 32, shift % 32;
      var i := 0;
      ghost var x := a.pn[..];
      DivUnique(0, Pow2(shift), 0, 0);
      while i < pn.Length
        invariant i <= pn.Length && a.pn[..] == x
        invariant forall m :: 0 <= m < pn.Length && m >= i - k ==> pn[m] == 0
        invariant i > k ==> pn[i - k - 1] < Pow2(32 - s)
        invariant Number() == Value(x[..i]) / Pow2(shift)
      {
        ShiftRightStep(x, i, k, s);
        OrShiftedRight(a.pn[i], i, k, s);
        i := i + 1;
      }
      assert x[..i] == x;
    }

    /** One limb of a right shift, into the limb below and the one it moves to. */
    method OrShiftedRight(d: Limb, i: nat, k: nat, s: nat)
      requires s < 32 && i < pn.Length
      requires forall m :: 0 <= m < pn.Length && m >= i - k ==> pn[m] == 0
      requires i > k ==> pn[i - k - 1] < Pow2(32 - s)
      modifies pn
      ensures forall m :: 0 <= m < pn.Length && m > i - k ==> pn[m] == 0
      ensures i >= k ==> pn[i - k] < Pow2(32 - s)
      ensures Number() == old(Number()) + RightGain(d, i, k, s)
    {
      if i - k - 1 >= 0 && s != 0 {
        LimbShift(d, 32 - s);
        OrLimb(i - k - 1, LowPart(d, 32 - s), 32 - s);
      }
      if i - k >= 0 {
        BaseIsPow2();
        Pow2Add(s, 32 - s);
        QuotientBelow(d, Pow2(s), Pow2(32 - s));
        Pow2Monotone(32 - s, 32);
        OrLimb(i - k, d / Pow2(s), 0);
      }
    }

    /** CompareTo: the sign of the difference. */
    method CompareTo(b: BaseUint) returns (c: int)
      requires b.pn.Length == pn.Length
      ensures -1 <= c <= 1
      ensures c < 0 <==> Number() < b.Number()
      ensures c > 0 <==> Number() > b.Number()
    {
      var i := pn.Length - 1;
      while i >= 0
        invariant -1 <= i < pn.Length && forall j :: i < j < pn.Length ==> pn[j] == b.pn[j]
      {
        if pn[i] < b.pn[i] {
          TopLimbDecides(pn[..], b.pn[..], i);
          return -1;
        }
        if pn[i] > b.pn[i] {
          TopLimbDecides(b.pn[..], pn[..], i);
          return 1;
        }
        i := i - 1;
      }
      assert pn[..] == b.pn[..];
      c := 0;
    }

    /** EqualTo: comparison with a 64-bit number. */
    method EqualTo(b: nat) returns (equal: bool)
      requires pn.Length >= 2 && b < TWO_32 * TWO_32
      ensures equal <==> Number() == b
    {
      var i := pn.Length - 1;
      ghost var x := pn[..];
      while i >= 2
        invariant 1 <= i < pn.Length && forall j :: i < j < pn.Length ==> pn[j] == 0
      {
        if pn[i] != 0 {
          HighLimb(x, i, b);
          return false;
        }
        i := i - 1;
      }
      TopValue(x, 1);
      ValuePrefix(x, 0);
      assert x[..0] == [] && Weight(1) == TWO_32;
      if pn[1] != b / TWO_32 { return false; }
      if pn[0] != b % TWO_32 { return false; }
      equal := true;
    }

    /** bits: the position of the highest bit set plus one, or zero. */
    method BitLength() returns (b: nat)
      ensures IsBitLength(Number(), b) && b <= 32 * pn.Length
    {
      var pos := pn.Length - 1;
      while pos >= 0
        invariant -1 <= pos < pn.Length && forall j :: pos < j < pn.Length ==> pn[j] == 0
      {
        if pn[pos] != 0 {
          var n := LimbBits(pn[pos]);
          TopBit(pn[..], pos, n);
          return 32 * pos + n;
        }
        pos := pos - 1;
      }
      ZeroValue(pn[..]);
      b := 0;
    }

    method SetBit(p: nat)
      requires p < 32 * pn.Length && ClearBelow(pn[..], p + 1)
      modifies pn
      ensures ClearBelow(pn[..], p) && Number() == old(Number()) + Pow2(p)
    {
      ghost var x := pn[..];
      SetQuotientBit(x, p);
      pn[p / 32] := BitOr(pn[p / 32], Pow2(p % 32));
      assert pn[..] == x[p / 32 := x[p / 32] + Pow2(p % 32)];
    }

    /** The loop of operator/=: this number collects the quotient of num and the divisor d. */
    method ShiftSubtract(num: BaseUint, div: BaseUint, start: nat, ghost d: nat)
      requires num.pn.Length == pn.Length && div.pn.Length == pn.Length
      requires num.pn != div.pn && num.pn != pn && div.pn != pn && start < 32 * pn.Length
      requires Number() == 0 && ClearBelow(pn[..], start + 1) && div.Number() == d * Pow2(start)
      requires num.Number() < d * Pow2(start + 1)
      modifies pn, num.pn, div.pn
      ensures num.Number() < d && num.Number() + Number() * d == old(num.Number())
    {
      var shift: int := start;
      ghost var n := num.Number();
      while shift >= 0
        invariant -1 <= shift <= start
        invariant shift >= 0 ==> div.Number() == d * Pow2(shift)
        invariant num.Number() + Number() * d == n && num.Number() < d * Pow2(shift + 1)
        invariant ClearBelow(pn[..], shift + 1)
      {
        DoublePower(d, shift);
        SubtractIfFits(num, div, shift, d);
        div.ShiftRight(1);
        HalvePower(d, shift);
        shift := shift - 1;
      }
      assert d * Pow2(0) == d;
    }

    method SubtractIfFits(num: BaseUint, div: BaseUint, shift: nat, ghost d: nat)
      requires num.pn.Length == pn.Length && div.pn.Length == pn.Length
      requires num.pn != div.pn && num.pn != pn && div.pn != pn && shift < 32 * pn.Length
      requires ClearBelow(pn[..], shift + 1) && div.Number() == d * Pow2(shift)
      modifies pn, num.pn
      ensures ClearBelow(pn[..], shift)
      ensures num.Number() + Number() * d == old(num.Number() + Number() * d)
      ensures old(num.Number()) < 2 * div.Number() ==> num.Number() < div.Number()
    {
      var c := num.CompareTo(div);
      if c >= 0 {
        QuotientStep(num.Number(), Number(), Pow2(shift), d);
        num.SubtractSmaller(div);
        SetBit(shift);
      } else {
        ClearStep(pn[..], shift);
      }
    }

    /** operator/=: the quotient; a zero divisor is an error, which leaves zero behind. */
    method Divide(b: BaseUint) returns (ok: bool)
      requires b.pn.Length == pn.Length
      modifies pn
      ensures ok <==> old(b.Number()) != 0
      ensures Number() == if ok then old(Number() / b.Number()) else 0
    {
      var div := new BaseUint.Copy(b);
      var num := new BaseUint.Copy(this);
      ghost var n, d := num.Number(), div.Number();
      Clear();
      assert forall i :: 0 <= i < pn.Length ==> pn[..][i] == 0;
      var numBits := num.BitLength();
      var divBits := div.BitLength();
      if divBits == 0 { return false; }
      ok := true;
      if divBits > numBits {
        Pow2Monotone(numBits, divBits - 1);
        DivUnique(n, d, 0, n);
        return;
      }
      var shift := numBits - divBits;
      AlignedBounds(n, d, numBits, divBits);
      WeightIsPow2(pn.Length);
      Pow2Monotone(numBits, 32 * pn.Length);
      div.ShiftLeftFits(shift);
      ZeroClear(pn[..], shift + 1);
      ShiftSubtract(num, div, shift, d);
      DivUnique(n, d, Number(), num.Number());
    }
  }

  lemma QuotientStep(r: int, q: int, p: int, d: int)
    ensures (r - d * p) + (q + p) * d == r + q * d
  {
    MulAdd(q, p, d);
  }

  lemma DoublePower(d: nat, k: nat)
    ensures d * Pow2(k + 1) == d * Pow2(k) + d * Pow2(k)
  {
    MulDistribute(d, Pow2(k), Pow2(k));
  }

  lemma HalvePower(d: nat, k: nat)
    ensures k > 0 ==> d * Pow2(k) / Pow2(1) == d * Pow2(k - 1)
  {
    if k > 0 {
      DoublePower(d, k - 1);
      DivUnique(d * Pow2(k), 2, d * Pow2(k - 1), 0);
    }
  }

  /** A divisor aligned with the numerator fits, and twice it exceeds the numerator. */
  lemma AlignedBounds(n: nat, d: nat, nb: nat, db: nat)
    requires IsBitLength(n, nb) && IsBitLength(d, db) && 0 < db <= nb
    ensures 0 <= d * Pow2(nb - db) < Pow2(nb) && n < d * Pow2(nb - db + 1)
  {
    var k := nb - db;
    Pow2Add(db, k);
    Pow2Add(db - 1, k + 1);
    MulNonNegative(d, Pow2(k));
    MulMonotone(d + 1, Pow2(db), Pow2(k));
    MulAdd(d, 1, Pow2(k));
    MulMonotone(Pow2(db - 1), d, Pow2(k + 1));
  }

  /** The search for the highest set bit of a nonzero limb, from bit 31 down. */
  method LimbBits(d: Limb) returns (n: nat)
    requires d != 0
    ensures IsBitLength(d, n) && 0 < n <= 32
  {
    n := 32;
    BaseIsPow2();
    while n > 1 && (d / Pow2(n - 1)) % 2 == 0
      invariant 1 <= n <= 32 && d < Pow2(n)
    {
      BitClear(d, n - 1);
      n := n - 1;
    }
    if n > 1 { BitSet(d, n - 1); }
  }

  lemma BitClear(d: nat, k: nat)
    requires d < Pow2(k + 1) && (d / Pow2(k)) % 2 == 0
    ensures d < Pow2(k)
  {
    QuotientBelow(d, Pow2(k), 2);
    assert d == (d / Pow2(k)) * Pow2(k) + d % Pow2(k);
  }

  lemma BitSet(d: nat, k: nat)
    requires (d / Pow2(k)) % 2 != 0
    ensures Pow2(k) <= d
  {
    if d < Pow2(k) { DivUnique(d, Pow2(k), 0, d); }
  }
}
