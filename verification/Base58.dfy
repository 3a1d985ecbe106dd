/** The Base58 codec of base58.cpp: digit buffers with carries, and the sizes they are given. */
module Base58 {
  import opened Arithmetic

  // ----- numbers as digits ----------------------------------------------------------------------

  function Power(b: nat, n: nat): nat { if n == 0 then 1 else b * Power(b, n - 1) }

  predicate Digits(s: seq<int>, b: nat) { forall i :: 0 <= i < |s| ==> 0 <= s[i] < b }

  /** The number that digits stand for, lowest first. */
  function Number(s: seq<int>, b: nat): int {
    if s == [] then 0 else Number(s[..|s| - 1], b) + s[|s| - 1] * Power(b, |s| - 1)
  }

  /** The number that digits stand for, highest first. */
  function BigEndian(s: seq<int>, b: nat): int { if s == [] then 0 else BigEndian(s[..|s| - 1], b) * b + s[|s| - 1] }

  /** Digits without a leading zero, lowest first. */
  predicate Normal(s: seq<int>, b: nat) { Digits(s, b) && (s != [] ==> s[|s| - 1] != 0) }

  lemma {:induction false} PowerPositive(b: nat, n: nat)
    requires b > 0
    ensures Power(b, n) > 0
  {
    if n == 0 {
    } else {
      PowerPositive(b, n - 1);
      MulPositive(b, Power(b, n - 1));
    }
  }

  lemma {:induction false} NumberBound(s: seq<int>, b: nat)
    requires Digits(s, b) && b > 0
    ensures 0 <= Number(s, b) < Power(b, |s|)
  {
    if s == [] {
    } else {
      var n := |s| - 1;
      NumberBound(s[..n], b);
      PowerPositive(b, n);
      MulNonNegative(s[n], Power(b, n));
      MulMonotone(s[n] + 1, b, Power(b, n));
      MulAdd(s[n], 1, Power(b, n));
    }
  }

  lemma NormalBound(s: seq<int>, b: nat)
    requires Normal(s, b) && s != [] && b > 0
    ensures Number(s, b) >= Power(b, |s| - 1)
  {
    var n := |s| - 1;
    NumberBound(s[..n], b);
    PowerPositive(b, n);
    MulMonotone(1, s[n], Power(b, n));
  }

  lemma {:induction false} PowerMonotone(b: nat, m: nat, n: nat)
    requires b > 0 && m <= n
    ensures Power(b, m) <= Power(b, n)
  {
    if m == n {
    } else {
      PowerMonotone(b, m, n - 1);
      PowerPositive(b, n - 1);
      MulMonotone(1, b, Power(b, n - 1));
    }
  }

  /** A number has only one normal form. */
  lemma {:induction false} NormalUnique(s: seq<int>, t: seq<int>, b: nat)
    requires Normal(s, b) && Normal(t, b) && b > 1 && Number(s, b) == Number(t, b)
    ensures s == t
  {
    NumberBound(s, b);
    NumberBound(t, b);
    if s != [] { NormalBound(s, b); PowerPositive(b, |s| - 1); }
    if t != [] { NormalBound(t, b); PowerPositive(b, |t| - 1); }
    if |s| < |t| { PowerMonotone(b, |s|, |t| - 1); }
    if |t| < |s| { PowerMonotone(b, |t|, |s| - 1); }
    assert |s| == |t|;
    SameDigits(s, t, b);
  }

  lemma {:induction false} SameDigits(s: seq<int>, t: seq<int>, b: nat)
    requires Digits(s, b) && Digits(t, b) && |s| == |t| && b > 0 && Number(s, b) == Number(t, b)
    ensures s == t
  {
    if s == [] {
    } else {
      var n := |s| - 1;
      NumberBound(s[..n], b);
      NumberBound(t[..n], b);
      PowerPositive(b, n);
      DivUnique(Number(s, b), Power(b, n), s[n], Number(s[..n], b));
      DivUnique(Number(t, b), Power(b, n), t[n], Number(t[..n], b));
      SameDigits(s[..n], t[..n], b);
      assert s == s[..n] + [s[n]] && t == t[..n] + [t[n]];
    }
  }

  // ----- enough room ----------------------------------------------------------------------------

  lemma {:induction false} PowerAdd(b: nat, m: nat, n: nat)
    ensures Power(b, m + n) == Power(b, m) * Power(b, n)
  {
    if m == 0 {
    } else {
      PowerAdd(b, m - 1, n);
      MulAssoc(b, Power(b, m - 1), Power(b, n));
    }
  }

  lemma {:induction false} PowerMul(b: nat, m: nat, n: nat)
    ensures Power(b, m * n) == Power(Power(b, m), n)
  {
    if n == 0 {
    } else {
      PowerMul(b, m, n - 1);
      MulDistribute(m, n - 1, 1);
      PowerAdd(b, m, m * (n - 1));
    }
  }

  lemma {:induction false} PowerGrows(a: nat, b: nat, n: nat)
    requires a <= b
    ensures Power(a, n) <= Power(b, n)
  {
    if n == 0 {
    } else {
      PowerGrows(a, b, n - 1);
      MulMonotone(Power(a, n - 1), Power(b, n - 1), a);
      MulMonotone(a, b, Power(b, n - 1));
    }
  }

  lemma {:induction false} PowerStrict(a: nat, b: nat, n: nat)
    requires a < b && n > 0
    ensures Power(a, n) < Power(b, n)
  {
    if n > 1 {
      PowerStrict(a, b, n - 1);
      MulMonotone(Power(a, n - 1), Power(b, n - 1), a);
      MulMonotone(a + 1, b, Power(b, n - 1));
      MulAdd(a, 1, Power(b, n - 1));
    }
  }

  lemma RootCompare(a: nat, b: nat, k: nat)
    requires k > 0 && Power(a, k) <= Power(b, k)
    ensures a <= b
  {
    if b < a { PowerStrict(b, a, k); }
  }

  lemma PowerSwap(b: nat, m: nat, n: nat)
    ensures Power(Power(b, m), n) == Power(Power(b, n), m)
  {
    PowerMul(b, m, n);
    PowerMul(b, n, m);
    assert m * n == n * m;
  }

  /** From one ratio of powers to all: when p^k <= q^l, n digits of base p fit any size >= n * l / k in base q. */
  lemma RoomFor(p: nat, q: nat, k: nat, l: nat, n: nat, size: nat)
    requires p > 0 && q > 0 && k > 0 && Power(p, k) <= Power(q, l) && l * n <= size * k
    ensures Power(p, n) <= Power(q, size)
  {
    MulNonNegative(l, n);
    MulNonNegative(size, k);
    PowerSwap(p, n, k);
    PowerGrows(Power(p, k), Power(q, l), n);
    PowerMul(q, l, n);
    PowerMonotone(q, l * n, size * k);
    PowerMul(q, size, k);
    RootCompare(Power(p, n), Power(q, size), k);
  }

  /** The buffer of 138/100 digits per byte, plus one, suffices for base 58. */
  lemma EncodeRoom(n: nat)
    ensures Power(256, n) <= Power(58, n * 138 / 100 + 1)
  {
    assert Power(256, 8) <= Power(58, 11);
    RoomFor(256, 58, 8, 11, n, n * 138 / 100 + 1);
  }

  /** 71 digits of base 58 fit 52 bytes. */
  lemma DecodeRatio()
    ensures Power(58, 71) <= Power(256, 52)
  {
    assert Power(58, 8) == 0x7479027ea100 && Power(58, 7) == 0x202161caa80 && Power(256, 4) == 0x100000000;
    PowerAdd(58, 8, 8);
    assert Power(58, 16) == 0x34fde3761da26b26e1410000;
    PowerAdd(58, 16, 16);
    assert Power(58, 32) == 0xaf820335d9b3d9cf58b911d87035677fb7f528100000000;
    PowerAdd(58, 32, 32);
    assert Power(58, 64)
        == 0x7853026ae25f4ce0c69893e6f1f86f67aef4db69563516064adeb967a9d66f4fe64b09ec94e5010000000000000000;
    PowerAdd(58, 64, 7);
    assert Power(58, 71)
        == 0xf1a10f76073f997e1af0b37f5c795ecf145633452837a5de3fa17ac74b86f60a0ebe5446f358940a4ca12a800000000000000000;
    PowerAdd(256, 4, 4);
    assert Power(256, 8) == 0x10000000000000000;
    PowerAdd(256, 8, 8);
    assert Power(256, 16) == 0x100000000000000000000000000000000;
    PowerAdd(256, 16, 16);
    assert Power(256, 32) == 0x10000000000000000000000000000000000000000000000000000000000000000;
    PowerAdd(256, 32, 16);
    assert Power(256, 48)
        == 0x1000000000000000000000000000000000000000000000000000000000000000000000000000000000000000000000000;
    PowerAdd(256, 48, 4);
    assert Power(256, 52)
        == 0x100000000000000000000000000000000000000000000000000000000000000000000000000000000000000000000000000000000;
  }

  /** The buffer of 733/1000 bytes per digit, plus one, suffices for base 256. */
  lemma DecodeRoom(n: nat)
    ensures Power(58, n) <= Power(256, n * 733 / 1000 + 1)
  {
    DecodeRatio();
    RoomFor(58, 256, 71, 52, n, n * 733 / 1000 + 1);
  }

  // ----- digit buffers --------------------------------------------------------------------------

  /** Limbs above the top are zero and do not count. */
  lemma {:induction false} NumberPadded(s: seq<int>, n: nat, b: nat)
    requires n <= |s| && forall k :: n <= k < |s| ==> s[k] == 0
    ensures Number(s, b) == Number(s[..n], b)
  {
    if n < |s| {
      var m := |s| - 1;
      NumberPadded(s[..m], n, b);
      assert s[..m][..n] == s[..n];
    } else {
      assert s[..n] == s;
    }
  }

  lemma NumberPrefix(s: seq<int>, i: nat, b: nat)
    requires i < |s|
    ensures Number(s[..i + 1], b) == Number(s[..i], b) + s[i] * Power(b, i)
  {
    assert s[..i + 1][..i] == s[..i];
  }

  /** One column of multiplying a digit buffer and adding a carry. */
  lemma Column(x: seq<int>, p: seq<int>, m: nat, b: nat, i: nat, ch: int, carry: int)
    requires i < |x| == |p| && b > 0 && Number(p[..i], b) + carry * Power(b, i) == m * Number(x[..i], b) + ch
    ensures var n := carry + m * x[i];
      Number(p[i := n % b][..i + 1], b) + (n / b) * Power(b, i + 1) == m * Number(x[..i + 1], b) + ch
  {
    var n, w := carry + m * x[i], Power(b, i);
    var p' := p[i := n % b];
    assert p'[..i] == p[..i];
    NumberPrefix(x, i, b);
    NumberPrefix(p', i, b);
    DivMod(n, b);
    MulAssoc(n / b, b, w);
    MulAdd(n % b, (n / b) * b, w);
    MulAdd(carry, m * x[i], w);
    MulAssoc(m, x[i], w);
    MulDistribute(m, Number(x[..i], b), x[i] * w);
  }

  lemma CarryBound(carry: int, m: nat, d: int, b: nat)
    requires 0 <= carry < m && 0 <= d < b
    ensures 0 <= (carry + m * d) / b < m && 0 <= (carry + m * d) % b < b
    ensures (carry + m * d) / b == 0 && (carry > 0 || d > 0) ==> (carry + m * d) % b > 0
  {
    MulNonNegative(m, d);
    MulMonotone(d, b - 1, m);
    MulDistribute(m, b, -1);
    QuotientBelow(carry + m * d, b, m);
    DivMod(carry + m * d, b);
    if d > 0 { MulMonotone(1, d, m); }
  }

  /** The inner loop of both conversions: multiplies the number in the buffer, lowest digit first, and adds
      a digit; the buffer being large enough, nothing is carried out of it. */
  method MultiplyAdd(buf: array<int>, length: nat, m: nat, ch: int, b: nat, ghost value: int)
    returns (carry: int, length': nat)
    requires Holds(buf[..], length, b, value) && b > 1 && 0 <= ch < m && m * value + ch < Power(b, buf.Length)
    modifies buf
    ensures carry == 0 && length <= length' && Holds(buf[..], length', b, m * value + ch)
  {
    ghost var x := buf[..];
    ghost var p := x;
    carry, length' := ch, 0;
    HoldsStart(x, length, m, b, value, ch);
    while (carry != 0 || length' < length) && length' < buf.Length
      invariant p == buf[..] && ColumnsDone(x, length, p, m, b, length', ch, carry)
    {
      ColumnStep(x, length, p, m, b, length', ch, carry);
      carry := carry + m * buf[length'];
      var digit, rest := carry % b, carry / b;
      p := p[length' := digit];
      assert ColumnsDone(x, length, p, m, b, length' + 1, ch, rest);
      buf[length'] := digit;
      carry := rest;
      length' := length' + 1;
    }
    ColumnsEnd(x, length, p, m, b, length', ch, carry);
  }

  /** The buffer holds a number in its first digits, without a leading zero. */
  ghost predicate Holds(p: seq<int>, length: nat, b: nat, value: int) {
    length <= |p| && Normal(p[..length], b) && (forall k :: length <= k < |p| ==> p[k] == 0)
        && Number(p[..length], b) == value
  }

  lemma HoldsStart(x: seq<int>, length: nat, m: nat, b: nat, value: int, ch: int)
    requires Holds(x, length, b, value) && b > 1 && 0 <= ch < m
    ensures ColumnsDone(x, length, x, m, b, 0, ch, ch)
  {
    assert forall k :: 0 <= k < length ==> x[k] == x[..length][k];
  }

  /** The first i columns of multiplying the normal digits x, of the given length, are done. */
  ghost predicate ColumnsDone(x: seq<int>, length: nat, p: seq<int>, m: nat, b: nat, i: nat, ch: int, carry: int) {
    && i <= |p| == |x| && length <= |x| && b > 1 && 0 <= carry < m
    && Digits(x, b) && (length > 0 ==> x[length - 1] != 0) && (forall k :: length <= k < |x| ==> x[k] == 0)
    && (forall k :: i <= k < |x| ==> p[k] == x[k]) && (forall k :: 0 <= k < i ==> 0 <= p[k] < b)
    && Number(p[..i], b) + carry * Power(b, i) == m * Number(x[..i], b) + ch
    && (0 < i && length <= i && carry == 0 ==> p[i - 1] != 0)
  }

  lemma ColumnStep(x: seq<int>, length: nat, p: seq<int>, m: nat, b: nat, i: nat, ch: int, carry: int)
    requires ColumnsDone(x, length, p, m, b, i, ch, carry) && i < |p| && (carry != 0 || i < length)
    ensures var n := carry + m * p[i]; ColumnsDone(x, length, p[i := n % b], m, b, i + 1, ch, n / b)
  {
    Column(x, p, m, b, i, ch, carry);
    CarryBound(carry, m, x[i], b);
  }

  lemma ColumnsEnd(x: seq<int>, length: nat, p: seq<int>, m: nat, b: nat, i: nat, ch: int, carry: int)
    requires ColumnsDone(x, length, p, m, b, i, ch, carry) && ((carry == 0 && i >= length) || i == |p|)
    requires m * Number(x[..length], b) + ch < Power(b, |p|)
    ensures carry == 0 && length <= i
    ensures Holds(p, i, b, m * Number(x[..length], b) + ch)
  {
    NumberPadded(x[..i], length, b);
    assert x[..i][..length] == x[..length];
    if i == |p| {
      assert p[..i] == p;
      FullBuffer(p, m * Number(x[..length], b) + ch, carry, b);
    }
  }

  lemma FullBuffer(p: seq<int>, total: int, carry: int, b: nat)
    requires Digits(p, b) && b > 1 && carry >= 0 && Number(p, b) + carry * Power(b, |p|) == total < Power(b, |p|)
    ensures carry == 0
  {
    NumberBound(p, b);
    PowerPositive(b, |p|);
    if carry > 0 { MulMonotone(1, carry, Power(b, |p|)); }
  }

  // ----- normal digits of a number --------------------------------------------------------------

  function ToDigits(n: nat, b: nat): seq<int>
    requires b > 1
  {
    if n == 0 then [] else QuotientSmaller(n, b); ToDigits(n / b, b) + [n % b]
  }

  lemma QuotientSmaller(n: nat, b: nat)
    requires n > 0 && b > 1
    ensures 0 <= n / b < n
  {
    MulMonotone(2, b, n);
    QuotientBelow(n, b, n);
  }

  /** The digits, highest first, have the number as value and no leading zero. */
  lemma {:induction false} ToDigitsOk(n: nat, b: nat)
    requires b > 1
    ensures var d := ToDigits(n, b); BigEndian(d, b) == n && Digits(d, b) && (d != [] ==> d[0] != 0)
  {
    if n == 0 {
    } else {
      QuotientSmaller(n, b);
      ToDigitsOk(n / b, b);
      DivMod(n, b);
      var d := ToDigits(n, b);
      assert d[..|d| - 1] == ToDigits(n / b, b);
    }
  }

  function Reverse(s: seq<int>): seq<int> { seq(|s|, i requires 0 <= i < |s| => s[|s| - 1 - i]) }

  /** Reading digits from the other end. */
  lemma {:induction false} ReverseNumber(s: seq<int>, b: nat)
    ensures Number(Reverse(s), b) == BigEndian(s, b)
  {
    if s == [] {
    } else {
      ReverseNumber(s[..|s| - 1], b);
      var t := Reverse(s[..|s| - 1]);
      assert Reverse(s) == [s[|s| - 1]] + t;
      NumberPush(s[|s| - 1], t, b);
    }
  }

  lemma {:induction false} NumberPush(d: int, t: seq<int>, b: nat)
    ensures Number([d] + t, b) == d + b * Number(t, b)
  {
    var s := [d] + t;
    if t == [] {
      assert s[..0] == [];
    } else {
      var n := |t| - 1;
      NumberPush(d, t[..n], b);
      assert s[..|s| - 1] == [d] + t[..n];
      PushStep(d, Number(t[..n], b), t[n], Power(b, n), b);
    }
  }

  lemma PushStep(d: int, v: int, x: int, p: int, b: int)
    ensures (d + b * v) + x * (b * p) == d + b * (v + x * p)
  {
    MulDistribute(b, v, x * p);
    MulAssoc(x, b, p);
    MulAssoc(b, x, p);
  }

  /** Normal digits are the digits of their number. */
  lemma NormalIsToDigits(s: seq<int>, n: nat, b: nat)
    requires Normal(s, b) && b > 1 && Number(s, b) == n
    ensures Reverse(s) == ToDigits(n, b)
  {
    var d := ToDigits(n, b);
    ToDigitsOk(n, b);
    ReverseNumber(d, b);
    NormalUnique(s, Reverse(d), b);
    assert Reverse(Reverse(d)) == d;
  }

  lemma {:induction false} BigEndianBound(s: seq<int>, b: nat)
    requires Digits(s, b) && b > 0
    ensures 0 <= BigEndian(s, b) < Power(b, |s|)
  {
    if s == [] {
    } else {
      var n := |s| - 1;
      BigEndianBound(s[..n], b);
      BoundStep(BigEndian(s[..n], b), s[n], b, Power(b, n));
    }
  }

  lemma BoundStep(v: int, d: int, b: int, p: int)
    requires 0 <= v < p && 0 <= d < b
    ensures 0 <= v * b + d < b * p
  {
    MulMonotone(v + 1, p, b);
    MulAdd(v, 1, b);
    MulNonNegative(v, b);
  }

  /** Converts digits, highest first, from base m to base b, in a buffer of the given size. */
  method Convert(s: seq<int>, m: nat, b: nat, size: nat) returns (r: seq<int>)
    requires Digits(s, m) && m > 1 && b > 1 && Power(m, |s|) <= Power(b, size)
    ensures BigEndian(s, m) >= 0 && r == ToDigits(BigEndian(s, m), b)
  {
    var buf := new int[size](_ => 0);
    var length, j := 0, 0;
    while j < |s|
      invariant j <= |s| && Holds(buf[..], length, b, BigEndian(s[..j], m))
    {
      AppendFits(s, j, m, b, size);
      var carry;
      carry, length := MultiplyAdd(buf, length, m, s[j], b, BigEndian(s[..j], m));
      j := j + 1;
    }
    assert s[..j] == s;
    r := Finish(buf, length, b, BigEndian(s, m));
  }

  lemma AppendFits(s: seq<int>, j: nat, m: nat, b: nat, size: nat)
    requires j < |s| && Digits(s, m) && m > 1 && Power(m, |s|) <= Power(b, size)
    ensures BigEndian(s[..j + 1], m) == m * BigEndian(s[..j], m) + s[j] < Power(b, size)
  {
    assert s[..j + 1][..j] == s[..j];
    BigEndianBound(s[..j + 1], m);
    PowerMonotone(m, j + 1, |s|);
  }

  /** Copies the digits out, highest first. */
  method Finish(buf: array<int>, length: nat, b: nat, ghost value: int) returns (r: seq<int>)
    requires b > 1 && Holds(buf[..], length, b, value)
    ensures value >= 0 && r == ToDigits(value, b)
  {
    assert buf[..][..length] == buf[..length];
    NumberBound(buf[..length], b);
    NormalIsToDigits(buf[..length], value, b);
    r := ReadBack(buf, length);
  }

  method ReadBack(buf: array<int>, length: nat) returns (r: seq<int>)
    requires length <= buf.Length
    ensures r == Reverse(buf[..length])
  {
    r := [];
    while |r| < length
      invariant |r| <= length && forall i :: 0 <= i < |r| ==> r[i] == buf[length - 1 - i]
    {
      r := r + [buf[length - 1 - |r|]];
    }
  }

  // ----- characters -----------------------------------------------------------------------------

  /** The alphabet: alphanumeric characters without 0, I, O and l. */
  function Char58(d: int): char
    requires 0 <= d < 58
  {
    if d < 9 then ('1' as int + d) as char
    else if d < 17 then ('A' as int + d - 9) as char
    else if d < 22 then ('J' as int + d - 17) as char
    else if d < 33 then ('P' as int + d - 22) as char
    else if d < 44 then ('a' as int + d - 33) as char
    else ('m' as int + d - 44) as char
  }

  /** The digit of a character, or -1. */
  function Digit58(c: char): int {
    if '1' <= c <= '9' then c as int - '1' as int
    else if 'A' <= c <= 'H' then c as int - 'A' as int + 9
    else if 'J' <= c <= 'N' then c as int - 'J' as int + 17
    else if 'P' <= c <= 'Z' then c as int - 'P' as int + 22
    else if 'a' <= c <= 'k' then c as int - 'a' as int + 33
    else if 'm' <= c <= 'z' then c as int - 'm' as int + 44
    else -1
  }

  predicate IsSpace(c: char) { c == ' ' || 9 <= c as int <= 13 }

  lemma CharRoundTrip(d: int)
    requires 0 <= d < 58
    ensures Digit58(Char58(d)) == d && !IsSpace(Char58(d)) && Char58(d) != '\0' && (Char58(d) == '1' <==> d == 0)
  {
  }

  // ----- encoding -------------------------------------------------------------------------------

  type Bytes = s: seq<int> | Digits(s, 256)

  predicate IsZero(x: int) { x == 0 }

  predicate IsOne(c: char) { c == '1' }

  predicate NotSpace(c: char) { !IsSpace(c) }

  /** How many elements at the front satisfy a predicate. */
  function CountWhile<T>(s: seq<T>, p: T -> bool): (n: nat)
    ensures n <= |s| && (forall i :: 0 <= i < n ==> p(s[i])) && (n < |s| ==> !p(s[n]))
  {
    if s == [] || !p(s[0]) then 0 else 1 + CountWhile(s[1..], p)
  }

  /** The count is determined by what it says. */
  lemma CountIs<T>(s: seq<T>, p: T -> bool, n: nat)
    requires n <= |s| && (forall i :: 0 <= i < n ==> p(s[i])) && (n < |s| ==> !p(s[n]))
    ensures CountWhile(s, p) == n
  {
  }

  function Text(d: seq<int>): string
    requires Digits(d, 58)
  {
    seq(|d|, i requires 0 <= i < |d| => Char58(d[i]))
  }

  /** A '1' for each leading zero byte, then the digits of the number in base 58. */
  function Encoded(bytes: Bytes): string {
    var z := CountWhile(bytes, IsZero);
    BigEndianBound(bytes[z..], 256);
    ToDigitsOk(BigEndian(bytes[z..], 256), 58);
    seq(z, _ => '1') + Text(ToDigits(BigEndian(bytes[z..], 256), 58))
  }

  method EncodeBase58(bytes: Bytes) returns (str: string)
    ensures str == Encoded(bytes)
  {
    var zeroes := 0;
    while zeroes < |bytes| && bytes[zeroes] == 0
      invariant zeroes <= |bytes| && forall i :: 0 <= i < zeroes ==> bytes[i] == 0
    {
      zeroes := zeroes + 1;
    }
    CountIs(bytes, IsZero, zeroes);
    var rest := bytes[zeroes..];
    var size := |rest| * 138 / 100 + 1;
    EncodeRoom(|rest|);
    var d := Convert(rest, 256, 58, size);
    ToDigitsOk(BigEndian(rest, 256), 58);
    var text := WriteText(d);
    str := seq(zeroes, _ => '1') + text;
  }

  method WriteText(d: seq<int>) returns (text: string)
    requires Digits(d, 58)
    ensures text == Text(d)
  {
    text := [];
    while |text| < |d|
      invariant |text| <= |d| && forall i :: 0 <= i < |text| ==> text[i] == Char58(d[i])
    {
      text := text + [Char58(d[|text|])];
    }
  }

  // ----- decoding -------------------------------------------------------------------------------

  datatype Result = Failure | Success(bytes: seq<int>)

  predicate AllDigits(text: string) { forall i :: 0 <= i < |text| ==> Digit58(text[i]) != -1 }

  function DigitsOf(text: string): (d: seq<int>)
    requires AllDigits(text)
    ensures Digits(d, 58)
  {
    seq(|text|, i requires 0 <= i < |text| => Digit58(text[i]))
  }

  function ValueOf(text: string): nat
    requires AllDigits(text)
  {
    BigEndianBound(DigitsOf(text), 58);
    BigEndian(DigitsOf(text), 58)
  }

  /** The length is only tested where a byte is counted, so an empty result passes any limit. */
  predicate TooLong(n: nat, maxLen: int) { n > 0 && n > maxLen }

  /** The bytes of a body of base 58 digits after some leading '1's, when they are not too many. */
  function DecodedBody(zeroes: nat, body: string, tail: string, maxLen: int): Result {
    if TooLong(zeroes, maxLen) || !AllDigits(body) || exists i :: 0 <= i < |tail| && !IsSpace(tail[i]) then Failure
    else
      var d := ToDigits(ValueOf(body), 256);
      if TooLong(zeroes + |d|, maxLen) then Failure else Success(seq(zeroes, _ => 0) + d)
  }

  /** Leading spaces, '1's, a body without spaces, trailing spaces. */
  function Decoded(str: string, maxLen: int): Result {
    if '\0' in str then Failure else DecodedTrimmed(str[CountWhile(str, IsSpace)..], maxLen)
  }

  function DecodedTrimmed(text: string, maxLen: int): Result {
    DecodedRest(CountWhile(text, IsOne), text[CountWhile(text, IsOne)..], maxLen)
  }

  function DecodedRest(zeroes: nat, rest: string, maxLen: int): Result {
    DecodedBody(zeroes, rest[..CountWhile(rest, NotSpace)], rest[CountWhile(rest, NotSpace)..], maxLen)
  }

  /** Decoding inverts encoding, for exactly the maximum lengths that leave room for the result. */
  lemma RoundTrip(bytes: Bytes, maxLen: int)
    ensures Decoded(Encoded(bytes), maxLen) == if bytes == [] || |bytes| <= maxLen then Success(bytes) else Failure
  {
    var z := CountWhile(bytes, IsZero);
    var rest := bytes[z..];
    BigEndianBound(rest, 256);
    var d := ToDigits(BigEndian(rest, 256), 58);
    ToDigitsOk(BigEndian(rest, 256), 58);
    ParseEncoded(z, d, maxLen);
    BodyDecodes(z, d, rest, maxLen);
    assert seq(z, _ => 0) + rest == bytes;
  }

  lemma BodyDecodes(z: nat, d: seq<int>, rest: seq<int>, maxLen: int)
    requires Digits(rest, 256) && (rest != [] ==> rest[0] != 0) && Digits(d, 58)
    requires BigEndian(rest, 256) >= 0 && BigEndian(d, 58) == BigEndian(rest, 256)
    ensures DecodedBody(z, Text(d), [], maxLen)
         == if TooLong(z + |rest|, maxLen) then Failure else Success(seq(z, _ => 0) + rest)
  {
    TextDigits(d);
    RestIsDigits(rest);
  }

  /** A digit comes from only one character. */
  lemma DigitRoundTrip(c: char)
    requires Digit58(c) != -1
    ensures 0 <= Digit58(c) < 58 && Char58(Digit58(c)) == c
  {
  }

  lemma DigitsText(text: string)
    requires AllDigits(text)
    ensures Text(DigitsOf(text)) == text
  {
    forall i | 0 <= i < |text| ensures Text(DigitsOf(text))[i] == text[i] {
      DigitRoundTrip(text[i]);
    }
  }

  /** A body that decodes is the encoding of its bytes. */
  lemma BodyIsEncoded(zeroes: nat, body: string, bytes: Bytes)
    requires AllDigits(body) && (body != [] ==> body[0] != '1')
    requires bytes == seq(zeroes, _ => 0) + ToDigits(ValueOf(body), 256)
    ensures Encoded(bytes) == seq(zeroes, _ => '1') + body
  {
    var n, d := ValueOf(body), ToDigits(ValueOf(body), 256);
    ToDigitsOk(n, 256);
    CountIs(bytes, IsZero, zeroes);
    assert bytes[zeroes..] == d;
    var s := DigitsOf(body);
    if body != [] { DigitRoundTrip(body[0]); }
    ReverseNumber(s, 58);
    NormalIsToDigits(Reverse(s), n, 58);
    assert Reverse(Reverse(s)) == s;
    DigitsText(body);
  }

  /** Encoded text, then nothing but spaces. */
  predicate SpacesAfter(code: string, text: string) {
    |code| <= |text| && text[..|code|] == code && forall i :: |code| <= i < |text| ==> IsSpace(text[i])
  }

  /** A string that decodes is the encoding of the result, but for the spaces before and after it. */
  lemma DecodeIsCanonical(str: string, maxLen: int, bytes: Bytes)
    requires Decoded(str, maxLen) == Success(bytes)
    ensures SpacesAfter(Encoded(bytes), str[CountWhile(str, IsSpace)..])
  {
    var text := str[CountWhile(str, IsSpace)..];
    var z := CountWhile(text, IsOne);
    RestIsEncoded(z, text[z..], maxLen, bytes);
    JoinOnes(z, text, Encoded(bytes));
  }

  lemma JoinOnes(z: nat, text: string, code: string)
    requires z == CountWhile(text, IsOne) && z <= |code| && code[..z] == seq(z, _ => '1')
    requires SpacesAfter(code[z..], text[z..])
    ensures SpacesAfter(code, text)
  {
    assert text[z..][..|code| - z] == text[z..|code|];
    assert text[..z] == code[..z];
    assert text[..|code|] == text[..z] + text[z..|code|];
    forall i | |code| <= i < |text| ensures IsSpace(text[i]) { assert text[i] == text[z..][i - z]; }
  }

  lemma RestIsEncoded(z: nat, rest: string, maxLen: int, bytes: Bytes)
    requires DecodedRest(z, rest, maxLen) == Success(bytes) && (rest != [] ==> rest[0] != '1')
    ensures var code := Encoded(bytes); z <= |code| && code[..z] == seq(z, _ => '1') && SpacesAfter(code[z..], rest)
  {
    var n := CountWhile(rest, NotSpace);
    BodyIsEncoded(z, rest[..n], bytes);
    forall i | n <= i < |rest| ensures IsSpace(rest[i]) { assert rest[i] == rest[n..][i - n]; }
  }

  lemma TextDigits(d: seq<int>)
    requires Digits(d, 58)
    ensures AllDigits(Text(d)) && DigitsOf(Text(d)) == d
    ensures forall i :: 0 <= i < |d| ==>
      !IsSpace(Text(d)[i]) && Text(d)[i] != '\0' && (Text(d)[i] == '1' <==> d[i] == 0)
  {
    forall i | 0 <= i < |d|
      ensures Digit58(Text(d)[i]) == d[i] && !IsSpace(Text(d)[i]) && Text(d)[i] != '\0'
      ensures (Text(d)[i] == '1' <==> d[i] == 0)
    {
      CharRoundTrip(d[i]);
    }
  }

  /** The parts of an encoded string. */
  lemma ParseEncoded(z: nat, d: seq<int>, maxLen: int)
    requires Digits(d, 58) && (d != [] ==> d[0] != 0)
    ensures Decoded(seq(z, _ => '1') + Text(d), maxLen) == DecodedBody(z, Text(d), [], maxLen)
  {
    var text := Text(d);
    var str := seq(z, _ => '1') + text;
    TextDigits(d);
    CountIs(str, IsSpace, 0);
    assert str[0..] == str;
    CountIs(str, IsOne, z);
    assert str[z..] == text;
    CountIs(text, NotSpace, |text|);
    assert text[..|text|] == text && text[|text|..] == [];
  }

  /** Bytes without a leading zero are the digits of their number. */
  lemma RestIsDigits(rest: seq<int>)
    requires Digits(rest, 256) && (rest != [] ==> rest[0] != 0)
    ensures BigEndian(rest, 256) >= 0 && ToDigits(BigEndian(rest, 256), 256) == rest
  {
    BigEndianBound(rest, 256);
    ReverseNumber(rest, 256);
    NormalIsToDigits(Reverse(rest), BigEndian(rest, 256), 256);
    assert Reverse(Reverse(rest)) == rest;
  }

  /** The loop over the body: gives up on a character that is no digit, or when more bytes are needed than
      allowed. */
  method ReadBody(body: string, available: nat, zeroes: nat, maxLen: int) returns (ok: bool, d: seq<int>)
    requires |body| <= available
    ensures ok ==> AllDigits(body) && d == ToDigits(ValueOf(body), 256) && (body != [] ==> zeroes + |d| <= maxLen)
    ensures !ok && AllDigits(body) ==> body != [] && zeroes + |ToDigits(ValueOf(body), 256)| > maxLen
  {
    var size := available * 733 / 1000 + 1;
    DecodeRoom(available);
    PowerMonotone(58, |body|, available);
    var b256 := new int[size](_ => 0);
    var length: nat, j := 0, 0;
    while j < |body|
      invariant j <= |body| && AllDigits(body[..j]) && (j > 0 ==> zeroes + length <= maxLen)
      invariant Holds(b256[..], length, 256, ValueOf(body[..j]))
    {
      if Digit58(body[j]) == -1 { return false, []; }
      length := ReadDigit(body, j, b256, length);
      j := j + 1;
      if length + zeroes > maxLen {
        LengthGrows(body, j, b256[..], length);
        return false, [];
      }
    }
    assert body[..j] == body;
    HoldsLength(b256[..], length, ValueOf(body));
    d := Finish(b256, length, 256, ValueOf(body));
    ok := true;
  }

  method ReadDigit(body: string, j: nat, b256: array<int>, length: nat) returns (length': nat)
    requires j < |body| && AllDigits(body[..j]) && Digit58(body[j]) != -1
    requires Power(58, |body|) <= Power(256, b256.Length)
    requires Holds(b256[..], length, 256, ValueOf(body[..j]))
    modifies b256
    ensures AllDigits(body[..j + 1]) && Holds(b256[..], length', 256, ValueOf(body[..j + 1]))
  {
    AppendDigit(body, j, b256.Length);
    var carry;
    carry, length' := MultiplyAdd(b256, length, 58, Digit58(body[j]), 256, ValueOf(body[..j]));
  }

  lemma AppendDigit(body: string, j: nat, size: nat)
    requires j < |body| && AllDigits(body[..j]) && Digit58(body[j]) != -1 && Power(58, |body|) <= Power(256, size)
    ensures AllDigits(body[..j + 1])
    ensures ValueOf(body[..j + 1]) == 58 * ValueOf(body[..j]) + Digit58(body[j]) < Power(256, size)
  {
    assert body[..j + 1] == body[..j] + [body[j]];
    var s := DigitsOf(body[..j + 1]);
    assert s[..j] == DigitsOf(body[..j]) && s[j] == Digit58(body[j]);
    BigEndianBound(s, 58);
    PowerMonotone(58, j + 1, |body|);
  }

  /** The length in the buffer is that of the number's digits. */
  lemma HoldsLength(p: seq<int>, length: nat, value: int)
    requires Holds(p, length, 256, value)
    ensures value >= 0 && |ToDigits(value, 256)| == length
  {
    NumberBound(p[..length], 256);
    NormalIsToDigits(p[..length], value, 256);
  }

  /** Once a prefix needs too many bytes, so does the whole body. */
  lemma LengthGrows(body: string, j: nat, p: seq<int>, length: nat)
    requires j <= |body| && AllDigits(body[..j]) && Holds(p, length, 256, ValueOf(body[..j]))
    ensures AllDigits(body) ==> |ToDigits(ValueOf(body), 256)| >= length
  {
    if AllDigits(body) {
      var s := DigitsOf(body);
      assert DigitsOf(body[..j]) == s[..j];
      HoldsLength(p, length, ValueOf(body[..j]));
      PrefixSmaller(s, j);
      DigitsMonotone(ValueOf(body[..j]), ValueOf(body));
    }
  }

  lemma {:induction false} PrefixSmaller(s: seq<int>, j: nat)
    requires Digits(s, 58) && j <= |s|
    ensures BigEndian(s[..j], 58) <= BigEndian(s, 58)
  {
    if j < |s| {
      var n := |s| - 1;
      PrefixSmaller(s[..n], j);
      assert s[..n][..j] == s[..j];
      BigEndianBound(s[..n], 58);
    } else {
      assert s[..j] == s;
    }
  }

  lemma {:induction false} DigitsMonotone(x: nat, y: nat)
    requires x <= y
    ensures |ToDigits(x, 256)| <= |ToDigits(y, 256)|
  {
    if x == 0 {
    } else {
      DigitsMonotone(x / 256, y / 256);
    }
  }

  method Skip(str: string, from: nat, p: char -> bool) returns (i: nat)
    requires from <= |str|
    ensures from <= i <= |str| && i - from == CountWhile(str[from..], p)
  {
    i := from;
    while i < |str| && p(str[i])
      invariant from <= i <= |str| && forall k :: from <= k < i ==> p(str[k])
    {
      i := i + 1;
    }
    CountIs(str[from..], p, i - from);
  }

  /** The loop over the leading '1's, which gives up when there are too many. */
  method CountOnes(str: string, from: nat, maxLen: int) returns (ok: bool, i: nat)
    requires from <= |str|
    ensures from <= i <= |str| && (ok <==> !TooLong(CountWhile(str[from..], IsOne), maxLen))
    ensures ok ==> i - from == CountWhile(str[from..], IsOne)
  {
    i := from;
    while i < |str| && str[i] == '1'
      invariant from <= i <= |str| && (forall k :: from <= k < i ==> str[k] == '1') && !TooLong(i - from, maxLen)
    {
      i := i + 1;
      if i - from > maxLen {
        CountAtLeast(str[from..], IsOne, i - from);
        return false, i;
      }
    }
    CountIs(str[from..], IsOne, i - from);
    ok := true;
  }

  lemma CountAtLeast<T>(s: seq<T>, p: T -> bool, n: nat)
    requires n <= |s| && forall i :: 0 <= i < n ==> p(s[i])
    ensures CountWhile(s, p) >= n
  {
  }

  /** A body that does not start with '1' stands for a positive number. */
  lemma BodyPositive(body: string)
    requires AllDigits(body) && body != [] && body[0] != '1'
    ensures ValueOf(body) > 0 && |ToDigits(ValueOf(body), 256)| > 0
  {
    var s := DigitsOf(body);
    PrefixSmaller(s, 1);
    assert s[..1] == [s[0]] && s[..1][..0] == [];
  }

  method DecodeBase58(str: string, maxLen: int) returns (r: Result)
    ensures r == Decoded(str, maxLen)
  {
    if '\0' in str { return Failure; }
    var a := Skip(str, 0, IsSpace);
    assert str[0..] == str;
    var few, o := CountOnes(str, a, maxLen);
    if !few {
      TrimmedAs(str[a..], CountWhile(str[a..], IsOne), maxLen);
      return Failure;
    }
    OnesEnd(str, a, o);
    r := DecodeRest(str, a, o, maxLen);
  }

  lemma OnesEnd(str: string, a: nat, o: nat)
    requires a <= o <= |str| && o - a == CountWhile(str[a..], IsOne)
    ensures o < |str| ==> str[o] != '1'
  {
    if o < |str| { assert str[a..][o - a] == str[o]; }
  }

  method DecodeRest(str: string, a: nat, o: nat, maxLen: int) returns (r: Result)
    requires '\0' !in str && a <= o <= |str| && a == CountWhile(str, IsSpace) && o - a == CountWhile(str[a..], IsOne)
    requires !TooLong(o - a, maxLen) && (o < |str| ==> str[o] != '1')
    ensures r == Decoded(str, maxLen)
  {
    var e := Skip(str, o, NotSpace);
    var t := Skip(str, e, IsSpace);
    ParsedAs(str, a, o, e, maxLen);
    var ok, d := ReadBody(str[o..e], |str| - o, o - a, maxLen);
    if !ok {
      if AllDigits(str[o..e]) { BodyPositive(str[o..e]); }
      return Failure;
    }
    if t != |str| {
      assert !IsSpace(str[e..][t - e]);
      return Failure;
    }
    r := Success(seq(o - a, _ => 0) + d);
  }

  lemma ParsedAs(str: string, a: nat, o: nat, e: nat, maxLen: int)
    requires '\0' !in str && a <= o <= e <= |str|
    requires a == CountWhile(str, IsSpace) && o - a == CountWhile(str[a..], IsOne)
    requires e - o == CountWhile(str[o..], NotSpace)
    ensures Decoded(str, maxLen) == DecodedBody(o - a, str[o..e], str[e..], maxLen)
  {
    DropDrop(str, a, o);
    TrimmedAs(str[a..], o - a, maxLen);
    DropDrop(str, o, e);
    DropTake(str, o, e);
    RestAs(o - a, str[o..], e - o, maxLen);
  }

  lemma TrimmedAs(text: string, z: nat, maxLen: int)
    requires z == CountWhile(text, IsOne)
    ensures DecodedTrimmed(text, maxLen) == DecodedRest(z, text[z..], maxLen)
  {
  }

  lemma RestAs(zeroes: nat, rest: string, n: nat, maxLen: int)
    requires n == CountWhile(rest, NotSpace)
    ensures DecodedRest(zeroes, rest, maxLen) == DecodedBody(zeroes, rest[..n], rest[n..], maxLen)
  {
  }

  lemma DropDrop<T>(s: seq<T>, i: nat, j: nat)
    requires i <= j <= |s|
    ensures s[i..][j - i..] == s[j..]
  {
  }

  lemma DropTake<T>(s: seq<T>, i: nat, j: nat)
    requires i <= j <= |s|
    ensures s[i..][..j - i] == s[i..j]
  {
  }
}
