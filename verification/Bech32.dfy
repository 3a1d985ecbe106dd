/** The Bech32 codec of bech32.cpp (BIP 173, "Bech32"): the checksum register, and strings. */
module Bech32 {
  import opened Arithmetic

  /** A 5-bit value as its bits, lowest first. */
  type Symbol = w: seq<bool> | |w| == 5 witness seq(5, _ => false)

  type Data = seq<Symbol>

  function One(b: bool): int { if b then 1 else 0 }

  function Num(s: Symbol): (n: int)
    ensures 0 <= n < 32
  {
    One(s[0]) + 2 * One(s[1]) + 4 * One(s[2]) + 8 * One(s[3]) + 16 * One(s[4])
  }

  function Bits5(n: int): Symbol { [n % 2 == 1, n / 2 % 2 == 1, n / 4 % 2 == 1, n / 8 % 2 == 1, n / 16 % 2 == 1] }

  lemma NumOfBits(n: int)
    requires 0 <= n < 32
    ensures Num(Bits5(n)) == n
  {
  }

  lemma BitsOfNum(s: Symbol)
    ensures Bits5(Num(s)) == s
  {
  }

  /** The character set for encoding. */
  function Charset(v: int): char {
    match v
    case 0 => 'q'
    case 1 => 'p'
    case 2 => 'z'
    case 3 => 'r'
    case 4 => 'y'
    case 5 => '9'
    case 6 => 'x'
    case 7 => '8'
    case 8 => 'g'
    case 9 => 'f'
    case 10 => '2'
    case 11 => 't'
    case 12 => 'v'
    case 13 => 'd'
    case 14 => 'w'
    case 15 => '0'
    case 16 => 's'
    case 17 => '3'
    case 18 => 'j'
    case 19 => 'n'
    case 20 => '5'
    case 21 => '4'
    case 22 => 'k'
    case 23 => 'h'
    case 24 => 'c'
    case 25 => 'e'
    case 26 => '6'
    case 27 => 'm'
    case 28 => 'u'
    case 29 => 'a'
    case 30 => '7'
    case _ => 'l'
  }

  /** The character set for decoding, in either case; -1 for other characters. */
  function CharsetRev(c: char): int {
    match c
    case '0' => 15
    case '2' => 10
    case '3' => 17
    case '4' => 21
    case '5' => 20
    case '6' => 26
    case '7' => 30
    case '8' => 7
    case '9' => 5
    case 'A' => 29
    case 'C' => 24
    case 'D' => 13
    case 'E' => 25
    case 'F' => 9
    case 'G' => 8
    case 'H' => 23
    case 'J' => 18
    case 'K' => 22
    case 'L' => 31
    case 'M' => 27
    case 'N' => 19
    case 'P' => 1
    case 'Q' => 0
    case 'R' => 3
    case 'S' => 16
    case 'T' => 11
    case 'U' => 28
    case 'V' => 12
    case 'W' => 14
    case 'X' => 6
    case 'Y' => 4
    case 'Z' => 2
    case 'a' => 29
    case 'c' => 24
    case 'd' => 13
    case 'e' => 25
    case 'f' => 9
    case 'g' => 8
    case 'h' => 23
    case 'j' => 18
    case 'k' => 22
    case 'l' => 31
    case 'm' => 27
    case 'n' => 19
    case 'p' => 1
    case 'q' => 0
    case 'r' => 3
    case 's' => 16
    case 't' => 11
    case 'u' => 28
    case 'v' => 12
    case 'w' => 14
    case 'x' => 6
    case 'y' => 4
    case 'z' => 2
    case _ => -1
  }

  predicate IsUpper(c: char) { 'A' <= c <= 'Z' }

  function LowerCase(c: char): char { if IsUpper(c) then (c as int - 'A' as int + 'a' as int) as char else c }

  lemma RevInvertsCharset(v: int)
    requires 0 <= v < 32
    ensures CharsetRev(Charset(v)) == v && !IsUpper(Charset(v)) && Charset(v) != '1' && '!' <= Charset(v) <= '~'
  {
  }

  lemma CharsetInvertsRev(c: char)
    requires CharsetRev(c) != -1
    ensures 0 <= CharsetRev(c) < 32 && Charset(CharsetRev(c)) == LowerCase(c) && c != '1'
  {
  }

  // ----- the checksum register ------------------------------------------------------------------

  /** The checksum register: 30 bits, lowest first; shifts and exclusive or work bit by bit. */
  type Register = w: seq<bool> | |w| == 30 witness seq(30, _ => false)

  predicate Bit(n: int, i: nat)
    requires i < 30
  {
    n / Pow2(i) % 2 == 1
  }

  function Constant(n: int): Register { seq(30, i requires 0 <= i < 30 => Bit(n, i)) }

  function Xor(a: Register, b: Register): Register { seq(30, i requires 0 <= i < 30 => a[i] != b[i]) }

  function ZeroSymbol(): Symbol { seq(5, _ => false) }

  function XorSymbol(a: Symbol, b: Symbol): Symbol { seq(5, i requires 0 <= i < 5 => a[i] != b[i]) }

  function Zero(): Register { seq(30, _ => false) }

  /** ((c & 0x1ffffff) << 5) ^ v. */
  function Moved(c: Register, v: Symbol): Register {
    seq(30, i requires 0 <= i < 30 => if i < 5 then v[i] else c[i - 5])
  }

  function XorIf(b: bool, c: Register, n: int): Register { if b then Xor(c, Constant(n)) else c }

  /** One symbol: the register times x plus the symbol, modulo the generator. */
  function Step(c: Register, v: Symbol): Register {
    XorIf(c[29], XorIf(c[28], XorIf(c[27], XorIf(c[26], XorIf(c[25], Moved(c, v),
      0x3b6a57b2), 0x26508e6d), 0x1ea119fa), 0x3d4233dd), 0x2a1462b3)
  }

  lemma XorIfLinear(a: bool, b: bool, c: Register, d: Register, n: int)
    ensures XorIf(a != b, Xor(c, d), n) == Xor(XorIf(a, c, n), XorIf(b, d, n))
  {
    forall i | 0 <= i < 30 ensures XorIf(a != b, Xor(c, d), n)[i] == Xor(XorIf(a, c, n), XorIf(b, d, n))[i] {
    }
  }

  /** The step is linear. */
  lemma StepLinear(c: Register, d: Register, v: Symbol, w: Symbol)
    ensures Step(Xor(c, d), XorSymbol(v, w)) == Xor(Step(c, v), Step(d, w))
  {
    var p, q := Moved(c, v), Moved(d, w);
    assert Moved(Xor(c, d), XorSymbol(v, w)) == Xor(p, q);
    XorIfLinear(c[25], d[25], p, q, 0x3b6a57b2);
    var p1, q1 := XorIf(c[25], p, 0x3b6a57b2), XorIf(d[25], q, 0x3b6a57b2);
    XorIfLinear(c[26], d[26], p1, q1, 0x26508e6d);
    var p2, q2 := XorIf(c[26], p1, 0x26508e6d), XorIf(d[26], q1, 0x26508e6d);
    XorIfLinear(c[27], d[27], p2, q2, 0x1ea119fa);
    var p3, q3 := XorIf(c[27], p2, 0x1ea119fa), XorIf(d[27], q2, 0x1ea119fa);
    XorIfLinear(c[28], d[28], p3, q3, 0x3d4233dd);
    var p4, q4 := XorIf(c[28], p3, 0x3d4233dd), XorIf(d[28], q3, 0x3d4233dd);
    XorIfLinear(c[29], d[29], p4, q4, 0x2a1462b3);
  }

  /** A bit of the stepped register. */
  lemma StepBit(c: Register, v: Symbol, i: nat)
    requires i < 30
    ensures Step(c, v)[i] == Parity(Moved(c, v)[i], c[25] && Bit(0x3b6a57b2, i), c[26] && Bit(0x26508e6d, i),
                                    c[27] && Bit(0x1ea119fa, i), c[28] && Bit(0x3d4233dd, i),
                                    c[29] && Bit(0x2a1462b3, i))
  {
  }

  predicate Parity(a: bool, b: bool, c: bool, d: bool, e: bool, f: bool) { ((((a != b) != c) != d) != e) != f }

  /** The constant terms of the five multiples of the generator. */
  lemma ConstantTerms()
    ensures !Bit(0x3b6a57b2, 0) && Bit(0x3b6a57b2, 1) && !Bit(0x3b6a57b2, 2)
    ensures !Bit(0x3b6a57b2, 3) && Bit(0x3b6a57b2, 4)
    ensures Bit(0x26508e6d, 0) && !Bit(0x26508e6d, 1) && Bit(0x26508e6d, 2) && Bit(0x26508e6d, 3) && !Bit(0x26508e6d, 4)
    ensures !Bit(0x1ea119fa, 0) && Bit(0x1ea119fa, 1) && !Bit(0x1ea119fa, 2) && Bit(0x1ea119fa, 3) && Bit(0x1ea119fa, 4)
    ensures Bit(0x3d4233dd, 0) && !Bit(0x3d4233dd, 1) && Bit(0x3d4233dd, 2) && Bit(0x3d4233dd, 3) && Bit(0x3d4233dd, 4)
    ensures Bit(0x2a1462b3, 0) && Bit(0x2a1462b3, 1) && !Bit(0x2a1462b3, 2) && !Bit(0x2a1462b3, 3) && Bit(0x2a1462b3, 4)
  {
    assert Pow2(0) == 1 && Pow2(1) == 2 && Pow2(2) == 4 && Pow2(3) == 8 && Pow2(4) == 16;
  }

  /** Nothing but zero is lost by a step: the generator has a constant term. */
  lemma StepKeepsNonzero(c: Register)
    requires Step(c, ZeroSymbol()) == Zero()
    ensures c == Zero()
  {
    TopIsZero(c);
    forall i | 0 <= i < 25 ensures !c[i] { StepBit(c, ZeroSymbol(), i + 5); }
  }

  lemma TopIsZero(c: Register)
    requires Step(c, ZeroSymbol()) == Zero()
    ensures !c[25] && !c[26] && !c[27] && !c[28] && !c[29]
  {
    ConstantTerms();
    StepBit(c, ZeroSymbol(), 0);
    StepBit(c, ZeroSymbol(), 1);
    StepBit(c, ZeroSymbol(), 2);
    StepBit(c, ZeroSymbol(), 3);
    StepBit(c, ZeroSymbol(), 4);
  }

  // ----- whole inputs ---------------------------------------------------------------------------

  /** The register after some symbols. */
  function Run(c: Register, v: Data): Register {
    if v == [] then c else Step(Run(c, v[..|v| - 1]), v[|v| - 1])
  }

  function Start(): Register { seq(30, i => i == 0) }

  /** PolyMod, as the loop over the input. */
  method PolyMod(v: Data) returns (c: Register)
    ensures c == Run(Start(), v)
  {
    c := Start();
    var i := 0;
    while i < |v|
      invariant i <= |v| && c == Run(Start(), v[..i])
    {
      assert v[..i + 1][..i] == v[..i];
      c := Step(c, v[i]);
      i := i + 1;
    }
    assert v[..i] == v;
  }

  lemma {:induction false} RunConcat(c: Register, v: Data, w: Data)
    ensures Run(c, v + w) == Run(Run(c, v), w)
  {
    if w == [] {
      assert v + w == v;
    } else {
      var n := |w| - 1;
      RunConcat(c, v, w[..n]);
      assert (v + w)[..|v + w| - 1] == v + w[..n];
    }
  }

  function XorData(v: Data, w: Data): Data
    requires |v| == |w|
  {
    seq(|v|, i requires 0 <= i < |v| => XorSymbol(v[i], w[i]))
  }

  /** The register is linear in its start and its input. */
  lemma {:induction false} RunLinear(c: Register, d: Register, v: Data, w: Data)
    requires |v| == |w|
    ensures Run(Xor(c, d), XorData(v, w)) == Xor(Run(c, v), Run(d, w))
  {
    if v == [] {
    } else {
      var n := |v| - 1;
      RunLinear(c, d, v[..n], w[..n]);
      assert XorData(v, w)[..n] == XorData(v[..n], w[..n]);
      StepLinear(Run(c, v[..n]), Run(d, w[..n]), v[n], w[n]);
    }
  }

  /** Up to six symbols fill an empty register, in order. */
  lemma {:induction false} RunPacks(e: Data)
    requires |e| <= 6
    ensures forall i :: 5 * |e| <= i < 30 ==> !Run(Zero(), e)[i]
    ensures forall j, b :: 0 <= j < |e| && 0 <= b < 5 ==> Run(Zero(), e)[5 * (|e| - 1 - j) + b] == e[j][b]
  {
    if e == [] {
    } else {
      var n := |e| - 1;
      RunPacks(e[..n]);
      var c := Run(Zero(), e[..n]);
      assert Run(Zero(), e) == Moved(c, e[n]);
      forall j, b | 0 <= j < |e| && 0 <= b < 5 ensures Run(Zero(), e)[5 * (n - j) + b] == e[j][b] {
        if j < n { assert c[5 * (n - 1 - j) + b] == e[..n][j][b]; }
      }
    }
  }

  lemma {:induction false} RunZeros(c: Register, zeros: Data)
    requires c != Zero() && forall i :: 0 <= i < |zeros| ==> zeros[i] == ZeroSymbol()
    ensures Run(c, zeros) != Zero()
  {
    if zeros == [] {
    } else {
      var n := |zeros| - 1;
      RunZeros(c, zeros[..n]);
      if Run(c, zeros) == Zero() { StepKeepsNonzero(Run(c, zeros[..n])); }
    }
  }

  /** A difference that does not leave an empty register changes the checksum, whatever follows. */
  lemma ChangeDetected(before: Data, a: Data, b: Data, after: Data)
    requires |a| == |b| && Run(Zero(), XorData(a, b)) != Zero()
    ensures Run(Start(), before + a + after) != Run(Start(), before + b + after)
  {
    var c, zeros := Run(Start(), before), XorData(after, after);
    var p, q := Run(c, a), Run(c, b);
    RunConcat(Start(), before + a, after);
    RunConcat(Start(), before, a);
    RunConcat(Start(), before + b, after);
    RunConcat(Start(), before, b);
    RunLinear(c, c, a, b);
    SelfXor(c);
    assert Xor(p, q) != Zero();
    RunLinear(p, q, after, after);
    forall i | 0 <= i < |zeros| ensures zeros[i] == ZeroSymbol() {
      assert XorSymbol(after[i], after[i]) == ZeroSymbol();
    }
    RunZeros(Xor(p, q), zeros);
    SelfXor(Run(p, after));
  }

  /** Any change within six consecutive symbols changes the checksum, whatever the length. */
  lemma BurstDetected(before: Data, a: Data, b: Data, after: Data)
    requires |a| == |b| <= 6 && a != b
    ensures Run(Start(), before + a + after) != Run(Start(), before + b + after)
  {
    DifferentSymbols(a, b);
    ChangeDetected(before, a, b, after);
  }

  lemma SelfXor(c: Register)
    ensures Xor(c, c) == Zero()
  {
  }

  /** Different short inputs leave different registers. */
  lemma DifferentSymbols(a: Data, b: Data)
    requires |a| == |b| <= 6 && a != b
    ensures Run(Zero(), XorData(a, b)) != Zero()
  {
    var e := XorData(a, b);
    var j :| 0 <= j < |a| && a[j] != b[j];
    var k :| 0 <= k < 5 && a[j][k] != b[j][k];
    RunPacks(e);
    assert Run(Zero(), e)[5 * (|e| - 1 - j) + k] == e[j][k];
  }

  // ----- checksums ------------------------------------------------------------------------------

  function ExpandHRP(hrp: string): Data {
    seq(|hrp|, i requires 0 <= i < |hrp| => Bits5(hrp[i] as int / 32)) + [ZeroSymbol()] +
    seq(|hrp|, i requires 0 <= i < |hrp| => Bits5(hrp[i] as int % 32))
  }

  function SixZeros(): Data { seq(6, _ => ZeroSymbol()) }

  /** The i-th 5-bit group of a register, highest first. */
  function Group(c: Register, i: nat): Symbol
    requires i < 6
  {
    seq(5, b requires 0 <= b < 5 => c[5 * (5 - i) + b])
  }

  function Checksum(hrp: string, values: Data): (r: Data)
    ensures |r| == 6
  {
    var mod := Xor(Run(Start(), ExpandHRP(hrp) + values + SixZeros()), Start());
    seq(6, i requires 0 <= i < 6 => Group(mod, i))
  }

  predicate Verifies(hrp: string, values: Data) { Run(Start(), ExpandHRP(hrp) + values) == Start() }

  lemma GroupsPack(c: Register, groups: Data)
    requires |groups| == 6 && forall i :: 0 <= i < 6 ==> groups[i] == Group(c, i)
    ensures Run(Zero(), groups) == c
  {
    RunPacks(groups);
    forall k | 0 <= k < 30 ensures Run(Zero(), groups)[k] == c[k] {
      var j, b := 5 - k / 5, k % 5;
      assert Run(Zero(), groups)[5 * (6 - 1 - j) + b] == groups[j][b];
    }
  }

  lemma XorZeros(check: Data)
    requires |check| == 6
    ensures XorData(SixZeros(), check) == check
  {
    forall i | 0 <= i < 6 ensures XorData(SixZeros(), check)[i] == check[i] {
      assert XorSymbol(ZeroSymbol(), check[i]) == check[i];
    }
  }

  /** Every checksum verifies. */
  lemma ChecksumVerifies(hrp: string, values: Data)
    ensures Verifies(hrp, values + Checksum(hrp, values))
  {
    var prefix, check := ExpandHRP(hrp) + values, Checksum(hrp, values);
    var c := Run(Start(), prefix);
    RunConcat(Start(), prefix, SixZeros());
    RunConcat(Start(), prefix, check);
    var m := Run(c, SixZeros());
    GroupsPack(Xor(m, Start()), check);
    assert Xor(c, Zero()) == c;
    XorZeros(check);
    RunLinear(c, Zero(), SixZeros(), check);
    assert Xor(m, Xor(m, Start())) == Start();
    assert ExpandHRP(hrp) + (values + check) == prefix + check;
  }

  /** Only one checksum verifies. */
  lemma ChecksumUnique(hrp: string, values: Data, check: Data)
    requires |check| == 6 && Verifies(hrp, values + check)
    ensures check == Checksum(hrp, values)
  {
    ChecksumVerifies(hrp, values);
    var prefix, good := ExpandHRP(hrp) + values, Checksum(hrp, values);
    assert ExpandHRP(hrp) + (values + check) == prefix + check + []
        && ExpandHRP(hrp) + (values + good) == prefix + good + [];
    if check != good {
      BurstDetected(prefix, check, good, []);
      assert false;
    }
  }

  /** Verification fails after any change within six consecutive symbols of what verified. */
  lemma CorruptionDetected(hrp: string, before: Data, a: Data, b: Data, after: Data)
    requires |a| == |b| <= 6 && a != b && Verifies(hrp, before + a + after)
    ensures !Verifies(hrp, before + b + after)
  {
    var prefix := ExpandHRP(hrp) + before;
    assert ExpandHRP(hrp) + (before + a + after) == prefix + a + after
        && ExpandHRP(hrp) + (before + b + after) == prefix + b + after;
    BurstDetected(prefix, a, b, after);
  }

  // ----- strings --------------------------------------------------------------------------------

  function Chars(v: Data): string { seq(|v|, i requires 0 <= i < |v| => Charset(Num(v[i]))) }

  function EncodeString(hrp: string, values: Data): string { hrp + ['1'] + Chars(values + Checksum(hrp, values)) }

  method CreateChecksum(hrp: string, values: Data) returns (ret: Data)
    ensures ret == Checksum(hrp, values)
  {
    var mod := PolyMod(ExpandHRP(hrp) + values + SixZeros());
    mod := Xor(mod, Start());
    ret := [];
    while |ret| < 6
      invariant |ret| <= 6 && forall i :: 0 <= i < |ret| ==> ret[i] == Group(mod, i)
    {
      ret := ret + [Group(mod, |ret|)];
    }
  }

  method Encode(hrp: string, values: Data) returns (ret: string)
    requires forall i :: 0 <= i < |hrp| ==> !IsUpper(hrp[i])
    ensures ret == EncodeString(hrp, values)
  {
    var checksum := CreateChecksum(hrp, values);
    var text := WriteValues(values + checksum);
    ret := hrp + ['1'] + text;
  }

  method WriteValues(v: Data) returns (text: string)
    ensures text == Chars(v)
  {
    text := [];
    while |text| < |v|
      invariant |text| <= |v| && forall i :: 0 <= i < |text| ==> text[i] == Charset(Num(v[i]))
    {
      text := text + [Charset(Num(v[|text|]))];
    }
  }

  method ReadValues(text: string) returns (ok: bool, values: Data)
    ensures ok <==> forall i :: 0 <= i < |text| ==> CharsetRev(text[i]) != -1
    ensures ok ==> values == ValuesOf(text)
  {
    values := [];
    while |values| < |text|
      invariant |values| <= |text|
      invariant forall i :: 0 <= i < |values| ==> CharsetRev(text[i]) != -1 && values[i] == Bits5(CharsetRev(text[i]))
    {
      var rev := CharsetRev(text[|values|]);
      if rev == -1 { return false, values; }
      values := values + [Bits5(rev)];
    }
    ok := true;
  }

  method WriteLower(text: string) returns (r: string)
    ensures r == Lower(text)
  {
    r := [];
    while |r| < |text|
      invariant |r| <= |text| && forall i :: 0 <= i < |r| ==> r[i] == LowerCase(text[i])
    {
      r := r + [LowerCase(text[|r|])];
    }
  }

  datatype Result = Failure | Success(hrp: string, values: Data)

  /** Printable, and not of both cases. */
  predicate Acceptable(str: string) {
    && (forall i :: 0 <= i < |str| ==> '!' <= str[i] <= '~')
    && ((exists i :: 0 <= i < |str| && 'a' <= str[i] <= 'z') ==> forall j :: 0 <= j < |str| ==> !IsUpper(str[j]))
  }

  /** The position of the last '1', or the length. */
  predicate LastOne(str: string, pos: nat) {
    && pos <= |str| && (pos < |str| ==> str[pos] == '1')
    && forall i :: 0 <= i < |str| && (i > pos || pos == |str|) ==> str[i] != '1'
  }

  function Lower(str: string): string { seq(|str|, i requires 0 <= i < |str| => LowerCase(str[i])) }

  /** The values of characters that are all in the character set. */
  function ValuesOf(str: string): Data
    requires forall i :: 0 <= i < |str| ==> CharsetRev(str[i]) != -1
  {
    seq(|str|, i requires 0 <= i < |str| => Bits5(CharsetRev(str[i])))
  }

  /** What decoding a string must give, for the position of its last separator. */
  predicate DecodesTo(str: string, pos: nat, r: Result)
    requires LastOne(str, pos)
  {
    var bad := !Acceptable(str) || |str| > 90 || pos == |str| || pos == 0 || pos + 7 > |str|;
    if bad || exists i :: pos < i < |str| && CharsetRev(str[i]) == -1 then r == Failure
    else
      var hrp, values := Lower(str[..pos]), ValuesOf(str[pos + 1..]);
      r == if Verifies(hrp, values) then Success(hrp, values[..|values| - 6]) else Failure
  }

  method CheckCharacters(str: string) returns (ok: bool)
    ensures ok <==> Acceptable(str)
  {
    var lower, upper := false, false;
    var i := 0;
    while i < |str|
      invariant i <= |str| && forall j :: 0 <= j < i ==> '!' <= str[j] <= '~'
      invariant lower <==> exists j :: 0 <= j < i && 'a' <= str[j] <= 'z'
      invariant upper <==> exists j :: 0 <= j < i && IsUpper(str[j])
    {
      var c := str[i];
      if 'a' <= c <= 'z' {
        lower := true;
      } else if IsUpper(c) {
        upper := true;
      } else if c as int < 33 || c as int > 126 {
        return false;
      }
      i := i + 1;
    }
    ok := !(lower && upper);
  }

  method FindLast(str: string) returns (pos: nat)
    ensures LastOne(str, pos)
  {
    var i := |str|;
    while i > 0
      invariant 0 <= i <= |str| && forall j :: i <= j < |str| ==> str[j] != '1'
    {
      i := i - 1;
      if str[i] == '1' { return i; }
    }
    pos := |str|;
  }

  method Decode(str: string) returns (r: Result, ghost pos: nat)
    ensures LastOne(str, pos) && DecodesTo(str, pos, r)
  {
    var ok := CheckCharacters(str);
    var one := FindLast(str);
    pos, r := one, Failure;
    if !ok || |str| > 90 || one == |str| || one == 0 || one + 7 > |str| { return; }
    var known, values := ReadValues(str[one + 1..]);
    if !known {
      ghost var i :| 0 <= i < |str[one + 1..]| && CharsetRev(str[one + 1..][i]) == -1;
      assert CharsetRev(str[one + 1 + i]) == -1;
      return;
    }
    forall i | one < i < |str| ensures CharsetRev(str[i]) != -1 { assert str[i] == str[one + 1..][i - one - 1]; }
    var hrp := WriteLower(str[..one]);
    var c := PolyMod(ExpandHRP(hrp) + values);
    if c == Start() { r := Success(hrp, values[..|values| - 6]); }
  }

  // ----- decoding and encoding ------------------------------------------------------------------

  /** The prefixes that survive: not empty, printable and without upper case. */
  predicate GoodPrefix(hrp: string) {
    hrp != [] && forall i :: 0 <= i < |hrp| ==> '!' <= hrp[i] <= '~' && !IsUpper(hrp[i])
  }

  /** Decoding what was encoded gives it back exactly when the prefix is good and the whole string has
      at most 90 characters. */
  lemma RoundTrip(hrp: string, values: Data, pos: nat, r: Result)
    requires forall i :: 0 <= i < |hrp| ==> !IsUpper(hrp[i])
    requires LastOne(EncodeString(hrp, values), pos) && DecodesTo(EncodeString(hrp, values), pos, r)
    ensures r == (if GoodPrefix(hrp) && |hrp| + 7 + |values| <= 90 then Success(hrp, values) else Failure)
  {
    var s, data := EncodeString(hrp, values), values + Checksum(hrp, values);
    SeparatorOf(hrp, data, pos);
    EncodedAcceptable(hrp, data);
    EncodedParts(hrp, data);
    ValuesOfChars(data);
    ChecksumVerifies(hrp, values);
    assert data[..|data| - 6] == values;
  }

  lemma EncodedParts(hrp: string, data: Data)
    requires forall i :: 0 <= i < |hrp| ==> !IsUpper(hrp[i])
    ensures var s := hrp + ['1'] + Chars(data);
      && s[..|hrp|] == hrp && Lower(hrp) == hrp && s[|hrp| + 1..] == Chars(data)
      && forall i :: |hrp| < i < |s| ==> CharsetRev(s[i]) != -1
  {
    var s := hrp + ['1'] + Chars(data);
    ValuesOfChars(data);
    forall i | |hrp| < i < |s| ensures CharsetRev(s[i]) != -1 { assert s[i] == Chars(data)[i - |hrp| - 1]; }
  }

  lemma SeparatorOf(hrp: string, data: Data, pos: nat)
    requires LastOne(hrp + ['1'] + Chars(data), pos)
    ensures pos == |hrp|
  {
    var s := hrp + ['1'] + Chars(data);
    assert s[|hrp|] == '1';
    forall i | |hrp| < i < |s| ensures s[i] != '1' {
      RevInvertsCharset(Num(data[i - |hrp| - 1]));
    }
  }

  lemma EncodedAcceptable(hrp: string, data: Data)
    requires forall i :: 0 <= i < |hrp| ==> !IsUpper(hrp[i])
    ensures Acceptable(hrp + ['1'] + Chars(data)) <==> forall i :: 0 <= i < |hrp| ==> '!' <= hrp[i] <= '~'
  {
    var s := hrp + ['1'] + Chars(data);
    forall i | |hrp| < i < |s| ensures '!' <= s[i] <= '~' && !IsUpper(s[i]) {
      RevInvertsCharset(Num(data[i - |hrp| - 1]));
    }
    forall i | 0 <= i < |hrp| ensures s[i] == hrp[i] {}
  }

  lemma ValuesOfChars(data: Data)
    ensures forall i :: 0 <= i < |data| ==> CharsetRev(Chars(data)[i]) != -1
    ensures ValuesOf(Chars(data)) == data
  {
    forall i | 0 <= i < |data|
      ensures CharsetRev(Chars(data)[i]) != -1 && Bits5(CharsetRev(Chars(data)[i])) == data[i]
    {
      RevInvertsCharset(Num(data[i]));
      BitsOfNum(data[i]);
    }
  }

  /** A string that decodes is, in lower case, what the result encodes to: no two different lower-case
      strings decode to the same thing. */
  lemma DecodeIsCanonical(str: string, pos: nat, r: Result)
    requires LastOne(str, pos) && DecodesTo(str, pos, r) && r.Success?
    ensures EncodeString(r.hrp, r.values) == Lower(str)
  {
    var values := ValuesOf(str[pos + 1..]);
    var n := |values| - 6;
    assert values == values[..n] + values[n..];
    ChecksumUnique(r.hrp, r.values, values[n..]);
    CharsOfValues(str[pos + 1..]);
    LowerJoins(str, pos);
  }

  lemma LowerJoins(str: string, pos: nat)
    requires pos < |str| && str[pos] == '1'
    ensures Lower(str) == Lower(str[..pos]) + ['1'] + Lower(str[pos + 1..])
  {
  }

  lemma CharsOfValues(text: string)
    requires forall i :: 0 <= i < |text| ==> CharsetRev(text[i]) != -1
    ensures Chars(ValuesOf(text)) == Lower(text)
  {
    forall i | 0 <= i < |text| ensures Chars(ValuesOf(text))[i] == LowerCase(text[i]) {
      CharsetInvertsRev(text[i]);
      NumOfBits(CharsetRev(text[i]));
    }
  }
}
