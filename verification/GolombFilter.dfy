/** The Golomb-coded set filter of blockfilter.cpp (BIP 158): Golomb-Rice codes on a bit stream, the map
    into a range, and matching by merging two sorted lists. */
module GolombFilter {
  import opened Arithmetic
  import opened Bits

  const TWO_64 := 0x1_0000_0000_0000_0000

  // ----- mapping into a range -------------------------------------------------------------------

  /** The upper 64 bits of a product from 32-bit halves; no intermediate sum reaches 2^64. */
  method MapIntoRange(x: nat, n: nat) returns (upper: nat)
    requires x < TWO_64 && n < TWO_64
    ensures upper == x * n / TWO_64 && upper < TWO_64 && (n > 0 ==> upper < n)
  {
    var xHi, xLo, nHi, nLo := x / TWO_32, x % TWO_32, n / TWO_32, n % TWO_32;
    HalfProducts(xHi, nHi);
    HalfProducts(xHi, nLo);
    HalfProducts(xLo, nHi);
    HalfProducts(xLo, nLo);
    var ac, ad, bc, bd := xHi * nHi, xHi * nLo, xLo * nHi, xLo * nLo;
    ProductOfHalves(xHi, xLo, nHi, nLo);
    upper := SumOfHalves(ac, ad, bc, bd);
    assert x == xHi * TWO_32 + xLo && n == nHi * TWO_32 + nLo;
    UpperFits(x, n);
  }

  /** The sums of the source, each below 2^64. */
  method SumOfHalves(ac: nat, ad: nat, bc: nat, bd: nat) returns (upper: nat)
    requires ac < TWO_64 && ad < TWO_64 && bc < TWO_64 && bd < TWO_64
    ensures upper == (ac * TWO_64 + (ad + bc) * TWO_32 + bd) / TWO_64
  {
    var mid34 := bd / TWO_32 + bc % TWO_32 + ad % TWO_32;
    assert mid34 < TWO_64;
    upper := ac + bc / TWO_32 + ad / TWO_32 + mid34 / TWO_32;
    UpperHalf(ac, ad, bc, bd);
  }

  lemma HalfProducts(a: nat, b: nat)
    requires a < TWO_32 && b < TWO_32
    ensures 0 <= a * b <= TWO_64 - 2 * TWO_32 + 1
  {
    MulNonNegative(a, b);
    MulMonotone(a, TWO_32 - 1, b);
    MulMonotone(b, TWO_32 - 1, TWO_32 - 1);
  }

  lemma ProductOfHalves(a: nat, b: nat, c: nat, d: nat)
    ensures (a * TWO_32 + b) * (c * TWO_32 + d) == (a * c) * TWO_64 + (a * d + b * c) * TWO_32 + b * d
  {
    MulAdd(a * TWO_32, b, c * TWO_32 + d);
    MulDistribute(a * TWO_32, c * TWO_32, d);
    MulDistribute(b, c * TWO_32, d);
  }

  lemma UpperHalf(ac: nat, ad: nat, bc: nat, bd: nat)
    requires ac < TWO_64 && ad < TWO_64 && bc < TWO_64 && bd < TWO_64
    ensures (ac * TWO_64 + (ad + bc) * TWO_32 + bd) / TWO_64 ==
      ac + bc / TWO_32 + ad / TWO_32 + (bd / TWO_32 + bc % TWO_32 + ad % TWO_32) / TWO_32
  {
    var mid := bd / TWO_32 + bc % TWO_32 + ad % TWO_32;
    var q := ac + bc / TWO_32 + ad / TWO_32 + mid / TWO_32;
    var r := (mid % TWO_32) * TWO_32 + bd % TWO_32;
    assert ac * TWO_64 + (ad + bc) * TWO_32 + bd == q * TWO_64 + r;
    DivUnique(ac * TWO_64 + (ad + bc) * TWO_32 + bd, TWO_64, q, r);
  }

  lemma UpperFits(x: nat, n: nat)
    requires x < TWO_64 && n < TWO_64
    ensures 0 <= x * n / TWO_64 < TWO_64 && (n > 0 ==> x * n / TWO_64 < n)
  {
    MulNonNegative(x, n);
    MulMonotone(x, TWO_64 - 1, n);
    if n > 0 { QuotientBelow(x * n, TWO_64, n); } else { DivUnique(0, TWO_64, 0, 0); }
  }

  // ----- Golomb-Rice codes ----------------------------------------------------------------------

  /** The lowest n bits of x, highest first. */
  function LowBits(x: nat, n: nat): (r: seq<bool>)
    ensures |r| == n
  {
    if n == 0 then [] else LowBits(x / 2, n - 1) + [x % 2 == 1]
  }

  /** The number that bits stand for, highest first. */
  function NumberOf(bits: seq<bool>): nat {
    if bits == [] then 0 else 2 * NumberOf(bits[..|bits| - 1]) + (if bits[|bits| - 1] then 1 else 0)
  }

  lemma {:induction false} LowBitsRemainder(x: nat, n: nat)
    ensures NumberOf(LowBits(x, n)) == x % Pow2(n)
  {
    if n == 0 {
    } else {
      LowBitsRemainder(x / 2, n - 1);
      var b := LowBits(x, n);
      assert b[..n - 1] == LowBits(x / 2, n - 1);
      HalveRemainder(x, Pow2(n - 1));
    }
  }

  lemma HalveRemainder(x: nat, p: nat)
    requires p > 0
    ensures x % (2 * p) == 2 * (x / 2 % p) + x % 2
  {
    var q := x / 2 / p;
    DivMod(x / 2, p);
    MulAssoc(q, 2, p);
    DivUnique(x, 2 * p, q, 2 * (x / 2 % p) + x % 2);
  }

  /** The quotient in unary, a zero, and the remainder in P bits. */
  function Code(p: nat, x: nat): seq<bool> {
    QuotientNatural(x, Pow2(p));
    seq(x / Pow2(p), _ => true) + [false] + LowBits(x, p)
  }

  lemma QuotientNatural(x: nat, d: nat)
    requires d > 0
    ensures x / d >= 0
  {
    DivMod(x, d);
    if x / d < 0 {
      MulMonotone(x / d, -1, d);
      assert false;
    }
  }

  /** GolombRiceEncode appends the code, writing ones in chunks of at most 64. */
  method GolombRiceEncode(stream: seq<bool>, p: nat, x: nat) returns (out: seq<bool>)
    ensures out == stream + Code(p, x)
  {
    QuotientNatural(x, Pow2(p));
    var q := x / Pow2(p);
    ghost var total := q;
    out := stream;
    while q > 0
      invariant 0 <= q <= total && out == stream + seq(total - q, _ => true)
    {
      var nbits := if q <= 64 then q else 64;
      out := out + seq(nbits, _ => true);
      q := q - nbits;
    }
    out := out + [false] + LowBits(x, p);
  }

  datatype Reading = EndOfStream | Value(value: nat, pos: nat)

  /** Where the run of ones from i on ends. */
  function EndOfOnes(stream: seq<bool>, i: nat): (r: nat)
    requires i <= |stream|
    ensures i <= r <= |stream| && (forall k :: i <= k < r ==> stream[k]) && (r < |stream| ==> !stream[r])
    decreases |stream| - i
  {
    if i < |stream| && stream[i] then EndOfOnes(stream, i + 1) else i
  }

  /** Where the code that starts at a position ends, or -1 when the stream ends first. */
  function CodeEnd(stream: seq<bool>, start: nat, p: nat): (r: int)
    requires start <= |stream|
    ensures r <= |stream|
  {
    var e := EndOfOnes(stream, start);
    if e == |stream| || e + 1 + p > |stream| then -1 else e + 1 + p
  }

  /** The code that starts at a position; reading past the end is an error, and numbers have 64 bits. */
  function Decoded(stream: seq<bool>, start: nat, p: nat): (r: Reading)
    requires start <= |stream|
    ensures if CodeEnd(stream, start, p) < 0 then r == EndOfStream else r.Value? && r.pos == CodeEnd(stream, start, p)
  {
    var e := EndOfOnes(stream, start);
    if CodeEnd(stream, start, p) < 0 then EndOfStream
    else
      MulNonNegative(e - start, Pow2(p));
      Value(((e - start) * Pow2(p) + NumberOf(stream[e + 1..e + 1 + p])) % TWO_64, e + 1 + p)
  }

  method GolombRiceDecode(stream: seq<bool>, start: nat, p: nat) returns (r: Reading)
    requires start <= |stream|
    ensures r == Decoded(stream, start, p)
  {
    var q, pos := 0, start;
    while pos < |stream| && stream[pos]
      invariant start <= pos <= |stream| && q == pos - start && EndOfOnes(stream, pos) == EndOfOnes(stream, start)
    {
      q, pos := q + 1, pos + 1;
    }
    if pos == |stream| { return EndOfStream; }
    pos := pos + 1;
    if pos + p > |stream| { return EndOfStream; }
    MulNonNegative(q, Pow2(p));
    r := Value((q * Pow2(p) + NumberOf(stream[pos..pos + p])) % TWO_64, pos + p);
  }

  /** Decoding inverts encoding, wherever in a stream the code stands. */
  lemma DecodeInvertsEncode(stream: seq<bool>, start: nat, p: nat, x: nat)
    requires x < TWO_64 && Carries(stream, start, Code(p, x))
    ensures Decoded(stream, start, p) == Value(x, start + |Code(p, x)|)
  {
    var q := CodeShape(p, x);
    var code, pos := Code(p, x), EndOfOnes(stream, start);
    forall k | start <= k <= start + q ensures stream[k] == (k < start + q) {
      assert stream[k] == stream[start..start + |code|][k - start] == code[k - start];
    }
    assert start + q < |stream| && !stream[start + q];
    assert pos == start + q;
    assert stream[pos + 1..pos + 1 + p] == code[q + 1..] by {
      assert stream[pos + 1..pos + 1 + p] == stream[start..start + |code|][q + 1..];
    }
    DivUnique(x, TWO_64, 0, x);
  }

  lemma CodeShape(p: nat, x: nat) returns (q: nat)
    ensures |Code(p, x)| == q + 1 + p && (forall i :: 0 <= i <= q ==> Code(p, x)[i] == (i < q))
    ensures q * Pow2(p) + NumberOf(Code(p, x)[q + 1..]) == x
  {
    QuotientNatural(x, Pow2(p));
    q := x / Pow2(p);
    assert Code(p, x)[q + 1..] == LowBits(x, p);
    LowBitsRemainder(x, p);
    DivMod(x, Pow2(p));
  }

  // ----- filters --------------------------------------------------------------------------------

  predicate Ascending(v: seq<nat>) { forall i, j :: 0 <= i < j < |v| ==> v[i] <= v[j] }

  /** The codes of the differences of an ascending list. */
  function Encoded(p: nat, v: seq<nat>): seq<bool>
    requires Ascending(v)
  {
    if v == [] then [] else Encoded(p, v[..|v| - 1]) + Code(p, v[|v| - 1] - (if |v| == 1 then 0 else v[|v| - 2]))
  }

  /** Where the i-th code starts. */
  function Offset(p: nat, v: seq<nat>, i: nat): nat
    requires Ascending(v) && i <= |v|
  {
    |Encoded(p, v[..i])|
  }

  function Difference(v: seq<nat>, i: nat): nat
    requires Ascending(v) && i < |v|
  {
    v[i] - (if i == 0 then 0 else v[i - 1])
  }

  lemma {:induction false} EncodedCarries(p: nat, v: seq<nat>, i: nat)
    requires Ascending(v) && i < |v|
    ensures Carries(Encoded(p, v), Offset(p, v, i), Code(p, Difference(v, i)))
    ensures Offset(p, v, i + 1) == Offset(p, v, i) + |Code(p, Difference(v, i))|
    decreases |v|
  {
    var n := |v| - 1;
    var rest, last := Encoded(p, v[..n]), Code(p, Difference(v, n));
    assert Encoded(p, v) == rest + last;
    if i == n {
      assert v[..i + 1] == v;
      CarriesLast(rest, last);
    } else {
      EncodedCarries(p, v[..n], i);
      assert v[..n][..i] == v[..i] && v[..n][..i + 1] == v[..i + 1];
      CarriesLonger(rest, last, Offset(p, v, i), Code(p, Difference(v, i)));
    }
  }

  lemma CarriesLast(s: seq<bool>, part: seq<bool>)
    ensures Carries(s + part, |s|, part)
  {
  }

  lemma CarriesLonger(s: seq<bool>, t: seq<bool>, i: nat, part: seq<bool>)
    requires Carries(s, i, part)
    ensures Carries(s + t, i, part)
  {
    assert (s + t)[i..i + |part|] == s[i..i + |part|];
  }

  type Element = seq<nat>

  /** SipHash of an element under the filter's key. */
  type HashFunction = Element -> nat

  function RangeHash(hash: HashFunction, range: nat, e: Element): nat
    requires range < TWO_64
  {
    UpperFits(hash(e) % TWO_64, range);
    (hash(e) % TWO_64) * range / TWO_64
  }

  /** BuildHashedSet: the range hashes of the elements, ascending. */
  method BuildHashedSet(hash: HashFunction, range: nat, elements: seq<Element>) returns (v: seq<nat>)
    requires range < TWO_64
    ensures Ascending(v) && |v| == |elements|
    ensures forall x :: x in v <==> exists i :: 0 <= i < |elements| && RangeHash(hash, range, elements[i]) == x
    ensures forall i :: 0 <= i < |v| ==> v[i] < TWO_64
  {
    v := [];
    var i := 0;
    while i < |elements|
      invariant i <= |elements| == |elements| && |v| == i && Ascending(v)
      invariant forall x :: x in v <==> exists k :: 0 <= k < i && RangeHash(hash, range, elements[k]) == x
      invariant forall k :: 0 <= k < |v| ==> v[k] < TWO_64
    {
      var h := MapIntoRange(hash(elements[i]) % TWO_64, range);
      ghost var before := v;
      v := InsertAscending(v, h);
      forall x ensures x in v <==> exists k :: 0 <= k < i + 1 && RangeHash(hash, range, elements[k]) == x {
        assert x in v <==> x in before || x == h;
        assert RangeHash(hash, range, elements[i]) == h;
      }
      i := i + 1;
    }
  }

  method InsertAscending(v: seq<nat>, h: nat) returns (r: seq<nat>)
    requires Ascending(v) && h < TWO_64 && forall k :: 0 <= k < |v| ==> v[k] < TWO_64
    ensures Ascending(r) && |r| == |v| + 1 && (forall x :: x in r <==> x in v || x == h)
    ensures forall k :: 0 <= k < |r| ==> r[k] < TWO_64
  {
    var k := 0;
    while k < |v| && v[k] <= h
      invariant k <= |v| && forall j :: 0 <= j < k ==> v[j] <= h
    {
      k := k + 1;
    }
    InsertedAscends(v, k, h);
    r := v[..k] + [h] + v[k..];
  }

  lemma InsertedAscends(v: seq<nat>, k: nat, h: nat)
    requires Ascending(v) && k <= |v| && (forall j :: 0 <= j < k ==> v[j] <= h) && (k < |v| ==> h < v[k])
    ensures Ascending(v[..k] + [h] + v[k..])
    ensures forall x :: x in v[..k] + [h] + v[k..] <==> x in v || x == h
    ensures forall j :: 0 <= j <= |v| ==>
      (v[..k] + [h] + v[k..])[j] == if j < k then v[j] else if j == k then h else v[j - 1]
  {
    assert v == v[..k] + v[k..];
  }

  /** A filter: the number of elements, and the padded stream of codes. */
  datatype Filter = Filter(n: nat, bits: seq<bool>)

  /** The stream holds the codes of the hashes, and less than a byte of padding. */
  ghost predicate Holds(f: Filter, p: nat, v: seq<nat>) {
    && Ascending(v) && f.n == |v| && (forall i :: 0 <= i < |v| ==> v[i] < TWO_64)
    && |f.bits| == (|Encoded(p, v)| + 7) / 8 * 8 && Carries(f.bits, 0, Encoded(p, v))
  }

  /** Building a filter: the hashes' differences, coded one after another and flushed to whole bytes. */
  method BuildFilter(hash: HashFunction, m: nat, p: nat, elements: seq<Element>) returns (f: Filter, ghost v: seq<nat>)
    requires |elements| < TWO_32 && m < TWO_32
    ensures |elements| * m < TWO_64 && Holds(f, p, v) && f.n == |elements|
    ensures forall x :: x in v <==> exists i :: 0 <= i < |elements| && RangeHash(hash, |elements| * m, elements[i]) == x
  {
    HalfProducts(|elements|, m);
    var hashes := BuildHashedSet(hash, |elements| * m, elements);
    v := hashes;
    var bits := EncodeDifferences(p, hashes);
    ghost var codes := bits;
    bits := bits + seq((|bits| + 7) / 8 * 8 - |bits|, _ => false);
    assert bits[0..0 + |codes|] == codes;
    f := Filter(|elements|, bits);
  }

  /** The loop that codes the differences one after another. */
  method EncodeDifferences(p: nat, hashes: seq<nat>) returns (bits: seq<bool>)
    requires Ascending(hashes)
    ensures bits == Encoded(p, hashes)
  {
    bits := [];
    var lastValue, i := 0, 0;
    while i < |hashes|
      invariant i <= |hashes| && bits == Encoded(p, hashes[..i]) && lastValue == (if i == 0 then 0 else hashes[i - 1])
    {
      assert hashes[..i + 1][..i] == hashes[..i];
      bits := GolombRiceEncode(bits, p, hashes[i] - lastValue);
      lastValue := hashes[i];
      i := i + 1;
    }
    assert hashes[..i] == hashes;
  }

  /** Reading the i-th code of a filter. */
  lemma CodeAt(f: Filter, p: nat, v: seq<nat>, i: nat)
    requires Holds(f, p, v) && i < |v|
    ensures Offset(p, v, i) <= |f.bits|
    ensures Decoded(f.bits, Offset(p, v, i), p) == Value(Difference(v, i), Offset(p, v, i + 1))
    ensures CodeEnd(f.bits, Offset(p, v, i), p) == Offset(p, v, i + 1)
  {
    EncodedCarries(p, v, i);
    var at, code := Offset(p, v, i), Code(p, Difference(v, i));
    assert f.bits[at..at + |code|] == f.bits[0..0 + |Encoded(p, v)|][at..at + |code|];
    DecodeInvertsEncode(f.bits, at, p, Difference(v, i));
  }

  /** The position after k codes, or -1 when the stream has fewer. */
  function AfterCodes(bits: seq<bool>, p: nat, k: nat): (r: int)
    ensures r <= |bits|
  {
    if k == 0 then 0
    else if AfterCodes(bits, p, k - 1) < 0 then -1
    else CodeEnd(bits, AfterCodes(bits, p, k - 1), p)
  }

  /** Loading a filter reads its n codes and less than a byte more. */
  predicate Loads(f: Filter, p: nat) {
    AfterCodes(f.bits, p, f.n) >= 0 && (AfterCodes(f.bits, p, f.n) + 7) / 8 * 8 == |f.bits|
  }

  method LoadFilter(f: Filter, p: nat) returns (ok: bool)
    ensures ok <==> Loads(f, p)
  {
    var i: nat, pos: nat := 0, 0;
    while i < f.n
      invariant i <= f.n && pos <= |f.bits| && AfterCodes(f.bits, p, i) == pos
    {
      var r := GolombRiceDecode(f.bits, pos, p);
      assert AfterCodes(f.bits, p, i + 1) == CodeEnd(f.bits, pos, p);
      if r.EndOfStream? {
        NoCodesAfter(f.bits, p, i + 1, f.n);
        return false;
      }
      pos := r.pos;
      i := i + 1;
    }
    ok := (pos + 7) / 8 * 8 == |f.bits|;
  }

  lemma {:induction false} NoCodesAfter(bits: seq<bool>, p: nat, i: nat, k: nat)
    requires i <= k && AfterCodes(bits, p, i) < 0
    ensures AfterCodes(bits, p, k) < 0
  {
    if i == k {
    } else {
      NoCodesAfter(bits, p, i, k - 1);
    }
  }

  lemma {:induction false} CodesOfFilter(f: Filter, p: nat, v: seq<nat>, k: nat)
    requires Holds(f, p, v) && k <= f.n
    ensures AfterCodes(f.bits, p, k) == Offset(p, v, k)
  {
    if k == 0 {
      assert v[..0] == [];
    } else {
      CodesOfFilter(f, p, v, k - 1);
      CodeEndsAt(f, p, v, k - 1);
    }
  }

  lemma CodeEndsAt(f: Filter, p: nat, v: seq<nat>, i: nat)
    requires Holds(f, p, v) && i < |v|
    ensures Offset(p, v, i) <= |f.bits| && CodeEnd(f.bits, Offset(p, v, i), p) == Offset(p, v, i + 1)
  {
    CodeAt(f, p, v, i);
  }

  /** A built filter loads. */
  lemma BuiltFilterLoads(f: Filter, p: nat, v: seq<nat>)
    requires Holds(f, p, v)
    ensures Loads(f, p)
  {
    CodesOfFilter(f, p, v, f.n);
    assert v[..f.n] == v;
  }

  lemma CodesBefore(bits: seq<bool>, p: nat, i: nat, k: nat)
    requires i <= k && AfterCodes(bits, p, k) >= 0
    ensures AfterCodes(bits, p, i) >= 0
  {
    if AfterCodes(bits, p, i) < 0 { NoCodesAfter(bits, p, i, k); }
  }

  /** The first k differences that a stream holds. */
  function Differences(bits: seq<bool>, p: nat, k: nat): (d: seq<nat>)
    requires AfterCodes(bits, p, k) >= 0
    ensures |d| == k
  {
    if k == 0 then [] else Differences(bits, p, k - 1) + [Decoded(bits, AfterCodes(bits, p, k - 1), p).value]
  }

  function Last(sums: seq<nat>): nat { if sums == [] then 0 else sums[|sums| - 1] }

  /** The running sums of some differences, in 64 bits. */
  function Sums(d: seq<nat>): (r: seq<nat>)
    ensures |r| == |d|
  {
    if d == [] then [] else Sums(d[..|d| - 1]) + [(Last(Sums(d[..|d| - 1])) + d[|d| - 1]) % TWO_64]
  }

  ghost predicate AllAtMost(sums: seq<nat>, x: nat) { forall i :: 0 <= i < |sums| ==> sums[i] <= x }

  /** Some sum is a query, and no sum before it is larger. */
  ghost predicate Hit(sums: seq<nat>, queries: seq<nat>) {
    exists i :: 0 <= i < |sums| && sums[i] in queries && AllAtMost(sums[..i], sums[i])
  }

  /** Some sum is a hit exactly when a query is one of the sums. */
  ghost predicate Exact(sums: seq<nat>, queries: seq<nat>) {
    Hit(sums, queries) <==> exists x :: x in sums && x in queries
  }

  /** The queries passed so far are those below some sum, and no sum is a hit. */
  ghost predicate Walked(sums: seq<nat>, queries: seq<nat>, index: nat) {
    && index <= |queries| && !Hit(sums, queries)
    && forall j :: 0 <= j < |queries| ==> (j < index <==> !AllAtMost(sums, queries[j]))
  }

  lemma HitStep(sums: seq<nat>, x: nat, queries: seq<nat>)
    ensures Hit(sums + [x], queries) <==> Hit(sums, queries) || (x in queries && AllAtMost(sums, x))
  {
    var longer := sums + [x];
    assert longer[|sums|] == x && longer[..|sums|] == sums;
    assert forall i :: 0 <= i < |sums| ==> longer[..i] == sums[..i];
    if Hit(sums, queries) {
      var i :| 0 <= i < |sums| && sums[i] in queries && AllAtMost(sums[..i], sums[i]);
      assert longer[i] in queries && AllAtMost(longer[..i], longer[i]);
    }
  }

  lemma {:induction false} HitsStay(sums: seq<nat>, more: seq<nat>, queries: seq<nat>)
    ensures Hit(sums, queries) ==> Hit(sums + more, queries)
    ensures (forall q :: q in queries ==> !AllAtMost(sums, q)) && Hit(sums + more, queries) ==> Hit(sums, queries)
  {
    if more == [] {
      assert sums + more == sums;
    } else {
      var n := |more| - 1;
      HitsStay(sums, more[..n], queries);
      HitStep(sums + more[..n], more[n], queries);
      assert sums + more == sums + more[..n] + [more[n]];
      assert AllAtMost(sums + more[..n], more[n]) ==> AllAtMost(sums, more[n]) by {
        assert forall i :: 0 <= i < |sums| ==> (sums + more[..n])[i] == sums[i];
      }
    }
  }

  /** The queries below some sum are passed, and the last sum is a hit exactly when it is the next query. */
  ghost predicate Passed(sums: seq<nat>, queries: seq<nat>, index: nat, value: nat) {
    && index <= |queries|
    && (forall j :: 0 <= j < |queries| ==> (j < index <==> !AllAtMost(sums, queries[j])))
    && (Hit(sums, queries) <==> index < |queries| && queries[index] == value)
  }

  /** The inner loop of MatchInternal: past the queries below the next sum. */
  method PassBelow(queries: seq<nat>, index: nat, value: nat, ghost sums: seq<nat>) returns (index': nat)
    requires Ascending(queries) && Walked(sums, queries, index)
    ensures Passed(sums + [value], queries, index', value)
  {
    index' := index;
    while index' < |queries| && queries[index'] < value
      invariant index <= index' <= |queries| && forall j :: index <= j < index' ==> queries[j] < value
    {
      index' := index' + 1;
    }
    forall j | 0 <= j < |queries| ensures j < index' <==> !AllAtMost(sums + [value], queries[j]) {
      AtMostStep(sums, value, queries[j]);
    }
    HitStep(sums, value, queries);
    AtMostStep(sums, value, value);
  }

  lemma AtMostStep(sums: seq<nat>, value: nat, q: nat)
    ensures AllAtMost(sums + [value], q) <==> AllAtMost(sums, q) && value <= q
  {
    var longer := sums + [value];
    assert longer[|sums|] == value && forall i :: 0 <= i < |sums| ==> longer[i] == sums[i];
  }

  lemma SumsStep(d: seq<nat>, x: nat)
    ensures Sums(d + [x]) == Sums(d) + [(Last(Sums(d)) + x) % TWO_64]
  {
    assert (d + [x])[..|d|] == d;
  }

  method ReadDifference(bits: seq<bool>, p: nat, pos: nat, ghost i: nat) returns (delta: nat, pos': nat)
    requires AfterCodes(bits, p, i + 1) >= 0 && pos == AfterCodes(bits, p, i)
    ensures pos' == AfterCodes(bits, p, i + 1) && Differences(bits, p, i + 1) == Differences(bits, p, i) + [delta]
  {
    var r := GolombRiceDecode(bits, pos, p);
    delta, pos' := r.value, r.pos;
  }

  method NextSum(value: nat, delta: nat, ghost d: seq<nat>) returns (value': nat)
    requires value == Last(Sums(d))
    ensures Sums(d + [delta]) == Sums(d) + [value']
  {
    SumsStep(d, delta);
    value' := (value + delta) % TWO_64;
  }

  /** Where the walk stands: after i codes, at their sum, past the queries below the sums. */
  ghost predicate At(bits: seq<bool>, p: nat, i: nat, queries: seq<nat>, pos: int, value: nat, index: nat) {
    && pos == AfterCodes(bits, p, i) >= 0
    && value == Last(Sums(Differences(bits, p, i))) && Walked(Sums(Differences(bits, p, i)), queries, index)
  }

  /** After k sums: the walk goes on, or its answer is settled. */
  lemma Turned(bits: seq<bool>, p: nat, k: nat, n: nat, queries: seq<nat>, pos: int, value: nat, index: nat)
    requires k <= n && pos == AfterCodes(bits, p, k) >= 0 && AfterCodes(bits, p, n) >= 0
    requires value == Last(Sums(Differences(bits, p, k)))
    requires Passed(Sums(Differences(bits, p, k)), queries, index, value)
    ensures if index < |queries| && queries[index] != value then At(bits, p, k, queries, pos, value, index)
            else Hit(Sums(Differences(bits, p, n)), queries) <==> index < |queries|
  {
    if index == |queries| || queries[index] == value { SumsGrow(bits, p, k, n, queries); }
  }

  /** One turn of the walk; it ends with a hit, or when all queries are passed. */
  method Advance(bits: seq<bool>, p: nat, queries: seq<nat>, pos: nat, value: nat, index: nat, ghost i: nat,
                 ghost n: nat)
    returns (pos': nat, value': nat, index': nat)
    requires i < n && AfterCodes(bits, p, n) >= 0 && Ascending(queries) && At(bits, p, i, queries, pos, value, index)
    ensures index' <= |queries|
    ensures if index' < |queries| && queries[index'] != value' then At(bits, p, i + 1, queries, pos', value', index')
            else Hit(Sums(Differences(bits, p, n)), queries) <==> index' < |queries|
  {
    CodesBefore(bits, p, i + 1, n);
    ghost var d := Differences(bits, p, i);
    var delta;
    delta, pos' := ReadDifference(bits, p, pos, i);
    value' := NextSum(value, delta, d);
    index' := PassBelow(queries, index, value', Sums(d));
    Turned(bits, p, i + 1, n, queries, pos', value', index');
  }

  /** MatchInternal on any filter that loads, walking its sums and the ascending queries in step: true
      exactly when one of the sums is a query and no sum before it is larger. */
  method MatchInternal(f: Filter, p: nat, queries: seq<nat>) returns (found: bool)
    requires Loads(f, p) && Ascending(queries)
    ensures found <==> Hit(Sums(Differences(f.bits, p, f.n)), queries)
  {
    var value: nat, index: nat, pos: nat, i: nat := 0, 0, 0, 0;
    while i < f.n
      invariant i <= f.n && At(f.bits, p, i, queries, pos, value, index)
    {
      pos, value, index := Advance(f.bits, p, queries, pos, value, index, i, f.n);
      if index == |queries| { return false; }
      if queries[index] == value { return true; }
      i := i + 1;
    }
    found := false;
  }

  /** Once a sum is hit, or all queries are passed, the rest of the sums makes no difference. */
  lemma SumsGrow(bits: seq<bool>, p: nat, i: nat, k: nat, queries: seq<nat>)
    requires i <= k && AfterCodes(bits, p, k) >= 0 && AfterCodes(bits, p, i) >= 0
    ensures var s, t := Sums(Differences(bits, p, i)), Sums(Differences(bits, p, k));
      && (Hit(s, queries) ==> Hit(t, queries))
      && ((forall q :: q in queries ==> !AllAtMost(s, q)) && Hit(t, queries) ==> Hit(s, queries))
  {
    var more := DifferencesGrow(bits, p, i, k);
    var rest := SumsAppend(Differences(bits, p, i), more);
    HitsStay(Sums(Differences(bits, p, i)), rest, queries);
  }

  lemma {:induction false} DifferencesGrow(bits: seq<bool>, p: nat, i: nat, k: nat) returns (more: seq<nat>)
    requires i <= k && AfterCodes(bits, p, k) >= 0 && AfterCodes(bits, p, i) >= 0
    ensures Differences(bits, p, k) == Differences(bits, p, i) + more
  {
    if i == k {
      more := [];
    } else {
      more := DifferencesGrow(bits, p, i, k - 1);
      more := more + [Last(Differences(bits, p, k))];
    }
  }

  lemma {:induction false} SumsAppend(d: seq<nat>, more: seq<nat>) returns (rest: seq<nat>)
    ensures Sums(d + more) == Sums(d) + rest
  {
    if more == [] {
      rest := [];
      assert d + more == d;
    } else {
      var n := |more| - 1;
      rest := SumsAppend(d, more[..n]);
      SumsStep(d + more[..n], more[n]);
      assert d + more == d + more[..n] + [more[n]];
      rest := rest + [Last(Sums(d + more))];
    }
  }

  lemma HitAscending(sums: seq<nat>, queries: seq<nat>)
    requires Ascending(sums)
    ensures Exact(sums, queries)
  {
    if x :| x in sums && x in queries {
      var i :| 0 <= i < |sums| && sums[i] == x;
      assert sums[i] in queries && AllAtMost(sums[..i], sums[i]);
    }
  }

  /** The sum of the differences, without a bound. */
  function Total(d: seq<nat>): nat { if d == [] then 0 else Total(d[..|d| - 1]) + d[|d| - 1] }

  lemma {:induction false} SumsAscend(d: seq<nat>)
    requires Total(d) < TWO_64
    ensures Ascending(Sums(d)) && Last(Sums(d)) == Total(d)
  {
    if d == [] {
    } else {
      SumsAscend(d[..|d| - 1]);
      DivUnique(Total(d), TWO_64, 0, Total(d));
    }
  }

  /** While the differences add up to less than 2^64, a match is a query that is one of the sums. */
  lemma HitExactly(d: seq<nat>, queries: seq<nat>)
    requires Total(d) < TWO_64
    ensures Exact(Sums(d), queries)
  {
    SumsAscend(d);
    HitAscending(Sums(d), queries);
  }

  // ----- filters from outside -------------------------------------------------------------------

  lemma {:induction false} NumberBound(bits: seq<bool>)
    ensures NumberOf(bits) < Pow2(|bits|)
  {
    if bits == [] {
    } else {
      NumberBound(bits[..|bits| - 1]);
    }
  }

  /** A code takes more bits than its number has units of 2^p. */
  lemma CodeBound(bits: seq<bool>, start: nat, p: nat)
    requires start <= |bits| && CodeEnd(bits, start, p) >= 0
    ensures Decoded(bits, start, p).value <= (CodeEnd(bits, start, p) - start) * Pow2(p)
  {
    var e := EndOfOnes(bits, start);
    var n := (e - start) * Pow2(p) + NumberOf(bits[e + 1..e + 1 + p]);
    NumberBound(bits[e + 1..e + 1 + p]);
    MulNonNegative(e - start, Pow2(p));
    WrapsDown(n, TWO_64);
    MulAdd(e - start, 1, Pow2(p));
    MulMonotone(e - start + 1, e + 1 + p - start, Pow2(p));
  }

  lemma WrapsDown(n: nat, m: nat)
    requires m > 0
    ensures 0 <= n % m <= n
  {
    QuotientNatural(n, m);
    MulNonNegative(n / m, m);
    DivMod(n, m);
  }

  lemma {:induction false} TotalBound(bits: seq<bool>, p: nat, k: nat)
    requires AfterCodes(bits, p, k) >= 0
    ensures Total(Differences(bits, p, k)) <= AfterCodes(bits, p, k) * Pow2(p)
  {
    if k == 0 {
    } else {
      var a, b := AfterCodes(bits, p, k - 1), AfterCodes(bits, p, k);
      TotalBound(bits, p, k - 1);
      CodeBound(bits, a, p);
      TotalGrows(Differences(bits, p, k - 1), Decoded(bits, a, p).value, a, b, Pow2(p));
    }
  }

  lemma TotalGrows(d: seq<nat>, x: nat, a: int, b: int, u: nat)
    requires Total(d) <= a * u && x <= (b - a) * u
    ensures Total(d + [x]) <= b * u
  {
    TotalStep(d, x);
    MulAdd(a, b - a, u);
  }

  lemma TotalStep(d: seq<nat>, x: nat)
    ensures Total(d + [x]) == Total(d) + x
  {
    assert (d + [x])[..|d|] == d;
  }

  /** A filter that loads and is short enough matches exactly the queries that are among its sums. */
  lemma ShortFilterExact(f: Filter, p: nat, queries: seq<nat>)
    requires Loads(f, p) && |f.bits| * Pow2(p) < TWO_64
    ensures Exact(Sums(Differences(f.bits, p, f.n)), queries)
  {
    TotalBound(f.bits, p, f.n);
    MulMonotone(AfterCodes(f.bits, p, f.n), |f.bits|, Pow2(p));
    HitExactly(Differences(f.bits, p, f.n), queries);
  }

  const BASIC_FILTER_P := 19

  lemma Pow2Of64()
    ensures Pow2(64) == TWO_64
  {
    assert Pow2(8) == 256;
    Pow2Add(8, 8);
    Pow2Add(16, 16);
    Pow2Add(32, 32);
  }

  /** For the filters that the program uses, short enough is less than 2^45 bits. */
  lemma BasicFilterExact(f: Filter, queries: seq<nat>)
    requires Loads(f, BASIC_FILTER_P) && |f.bits| < Pow2(45)
    ensures Exact(Sums(Differences(f.bits, BASIC_FILTER_P, f.n)), queries)
  {
    BasicProduct(|f.bits|, BASIC_FILTER_P, 45);
    ShortFilterExact(f, BASIC_FILTER_P, queries);
  }

  lemma BasicProduct(n: nat, p: nat, k: nat)
    requires p + k == 64 && n < Pow2(k)
    ensures n * Pow2(p) < TWO_64
  {
    Pow2Of64();
    Pow2Add(k, p);
    MulMonotone(n + 1, Pow2(k), Pow2(p));
    MulAdd(n, 1, Pow2(p));
  }

  /** Every sum has an equal one, at or before it, that no earlier sum exceeds. */
  ghost predicate AllReached(sums: seq<nat>) { forall i :: 0 <= i < |sums| ==> Reached(sums, i) }

  ghost predicate Reached(sums: seq<nat>, i: nat)
    requires i < |sums|
  {
    exists j :: 0 <= j <= i && sums[j] == sums[i] && AllAtMost(sums[..j], sums[j])
  }

  /** The walk finds every query that is one of the sums, whatever the queries, exactly when each sum is
      reached. */
  lemma ExactMatching(sums: seq<nat>)
    ensures (forall queries :: Ascending(queries) ==> Exact(sums, queries)) <==> AllReached(sums)
  {
    if forall queries :: Ascending(queries) ==> Exact(sums, queries) {
      forall i | 0 <= i < |sums| ensures Reached(sums, i) {
        assert Ascending([sums[i]]) && Exact(sums, [sums[i]]) && sums[i] in [sums[i]];
        SumReached(sums, i);
      }
    }
    if AllReached(sums) {
      forall queries ensures Exact(sums, queries) { ReachedIsHit(sums, queries); }
    }
  }

  lemma SumReached(sums: seq<nat>, i: nat)
    requires i < |sums| && Hit(sums, [sums[i]])
    ensures Reached(sums, i)
  {
    var j :| 0 <= j < |sums| && sums[j] in [sums[i]] && AllAtMost(sums[..j], sums[j]);
    if j > i {
      forall k | 0 <= k < i ensures sums[..i][k] <= sums[i] { assert sums[..j][k] <= sums[j]; }
      assert AllAtMost(sums[..i], sums[i]);
    }
  }

  lemma ReachedIsHit(sums: seq<nat>, queries: seq<nat>)
    requires AllReached(sums)
    ensures Exact(sums, queries)
  {
    if x :| x in sums && x in queries {
      var i :| 0 <= i < |sums| && sums[i] == x;
      assert Reached(sums, i);
      var j :| 0 <= j <= i && sums[j] == sums[i] && AllAtMost(sums[..j], sums[j]);
      assert sums[j] in queries;
    }
  }

  /** Codes of any differences, one after another. */
  function Codes(p: nat, d: seq<nat>): seq<bool> {
    if d == [] then [] else Codes(p, d[..|d| - 1]) + Code(p, d[|d| - 1])
  }

  lemma {:induction false} CodesSplit(p: nat, d: seq<nat>, k: nat) returns (more: seq<bool>)
    requires k <= |d|
    ensures Codes(p, d) == Codes(p, d[..k]) + more
    decreases |d| - k
  {
    if k == |d| {
      more := [];
      assert d[..k] == d;
    } else {
      more := CodesSplit(p, d, k + 1);
      assert d[..k + 1][..k] == d[..k];
      more := Code(p, d[k]) + more;
    }
  }

  /** The filter that holds given differences. */
  function FilterOf(p: nat, d: seq<nat>): Filter {
    Filter(|d|, Codes(p, d) + seq((|Codes(p, d)| + 7) / 8 * 8 - |Codes(p, d)|, _ => false))
  }

  /** Every list of 64-bit differences is that of a filter that loads. */
  lemma FilterOfHolds(p: nat, d: seq<nat>)
    requires forall i :: 0 <= i < |d| ==> d[i] < TWO_64
    ensures var f := FilterOf(p, d); f.n == |d| && Loads(f, p) && Differences(f.bits, p, f.n) == d
  {
    CodesRead(p, d, FilterOf(p, d).bits, |d|);
    assert d[..|d|] == d;
  }

  /** The first k codes read as the first k differences. */
  ghost predicate ReadsAs(bits: seq<bool>, p: nat, d: seq<nat>, k: nat)
    requires k <= |d|
  {
    AfterCodes(bits, p, k) == |Codes(p, d[..k])| && Differences(bits, p, k) == d[..k]
  }

  lemma {:induction false} CodesRead(p: nat, d: seq<nat>, bits: seq<bool>, k: nat)
    requires k <= |d| && (forall i :: 0 <= i < |d| ==> d[i] < TWO_64) && Codes(p, d) <= bits
    ensures ReadsAs(bits, p, d, k)
  {
    if k == 0 {
      ReadsNone(bits, p, d);
    } else {
      CodesRead(p, d, bits, k - 1);
      ReadsOneMore(p, d, bits, k - 1);
    }
  }

  lemma ReadsNone(bits: seq<bool>, p: nat, d: seq<nat>)
    ensures ReadsAs(bits, p, d, 0)
  {
    assert d[..0] == [];
  }

  lemma ReadsOneMore(p: nat, d: seq<nat>, bits: seq<bool>, k: nat)
    requires k < |d| && d[k] < TWO_64 && Codes(p, d) <= bits && ReadsAs(bits, p, d, k)
    ensures ReadsAs(bits, p, d, k + 1)
  {
    CodeRead(p, d, bits, k);
    ReadsNext(bits, p, d, k, |Codes(p, d[..k + 1])|);
  }

  lemma ReadsNext(bits: seq<bool>, p: nat, d: seq<nat>, k: nat, end: nat)
    requires k < |d| && ReadsAs(bits, p, d, k) && end == |Codes(p, d[..k + 1])|
    requires Decoded(bits, |Codes(p, d[..k])|, p) == Value(d[k], end)
    ensures ReadsAs(bits, p, d, k + 1)
  {
    assert d[..k + 1] == d[..k] + [d[k]];
  }

  lemma CarriesPart(bits: seq<bool>, before: seq<bool>, part: seq<bool>, after: seq<bool>)
    requires before + part + after <= bits
    ensures Carries(bits, |before|, part)
  {
  }

  lemma CodeRead(p: nat, d: seq<nat>, bits: seq<bool>, k: nat)
    requires k < |d| && d[k] < TWO_64 && Codes(p, d) <= bits
    ensures var at := |Codes(p, d[..k])|;
      at <= |bits| && Decoded(bits, at, p) == Value(d[k], |Codes(p, d[..k + 1])|)
  {
    assert d[..k + 1][..k] == d[..k];
    var more := CodesSplit(p, d, k + 1);
    CarriesPart(bits, Codes(p, d[..k]), Code(p, d[k]), more);
    DecodeInvertsEncode(bits, |Codes(p, d[..k])|, p, d[k]);
  }

  /** For every P there is a filter that loads and misses a query that is one of its sums; for P = 63 it
      has 17 bytes. */
  lemma WrappedSumMissed(p: nat)
    ensures var f := FilterOf(p, [5, TWO_64 - 2]);
      Loads(f, p) && Sums(Differences(f.bits, p, f.n)) == [5, 3] && (p == 63 ==> |f.bits| == 136)
    ensures !Exact([5, 3], [3]) && !AllReached([5, 3])
  {
    FilterOfHolds(p, [5, TWO_64 - 2]);
    WrappedSums();
    NotReached([5, 3]);
    if p == 63 { ShortCodes(p); }
  }

  lemma WrappedSums()
    ensures Sums([5, TWO_64 - 2]) == [5, 3]
  {
    DivUnique(5, TWO_64, 0, 5);
    DivUnique(TWO_64 + 3, TWO_64, 1, 3);
    TwoSums(5, TWO_64 - 2, 5, 3);
  }

  lemma TwoSums(x: nat, y: nat, a: nat, b: nat)
    requires x % TWO_64 == a && (a + y) % TWO_64 == b
    ensures Sums([x, y]) == [a, b]
  {
    SumsStep([], x);
    SumsStep([x], y);
    assert [x, y] == [x] + [y] && [x] == [] + [x];
  }

  lemma ShortCodes(p: nat)
    requires p == 63
    ensures |FilterOf(p, [5, TWO_64 - 2]).bits| == 136
  {
    Pow2Of64();
    assert Pow2(64) == 2 * Pow2(p);
    var half := Pow2(p);
    DivUnique(5, half, 0, 5);
    DivUnique(TWO_64 - 2, half, 1, half - 2);
    var d: seq<nat> := [5, TWO_64 - 2];
    assert d[..1] == [5] && d[..1][..0] == [];
    assert |Code(p, 5)| == 64 && |Code(p, TWO_64 - 2)| == 65;
    assert Codes(p, d) == Codes(p, [5]) + Code(p, TWO_64 - 2) && Codes(p, [5]) == [] + Code(p, 5);
  }

  lemma NotReached(s: seq<nat>)
    requires s == [5, 3]
    ensures !Exact(s, [3]) && !AllReached(s)
  {
    assert s[..1][0] == 5 && s[..0] == [];
    assert s[1] == 3 && 3 in s && 3 in [3];
    assert !Reached(s, 1);
  }

  /** The sums of a built filter are the hashes it was built from. */
  lemma {:induction false} SumsOfFilter(f: Filter, p: nat, v: seq<nat>, k: nat)
    requires Holds(f, p, v) && k <= f.n
    ensures AfterCodes(f.bits, p, k) >= 0 && Sums(Differences(f.bits, p, k)) == v[..k]
  {
    if k == 0 {
    } else {
      SumsOfFilter(f, p, v, k - 1);
      DifferencesOfFilter(f, p, v, k - 1);
      SumsStepFits(Differences(f.bits, p, k - 1), v, k);
    }
  }

  lemma SumsStepFits(d: seq<nat>, v: seq<nat>, k: nat)
    requires Ascending(v) && 0 < k <= |v| && Sums(d) == v[..k - 1] && v[k - 1] < TWO_64
    ensures Sums(d + [Difference(v, k - 1)]) == v[..k]
  {
    SumsStep(d, Difference(v, k - 1));
    DivUnique(v[k - 1], TWO_64, 0, v[k - 1]);
    assert v[..k] == v[..k - 1] + [v[k - 1]];
  }

  lemma DifferencesOfFilter(f: Filter, p: nat, v: seq<nat>, k: nat)
    requires Holds(f, p, v) && k < f.n && AfterCodes(f.bits, p, k) >= 0
    ensures AfterCodes(f.bits, p, k + 1) >= 0
    ensures Differences(f.bits, p, k + 1) == Differences(f.bits, p, k) + [Difference(v, k)]
  {
    CodesOfFilter(f, p, v, k + 1);
    CodesOfFilter(f, p, v, k);
    CodeAt(f, p, v, k);
  }

  /** MatchAny on a built filter: true exactly when some query has the range hash of some element. */
  method MatchAny(hash: HashFunction, m: nat, p: nat, elements: seq<Element>, queries: seq<Element>)
    returns (found: bool)
    requires |elements| < TWO_32 && m < TWO_32
    ensures |elements| * m < TWO_64
    ensures found <==> exists i, j ::
      0 <= i < |elements| && 0 <= j < |queries| && SameHash(hash, |elements| * m, elements[i], queries[j])
    ensures forall i :: 0 <= i < |elements| && elements[i] in queries ==> found
  {
    var f, v := BuildFilter(hash, m, p, elements);
    var hashes := BuildHashedSet(hash, |elements| * m, queries);
    BuiltFilterLoads(f, p, v);
    SumsOfFilter(f, p, v, f.n);
    assert v[..f.n] == v;
    HitAscending(v, hashes);
    found := MatchInternal(f, p, hashes);
    ghost var range := |elements| * m;
    if found {
      ghost var x :| x in v && x in hashes;
      ghost var i :| 0 <= i < |elements| && RangeHash(hash, range, elements[i]) == x;
      ghost var j :| 0 <= j < |queries| && RangeHash(hash, range, queries[j]) == x;
      assert SameHash(hash, range, elements[i], queries[j]);
    }
    forall i, j | 0 <= i < |elements| && 0 <= j < |queries| && SameHash(hash, range, elements[i], queries[j])
      ensures found
    {
      assert RangeHash(hash, range, elements[i]) in v && RangeHash(hash, range, queries[j]) in hashes;
    }
    forall i | 0 <= i < |elements| && elements[i] in queries ensures found {
      var j :| 0 <= j < |queries| && queries[j] == elements[i];
      assert SameHash(hash, range, elements[i], queries[j]);
    }
  }

  predicate SameHash(hash: HashFunction, range: nat, a: Element, b: Element)
    requires range < TWO_64
  {
    RangeHash(hash, range, a) == RangeHash(hash, range, b)
  }
}
