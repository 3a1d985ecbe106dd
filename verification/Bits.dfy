/** Single bits of bytes, bits packed into byte sequences, and parts of sequences. */
module Bits {

  /** 1 << k for a bit of a byte. */
  function Mask(k: nat): bv8
    requires k < 8
  {
    if k == 0 then 1 else if k == 1 then 2 else if k == 2 then 4 else if k == 3 then 8
    else if k == 4 then 16 else if k == 5 then 32 else if k == 6 then 64 else 128
  }

  predicate Has(b: bv8, k: nat)
    requires k < 8
  {
    b & Mask(k) != 0
  }

  function With(b: bv8, k: nat): (r: bv8)
    requires k < 8
    ensures forall j :: 0 <= j < 8 ==> (Has(r, j) <==> j == k || Has(b, j))
  {
    b | Mask(k)
  }

  function Without(b: bv8, k: nat): (r: bv8)
    requires k < 8
    ensures forall j :: 0 <= j < 8 ==> (Has(r, j) <==> j != k && Has(b, j))
  {
    b & !Mask(k)
  }

  predicate BitAt(bytes: seq<bv8>, p: nat)
    requires p < 8 * |bytes|
  {
    Has(bytes[p / 8], p % 8)
  }

  /** Sets a bit, and no other. */
  function SetBitAt(bytes: seq<bv8>, p: nat): (r: seq<bv8>)
    requires p < 8 * |bytes|
    ensures |r| == |bytes| && forall q :: 0 <= q < 8 * |bytes| ==> (BitAt(r, q) <==> q == p || BitAt(bytes, q))
  {
    SameByteAndBit(p);
    bytes[p / 8 := With(bytes[p / 8], p % 8)]
  }

  /** Clears a bit, and no other. */
  function ClearBitAt(bytes: seq<bv8>, p: nat): (r: seq<bv8>)
    requires p < 8 * |bytes|
    ensures |r| == |bytes| && forall q :: 0 <= q < 8 * |bytes| ==> (BitAt(r, q) <==> q != p && BitAt(bytes, q))
  {
    SameByteAndBit(p);
    bytes[p / 8 := Without(bytes[p / 8], p % 8)]
  }

  lemma SameByteAndBit(p: nat)
    ensures forall q: nat {:trigger q / 8} :: q / 8 == p / 8 && q % 8 == p % 8 ==> q == p
  {
  }

  /** From index i on, whole carries the elements of part. */
  ghost predicate Carries<T>(whole: seq<T>, i: nat, part: seq<T>) {
    i + |part| <= |whole| && whole[i..i + |part|] == part
  }
}
