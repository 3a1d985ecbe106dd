/** The partial Merkle tree of merkleblock.cpp: a depth-first encoding of the matched transactions of a
    block, its decoder over shared cursors, and the byte packing of its flag bits. */
module PartialMerkleTree {
  import opened Arithmetic
  import opened Bits
  import opened Merkle

  const MAX_BLOCK_WEIGHT := 40000000
  const MIN_TRANSACTION_WEIGHT := 240

  // ----- the shape of the tree ------------------------------------------------------------------

  /** Number of nodes at a height: each level has half the nodes of the one below, rounded up. */
  function Width(n: nat, height: nat): nat {
    if height == 0 then n else (Width(n, height - 1) + 1) / 2
  }

  /** The source computes the width of any height at once, with two shifts. */
  function CalcTreeWidth(n: nat, height: nat): (r: nat)
    ensures r == Width(n, height)
  {
    WidthByShift(n, height);
    (n + Pow2(height) - 1) / Pow2(height)
  }

  lemma {:induction false} WidthByShift(n: nat, height: nat)
    ensures (n + Pow2(height) - 1) / Pow2(height) == Width(n, height)
  {
    if height == 0 {
    } else {
      WidthByShift(n, height - 1);
      HalveRoundedUp(n, Pow2(height - 1), Width(n, height - 1));
    }
  }

  lemma HalveRoundedUp(n: nat, q: nat, w: nat)
    requires q > 0 && (n + q - 1) / q == w
    ensures (n + 2 * q - 1) / (2 * q) == (w + 1) / 2
  {
    var r, v := (n + q - 1) % q, (w + 1) / 2;
    assert n + q - 1 == w * q + r;
    MulAssoc(v, 2, q);
    if w % 2 == 1 {
      assert v * 2 == w + 1;
      MulAdd(w, 1, q);
      DivUnique(n + 2 * q - 1, 2 * q, v, r);
    } else {
      assert v * 2 == w;
      DivUnique(n + 2 * q - 1, 2 * q, v, r + q);
    }
  }

  predicate IsNode(n: nat, height: nat, pos: nat) { pos < Width(n, height) }

  lemma ChildIsNode(n: nat, height: nat, pos: nat)
    requires height > 0 && IsNode(n, height, pos)
    ensures IsNode(n, height - 1, 2 * pos)
  {
  }

  /** CalcHash: the hash of a node of the full tree, an only child being paired with itself. */
  function CalcHash(H: NodeHash, height: nat, pos: nat, txids: seq<Hash>): Hash
    requires IsNode(|txids|, height, pos)
  {
    if height == 0 then txids[pos]
    else
      ChildIsNode(|txids|, height, pos);
      var left := CalcHash(H, height - 1, 2 * pos, txids);
      var right := if IsNode(|txids|, height - 1, 2 * pos + 1) then CalcHash(H, height - 1, 2 * pos + 1, txids)
          else left;
      H(left, right)
  }

  /** The two children of a node do not have the same hash. */
  predicate SiblingsDiffer(H: NodeHash, txids: seq<Hash>, height: nat, pos: nat) {
    IsNode(|txids|, height, 2 * pos) && IsNode(|txids|, height, 2 * pos + 1) ==>
      CalcHash(H, height, 2 * pos, txids) != CalcHash(H, height, 2 * pos + 1, txids)
  }

  ghost predicate NoTwins(H: NodeHash, txids: seq<Hash>) {
    forall height: nat, pos: nat :: SiblingsDiffer(H, txids, height, pos)
  }

  // ----- encoding -------------------------------------------------------------------------------

  /** pos << height, the first leaf under a node. */
  function ShiftLeft(pos: nat, height: nat): nat
    decreases height
  {
    if height == 0 then pos else ShiftLeft(2 * pos, height - 1)
  }

  lemma {:induction false} ShiftMonotone(p: nat, q: nat, height: nat)
    requires p <= q
    ensures ShiftLeft(p, height) <= ShiftLeft(q, height)
    decreases height
  {
    if height == 0 {
    } else {
      ShiftMonotone(2 * p, 2 * q, height - 1);
    }
  }

  /** A position at or past the width lies at or past the end of the leaves. */
  lemma {:induction false} BeyondTree(n: nat, height: nat, pos: nat)
    requires !IsNode(n, height, pos)
    ensures ShiftLeft(pos, height) >= n
  {
    if height == 0 {
    } else {
      BeyondTree(n, height - 1, 2 * pos);
    }
  }

  /** Is any leaf from lo up to hi, within the tree, matched? */
  predicate AnyMatch(n: nat, match_: seq<bool>, lo: nat, hi: nat)
    requires |match_| >= n
  {
    exists p :: lo <= p < hi && p < n && match_[p]
  }

  predicate ParentOfMatch(n: nat, match_: seq<bool>, height: nat, pos: nat)
    requires |match_| >= n
  {
    AnyMatch(n, match_, ShiftLeft(pos, height), ShiftLeft(pos + 1, height))
  }

  /** The flag bits and hashes that the encoding of a node consists of. */
  datatype Encoding = Encoding(bits: seq<bool>, hashes: seq<Hash>)

  function Build(H: NodeHash, height: nat, pos: nat, txids: seq<Hash>, match_: seq<bool>): Encoding
    requires |match_| >= |txids| && IsNode(|txids|, height, pos)
  {
    if height == 0 || !ParentOfMatch(|txids|, match_, height, pos) then
      Encoding([ParentOfMatch(|txids|, match_, height, pos)], [CalcHash(H, height, pos, txids)])
    else
      ChildIsNode(|txids|, height, pos);
      var left := Build(H, height - 1, 2 * pos, txids, match_);
      if IsNode(|txids|, height - 1, 2 * pos + 1) then
        var right := Build(H, height - 1, 2 * pos + 1, txids, match_);
        Encoding([true] + left.bits + right.bits, left.hashes + right.hashes)
      else
        Encoding([true] + left.bits, left.hashes)
  }

  /** At least one bit per hash, and at most one hash per leaf below the node. */
  lemma {:induction false} BuildSizes(H: NodeHash, height: nat, pos: nat, txids: seq<Hash>, match_: seq<bool>)
    requires |match_| >= |txids| && IsNode(|txids|, height, pos)
    ensures var e := Build(H, height, pos, txids, match_);
      && |e.bits| >= |e.hashes|
      && ShiftLeft(pos, height) + |e.hashes| <= ShiftLeft(pos + 1, height)
      && ShiftLeft(pos, height) + |e.hashes| <= |txids|
  {
    NodeSpan(|txids|, height, pos);
    if height > 0 && ParentOfMatch(|txids|, match_, height, pos) {
      ChildIsNode(|txids|, height, pos);
      BuildSizes(H, height - 1, 2 * pos, txids, match_);
      if IsNode(|txids|, height - 1, 2 * pos + 1) {
        BuildSizes(H, height - 1, 2 * pos + 1, txids, match_);
      } else {
        ShiftMonotone(2 * pos + 1, 2 * pos + 2, height - 1);
      }
    }
  }

  /** A node has at least one leaf. */
  lemma {:induction false} NodeSpan(n: nat, height: nat, pos: nat)
    requires IsNode(n, height, pos)
    ensures ShiftLeft(pos, height) < n && ShiftLeft(pos, height) < ShiftLeft(pos + 1, height)
  {
    if height == 0 {
    } else {
      ChildIsNode(n, height, pos);
      NodeSpan(n, height - 1, 2 * pos);
      ShiftMonotone(2 * pos + 1, 2 * pos + 2, height - 1);
    }
  }

  // ----- decoding -------------------------------------------------------------------------------

  /** A matched transaction: its index in the block and its id. */
  datatype Match = Match(index: nat, txid: Hash)

  /** What extraction of a node returns and leaves behind: the node hash, the two cursors, whether it
      set fBad, and the matches it appended. */
  datatype Decoding = Decoding(hash: Hash, bitsUsed: nat, hashUsed: nat, bad: bool, matches: seq<Match>)

  function Extract(H: NodeHash, n: nat, bits: seq<bool>, hashes: seq<Hash>, height: nat, pos: nat, ib: nat,
                   ih: nat): Decoding {
    if ib >= |bits| then Decoding(NULL_HASH, ib, ih, true, [])
    else if height == 0 || !bits[ib] then
      if ih >= |hashes| then Decoding(NULL_HASH, ib + 1, ih, true, [])
      else Decoding(hashes[ih], ib + 1, ih + 1, false, if height == 0 && bits[ib] then [Match(pos, hashes[ih])] else [])
    else
      var left := Extract(H, n, bits, hashes, height - 1, 2 * pos, ib + 1, ih);
      if IsNode(n, height - 1, 2 * pos + 1) then
        var right := Extract(H, n, bits, hashes, height - 1, 2 * pos + 1, left.bitsUsed, left.hashUsed);
        Decoding(H(left.hash, right.hash), right.bitsUsed, right.hashUsed,
                 left.bad || right.bad || right.hash == left.hash, left.matches + right.matches)
      else
        Decoding(H(left.hash, left.hash), left.bitsUsed, left.hashUsed, left.bad, left.matches)
  }

  // ----- decoding inverts encoding --------------------------------------------------------------

  /** The matched transactions with indices from lo up to hi, in order. */
  function MatchesIn(txids: seq<Hash>, match_: seq<bool>, lo: nat, hi: nat): seq<Match>
    requires |match_| >= |txids|
    decreases hi - lo
  {
    if lo >= hi || lo >= |txids| then []
    else (if match_[lo] then [Match(lo, txids[lo])] else []) + MatchesIn(txids, match_, lo + 1, hi)
  }

  lemma {:induction false} MatchesSplit(txids: seq<Hash>, match_: seq<bool>, lo: nat, mid: nat, hi: nat)
    requires |match_| >= |txids| && lo <= mid <= hi
    ensures MatchesIn(txids, match_, lo, hi) == MatchesIn(txids, match_, lo, mid) + MatchesIn(txids, match_, mid, hi)
    decreases mid - lo
  {
    if lo < mid && lo < |txids| { MatchesSplit(txids, match_, lo + 1, mid, hi); }
  }

  lemma {:induction false} NoMatches(txids: seq<Hash>, match_: seq<bool>, lo: nat, hi: nat)
    requires |match_| >= |txids| && !AnyMatch(|txids|, match_, lo, hi)
    ensures MatchesIn(txids, match_, lo, hi) == []
    decreases hi - lo
  {
    if lo < hi && lo < |txids| { NoMatches(txids, match_, lo + 1, hi); }
  }

  function NodeMatches(txids: seq<Hash>, match_: seq<bool>, height: nat, pos: nat): seq<Match>
    requires |match_| >= |txids|
  {
    MatchesIn(txids, match_, ShiftLeft(pos, height), ShiftLeft(pos + 1, height))
  }

  /** A node's matches are those of its left child, followed by those of its right child if it has one. */
  lemma MatchesOfChildren(txids: seq<Hash>, match_: seq<bool>, height: nat, pos: nat)
    requires |match_| >= |txids| && height > 0
    ensures NodeMatches(txids, match_, height, pos) == NodeMatches(txids, match_, height - 1, 2 * pos) +
      (if IsNode(|txids|, height - 1, 2 * pos + 1) then NodeMatches(txids, match_, height - 1, 2 * pos + 1) else [])
  {
    var h := height - 1;
    ShiftMonotone(2 * pos, 2 * pos + 1, h);
    ShiftMonotone(2 * pos + 1, 2 * pos + 2, h);
    assert ShiftLeft(pos + 1, height) == ShiftLeft(2 * pos + 2, h);
    MatchesSplit(txids, match_, ShiftLeft(2 * pos, h), ShiftLeft(2 * pos + 1, h), ShiftLeft(2 * pos + 2, h));
    if !IsNode(|txids|, h, 2 * pos + 1) { BeyondTree(|txids|, h, 2 * pos + 1); }
  }

  lemma CarriesSplit<T>(whole: seq<T>, i: nat, first: seq<T>, second: seq<T>)
    requires Carries(whole, i, first + second)
    ensures Carries(whole, i, first) && Carries(whole, i + |first|, second)
    ensures |first| > 0 ==> whole[i] == first[0]
  {
    var part := whole[i..i + |first| + |second|];
    assert part[..|first|] == first && part[|first|..] == second;
    assert whole[i..i + |first|] == part[..|first|];
    assert whole[i + |first|..i + |first| + |second|] == part[|first|..];
  }

  /** The bits and hashes at the cursors are those of an encoding. */
  ghost predicate At(e: Encoding, bits: seq<bool>, hashes: seq<Hash>, ib: nat, ih: nat) {
    Carries(bits, ib, e.bits) && Carries(hashes, ih, e.hashes)
  }

  lemma AtChildren(left: Encoding, right: Encoding, bits: seq<bool>, hashes: seq<Hash>, ib: nat, ih: nat)
    requires At(Encoding([true] + left.bits + right.bits, left.hashes + right.hashes), bits, hashes, ib, ih)
    ensures ib < |bits| && bits[ib] && At(left, bits, hashes, ib + 1, ih)
    ensures At(right, bits, hashes, ib + 1 + |left.bits|, ih + |left.hashes|)
  {
    assert [true] + left.bits + right.bits == [true] + (left.bits + right.bits);
    CarriesSplit(bits, ib, [true], left.bits + right.bits);
    CarriesSplit(bits, ib + 1, left.bits, right.bits);
    CarriesSplit(hashes, ih, left.hashes, right.hashes);
  }

  /** What extraction must yield for an encoded node: the node's hash, cursors past exactly the node's
      bits and hashes, no error, and exactly the node's matches. */
  ghost predicate Decodes(d: Decoding, H: NodeHash, txids: seq<Hash>, match_: seq<bool>, height: nat, pos: nat,
                          e: Encoding, ib: nat, ih: nat)
    requires |match_| >= |txids| && IsNode(|txids|, height, pos)
  {
    && d.hash == CalcHash(H, height, pos, txids) && d.matches == NodeMatches(txids, match_, height, pos)
    && d.bitsUsed == ib + |e.bits| && d.hashUsed == ih + |e.hashes| && !d.bad
  }

  lemma {:induction false} ExtractInvertsBuild(H: NodeHash, txids: seq<Hash>, match_: seq<bool>, height: nat, pos: nat,
                                               bits: seq<bool>, hashes: seq<Hash>, ib: nat, ih: nat)
    requires NoTwins(H, txids) && |match_| >= |txids| && IsNode(|txids|, height, pos)
    requires At(Build(H, height, pos, txids, match_), bits, hashes, ib, ih)
    ensures Decodes(Extract(H, |txids|, bits, hashes, height, pos, ib, ih), H, txids, match_, height, pos,
                    Build(H, height, pos, txids, match_), ib, ih)
    decreases height, 1
  {
    if height == 0 || !ParentOfMatch(|txids|, match_, height, pos) {
      ExtractLeaf(H, txids, match_, height, pos, bits, hashes, ib, ih);
    } else if IsNode(|txids|, height - 1, 2 * pos + 1) {
      ExtractTwo(H, txids, match_, height, pos, bits, hashes, ib, ih);
    } else {
      ExtractOne(H, txids, match_, height, pos, bits, hashes, ib, ih);
    }
  }

  lemma {:induction false} ExtractTwo(H: NodeHash, txids: seq<Hash>, match_: seq<bool>, height: nat, pos: nat,
                                      bits: seq<bool>, hashes: seq<Hash>, ib: nat, ih: nat)
    requires NoTwins(H, txids) && |match_| >= |txids| && IsNode(|txids|, height, pos)
    requires height > 0 && ParentOfMatch(|txids|, match_, height, pos) && IsNode(|txids|, height - 1, 2 * pos + 1)
    requires At(Build(H, height, pos, txids, match_), bits, hashes, ib, ih)
    ensures Decodes(Extract(H, |txids|, bits, hashes, height, pos, ib, ih), H, txids, match_, height, pos,
                    Build(H, height, pos, txids, match_), ib, ih)
    decreases height, 0
  {
    var h, p, q := height - 1, 2 * pos, 2 * pos + 1;
    var left := Build(H, h, p, txids, match_);
    AtChildren(left, Build(H, h, q, txids, match_), bits, hashes, ib, ih);
    ExtractInvertsBuild(H, txids, match_, h, p, bits, hashes, ib + 1, ih);
    var l := Extract(H, |txids|, bits, hashes, h, p, ib + 1, ih);
    ExtractInvertsBuild(H, txids, match_, h, q, bits, hashes, l.bitsUsed, l.hashUsed);
    assert SiblingsDiffer(H, txids, h, pos);
    JoinTwo(H, txids, match_, height, pos, bits, hashes, ib, ih, l,
            Extract(H, |txids|, bits, hashes, h, q, l.bitsUsed, l.hashUsed));
  }

  lemma {:induction false} ExtractOne(H: NodeHash, txids: seq<Hash>, match_: seq<bool>, height: nat, pos: nat,
                                      bits: seq<bool>, hashes: seq<Hash>, ib: nat, ih: nat)
    requires NoTwins(H, txids) && |match_| >= |txids| && IsNode(|txids|, height, pos)
    requires height > 0 && ParentOfMatch(|txids|, match_, height, pos) && !IsNode(|txids|, height - 1, 2 * pos + 1)
    requires At(Build(H, height, pos, txids, match_), bits, hashes, ib, ih)
    ensures Decodes(Extract(H, |txids|, bits, hashes, height, pos, ib, ih), H, txids, match_, height, pos,
                    Build(H, height, pos, txids, match_), ib, ih)
    decreases height, 0
  {
    CarriesSplit(bits, ib, [true], Build(H, height - 1, 2 * pos, txids, match_).bits);
    ExtractInvertsBuild(H, txids, match_, height - 1, 2 * pos, bits, hashes, ib + 1, ih);
    JoinOne(H, txids, match_, height, pos, bits, hashes, ib, ih);
  }

  /** An inner node decodes when both its children do. */
  lemma JoinTwo(H: NodeHash, txids: seq<Hash>, match_: seq<bool>, height: nat, pos: nat,
                bits: seq<bool>, hashes: seq<Hash>, ib: nat, ih: nat, l: Decoding, r: Decoding)
    requires |match_| >= |txids| && IsNode(|txids|, height, pos)
    requires height > 0 && SiblingsDiffer(H, txids, height - 1, pos) && ParentOfMatch(|txids|, match_, height, pos)
    requires IsNode(|txids|, height - 1, 2 * pos) && IsNode(|txids|, height - 1, 2 * pos + 1)
    requires ib < |bits| && bits[ib]
    requires l == Extract(H, |txids|, bits, hashes, height - 1, 2 * pos, ib + 1, ih)
    requires r == Extract(H, |txids|, bits, hashes, height - 1, 2 * pos + 1, l.bitsUsed, l.hashUsed)
    requires Decodes(l, H, txids, match_, height - 1, 2 * pos, Build(H, height - 1, 2 * pos, txids, match_), ib + 1, ih)
    requires Decodes(r, H, txids, match_, height - 1, 2 * pos + 1, Build(H, height - 1, 2 * pos + 1, txids, match_),
                     l.bitsUsed, l.hashUsed)
    ensures Decodes(Extract(H, |txids|, bits, hashes, height, pos, ib, ih), H, txids, match_, height, pos,
                    Build(H, height, pos, txids, match_), ib, ih)
  {
    MatchesOfChildren(txids, match_, height, pos);
  }

  /** An inner node with a single child decodes when the child does. */
  lemma JoinOne(H: NodeHash, txids: seq<Hash>, match_: seq<bool>, height: nat, pos: nat,
                bits: seq<bool>, hashes: seq<Hash>, ib: nat, ih: nat)
    requires |match_| >= |txids| && IsNode(|txids|, height, pos)
    requires height > 0 && ParentOfMatch(|txids|, match_, height, pos)
    requires IsNode(|txids|, height - 1, 2 * pos) && !IsNode(|txids|, height - 1, 2 * pos + 1)
    requires ib < |bits| && bits[ib]
    requires Decodes(Extract(H, |txids|, bits, hashes, height - 1, 2 * pos, ib + 1, ih), H, txids, match_, height - 1,
                     2 * pos,
                     Build(H, height - 1, 2 * pos, txids, match_), ib + 1, ih)
    ensures Decodes(Extract(H, |txids|, bits, hashes, height, pos, ib, ih), H, txids, match_, height, pos,
                    Build(H, height, pos, txids, match_), ib, ih)
  {
    MatchesOfChildren(txids, match_, height, pos);
  }

  lemma ExtractLeaf(H: NodeHash, txids: seq<Hash>, match_: seq<bool>, height: nat, pos: nat,
                    bits: seq<bool>, hashes: seq<Hash>, ib: nat, ih: nat)
    requires |match_| >= |txids| && IsNode(|txids|, height, pos)
    requires height == 0 || !ParentOfMatch(|txids|, match_, height, pos)
    requires At(Build(H, height, pos, txids, match_), bits, hashes, ib, ih)
    ensures Decodes(Extract(H, |txids|, bits, hashes, height, pos, ib, ih), H, txids, match_, height, pos,
                    Build(H, height, pos, txids, match_), ib, ih)
  {
    assert bits[ib] == bits[ib..ib + 1][0] == ParentOfMatch(|txids|, match_, height, pos);
    assert hashes[ih] == hashes[ih..ih + 1][0] == CalcHash(H, height, pos, txids);
    if height == 0 {
      assert ParentOfMatch(|txids|, match_, 0, pos) == match_[pos];
      assert MatchesIn(txids, match_, pos + 1, pos + 1) == [];
    } else {
      NoMatches(txids, match_, ShiftLeft(pos, height), ShiftLeft(pos + 1, height));
    }
  }

  // ----- the tree's nodes are the levels of the Merkle root -------------------------------------

  ghost function LevelAt(H: NodeHash, txids: seq<Hash>, height: nat): seq<Hash> {
    if height == 0 then txids else LevelAbove(H, LevelAt(H, txids, height - 1))
  }

  lemma {:induction false} LevelsAreNodes(H: NodeHash, txids: seq<Hash>, height: nat)
    ensures |LevelAt(H, txids, height)| == Width(|txids|, height)
    ensures forall pos :: 0 <= pos < |LevelAt(H, txids, height)| ==>
      LevelAt(H, txids, height)[pos] == CalcHash(H, height, pos, txids)
  {
    if height == 0 {
    } else {
      LevelsAreNodes(H, txids, height - 1);
      var below := LevelAt(H, txids, height - 1);
      forall pos | 0 <= pos < Width(|txids|, height)
        ensures LevelAt(H, txids, height)[pos] == CalcHash(H, height, pos, txids)
      {
        ChildIsNode(|txids|, height, pos);
        assert LevelAt(H, txids, height)[pos] == ParentHash(H, below, pos);
        assert below[2 * pos] == CalcHash(H, height - 1, 2 * pos, txids);
        assert 2 * pos + 1 < |below| ==> below[2 * pos + 1] == CalcHash(H, height - 1, 2 * pos + 1, txids);
      }
    }
  }

  /** The least height from h on at which the tree has at most one node. */
  function HeightFrom(n: nat, h: nat): (r: nat)
    ensures r >= h && Width(n, r) <= 1
    ensures forall k :: h <= k < r ==> Width(n, k) > 1
    decreases Width(n, h)
  {
    if Width(n, h) > 1 then HeightFrom(n, h + 1) else h
  }

  function TreeHeight(n: nat): nat { HeightFrom(n, 0) }

  /** A tree of at least one transaction has exactly one node at its height. */
  lemma {:induction false} SomeNode(n: nat, height: nat)
    requires n > 0
    ensures IsNode(n, height, 0)
  {
    if height == 0 {
    } else {
      SomeNode(n, height - 1);
    }
  }

  /** The top hash of the partial tree is the block's Merkle root. */
  lemma TopIsRoot(H: NodeHash, txids: seq<Hash>)
    requires |txids| > 0
    ensures IsNode(|txids|, TreeHeight(|txids|), 0)
    ensures CalcHash(H, TreeHeight(|txids|), 0, txids) == Root(H, txids)
  {
    var height := TreeHeight(|txids|);
    SomeNode(|txids|, height);
    LevelsAreNodes(H, txids, height);
    RootOfLevel(H, txids, height);
  }

  lemma {:induction false} RootOfLevel(H: NodeHash, txids: seq<Hash>, height: nat)
    requires height <= TreeHeight(|txids|)
    ensures Root(H, LevelAt(H, txids, height)) == Root(H, txids)
  {
    if height == 0 {
    } else {
      RootOfLevel(H, txids, height - 1);
      LevelsAreNodes(H, txids, height - 1);
    }
  }

  /** The mutation flag of the Merkle root says exactly whether two siblings have equal hashes, which
      extraction refuses. */
  lemma UnmutatedExactly(H: NodeHash, txids: seq<Hash>)
    ensures NoTwins(H, txids) <==> !Mutated(H, txids)
  {
    if !Mutated(H, txids) { UnmutatedHasNoTwins(H, txids); }
    if NoTwins(H, txids) { NoTwinsUnmutated(H, txids, 0); }
  }

  lemma {:induction false} NoTwinsUnmutated(H: NodeHash, txids: seq<Hash>, height: nat)
    requires NoTwins(H, txids)
    ensures !Mutated(H, LevelAt(H, txids, height))
    decreases |LevelAt(H, txids, height)|
  {
    var level := LevelAt(H, txids, height);
    if |level| <= 1 {
    } else {
      NoTwinsUnmutated(H, txids, height + 1);
      LevelsAreNodes(H, txids, height);
      forall i: nat | 2 * i + 1 < |level| ensures !Twins(level, i) {
        assert SiblingsDiffer(H, txids, height, i);
      }
    }
  }

  lemma UnmutatedHasNoTwins(H: NodeHash, txids: seq<Hash>)
    requires !Mutated(H, txids)
    ensures NoTwins(H, txids)
  {
    forall height: nat, pos: nat ensures SiblingsDiffer(H, txids, height, pos) {
      if IsNode(|txids|, height, 2 * pos) && IsNode(|txids|, height, 2 * pos + 1) {
        LevelUnmutated(H, txids, height);
        LevelsAreNodes(H, txids, height);
        assert !Twins(LevelAt(H, txids, height), pos);
      }
    }
  }

  lemma {:induction false} LevelUnmutated(H: NodeHash, txids: seq<Hash>, height: nat)
    requires !Mutated(H, txids)
    ensures !Mutated(H, LevelAt(H, txids, height))
  {
    if height == 0 {
    } else {
      LevelUnmutated(H, txids, height - 1);
      var below := LevelAt(H, txids, height - 1);
      assert |below| <= 1 ==> |LevelAbove(H, below)| <= 1;
    }
  }

  // ----- whole trees ----------------------------------------------------------------------------

  /** What ExtractMatches returns, with the reported matches and the error flag it leaves. */
  datatype Outcome = Outcome(root: Hash, matches: seq<Match>, bad: bool)

  predicate Acceptable(n: nat, bits: seq<bool>, hashes: seq<Hash>) {
    0 < n <= MAX_BLOCK_WEIGHT / MIN_TRANSACTION_WEIGHT && |hashes| <= n && |bits| >= |hashes|
  }

  function ExtractTree(H: NodeHash, n: nat, bits: seq<bool>, hashes: seq<Hash>, bad: bool): Outcome {
    if !Acceptable(n, bits, hashes) then Outcome(NULL_HASH, [], bad)
    else
      var d := Extract(H, n, bits, hashes, TreeHeight(n), 0, 0, 0);
      var consumed := (d.bitsUsed + 7) / 8 == (|bits| + 7) / 8 && d.hashUsed == |hashes|;
      Outcome(if bad || d.bad || !consumed then NULL_HASH else d.hash, d.matches, bad || d.bad)
  }

  function BuildTree(H: NodeHash, txids: seq<Hash>, match_: seq<bool>): Encoding
    requires |match_| >= |txids| > 0
  {
    SomeNode(|txids|, TreeHeight(|txids|));
    Build(H, TreeHeight(|txids|), 0, txids, match_)
  }

  /** Exactly the matched transactions, in block order. */
  ghost predicate ReportsMatched(matches: seq<Match>, txids: seq<Hash>, match_: seq<bool>)
    requires |match_| >= |txids|
  {
    && (forall i, j :: 0 <= i < j < |matches| ==> matches[i].index < matches[j].index)
    && (forall m :: m in matches <==> m.index < |txids| && match_[m.index] && m.txid == txids[m.index])
  }

  predicate IsMatch(m: Match, txids: seq<Hash>, match_: seq<bool>, lo: nat, hi: nat)
    requires |match_| >= |txids|
  {
    lo <= m.index < hi && m.index < |txids| && match_[m.index] && m.txid == txids[m.index]
  }

  lemma {:induction false} MatchesInAre(txids: seq<Hash>, match_: seq<bool>, lo: nat, hi: nat, m: Match)
    requires |match_| >= |txids|
    ensures m in MatchesIn(txids, match_, lo, hi) <==> IsMatch(m, txids, match_, lo, hi)
    decreases hi - lo
  {
    if lo < hi && lo < |txids| { MatchesInAre(txids, match_, lo + 1, hi, m); }
  }

  lemma {:induction false} MatchesInSorted(txids: seq<Hash>, match_: seq<bool>, lo: nat, hi: nat, i: nat, j: nat)
    requires |match_| >= |txids| && i < j < |MatchesIn(txids, match_, lo, hi)|
    ensures MatchesIn(txids, match_, lo, hi)[i].index < MatchesIn(txids, match_, lo, hi)[j].index
    decreases hi - lo
  {
    var rest := MatchesIn(txids, match_, lo + 1, hi);
    if !match_[lo] {
      MatchesInSorted(txids, match_, lo + 1, hi, i, j);
    } else if i > 0 {
      MatchesInSorted(txids, match_, lo + 1, hi, i - 1, j - 1);
    } else {
      MatchesInAre(txids, match_, lo + 1, hi, rest[j - 1]);
    }
  }

  /** Round trip: a tree built for a block whose Merkle root is not flagged as mutated, and padded to
      whole bytes or not, extracts to the block's Merkle root and exactly its matched transactions. */
  lemma RoundTrip(H: NodeHash, txids: seq<Hash>, match_: seq<bool>, padding: seq<bool>)
    requires |match_| >= |txids| && 0 < |txids| <= MAX_BLOCK_WEIGHT / MIN_TRANSACTION_WEIGHT && !Mutated(H, txids)
    requires var used := |BuildTree(H, txids, match_).bits|; (used + |padding| + 7) / 8 == (used + 7) / 8
    ensures var e := BuildTree(H, txids, match_);
      var o := ExtractTree(H, |txids|, e.bits + padding, e.hashes, false);
      o.root == Root(H, txids) && !o.bad && ReportsMatched(o.matches, txids, match_)
  {
    var e, height := BuildTree(H, txids, match_), TreeHeight(|txids|);
    var bits := e.bits + padding;
    TopIsRoot(H, txids);
    BuildSizes(H, height, 0, txids, match_);
    UnmutatedHasNoTwins(H, txids);
    assert bits[0..0 + |e.bits|] == e.bits && e.hashes[0..0 + |e.hashes|] == e.hashes;
    ExtractInvertsBuild(H, txids, match_, height, 0, bits, e.hashes, 0, 0);
    var d := Extract(H, |txids|, bits, e.hashes, height, 0, 0, 0);
    ExtractedWhole(H, |txids|, bits, e.hashes, d);
    RootMatches(txids, match_, height);
  }

  lemma ExtractedWhole(H: NodeHash, n: nat, bits: seq<bool>, hashes: seq<Hash>, d: Decoding)
    requires Acceptable(n, bits, hashes) && d == Extract(H, n, bits, hashes, TreeHeight(n), 0, 0, 0)
    requires !d.bad && d.hashUsed == |hashes| && (d.bitsUsed + 7) / 8 == (|bits| + 7) / 8
    ensures ExtractTree(H, n, bits, hashes, false) == Outcome(d.hash, d.matches, false)
  {
  }

  lemma RootMatches(txids: seq<Hash>, match_: seq<bool>, height: nat)
    requires |match_| >= |txids| && Width(|txids|, height) <= 1
    ensures ReportsMatched(NodeMatches(txids, match_, height, 0), txids, match_)
  {
    ShiftZero(height);
    BeyondTree(|txids|, height, 1);
    var hi := ShiftLeft(1, height);
    forall m: Match ensures m in MatchesIn(txids, match_, 0, hi) <==> IsMatch(m, txids, match_, 0, hi) {
      MatchesInAre(txids, match_, 0, hi, m);
    }
    forall i, j | 0 <= i < j < |MatchesIn(txids, match_, 0, hi)|
      ensures MatchesIn(txids, match_, 0, hi)[i].index < MatchesIn(txids, match_, 0, hi)[j].index
    {
      MatchesInSorted(txids, match_, 0, hi, i, j);
    }
  }

  lemma {:induction false} ShiftZero(height: nat)
    ensures ShiftLeft(0, height) == 0
  {
    if height == 0 {
    } else {
      ShiftZero(height - 1);
    }
  }

  // ----- authenticity ---------------------------------------------------------------------------

  /** Every reported pair is a transaction of the block at its index. */
  ghost predicate Genuine(matches: seq<Match>, txids: seq<Hash>) {
    forall m :: m in matches ==> m.index < |txids| && txids[m.index] == m.txid
  }

  lemma GenuineJoin(a: seq<Match>, b: seq<Match>, txids: seq<Hash>)
    requires Genuine(a, txids) && Genuine(b, txids)
    ensures Genuine(a + b, txids)
  {
  }

  lemma {:induction false} ExtractGenuine(H: NodeHash, txids: seq<Hash>, bits: seq<bool>, hashes: seq<Hash>,
                                          height: nat, pos: nat, ib: nat, ih: nat)
    requires Injective(H) && IsNode(|txids|, height, pos)
    requires Extract(H, |txids|, bits, hashes, height, pos, ib, ih).hash == CalcHash(H, height, pos, txids)
    ensures Genuine(Extract(H, |txids|, bits, hashes, height, pos, ib, ih).matches, txids)
  {
    if ib < |bits| && bits[ib] && height > 0 {
      ChildIsNode(|txids|, height, pos);
      var left := Extract(H, |txids|, bits, hashes, height - 1, 2 * pos, ib + 1, ih);
      var trueLeft := CalcHash(H, height - 1, 2 * pos, txids);
      if IsNode(|txids|, height - 1, 2 * pos + 1) {
        var right := Extract(H, |txids|, bits, hashes, height - 1, 2 * pos + 1, left.bitsUsed, left.hashUsed);
        assert NoCollision(H, left.hash, right.hash, trueLeft, CalcHash(H, height - 1, 2 * pos + 1, txids));
        ExtractGenuine(H, txids, bits, hashes, height - 1, 2 * pos, ib + 1, ih);
        ExtractGenuine(H, txids, bits, hashes, height - 1, 2 * pos + 1, left.bitsUsed, left.hashUsed);
        GenuineJoin(left.matches, right.matches, txids);
        assert Extract(H, |txids|, bits, hashes, height, pos, ib, ih).matches == left.matches + right.matches;
      } else {
        assert NoCollision(H, left.hash, left.hash, trueLeft, trueLeft);
        ExtractGenuine(H, txids, bits, hashes, height - 1, 2 * pos, ib + 1, ih);
        assert Extract(H, |txids|, bits, hashes, height, pos, ib, ih).matches == left.matches;
      }
    } else {
      LeafGenuine(H, txids, bits, hashes, height, pos, ib, ih);
    }
  }

  lemma LeafGenuine(H: NodeHash, txids: seq<Hash>, bits: seq<bool>, hashes: seq<Hash>, height: nat, pos: nat, ib: nat,
                    ih: nat)
    requires IsNode(|txids|, height, pos) && !(ib < |bits| && bits[ib] && height > 0)
    requires Extract(H, |txids|, bits, hashes, height, pos, ib, ih).hash == CalcHash(H, height, pos, txids)
    ensures Genuine(Extract(H, |txids|, bits, hashes, height, pos, ib, ih).matches, txids)
  {
  }

  /** Authenticity: whatever bits and hashes a peer sends, a tree that extracts to the Merkle root of
      a block of that many transactions reports only transactions of the block, at their indices. */
  lemma Authentic(H: NodeHash, txids: seq<Hash>, bits: seq<bool>, hashes: seq<Hash>, bad: bool)
    requires Injective(H) && Root(H, txids) != NULL_HASH
    requires ExtractTree(H, |txids|, bits, hashes, bad).root == Root(H, txids)
    ensures Genuine(ExtractTree(H, |txids|, bits, hashes, bad).matches, txids)
  {
    TopIsRoot(H, txids);
    ExtractGenuine(H, txids, bits, hashes, TreeHeight(|txids|), 0, 0, 0);
  }

  // ----- flag bits as bytes ---------------------------------------------------------------------

  /** The bytes hold the bits, least significant first, and zeros after them. */
  ghost predicate Packs(bytes: seq<bv8>, bits: seq<bool>) {
    && |bytes| == (|bits| + 7) / 8
    && forall p :: 0 <= p < 8 * |bytes| ==> (BitAt(bytes, p) <==> p < |bits| && bits[p])
  }

  method Pack(bits: seq<bool>) returns (bytes: seq<bv8>)
    ensures Packs(bytes, bits)
  {
    bytes := seq((|bits| + 7) / 8, _ => 0 as bv8);
    var p := 0;
    while p < |bits|
      invariant p <= |bits| && |bytes| == (|bits| + 7) / 8
      invariant forall q :: 0 <= q < 8 * |bytes| ==> (BitAt(bytes, q) <==> q < p && bits[q])
    {
      if bits[p] { bytes := SetBitAt(bytes, p); }
      p := p + 1;
    }
  }

  method Unpack(bytes: seq<bv8>) returns (bits: seq<bool>)
    ensures |bits| == 8 * |bytes| && forall p :: 0 <= p < |bits| ==> bits[p] == BitAt(bytes, p)
  {
    bits := [];
    while |bits| < 8 * |bytes|
      invariant |bits| <= 8 * |bytes|
      invariant forall p :: 0 <= p < |bits| ==> bits[p] == BitAt(bytes, p)
    {
      bits := bits + [BitAt(bytes, |bits|)];
    }
  }

  lemma UnpackedIsPadded(bytes: seq<bv8>, bits: seq<bool>, received: seq<bool>) returns (padding: seq<bool>)
    requires Packs(bytes, bits)
    requires |received| == 8 * |bytes| && forall p :: 0 <= p < |received| ==> received[p] == BitAt(bytes, p)
    ensures received == bits + padding && (|bits| + |padding| + 7) / 8 == (|bits| + 7) / 8
    ensures forall p :: 0 <= p < |padding| ==> !padding[p]
  {
    padding := received[|bits|..];
    forall p | 0 <= p < |received| ensures received[p] == (bits + padding)[p] {
      assert received[p] == BitAt(bytes, p);
    }
    forall p | 0 <= p < |padding| ensures !padding[p] {
      assert !BitAt(bytes, |bits| + p);
    }
  }

  /** Sending the flag bits as bytes only adds padding that extraction does not mind: a block's tree
      read back from the wire still yields the Merkle root and exactly the matched transactions. */
  lemma WireRoundTrip(H: NodeHash, txids: seq<Hash>, match_: seq<bool>, bytes: seq<bv8>, received: seq<bool>)
    requires |match_| >= |txids| && 0 < |txids| <= MAX_BLOCK_WEIGHT / MIN_TRANSACTION_WEIGHT && !Mutated(H, txids)
    requires Packs(bytes, BuildTree(H, txids, match_).bits)
    requires |received| == 8 * |bytes| && forall p :: 0 <= p < |received| ==> received[p] == BitAt(bytes, p)
    ensures var o := ExtractTree(H, |txids|, received, BuildTree(H, txids, match_).hashes, false);
      o.root == Root(H, txids) && !o.bad && ReportsMatched(o.matches, txids, match_)
  {
    var padding := UnpackedIsPadded(bytes, BuildTree(H, txids, match_).bits, received);
    RoundTrip(H, txids, match_, padding);
  }

  // ----- the object -----------------------------------------------------------------------------

  function Txids(ms: seq<Match>): seq<Hash> { seq(|ms|, i requires 0 <= i < |ms| => ms[i].txid) }

  function Indices(ms: seq<Match>): seq<nat> { seq(|ms|, i requires 0 <= i < |ms| => ms[i].index) }

  lemma ListsJoin(ids: seq<Hash>, indices: seq<nat>, a: seq<Match>, b: seq<Match>)
    ensures ids + Txids(a) + Txids(b) == ids + Txids(a + b)
    ensures indices + Indices(a) + Indices(b) == indices + Indices(a + b)
  {
    assert Txids(a + b) == Txids(a) + Txids(b) && Indices(a + b) == Indices(a) + Indices(b);
  }

  lemma Assoc<T>(a: seq<T>, b: seq<T>, c: seq<T>)
    ensures a + b + c == a + (b + c)
  {
  }

  class PartialMerkleTree {
    const H: NodeHash
    var nTransactions: nat
    var vBits: seq<bool>
    var vHash: seq<Hash>
    var fBad: bool

    constructor (H: NodeHash, vTxid: seq<Hash>, vMatch: seq<bool>)
      requires |vMatch| >= |vTxid| > 0
      ensures this.H == H && nTransactions == |vTxid| && !fBad
      ensures Encoding(vBits, vHash) == BuildTree(H, vTxid, vMatch)
    {
      this.H, nTransactions, vBits, vHash, fBad := H, |vTxid|, [], [], false;
      new;
      var nHeight := CalcHeight();
      SomeNode(|vTxid|, nHeight);
      TraverseAndBuild(nHeight, 0, vTxid, vMatch);
    }

    /** Reading from the wire. */
    constructor Unserialize(H: NodeHash, nTransactions: nat, vHash: seq<Hash>, vBytes: seq<bv8>)
      ensures this.H == H && this.nTransactions == nTransactions && this.vHash == vHash && !fBad
      ensures |vBits| == 8 * |vBytes| && forall p :: 0 <= p < |vBits| ==> vBits[p] == BitAt(vBytes, p)
    {
      var bits := Unpack(vBytes);
      this.H, this.nTransactions, this.vBits, this.vHash, fBad := H, nTransactions, bits, vHash, false;
    }

    method CalcHeight() returns (nHeight: nat)
      ensures nHeight == TreeHeight(nTransactions)
    {
      nHeight := 0;
      while CalcTreeWidth(nTransactions, nHeight) > 1
        invariant HeightFrom(nTransactions, nHeight) == TreeHeight(nTransactions)
        decreases CalcTreeWidth(nTransactions, nHeight)
      {
        nHeight := nHeight + 1;
      }
    }

    method FindMatch(height: nat, pos: nat, vMatch: seq<bool>) returns (fParentOfMatch: bool)
      requires |vMatch| >= nTransactions
      ensures fParentOfMatch <==> ParentOfMatch(nTransactions, vMatch, height, pos)
    {
      fParentOfMatch := false;
      var p := ShiftLeft(pos, height);
      while p < ShiftLeft(pos + 1, height) && p < nTransactions
        invariant p >= ShiftLeft(pos, height)
        invariant fParentOfMatch <==> AnyMatch(nTransactions, vMatch, ShiftLeft(pos, height), p)
        invariant p <= ShiftLeft(pos + 1, height) || p == ShiftLeft(pos, height)
        decreases nTransactions - p
      {
        fParentOfMatch := fParentOfMatch || vMatch[p];
        p := p + 1;
      }
      ShiftMonotone(pos, pos + 1, height);
    }

    method TraverseAndBuild(height: nat, pos: nat, vTxid: seq<Hash>, vMatch: seq<bool>)
      requires nTransactions == |vTxid| && |vMatch| >= |vTxid| && IsNode(|vTxid|, height, pos)
      modifies `vBits, `vHash
      ensures var e := Build(H, height, pos, vTxid, vMatch);
        vBits == old(vBits) + e.bits && vHash == old(vHash) + e.hashes
      decreases height
    {
      var fParentOfMatch := FindMatch(height, pos, vMatch);
      vBits := vBits + [fParentOfMatch];
      if height == 0 || !fParentOfMatch {
        vHash := vHash + [CalcHash(H, height, pos, vTxid)];
      } else {
        ChildIsNode(|vTxid|, height, pos);
        ghost var left := Build(H, height - 1, 2 * pos, vTxid, vMatch);
        TraverseAndBuild(height - 1, 2 * pos, vTxid, vMatch);
        Assoc(old(vBits), [true], left.bits);
        if 2 * pos + 1 < CalcTreeWidth(nTransactions, height - 1) {
          ghost var right := Build(H, height - 1, 2 * pos + 1, vTxid, vMatch);
          TraverseAndBuild(height - 1, 2 * pos + 1, vTxid, vMatch);
          Assoc(old(vBits), [true] + left.bits, right.bits);
          Assoc(old(vHash), left.hashes, right.hashes);
        }
      }
    }

    method TraverseAndExtract(height: nat, pos: nat, bitsUsed: nat, hashUsed: nat, vMatch: seq<Hash>, vnIndex: seq<nat>)
      returns (hash: Hash, nBitsUsed: nat, nHashUsed: nat, vMatch': seq<Hash>, vnIndex': seq<nat>)
      modifies `fBad
      ensures var d := Extract(H, nTransactions, vBits, vHash, height, pos, bitsUsed, hashUsed);
        && hash == d.hash && nBitsUsed == d.bitsUsed && nHashUsed == d.hashUsed && fBad == (old(fBad) || d.bad)
        && vMatch' == vMatch + Txids(d.matches) && vnIndex' == vnIndex + Indices(d.matches)
      decreases height
    {
      nBitsUsed, nHashUsed, vMatch', vnIndex' := bitsUsed, hashUsed, vMatch, vnIndex;
      if nBitsUsed >= |vBits| {
        fBad := true;
        return NULL_HASH, nBitsUsed, nHashUsed, vMatch', vnIndex';
      }
      var fParentOfMatch := vBits[nBitsUsed];
      nBitsUsed := nBitsUsed + 1;
      if height == 0 || !fParentOfMatch {
        if nHashUsed >= |vHash| {
          fBad := true;
          return NULL_HASH, nBitsUsed, nHashUsed, vMatch', vnIndex';
        }
        hash := vHash[nHashUsed];
        nHashUsed := nHashUsed + 1;
        if height == 0 && fParentOfMatch {
          vMatch', vnIndex' := vMatch' + [hash], vnIndex' + [pos];
        }
      } else {
        hash, nBitsUsed, nHashUsed, vMatch', vnIndex' :=
          DescendAndExtract(height, pos, nBitsUsed, nHashUsed, vMatch', vnIndex');
      }
    }

    /** The descent into the subtrees of a node whose flag bit is set. */
    method DescendAndExtract(height: nat, pos: nat, bitsUsed: nat, hashUsed: nat, vMatch: seq<Hash>, vnIndex: seq<nat>)
      returns (hash: Hash, nBitsUsed: nat, nHashUsed: nat, vMatch': seq<Hash>, vnIndex': seq<nat>)
      requires height > 0 && 0 < bitsUsed <= |vBits| && vBits[bitsUsed - 1]
      modifies `fBad
      ensures var d := Extract(H, nTransactions, vBits, vHash, height, pos, bitsUsed - 1, hashUsed);
        && hash == d.hash && nBitsUsed == d.bitsUsed && nHashUsed == d.hashUsed && fBad == (old(fBad) || d.bad)
        && vMatch' == vMatch + Txids(d.matches) && vnIndex' == vnIndex + Indices(d.matches)
      decreases height, 0
    {
      ghost var l := Extract(H, nTransactions, vBits, vHash, height - 1, 2 * pos, bitsUsed, hashUsed);
      var left, right;
      left, nBitsUsed, nHashUsed, vMatch', vnIndex' :=
        TraverseAndExtract(height - 1, 2 * pos, bitsUsed, hashUsed, vMatch, vnIndex);
      if 2 * pos + 1 < CalcTreeWidth(nTransactions, height - 1) {
        ghost var r := Extract(H, nTransactions, vBits, vHash, height - 1, 2 * pos + 1, nBitsUsed, nHashUsed);
        right, nBitsUsed, nHashUsed, vMatch', vnIndex' :=
          TraverseAndExtract(height - 1, 2 * pos + 1, nBitsUsed, nHashUsed, vMatch', vnIndex');
        if right == left { fBad := true; }
        ListsJoin(vMatch, vnIndex, l.matches, r.matches);
      } else {
        right := left;
      }
      hash := H(left, right);
    }

    /** The matched ids replace vMatch; their indices are appended to whatever vnIndex held. */
    method ExtractMatches(vnIndex: seq<nat>) returns (root: Hash, vMatch: seq<Hash>, vnIndex': seq<nat>)
      modifies `fBad
      ensures var o := ExtractTree(H, nTransactions, vBits, vHash, old(fBad));
        root == o.root && fBad == o.bad && vMatch == Txids(o.matches) && vnIndex' == vnIndex + Indices(o.matches)
    {
      vMatch, vnIndex' := [], vnIndex;
      if nTransactions == 0 { return NULL_HASH, vMatch, vnIndex'; }
      if nTransactions > MAX_BLOCK_WEIGHT / MIN_TRANSACTION_WEIGHT { return NULL_HASH, vMatch, vnIndex'; }
      if |vHash| > nTransactions { return NULL_HASH, vMatch, vnIndex'; }
      if |vBits| < |vHash| { return NULL_HASH, vMatch, vnIndex'; }
      var nHeight := CalcHeight();
      var nBitsUsed, nHashUsed;
      root, nBitsUsed, nHashUsed, vMatch, vnIndex' := TraverseAndExtract(nHeight, 0, 0, 0, vMatch, vnIndex');
      if fBad || (nBitsUsed + 7) / 8 != (|vBits| + 7) / 8 || nHashUsed != |vHash| { root := NULL_HASH; }
    }
  }
}
