/** The block index of chain.cpp: skip pointers against the plain walk along pprev, and the active chain. */
module Chain {
  import Arithmetic

  /** A pointer to a block index entry; entries are never changed after they are linked in. */
  datatype Link = Null | To(block: BlockIndex)

  datatype BlockIndex = BlockIndex(hash: nat, nHeight: nat, nTime: nat, nTimeMax: nat, pprev: Link, pskip: Link)

  // ----- skip heights ---------------------------------------------------------------------------

  function BitAnd(x: nat, y: nat): (r: nat)
    ensures r <= x && r <= y
  {
    if x == 0 || y == 0 then 0 else 2 * BitAnd(x / 2, y / 2) + (x % 2) * (y % 2)
  }

  function InvertLowestOne(n: nat): nat { if n == 0 then 0 else BitAnd(n, n - 1) }

  /** It removes the lowest 1 in binary: halving an even number halves the result. */
  lemma {:induction false} InvertsLowestOne(n: nat)
    ensures InvertLowestOne(n) == if n == 0 then 0 else if n % 2 == 1 then n - 1 else 2 * InvertLowestOne(n / 2)
  {
    if n > 0 && n % 2 == 1 {
      AndSelf(n / 2);
    }
  }

  lemma {:induction false} AndSelf(x: nat)
    ensures BitAnd(x, x) == x
  {
    if x == 0 {
    } else {
      AndSelf(x / 2);
    }
  }

  function GetSkipHeight(height: nat): (r: nat)
    ensures height > 0 ==> r < height
  {
    if height < 2 then 0
    else if height % 2 == 1 then
      InvertsLowestOne(height - 1);
      InvertLowestOne(InvertLowestOne(height - 1)) + 1
    else InvertLowestOne(height)
  }

  // ----- the cost of a search -------------------------------------------------------------------

  /** How many binary digits are 1. */
  function Ones(n: nat): nat { if n == 0 then 0 else n % 2 + Ones(n / 2) }

  /** How many binary digits there are. */
  function Length(n: nat): nat { if n == 0 then 0 else 1 + Length(n / 2) }

  /** From which binary digit on two numbers agree. */
  function Differ(w: nat, h: nat): nat { if w == h then 0 else 1 + Differ(w / 2, h / 2) }

  function TrailingZeros(n: nat): nat { if n == 0 || n % 2 == 1 then 0 else 1 + TrailingZeros(n / 2) }

  /** A number without its lowest 1. */
  function Drop(n: nat): (r: nat)
    ensures n > 0 ==> r < n
  {
    if n == 0 then 0 else if n % 2 == 1 then n - 1 else 2 * Drop(n / 2)
  }

  lemma {:induction false} DropOnes(n: nat)
    requires n > 0
    ensures Ones(Drop(n)) == Ones(n) - 1
  {
    if n % 2 == 1 {
      assert (n - 1) / 2 == n / 2;
    } else {
      DropOnes(n / 2);
      OnesOf(Drop(n / 2));
    }
  }

  lemma {:induction false} InvertDrops(n: nat)
    ensures InvertLowestOne(n) == Drop(n)
  {
    InvertsLowestOne(n);
    if n > 0 && n % 2 == 0 { InvertDrops(n / 2); }
  }

  /** The skip height, by parity. */
  function Skip(w: nat): (r: nat)
    ensures w > 0 ==> r < w
  {
    if w < 2 then 0 else if w % 2 == 1 then 2 * Drop(Drop(w / 2)) + 1 else 2 * Drop(w / 2)
  }

  lemma SkipHeightIs(w: nat)
    ensures GetSkipHeight(w) == Skip(w)
  {
    if w % 2 == 0 {
      InvertDrops(w);
    } else if w > 1 {
      InvertDrops(w - 1);
      DropDouble(w / 2);
      InvertDrops(2 * Drop(w / 2));
      DropDouble(Drop(w / 2));
    }
  }

  lemma DropDouble(v: nat)
    ensures Drop(2 * v) == 2 * Drop(v)
  {
  }

  lemma OnesOf(v: nat)
    ensures Ones(2 * v) == Ones(v) && Ones(2 * v + 1) == Ones(v) + 1
  {
  }

  /** Every skip leaves fewer ones. */
  lemma SkipOnes(w: nat)
    requires w > 0
    ensures Ones(Skip(w)) < Ones(w)
  {
    var v := w / 2;
    if w % 2 == 0 {
      EvenOnes(v);
    } else if v > 0 {
      OddOnes(v);
    }
  }

  lemma EvenOnes(v: nat)
    requires v > 0
    ensures Ones(2 * Drop(v)) < Ones(2 * v)
  {
    DropOnes(v);
    OnesOf(v);
    OnesOf(Drop(v));
  }

  lemma OddOnes(v: nat)
    requires v > 0
    ensures Ones(2 * Drop(Drop(v)) + 1) < Ones(2 * v + 1)
  {
    DropOnes(v);
    if Drop(v) > 0 { DropOnes(Drop(v)); }
    OnesOf(v);
    OnesOf(Drop(Drop(v)));
  }

  lemma {:induction false} DifferBetween(w: nat, m: nat, h: nat)
    requires h <= m <= w
    ensures Differ(m, h) <= Differ(w, h)
  {
    if m != h { DifferBetween(w / 2, m / 2, h / 2); }
  }

  lemma {:induction false} DifferLength(w: nat, h: nat)
    requires h <= w
    ensures Differ(w, h) <= Length(w) && Ones(w) <= Length(w)
  {
    if w == 0 {
    } else {
      DifferLength(w / 2, h / 2);
    }
  }

  /** A block whose skip would go too far: the block before it agrees with the target in more digits. */
  lemma {:induction false} PassedOver(w: nat, h: nat)
    requires Drop(w) <= h < w
    ensures Ones(w - 1) == Ones(w) - 1 + TrailingZeros(w)
    ensures Differ(w - 1, h) <= TrailingZeros(w) < Differ(w, h)
  {
    if w % 2 == 1 {
      assert (w - 1) / 2 == w / 2;
    } else {
      PassedOver(w / 2, h / 2);
      assert (w - 1) / 2 == w / 2 - 1;
    }
  }

  /** An odd block never has a better skip before it. */
  lemma OddFollows(v: nat)
    requires v > 0
    ensures Skip(2 * v) >= Skip(2 * v + 1) - 1
  {
  }

  /** When the block before an even one has a better skip, that skip leaves fewer ones. */
  lemma BetterOnes(v: nat, s: int, t: nat)
    requires v > 1 && s == 2 * Drop(v) && t == 2 * Drop(Drop(v - 1)) + 1 && t < s - 2
    ensures Ones(t) < Ones(2 * v)
  {
    BetterHalf(v);
    OnesOf(v);
    OnesOf(Drop(Drop(v - 1)));
  }

  lemma BetterHalf(v: nat)
    requires v > 1 && Drop(Drop(v - 1)) < Drop(v) - 1
    ensures Ones(Drop(Drop(v - 1))) <= Ones(v) - 2
  {
    if v % 2 == 1 {
      DropOnes(v);
      DropOnes(v - 1);
      if Drop(v - 1) > 0 { DropOnes(Drop(v - 1)); }
    } else {
      var u := v / 2;
      assert Drop(v - 1) == 2 * (u - 1);
      DropDouble(u - 1);
      EvenDrop(u);
      OnesOf(u);
      OnesOf(Drop(u - 1));
      DropOnes(u);
      if u > 1 { DropOnes(u - 1); }
    }
  }

  lemma EvenDrop(u: nat)
    requires u > 0
    ensures u % 2 == 0 ==> Drop(u - 1) >= Drop(u)
  {
  }

  /** A bound on the steps that remain. */
  function Base(w: nat, h: nat): nat { 2 * Ones(w) + Differ(w, h) * Differ(w, h) }

  function Bound(w: nat, h: nat): nat {
    if w % 2 == 1 && Skip(w) >= h then 1 + Base(Skip(w), h) else Base(w, h)
  }

  lemma Squares(a: nat, b: nat)
    requires a <= b
    ensures a * a <= b * b && (a < b ==> a * a + 2 * a + 1 <= b * b)
  {
    if a < b {
      var c := b - a - 1;
      assert b * b == (a + 1) * (a + 1) + (2 * (a + 1) + c) * c;
    }
  }

  lemma SkipBase(w: nat, h: nat, m: nat)
    requires h <= m < w && Ones(m) < Ones(w)
    ensures Base(m, h) <= Base(w, h) - 2
  {
    DifferBetween(w, m, h);
    Squares(Differ(m, h), Differ(w, h));
  }

  lemma BoundBase(w: nat, h: nat)
    requires h < w
    ensures Bound(w, h) <= Base(w, h)
  {
    if w % 2 == 1 && Skip(w) >= h {
      SkipOnes(w);
      SkipBase(w, h, Skip(w));
    }
  }

  /** Whether a search for height h follows the skip pointer to s, when the block before has one to t. */
  predicate Follows(h: nat, s: nat, t: nat) { s == h || (s > h && !(t < s - 2 && t >= h)) }

  /** What is left of the bound; nothing at the end. */
  function Cost(w: nat, h: nat): nat { if w > h then Bound(w, h) else 0 }

  lemma CostBase(w: nat, h: nat)
    requires h <= w
    ensures Cost(w, h) <= Base(w, h)
  {
    if h < w { BoundBase(w, h); }
  }

  /** Every step lowers the cost. */
  lemma StepLowers(w: nat, h: nat, s: nat, t: nat)
    requires h < w && s == Skip(w) && t == Skip(w - 1)
    ensures if Follows(h, s, t) then h <= s < w && Cost(s, h) < Cost(w, h) else Cost(w - 1, h) < Cost(w, h)
  {
    if w % 2 == 1 { OddStep(w / 2, h, s, t); } else { EvenStep(w / 2, h, s, t); }
  }

  lemma EvenStep(v: nat, h: nat, s: nat, t: nat)
    requires h < 2 * v && s == Skip(2 * v) && t == Skip(2 * v - 1)
    ensures if Follows(h, s, t) then h <= s && Cost(s, h) < Cost(2 * v, h) else Cost(2 * v - 1, h) < Cost(2 * v, h)
  {
    if Follows(h, s, t) {
      EvenFollow(2 * v, h);
    } else if s > h {
      EvenBetter(v, h, s, t);
    } else {
      EvenPassed(v, h);
    }
  }

  lemma OddStep(v: nat, h: nat, s: nat, t: nat)
    requires h < 2 * v + 1 && s == Skip(2 * v + 1) && t == Skip(2 * v)
    ensures var w := 2 * v + 1;
      if Follows(h, s, t) then h <= s && Cost(s, h) < Cost(w, h) else Cost(w - 1, h) < Cost(w, h)
  {
    if v > 0 { OddFollows(v); }
    if s >= h {
      OddCost(v, h, s);
      CostBase(s, h);
    } else {
      OddBack(v, h);
    }
  }

  lemma OddBack(v: nat, h: nat)
    requires Skip(2 * v + 1) < h < 2 * v + 1
    ensures Cost(2 * v, h) < Cost(2 * v + 1, h)
  {
    OnesOf(v);
    SkipBase(2 * v + 1, h, 2 * v);
    CostBase(2 * v, h);
  }

  lemma EvenFollow(w: nat, h: nat)
    requires h < w && w % 2 == 0 && h <= Skip(w)
    ensures Cost(Skip(w), h) < Cost(w, h)
  {
    SkipOnes(w);
    SkipBase(w, h, Skip(w));
    CostBase(Skip(w), h);
  }

  lemma EvenBetter(v: nat, h: nat, s: nat, t: nat)
    requires v > 1 && s == Skip(2 * v) && t == Skip(2 * v - 1) && h <= t < s - 2
    ensures Cost(2 * v - 1, h) < Cost(2 * v, h)
  {
    BetterBase(v, h, s, t);
    OddCost(v - 1, h, t);
    EvenCost(v, h);
  }

  lemma BetterBase(v: nat, h: nat, s: nat, t: nat)
    requires v > 1 && s == Skip(2 * v) && t == Skip(2 * (v - 1) + 1) && h <= t < s - 2
    ensures Base(t, h) <= Base(2 * v, h) - 2
  {
    BetterSkip(v, s, t);
    SkipBase(2 * v, h, t);
  }

  lemma BetterSkip(v: nat, s: nat, t: nat)
    requires v > 1 && s == Skip(2 * v) && t == Skip(2 * (v - 1) + 1) && t < s - 2
    ensures Ones(t) < Ones(2 * v)
  {
    BetterOnes(v, s, t);
  }

  lemma OddCost(v: nat, h: nat, t: nat)
    requires t == Skip(2 * v + 1) && h <= t
    ensures Cost(2 * v + 1, h) == 1 + Base(t, h)
  {
  }

  lemma EvenCost(v: nat, h: nat)
    requires h < 2 * v
    ensures Cost(2 * v, h) == Base(2 * v, h)
  {
  }

  lemma EvenPassed(v: nat, h: nat)
    requires Skip(2 * v) <= h < 2 * v
    ensures Cost(2 * v - 1, h) < Cost(2 * v, h)
  {
    PassedStep(v, h);
    CostBase(2 * v - 1, h);
  }

  lemma PassedStep(v: nat, h: nat)
    requires Skip(2 * v) <= h < 2 * v
    ensures Base(2 * v - 1, h) < Base(2 * v, h)
  {
    var w := 2 * v;
    DropDouble(v);
    PassedOver(w, h);
    Squares(Differ(w - 1, h), TrailingZeros(w));
    Squares(TrailingZeros(w), Differ(w, h));
  }

  /** The bound is quadratic in the number of binary digits of the height. */
  lemma CostIsSmall(w: nat, h: nat)
    requires h <= w
    ensures Cost(w, h) <= Length(w) * Length(w) + 2 * Length(w)
  {
    CostBase(w, h);
    DifferLength(w, h);
    Squares(Differ(w, h), Length(w));
  }

  // ----- the plain walk -------------------------------------------------------------------------

  /** The ancestor at a height, along pprev. */
  function Walk(b: BlockIndex, height: int): Link {
    if b.nHeight == height then To(b) else match b.pprev case Null => Null case To(p) => Walk(p, height)
  }

  /** A block index entry as AddToBlockIndex leaves it. */
  predicate Linked(b: BlockIndex) {
    match b.pprev
    case Null => b.nHeight == 0 && b.pskip == Null && b.nTimeMax == b.nTime
    case To(p) =>
      && Linked(p) && b.nHeight == p.nHeight + 1
      && b.pskip == Walk(p, GetSkipHeight(b.nHeight)) && b.nTimeMax == Arithmetic.Max(p.nTimeMax, b.nTime)
  }

  lemma {:induction false} WalkReaches(b: BlockIndex, height: int)
    requires Linked(b)
    ensures 0 <= height <= b.nHeight ==>
      Walk(b, height).To? && Walk(b, height).block.nHeight == height && Linked(Walk(b, height).block)
    ensures height < 0 || height > b.nHeight ==> Walk(b, height) == Null
  {
    if b.nHeight != height && b.pprev.To? { WalkReaches(b.pprev.block, height); }
  }

  /** Walking on from an ancestor. */
  lemma {:induction false} WalkOn(b: BlockIndex, a: BlockIndex, height: int)
    requires Linked(b) && Walk(b, a.nHeight) == To(a) && height <= a.nHeight
    ensures Walk(a, height) == Walk(b, height)
  {
    if b != a {
      WalkReaches(b, a.nHeight);
      WalkOn(b.pprev.block, a, height);
    }
  }

  predicate IsAncestor(a: BlockIndex, b: BlockIndex) { Walk(b, a.nHeight) == To(a) }

  /** GetAncestor: the skip pointers lead where the walk along pprev does, in a number of steps that is
      quadratic in the number of binary digits of the height. */
  method GetAncestor(b: BlockIndex, height: int) returns (r: Link, ghost steps: nat)
    requires Linked(b)
    ensures r == Walk(b, height)
    ensures var n := Length(b.nHeight); steps <= n * n + 2 * n
  {
    WalkReaches(b, height);
    if height > b.nHeight || height < 0 {
      SquareIsNatural(Length(b.nHeight));
      return Null, 0;
    }
    r, steps := Search(b, height);
    CostIsSmall(b.nHeight, height);
  }

  /** The loop of GetAncestor. */
  method Search(b: BlockIndex, height: nat) returns (r: Link, ghost steps: nat)
    requires Linked(b) && height <= b.nHeight
    ensures r == Walk(b, height) && steps <= Cost(b.nHeight, height)
  {
    steps := 0;
    ghost var cost := Cost(b.nHeight, height);
    var walk, heightWalk := b, b.nHeight;
    while heightWalk > height
      invariant Linked(walk) && heightWalk == walk.nHeight && height <= heightWalk
      invariant Walk(walk, height) == Walk(b, height)
      invariant steps + Cost(heightWalk, height) <= cost
    {
      var heightSkip := GetSkipHeight(heightWalk);
      var heightSkipPrev := GetSkipHeight(heightWalk - 1);
      SearchStep(walk, height, heightSkip, heightSkipPrev);
      steps := steps + 1;
      if walk.pskip != Null
        && (heightSkip == height
            || (heightSkip > height && !(heightSkipPrev < heightSkip - 2 && heightSkipPrev >= height)))
      {
        walk := walk.pskip.block;
        heightWalk := heightSkip;
      } else {
        walk := walk.pprev.block;
        heightWalk := heightWalk - 1;
      }
    }
    r := To(walk);
  }

  /** One step of the search, along either pointer. */
  lemma SearchStep(walk: BlockIndex, h: nat, s: nat, t: nat)
    requires Linked(walk) && h < walk.nHeight && s == GetSkipHeight(walk.nHeight)
    requires t == GetSkipHeight(walk.nHeight - 1)
    ensures walk.pprev.To? && Linked(walk.pprev.block) && walk.pprev.block.nHeight == walk.nHeight - 1
    ensures Walk(walk.pprev.block, h) == Walk(walk, h)
    ensures walk.pskip.To? && Linked(walk.pskip.block) && walk.pskip.block.nHeight == s
    ensures Follows(h, s, t) ==>
      h <= s && Walk(walk.pskip.block, h) == Walk(walk, h) && Cost(s, h) < Cost(walk.nHeight, h)
    ensures !Follows(h, s, t) ==> Cost(walk.nHeight - 1, h) < Cost(walk.nHeight, h)
  {
    SkipHeightIs(walk.nHeight);
    SkipHeightIs(walk.nHeight - 1);
    StepLowers(walk.nHeight, h, s, t);
    WalkReaches(walk.pprev.block, s);
    if h <= s { WalkOn(walk.pprev.block, walk.pskip.block, h); }
  }

  lemma SquareIsNatural(n: nat)
    ensures n * n >= 0
  {
  }

  /** A new entry on top of another one, with BuildSkip for the skip pointer. */
  method NewEntry(hash: nat, nTime: nat, pprev: Link) returns (b: BlockIndex)
    requires pprev.To? ==> Linked(pprev.block)
    ensures Linked(b) && b.hash == hash && b.nTime == nTime && b.pprev == pprev
  {
    match pprev
    case Null =>
      b := BlockIndex(hash, 0, nTime, nTime, Null, Null);
    case To(p) =>
      var pskip, steps := GetAncestor(p, GetSkipHeight(p.nHeight + 1));
      b := BlockIndex(hash, p.nHeight + 1, nTime, Arithmetic.Max(p.nTimeMax, nTime), pprev, pskip);
  }

  /** The block index, by hash: every entry is linked, and its parent is an entry too. */
  ghost predicate IsIndex(m: map<nat, BlockIndex>) {
    forall h :: h in m ==>
      && m[h].hash == h && Linked(m[h])
      && (m[h].pprev.To? ==> m[h].pprev.block.hash in m && m[m[h].pprev.block.hash] == m[h].pprev.block)
  }

  /** With an entry, the index holds all of its ancestors. */
  lemma {:induction false} AncestorsIndexed(m: map<nat, BlockIndex>, b: BlockIndex, height: int)
    requires IsIndex(m) && b.hash in m && m[b.hash] == b && Walk(b, height).To?
    ensures var a := Walk(b, height).block; a.hash in m && m[a.hash] == a
  {
    if b.nHeight == height {
    } else {
      AncestorsIndexed(m, b.pprev.block, height);
    }
  }

  class BlockManager {
    var blockIndex: map<nat, BlockIndex>

    constructor ()
      ensures IsIndex(blockIndex) && blockIndex == map[]
    {
      blockIndex := map[];
    }

    /** A known block is returned as it is; a new one is linked in under its parent, if that is known. */
    method AddToBlockIndex(hash: nat, nTime: nat, hashPrev: nat) returns (b: BlockIndex)
      requires IsIndex(blockIndex) && hashPrev != hash
      modifies this
      ensures IsIndex(blockIndex) && hash in blockIndex && b == blockIndex[hash]
      ensures hash in old(blockIndex) ==> unchanged(this)
      ensures hash !in old(blockIndex) ==>
        && blockIndex == old(blockIndex)[hash := b] && b.nTime == nTime
        && b.pprev == if hashPrev in old(blockIndex) then To(old(blockIndex)[hashPrev]) else Null
    {
      if hash in blockIndex { return blockIndex[hash]; }
      var pprev := if hashPrev in blockIndex then To(blockIndex[hashPrev]) else Null;
      b := NewEntry(hash, nTime, pprev);
      blockIndex := blockIndex[hash := b];
    }
  }

  // ----- common ancestors -----------------------------------------------------------------------

  /** The common ancestor of greatest height, if there is any. */
  ghost predicate DeepestCommon(r: Link, x: BlockIndex, y: BlockIndex) {
    && (r.To? ==> IsAncestor(r.block, x) && IsAncestor(r.block, y))
    && forall c :: IsAncestor(c, x) && IsAncestor(c, y) ==> r.To? && c.nHeight <= r.block.nHeight
  }

  /** No common ancestor is above height h. */
  ghost predicate NoneAbove(h: int, x: BlockIndex, y: BlockIndex) {
    forall c :: IsAncestor(c, x) && IsAncestor(c, y) ==> c.nHeight <= h
  }

  lemma AncestorsBelow(x: BlockIndex, y: BlockIndex)
    requires Linked(x)
    ensures NoneAbove(x.nHeight, x, y) && NoneAbove(x.nHeight, y, x)
  {
    forall c: BlockIndex | IsAncestor(c, x) ensures c.nHeight <= x.nHeight { WalkReaches(x, c.nHeight); }
  }

  /** The parent of an ancestor. */
  lemma ParentOf(p: BlockIndex, x: BlockIndex)
    requires Linked(x) && IsAncestor(p, x)
    ensures Linked(p) && (p.pprev.To? <==> p.nHeight > 0)
    ensures p.pprev.To? ==> IsAncestor(p.pprev.block, x) && p.pprev.block.nHeight == p.nHeight - 1
  {
    WalkReaches(x, p.nHeight);
    WalkOn(x, p, p.nHeight - 1);
  }

  /** Two different ancestors at the same height are above every common one. */
  lemma ForkBelow(p: BlockIndex, q: BlockIndex, x: BlockIndex, y: BlockIndex)
    requires IsAncestor(p, x) && IsAncestor(q, y) && p.nHeight == q.nHeight && p != q && NoneAbove(p.nHeight, x, y)
    ensures NoneAbove(p.nHeight - 1, x, y)
  {
  }

  /** An ancestor of x that is none of y is above every common one. */
  lemma OffChain(p: BlockIndex, x: BlockIndex, y: BlockIndex)
    requires IsAncestor(p, x) && !IsAncestor(p, y) && NoneAbove(p.nHeight, x, y)
    ensures NoneAbove(p.nHeight - 1, x, y)
  {
  }

  method LastCommonAncestor(x: BlockIndex, y: BlockIndex) returns (r: Link)
    requires Linked(x) && Linked(y)
    ensures DeepestCommon(r, x, y)
  {
    var pa, pb := To(x), To(y);
    if x.nHeight > y.nHeight {
      ghost var steps;
      pa, steps := GetAncestor(x, y.nHeight);
    } else if y.nHeight > x.nHeight {
      ghost var steps;
      pb, steps := GetAncestor(y, x.nHeight);
    }
    WalkReaches(x, y.nHeight);
    WalkReaches(y, x.nHeight);
    AncestorsBelow(x, y);
    AncestorsBelow(y, x);
    while pa != pb && pa.To? && pb.To?
      invariant pa.To? == pb.To?
      invariant pa.To? ==> IsAncestor(pa.block, x) && IsAncestor(pb.block, y) && pa.block.nHeight == pb.block.nHeight
      invariant NoneAbove(if pa.To? then pa.block.nHeight else -1, x, y)
      decreases if pa.To? then pa.block.nHeight + 1 else 0
    {
      ForkBelow(pa.block, pb.block, x, y);
      ParentOf(pa.block, x);
      ParentOf(pb.block, y);
      pa, pb := pa.block.pprev, pb.block.pprev;
    }
    r := pa;
  }

  // ----- the active chain -----------------------------------------------------------------------

  /** The entries are the tip and all its ancestors, by height. */
  ghost predicate IsPath(v: seq<Link>) {
    v != [] ==>
      && v[|v| - 1].To? && Linked(v[|v| - 1].block) && v[|v| - 1].block.nHeight == |v| - 1
      && forall i :: 0 <= i < |v| ==> v[i] == Walk(v[|v| - 1].block, i)
  }

  class CChain {
    var vChain: seq<Link>

    ghost predicate Valid()
      reads this
    {
      IsPath(vChain)
    }

    constructor ()
      ensures Valid() && vChain == []
    {
      vChain := [];
    }

    function Tip(): (r: Link)
      reads this
    {
      if vChain == [] then Null else vChain[|vChain| - 1]
    }

    function Height(): int
      reads this
    {
      |vChain| - 1
    }

    function At(nHeight: int): Link
      reads this
    {
      if nHeight < 0 || nHeight >= |vChain| then Null else vChain[nHeight]
    }

    /** Membership is being the tip or an ancestor of it. */
    predicate Contains(b: BlockIndex)
      requires Valid()
      reads this
      ensures Contains(b) <==> Tip().To? && IsAncestor(b, Tip().block)
    {
      if vChain != [] then WalkReaches(Tip().block, b.nHeight); At(b.nHeight) == To(b) else At(b.nHeight) == To(b)
    }

    /** SetTip: stops at the first block already in place, and still leaves exactly the new tip's path. */
    method SetTip(pindex: Link)
      requires Valid() && (pindex.To? ==> Linked(pindex.block))
      modifies this
      ensures Valid() && Tip() == pindex
    {
      if pindex == Null {
        vChain := [];
        return;
      }
      ghost var v := vChain;
      var b := pindex.block;
      var n := b.nHeight + 1;
      vChain := if n <= |vChain| then vChain[..n] else vChain + seq(n - |vChain|, _ => Null);
      ghost var resized := vChain;
      var p := pindex;
      while p.To? && vChain[p.block.nHeight] != p
        invariant |vChain| == n == |resized|
        invariant p.To? ==> IsAncestor(p.block, b)
        invariant p.To? ==> p.block.nHeight < n
        invariant forall i :: 0 <= i < n && (p.To? ==> i > p.block.nHeight) ==> vChain[i] == Walk(b, i)
        invariant forall i :: 0 <= i < n && p.To? && i <= p.block.nHeight ==> vChain[i] == resized[i]
        decreases if p.To? then p.block.nHeight + 1 else 0
      {
        ParentOf(p.block, b);
        vChain := vChain[p.block.nHeight := p];
        p := p.block.pprev;
      }
      if p.To? { OldPathBelow(v, b, p.block); }
    }

    /** FindFork: the deepest ancestor of a block that is in the chain. */
    method FindFork(pindex: Link) returns (r: Link)
      requires Valid() && (pindex.To? ==> Linked(pindex.block))
      ensures pindex == Null || Tip() == Null ==> r == Null
      ensures pindex.To? && Tip().To? ==> DeepestCommon(r, pindex.block, Tip().block)
    {
      if pindex == Null { return Null; }
      var b := pindex.block;
      r := pindex;
      WalkReaches(b, Height());
      if b.nHeight > Height() {
        ghost var steps;
        r, steps := GetAncestor(b, Height());
      }
      if r == Null { return; }
      ghost var tip := Tip().block;
      AncestorsBelow(b, tip);
      AncestorsBelow(tip, b);
      while r.To? && !Contains(r.block)
        invariant r.To? ==> IsAncestor(r.block, b)
        invariant NoneAbove(if r.To? then r.block.nHeight else -1, b, tip)
        decreases if r.To? then r.block.nHeight + 1 else 0
      {
        OffChain(r.block, b, tip);
        ParentOf(r.block, b);
        r := r.block.pprev;
      }
    }

    /** The block at a height on the way back from p: by index when p is in the chain. */
    method StepBack(p: BlockIndex, nHeight: nat) returns (r: BlockIndex)
      requires Valid() && Linked(p) && nHeight <= p.nHeight
      ensures To(r) == Walk(p, nHeight)
    {
      WalkReaches(p, nHeight);
      var link;
      if Contains(p) {
        WalkOn(Tip().block, p, nHeight);
        WalkReaches(Tip().block, p.nHeight);
        link := At(nHeight);
      } else {
        ghost var steps;
        link, steps := GetAncestor(p, nHeight);
      }
      r := link.block;
    }

    /** GetLocator: hashes of ancestors at heights from the block's own down to 0, the first ten steps by
        one and each later step twice as far. */
    method GetLocator(pindex: Link) returns (vHave: seq<nat>, ghost heights: seq<nat>)
      requires Valid() && (pindex.To? ==> Linked(pindex.block))
      ensures pindex == Null && Tip() == Null ==> vHave == []
      ensures pindex.To? ==> IsLocator(heights, pindex.block.nHeight) && HashesAt(vHave, heights, pindex.block)
      ensures pindex == Null && Tip().To? ==>
        IsLocator(heights, Tip().block.nHeight) && HashesAt(vHave, heights, Tip().block)
    {
      var p := if pindex == Null then Tip() else pindex;
      vHave, heights := [], [];
      if p.To? { vHave, heights := LocatorFrom(p.block); }
    }

    method LocatorFrom(b: BlockIndex) returns (vHave: seq<nat>, ghost heights: seq<nat>)
      requires Valid() && Linked(b)
      ensures IsLocator(heights, b.nHeight) && HashesAt(vHave, heights, b)
    {
      var nStep, p := 1, b;
      vHave, heights := [], [];
      while true
        invariant Linked(p) && IsAncestor(p, b)
        invariant nStep == LocatorStep(|vHave|) && HashesAt(vHave, heights, b)
        invariant LocatorPart(heights, b.nHeight, p.nHeight)
        decreases p.nHeight
      {
        HashesExtend(vHave, heights, b, p);
        PartEnds(heights, b.nHeight, p.nHeight);
        vHave := vHave + [p.hash];
        heights := heights + [p.nHeight];
        if p.nHeight == 0 { break; }
        var nHeight := if p.nHeight - nStep > 0 then p.nHeight - nStep else 0;
        WalkOn(b, p, nHeight);
        WalkReaches(b, nHeight);
        p := StepBack(p, nHeight);
        if |vHave| > 10 { nStep := nStep * 2; }
      }
    }
  }

  /** The hashes are those of the block's ancestors at the heights. */
  ghost predicate HashesAt(hashes: seq<nat>, heights: seq<nat>, b: BlockIndex) {
    |hashes| == |heights| && forall i :: 0 <= i < |hashes| ==>
        Walk(b, heights[i]).To? && hashes[i] == Walk(b, heights[i]).block.hash
  }

  /** How far back the i-th step of a locator goes. */
  function LocatorStep(i: nat): (r: nat)
    ensures r >= 1
  {
    if i <= 10 then 1 else 2 * LocatorStep(i - 1)
  }

  /** The heights visited so far, and the next one. */
  ghost predicate LocatorPart(heights: seq<nat>, start: nat, next: nat) {
    && (heights == [] ==> next == start) && (heights != [] ==> heights[0] == start)
    && (forall i :: 0 <= i < |heights| - 1 ==> heights[i] > 0 && heights[i + 1] == Back(heights[i], i))
    && (heights != [] ==> heights[|heights| - 1] > 0 && next == Back(heights[|heights| - 1], |heights| - 1))
  }

  function Back(height: nat, i: nat): nat { if height > LocatorStep(i) then height - LocatorStep(i) else 0 }

  lemma PartEnds(heights: seq<nat>, start: nat, next: nat)
    requires LocatorPart(heights, start, next)
    ensures next == 0 ==> IsLocator(heights + [next], start)
    ensures next > 0 ==> LocatorPart(heights + [next], start, Back(next, |heights|))
  {
  }

  lemma HashesExtend(hashes: seq<nat>, heights: seq<nat>, b: BlockIndex, p: BlockIndex)
    requires HashesAt(hashes, heights, b) && IsAncestor(p, b)
    ensures HashesAt(hashes + [p.hash], heights + [p.nHeight], b)
  {
  }

  ghost predicate IsLocator(heights: seq<nat>, start: nat) {
    && heights != [] && heights[0] == start && heights[|heights| - 1] == 0
    && forall i :: 0 <= i < |heights| - 1 ==> heights[i] > 0 && heights[i + 1] == Back(heights[i], i)
  }

  /** A locator is of logarithmic length: its last steps but one are doubled and add up to the height. */
  lemma LocatorIsShort(heights: seq<nat>, start: nat)
    requires IsLocator(heights, start) && |heights| >= 13
    ensures LocatorStep(|heights| - 2) + 9 < start
  {
    LocatorSum(heights, start, |heights| - 2);
  }

  lemma {:induction false} LocatorSum(heights: seq<nat>, start: nat, i: nat)
    requires IsLocator(heights, start) && i < |heights| - 1
    ensures start == heights[i] + (if i <= 10 then i else 9 + LocatorStep(i))
  {
    if i == 0 {
    } else {
      LocatorSum(heights, start, i - 1);
    }
  }

  /** Below a block of the old path, the old path is the path of any descendant of that block. */
  lemma OldPathBelow(v: seq<Link>, b: BlockIndex, p: BlockIndex)
    requires IsPath(v) && Linked(b) && IsAncestor(p, b) && p.nHeight < |v| && v[p.nHeight] == To(p)
    ensures forall i :: 0 <= i <= p.nHeight ==> v[i] == Walk(b, i)
  {
    forall i | 0 <= i <= p.nHeight ensures v[i] == Walk(b, i) {
      WalkOn(b, p, i);
      WalkOn(v[|v| - 1].block, p, i);
    }
  }

  // ----- searching by time ----------------------------------------------------------------------

  /** The greatest time so far does not fall along a path. */
  lemma {:induction false} TimeMaxMonotone(b: BlockIndex, a: BlockIndex)
    requires Linked(b) && IsAncestor(a, b)
    ensures a.nTimeMax <= b.nTimeMax
  {
    if a != b { TimeMaxMonotone(b.pprev.block, a); }
  }

  predicate Before(p: Link, nTime: int, height: int) { p.To? && (p.block.nTimeMax < nTime || p.block.nHeight < height) }

  /** On a path, the blocks that come before a time or a height are a prefix. */
  lemma BeforeIsPrefix(v: seq<Link>, nTime: int, height: int, i: nat, j: nat)
    requires IsPath(v) && i <= j < |v| && Before(v[j], nTime, height)
    ensures Before(v[i], nTime, height)
  {
    var tip := v[|v| - 1].block;
    WalkReaches(tip, i);
    WalkReaches(tip, j);
    WalkOn(tip, v[j].block, i);
    TimeMaxMonotone(v[j].block, v[i].block);
  }

  /** The search of FindEarliestAtLeast, as std::lower_bound does it. */
  method LowerBound(v: seq<Link>, nTime: int, height: int) returns (first: nat)
    requires IsPath(v)
    ensures first <= |v| && (first < |v| ==> !Before(v[first], nTime, height))
    ensures forall i :: 0 <= i < first ==> Before(v[i], nTime, height)
  {
    first := 0;
    var count := |v|;
    while count > 0
      invariant count >= 0 && first + count <= |v|
      invariant forall i :: 0 <= i < first ==> Before(v[i], nTime, height)
      invariant first + count < |v| ==> !Before(v[first + count], nTime, height)
    {
      var step := count / 2;
      var it := first + step;
      if Before(v[it], nTime, height) {
        forall i | 0 <= i <= it ensures Before(v[i], nTime, height) { BeforeIsPrefix(v, nTime, height, i, it); }
        first, count := it + 1, count - step - 1;
      } else {
        count := step;
      }
    }
  }

  /** FindEarliestAtLeast: the lowest block of the chain with both bounds met, if any has them. */
  method FindEarliestAtLeast(chain: CChain, nTime: int, height: int) returns (r: Link)
    requires chain.Valid()
    ensures r.To? ==> chain.Contains(r.block) && r.block.nTimeMax >= nTime && r.block.nHeight >= height
    ensures forall b :: chain.Contains(b) && b.nTimeMax >= nTime && b.nHeight >= height ==>
      r.To? && r.block.nHeight <= b.nHeight
  {
    var first := LowerBound(chain.vChain, nTime, height);
    r := if first == |chain.vChain| then Null else chain.vChain[first];
    if chain.vChain != [] {
      WalkReaches(chain.Tip().block, first);
      forall b | chain.Contains(b) && b.nTimeMax >= nTime && b.nHeight >= height
        ensures r.To? && r.block.nHeight <= b.nHeight
      {
        WalkReaches(chain.Tip().block, b.nHeight);
        assert !Before(chain.vChain[b.nHeight], nTime, height);
      }
    }
  }
}
