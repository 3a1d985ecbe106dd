/** The next stake modifier of kernel.cpp: candidates shuffled, sorted and selected round by round. */
module StakeModifier {
  import opened Arithmetic
  import opened Limbs
  import SetSums

  /** Block hashes as the numbers their eight 32-bit words stand for. */
  type Hash = nat

  const INTERVAL_RATIO := 3
  const ROUNDS := 64

  datatype Block = Block(hash: Hash, time: nat, proofOfStake: bool, entropy: bool, generated: bool, modifier: nat)

  datatype Item = Item(time: nat, hash: Hash)

  /** The hash of a block hash and the previous modifier. */
  type Digest = (Hash, nat) -> nat

  type BlockMap = map<Hash, Block>

  // ----- selection intervals --------------------------------------------------------------------

  function Section(interval: nat, n: nat): int
    requires n < ROUNDS
  {
    interval * 63 / (63 + (63 - n) * (INTERVAL_RATIO - 1))
  }

  /** The sections of the first r rounds. */
  function Sections(interval: nat, r: nat): int
    requires r <= ROUNDS
  {
    if r == 0 then 0 else Sections(interval, r - 1) + Section(interval, r - 1)
  }

  method SelectionInterval(interval: nat) returns (total: int)
    ensures total == Sections(interval, ROUNDS)
  {
    total := 0;
    for n := 0 to ROUNDS
      invariant total == Sections(interval, n)
    {
      total := total + Section(interval, n);
    }
  }

  /** The sections grow, from a third of the interval to all of it. */
  lemma SectionsGrow(interval: nat, n: nat)
    requires n < ROUNDS - 1
    ensures Section(interval, n) <= Section(interval, n + 1) <= Section(interval, ROUNDS - 1) == interval
    ensures Section(interval, n) >= interval / 3
  {
    QuotientShrinks(interval * 63, 63 + (63 - n) * 2, 63 + (62 - n) * 2);
    QuotientShrinks(interval * 63, 63 + (62 - n) * 2, 63);
    QuotientShrinks(interval * 63, 189, 63 + (63 - n) * 2);
  }

  lemma QuotientShrinks(x: nat, p: nat, q: nat)
    requires p >= q > 0
    ensures x / p <= x / q
  {
    var u, v := x / p, x / q;
    DivMod(x, p);
    DivMod(x, q);
    if u > v {
      MulMonotone(v + 1, u, p);
      MulMonotone(q, p, v + 1);
      MulAdd(v, 1, q);
      assert false;
    }
  }

  // ----- order ----------------------------------------------------------------------------------

  predicate Less(a: Item, b: Item) { a.time < b.time || (a.time == b.time && a.hash < b.hash) }

  ghost predicate Ordered(s: seq<Item>) { forall i, j :: 0 <= i < j < |s| ==> !Less(s[j], s[i]) }

  /** The comparison of two hashes by their words, from the most significant down, is that of the numbers. */
  method WordsLess(a: seq<Limb>, b: seq<Limb>) returns (less: bool)
    requires |a| == |b| > 0
    ensures less <==> Value(a) < Value(b)
  {
    var cnt := |a|;
    while cnt > 0
      invariant 0 <= cnt <= |a| && forall j :: cnt <= j < |a| ==> a[j] == b[j]
    {
      cnt := cnt - 1;
      if a[cnt] != b[cnt] {
        if a[cnt] < b[cnt] { TopLimbDecides(a, b, cnt); } else { TopLimbDecides(b, a, cnt); }
        return a[cnt] < b[cnt];
      }
    }
    assert a == b;
    less := false;
  }

  /** There is only one way to order a collection of items. */
  lemma {:induction false} OrderUnique(s: seq<Item>, t: seq<Item>)
    requires Ordered(s) && Ordered(t) && multiset(s) == multiset(t)
    ensures s == t
  {
    assert |multiset(s)| == |s| && |multiset(t)| == |t|;
    if s != [] {
      SameFirst(s, t);
      TailOf(s);
      TailOf(t);
      OrderUnique(s[1..], t[1..]);
    }
  }

  lemma SameFirst(s: seq<Item>, t: seq<Item>)
    requires Ordered(s) && Ordered(t) && multiset(s) == multiset(t) && s != [] && t != []
    ensures s[0] == t[0]
  {
    assert s[0] in multiset(t) && t[0] in multiset(s);
    var i :| 0 <= i < |t| && t[i] == s[0];
    var j :| 0 <= j < |s| && s[j] == t[0];
    assert i > 0 ==> !Less(t[i], t[0]);
    assert j > 0 ==> !Less(s[j], s[0]);
  }

  lemma TailOf(s: seq<Item>)
    requires Ordered(s) && s != []
    ensures Ordered(s[1..]) && multiset(s[1..]) == multiset(s) - multiset{s[0]} && s == [s[0]] + s[1..]
  {
    assert s == [s[0]] + s[1..];
  }

  /** Swaps every position from the last down to the third with a random earlier one. */
  method Shuffle(items: seq<Item>, rand: nat -> nat) returns (v: seq<Item>)
    requires forall i :: i > 1 ==> rand(i) < i
    ensures multiset(v) == multiset(items)
  {
    v := items;
    var i := |v| - 1;
    while i > 1
      invariant i < |v| == |items| && multiset(v) == multiset(items)
    {
      v := v[i := v[rand(i)]][rand(i) := v[i]];
      i := i - 1;
    }
  }

  /** A sort; which one it is does not matter, as the order is unique. */
  method Sort(items: seq<Item>) returns (v: seq<Item>)
    ensures Ordered(v) && multiset(v) == multiset(items)
  {
    v := [];
    var i := 0;
    while i < |items|
      invariant i <= |items| && Ordered(v) && multiset(v) == multiset(items[..i])
    {
      var k := 0;
      while k < |v| && !Less(items[i], v[k])
        invariant k <= |v| && forall j :: 0 <= j < k ==> !Less(items[i], v[j])
      {
        k := k + 1;
      }
      InsertKeeps(v, k, items[i]);
      assert items[..i + 1] == items[..i] + [items[i]];
      v := v[..k] + [items[i]] + v[k..];
      i := i + 1;
    }
    assert items[..i] == items;
  }

  lemma InsertKeeps(v: seq<Item>, k: nat, x: Item)
    requires Ordered(v) && k <= |v| && (forall j :: 0 <= j < k ==> !Less(x, v[j])) && (k < |v| ==> Less(x, v[k]))
    ensures Ordered(v[..k] + [x] + v[k..]) && multiset(v[..k] + [x] + v[k..]) == multiset(v) + multiset{x}
  {
    assert v == v[..k] + v[k..];
    forall j | k <= j < |v| ensures Less(x, v[j]) { assert j > k ==> !Less(v[j], v[k]); }
  }

  // ----- one round ------------------------------------------------------------------------------

  /** The candidates are in the block map, under their own hash and with their own time. */
  ghost predicate Indexed(items: seq<Item>, index: BlockMap) {
    forall k :: 0 <= k < |items| ==>
        items[k].hash in index && index[items[k].hash].hash == items[k].hash
            && index[items[k].hash].time == items[k].time
  }

  function SelectionHash(digest: Digest, prev: nat, b: Block): nat {
    if b.proofOfStake then digest(b.hash, prev) / TWO_32 else digest(b.hash, prev)
  }

  /** The selection hash of the k-th candidate. */
  function HashOf(digest: Digest, prev: nat, index: BlockMap, items: seq<Item>, k: int): nat
    requires 0 <= k < |items| && items[k].hash in index
  {
    SelectionHash(digest, prev, index[items[k].hash])
  }

  predicate Free(items: seq<Item>, selected: set<Hash>, k: int) { 0 <= k < |items| && items[k].hash !in selected }

  predicate FreeInTime(items: seq<Item>, selected: set<Hash>, stop: int, k: int) {
    Free(items, selected, k) && items[k].time <= stop
  }

  /** Candidate k beats candidate j: a smaller selection hash, or the same and an earlier place. */
  predicate Beats(digest: Digest, prev: nat, index: BlockMap, items: seq<Item>, k: int, j: int)
    requires 0 <= k < |items| && 0 <= j < |items| && items[k].hash in index && items[j].hash in index
  {
    var a, b := HashOf(digest, prev, index, items, k), HashOf(digest, prev, index, items, j);
    a < b || (a == b && k <= j)
  }

  /** The choice of a round: of the candidates not selected yet and in time, the one with the least
      selection hash; when none is in time, the earliest one left. */
  ghost predicate IsChoice(digest: Digest, prev: nat, index: BlockMap, items: seq<Item>, selected: set<Hash>, stop: int,
                           k: int)
    requires Indexed(items, index)
  {
    && Free(items, selected, k)
    && (if items[k].time <= stop then forall j :: FreeInTime(items, selected, stop, j) ==>
        Beats(digest, prev, index, items, k, j)
        else forall j :: Free(items, selected, j) ==> k <= j)
  }

  lemma OrderedTimes(items: seq<Item>)
    requires Ordered(items)
    ensures forall i, j :: 0 <= i <= j < |items| ==> items[i].time <= items[j].time
  {
  }

  /** The choice is unique. */
  lemma ChoiceUnique(digest: Digest, prev: nat, index: BlockMap, items: seq<Item>, selected: set<Hash>, stop: int,
                     k: int, l: int)
    requires Indexed(items, index) && Ordered(items)
    requires IsChoice(digest, prev, index, items, selected, stop, k)
    requires IsChoice(digest, prev, index, items, selected, stop, l)
    ensures k == l
  {
    OrderedTimes(items);
    assert FreeInTime(items, selected, stop, k) <==> items[k].time <= stop;
    assert FreeInTime(items, selected, stop, l) <==> items[l].time <= stop;
  }

  /** What the scan has found among the first i candidates. */
  ghost predicate ChoiceSoFar(digest: Digest, prev: nat, index: BlockMap, items: seq<Item>, selected: set<Hash>,
                              stop: int, i: nat, best: int)
    requires Indexed(items, index) && i <= |items|
  {
    if best < 0 then forall j :: 0 <= j < i ==> !Free(items, selected, j)
    else
      && best < i && Free(items, selected, best)
      && (if items[best].time <= stop then forall j :: 0 <= j < i && FreeInTime(items, selected, stop, j) ==>
          Beats(digest, prev, index, items, best, j)
          else best == i - 1 && forall j :: 0 <= j < best ==> !Free(items, selected, j))
  }

  /** SelectBlockFromCandidates: fails on a candidate that is not in the block map; otherwise selects the
      choice of the round, and fails only when nothing is left. */
  method SelectBlockFromCandidates(digest: Digest, prev: nat, index: BlockMap, items: seq<Item>, selected: set<Hash>,
                                   stop: int)
    returns (ok: bool, best: int)
    ensures Indexed(items, index) && Ordered(items) ==> (ok <==> exists j :: Free(items, selected, j))
    ensures Indexed(items, index) && Ordered(items) && ok ==> IsChoice(digest, prev, index, items, selected, stop, best)
  {
    best := -1;
    var hashBest, i := 0, 0;
    while i < |items|
      invariant i <= |items| && -1 <= best < i
      invariant best >= 0 ==> items[best].hash in index && hashBest == HashOf(digest, prev, index, items, best)
      invariant Indexed(items, index) && Ordered(items) ==>
        ChoiceSoFar(digest, prev, index, items, selected, stop, i, best)
    {
      if items[i].hash !in index { return false, -1; }
      var pindex := index[items[i].hash];
      if best >= 0 && pindex.time > stop { break; }
      if pindex.hash !in selected {
        var hashSelection := SelectionHash(digest, prev, pindex);
        if best >= 0 && hashSelection < hashBest {
          hashBest, best := hashSelection, i;
        } else if best < 0 {
          hashBest, best := hashSelection, i;
        }
      }
      i := i + 1;
    }
    ok := best >= 0;
  }

  // ----- all rounds -----------------------------------------------------------------------------

  ghost predicate DistinctHashes(items: seq<Item>) {
    forall i, j :: 0 <= i < j < |items| ==> items[i].hash != items[j].hash
  }

  ghost function HashesOf(items: seq<Item>, chosen: seq<int>): set<Hash>
    requires forall r :: 0 <= r < |chosen| ==> 0 <= chosen[r] < |items|
  {
    set r | 0 <= r < |chosen| :: items[chosen[r]].hash
  }

  /** The candidates chosen in successive rounds. */
  ghost predicate IsSelection(digest: Digest, prev: nat, index: BlockMap, items: seq<Item>, interval: nat, start: int,
                              chosen: seq<int>)
    requires Indexed(items, index)
  {
    && |chosen| <= ROUNDS
    && (forall r :: 0 <= r < |chosen| ==> 0 <= chosen[r] < |items|)
    && forall r :: 0 <= r < |chosen| ==>
      IsChoice(digest, prev, index, items, HashesOf(items, chosen[..r]), start + Sections(interval, r + 1), chosen[r])
  }

  /** Rounds that choose free candidates choose different ones, so one is left while rounds remain. */
  lemma SomethingLeft(items: seq<Item>, chosen: seq<int>)
    requires DistinctHashes(items) && |chosen| < |items| && forall r :: 0 <= r < |chosen| ==> 0 <= chosen[r] < |items|
    ensures exists j :: Free(items, HashesOf(items, chosen), j)
  {
    var taken, all := SetSums.Elements(chosen), SetSums.Below(|items|);
    SetSums.ElementsSize(chosen);
    if all <= taken { SetSums.SubsetSize(all, taken); }
    var j :| j in all && j !in taken;
    assert Free(items, HashesOf(items, chosen), j) by {
      forall r | 0 <= r < |chosen| ensures items[chosen[r]].hash != items[j].hash { assert chosen[r] in taken; }
    }
  }

  // ----- the modifier ---------------------------------------------------------------------------

  /** The number whose r-th bit is the r-th of these. */
  function BitsOf(bits: seq<bool>): (n: nat)
    ensures n < Pow2(|bits|)
  {
    if bits == [] then 0 else BitsOf(bits[..|bits| - 1]) + (if bits[|bits| - 1] then Pow2(|bits| - 1) else 0)
  }

  lemma {:induction false} BitOf(bits: seq<bool>, r: nat)
    requires r < |bits|
    ensures (BitsOf(bits) / Pow2(r)) % 2 == 1 <==> bits[r]
  {
    var n, low := |bits| - 1, BitsOf(bits[..|bits| - 1]);
    if r == n {
      DivUnique(BitsOf(bits), Pow2(n), if bits[n] then 1 else 0, low);
    } else {
      BitOf(bits[..n], r);
      if bits[n] {
        Pow2Add(n - r, r);
        HigherBit(low, Pow2(n - r - 1), Pow2(r));
      }
    }
  }

  lemma HigherBit(low: nat, k: nat, p: nat)
    requires p > 0
    ensures ((low + 2 * k * p) / p) % 2 == (low / p) % 2
  {
    ModDrop(low, 2 * k, p);
  }

  function Entropies(index: BlockMap, items: seq<Item>, chosen: seq<int>): seq<bool>
    requires forall r :: 0 <= r < |chosen| ==> 0 <= chosen[r] < |items| && items[chosen[r]].hash in index
  {
    seq(|chosen|, r requires 0 <= r < |chosen| => index[items[chosen[r]].hash].entropy)
  }

  /** A complete run of the rounds over the ordered candidates. */
  ghost predicate Selects(digest: Digest, prev: nat, index: BlockMap, candidates: seq<Item>, interval: nat, start: int,
                          sorted: seq<Item>, chosen: seq<int>)
  {
    && Ordered(sorted) && multiset(sorted) == multiset(candidates) && Indexed(sorted, index)
    && IsSelection(digest, prev, index, sorted, interval, start, chosen)
    && |chosen| == if |candidates| < ROUNDS then |candidates| else ROUNDS
  }

  /** Whatever the shuffle and the sort did, the rounds choose the same candidates. */
  lemma SelectionUnique(digest: Digest, prev: nat, index: BlockMap, candidates: seq<Item>, interval: nat, start: int,
                        s: seq<Item>, c: seq<int>, t: seq<Item>, d: seq<int>)
    requires Selects(digest, prev, index, candidates, interval, start, s, c)
    requires Selects(digest, prev, index, candidates, interval, start, t, d)
    ensures s == t && c == d
  {
    OrderUnique(s, t);
    SameRounds(digest, prev, index, s, interval, start, c, d, |c|);
    assert c[..|c|] == c && d[..|c|] == d;
  }

  lemma {:induction false} SameRounds(digest: Digest, prev: nat, index: BlockMap, s: seq<Item>, interval: nat,
                                      start: int,
                                      c: seq<int>, d: seq<int>, r: nat)
    requires Indexed(s, index) && Ordered(s) && |c| == |d| && r <= |c|
    requires IsSelection(digest, prev, index, s, interval, start, c)
    requires IsSelection(digest, prev, index, s, interval, start, d)
    ensures c[..r] == d[..r]
  {
    if r == 0 {
    } else {
      SameRounds(digest, prev, index, s, interval, start, c, d, r - 1);
      ChoiceUnique(digest, prev, index, s, HashesOf(s, c[..r - 1]), start + Sections(interval, r), c[r - 1], d[r - 1]);
    }
  }

  /** The state after some rounds. */
  ghost predicate RoundState(digest: Digest, prev: nat, index: BlockMap, items: seq<Item>, interval: nat, start: int,
                             stop: int, selected: set<Hash>, modifier: nat, chosen: seq<int>)
    requires Indexed(items, index)
  {
    && IsSelection(digest, prev, index, items, interval, start, chosen)
    && stop == start + Sections(interval, |chosen|) && selected == HashesOf(items, chosen)
    && modifier == BitsOf(Entropies(index, items, chosen))
  }

  /** One round: it finds a block, and adds the block's entropy bit. */
  method SelectRound(digest: Digest, prev: nat, index: BlockMap, items: seq<Item>, interval: nat, ghost start: int,
                     stop: int, selected: set<Hash>, modifier: nat, ghost chosen: seq<int>, nRound: nat)
    returns (ok: bool, stop': int, selected': set<Hash>, modifier': nat, ghost chosen': seq<int>)
    requires Indexed(items, index) && Ordered(items) && DistinctHashes(items)
    requires nRound == |chosen| < ROUNDS && nRound < |items|
    requires RoundState(digest, prev, index, items, interval, start, stop, selected, modifier, chosen)
    ensures ok && |chosen'| == |chosen| + 1
    ensures RoundState(digest, prev, index, items, interval, start, stop', selected', modifier', chosen')
  {
    stop' := stop + Section(interval, nRound);
    SomethingLeft(items, chosen);
    var k;
    ok, k := SelectBlockFromCandidates(digest, prev, index, items, selected, stop');
    if !ok { return ok, stop', selected, modifier, chosen; }
    var pindex := index[items[k].hash];
    AddBit(modifier, Entropies(index, items, chosen), pindex.entropy);
    modifier' := BitOr(modifier, if pindex.entropy then Pow2(nRound) else 0);
    AddChoice(digest, prev, index, items, interval, start, chosen, k);
    selected' := selected + {pindex.hash};
    chosen' := chosen + [k];
  }

  /** All rounds succeed, and the modifier is made of the entropy bits of the blocks they choose. */
  method SelectRounds(digest: Digest, prev: nat, index: BlockMap, items: seq<Item>, interval: nat, start: int)
    returns (ok: bool, modifier: nat, ghost chosen: seq<int>)
    requires Indexed(items, index) && Ordered(items) && DistinctHashes(items)
    ensures ok && IsSelection(digest, prev, index, items, interval, start, chosen)
    ensures |chosen| == if |items| < ROUNDS then |items| else ROUNDS
    ensures modifier == BitsOf(Entropies(index, items, chosen))
  {
    modifier, chosen := 0, [];
    var stop, nRound := start, 0;
    var selected: set<Hash> := {};
    while nRound < ROUNDS && nRound < |items|
      invariant nRound <= ROUNDS && nRound <= |items| && |chosen| == nRound
      invariant RoundState(digest, prev, index, items, interval, start, stop, selected, modifier, chosen)
    {
      ok, stop, selected, modifier, chosen :=
        SelectRound(digest, prev, index, items, interval, start, stop, selected, modifier, chosen, nRound);
      if !ok { return; }
      nRound := nRound + 1;
    }
    ok := true;
  }

  lemma AddBit(modifier: nat, bits: seq<bool>, bit: bool)
    requires modifier == BitsOf(bits)
    ensures BitOr(modifier, if bit then Pow2(|bits|) else 0) == BitsOf(bits + [bit])
  {
    assert (bits + [bit])[..|bits|] == bits;
    DivUnique(Pow2(|bits|), Pow2(|bits|), 1, 0);
    DivUnique(0, Pow2(|bits|), 0, 0);
    BitOrAdds(modifier, if bit then Pow2(|bits|) else 0, |bits|);
  }

  lemma AddChoice(digest: Digest, prev: nat, index: BlockMap, items: seq<Item>, interval: nat, start: int,
                  chosen: seq<int>, k: int)
    requires Indexed(items, index) && IsSelection(digest, prev, index, items, interval, start, chosen)
    requires |chosen| < ROUNDS
    requires IsChoice(digest, prev, index, items, HashesOf(items, chosen), start + Sections(interval, |chosen| + 1), k)
    ensures IsSelection(digest, prev, index, items, interval, start, chosen + [k])
    ensures HashesOf(items, chosen + [k]) == HashesOf(items, chosen) + {items[k].hash}
    ensures Entropies(index, items, chosen + [k]) == Entropies(index, items, chosen) + [index[items[k].hash].entropy]
  {
    var longer := chosen + [k];
    forall r | 0 <= r < |longer|
      ensures IsChoice(digest, prev, index, items, HashesOf(items, longer[..r]), start + Sections(interval, r + 1),
                       longer[r])
    {
      if r < |chosen| { assert longer[..r] == chosen[..r]; } else { assert longer[..r] == chosen; }
    }
    forall h ensures h in HashesOf(items, longer) <==> h in HashesOf(items, chosen) + {items[k].hash} {
      if h in HashesOf(items, chosen) {
        var r :| 0 <= r < |chosen| && items[chosen[r]].hash == h;
        assert items[longer[r]].hash == h;
      }
      assert items[longer[|chosen|]].hash == items[k].hash;
    }
  }

  // ----- the next modifier ----------------------------------------------------------------------

  const FIRST_MODIFIER := 0x7374_616b_656d_6f64

  /** A chain from a block back to genesis, as the block map holds it. */
  ghost predicate Mapped(chain: seq<Block>, index: BlockMap) {
    && (forall i :: 0 <= i < |chain| ==> chain[i].hash in index && index[chain[i].hash] == chain[i])
    && forall i, j :: 0 <= i < j < |chain| ==> chain[i].hash != chain[j].hash
  }

  /** GetLastStakeModifier: the nearest block that generated one. */
  method GetLastStakeModifier(chain: seq<Block>) returns (i: nat)
    ensures i <= |chain| && (i < |chain| ==> chain[i].generated)
    ensures forall j :: 0 <= j < i ==> !chain[j].generated
  {
    i := 0;
    while i < |chain| && !chain[i].generated
      invariant i <= |chain| && forall j :: 0 <= j < i ==> !chain[j].generated
    {
      i := i + 1;
    }
  }

  function ItemsOf(blocks: seq<Block>): seq<Item> {
    seq(|blocks|, i requires 0 <= i < |blocks| => Item(blocks[i].time, blocks[i].hash))
  }

  /** The blocks back to the first one before the selection interval. */
  ghost predicate IsCandidates(chain: seq<Block>, start: int, items: seq<Item>) {
    && |items| <= |chain| && items == ItemsOf(chain[..|items|])
    && (forall i :: 0 <= i < |items| ==> chain[i].time >= start)
    && (|items| < |chain| ==> chain[|items|].time < start)
  }

  method Collect(chain: seq<Block>, start: int) returns (items: seq<Item>)
    ensures IsCandidates(chain, start, items)
  {
    items := [];
    while |items| < |chain| && chain[|items|].time >= start
      invariant |items| <= |chain| && items == ItemsOf(chain[..|items|])
      invariant forall i :: 0 <= i < |items| ==> chain[i].time >= start
    {
      ghost var n := |items|;
      items := items + [Item(chain[|items|].time, chain[|items|].hash)];
      assert chain[..n + 1] == chain[..n] + [chain[n]];
    }
  }

  /** Ordering the candidates keeps them mapped and distinct. */
  lemma OrderedCandidates(chain: seq<Block>, index: BlockMap, start: int, candidates: seq<Item>, sorted: seq<Item>)
    requires Mapped(chain, index) && IsCandidates(chain, start, candidates)
    requires Ordered(sorted) && multiset(sorted) == multiset(candidates)
    ensures Indexed(sorted, index) && DistinctHashes(sorted) && |sorted| == |candidates|
  {
    assert |multiset(sorted)| == |sorted| && |multiset(candidates)| == |candidates|;
    forall k | 0 <= k < |sorted| ensures sorted[k] in candidates { assert sorted[k] in multiset(candidates); }
    forall i, j | 0 <= i < j < |sorted| ensures sorted[i].hash != sorted[j].hash {
      if sorted[i].hash == sorted[j].hash {
        var p :| 0 <= p < |candidates| && candidates[p] == sorted[i];
        var q :| 0 <= q < |candidates| && candidates[q] == sorted[j];
        assert p == q;
        TwiceIn(sorted, i, j);
        OnceIn(candidates, p);
        assert false;
      }
    }
  }

  lemma TwiceIn(s: seq<Item>, i: nat, j: nat)
    requires i < j < |s| && s[i] == s[j]
    ensures multiset(s)[s[i]] >= 2
  {
    assert s == s[..j] + [s[j]] + s[j + 1..];
    assert s[i] in s[..j];
  }

  lemma OnceIn(s: seq<Item>, p: nat)
    requires p < |s| && forall q :: 0 <= q < |s| && q != p ==> s[q] != s[p]
    ensures multiset(s)[s[p]] == 1
  {
    assert s == s[..p] + [s[p]] + s[p + 1..];
    assert s[p] !in s[..p] && s[p] !in s[p + 1..];
  }

  /** How a modifier came about: the block that generated the previous one, the candidates, their order
      and the choices. */
  datatype Trace = Trace(last: nat, candidates: seq<Item>, sorted: seq<Item>, chosen: seq<int>)

  /** The modifier for the block after chain[0]: the previous one is kept within a modifier interval;
      otherwise a new one is made of the entropy bits of the selected blocks. */
  ghost predicate IsNext(digest: Digest, index: BlockMap, chain: seq<Block>, interval: nat,
                         modifier: nat, generated: bool, t: Trace)
    requires interval > 0 && chain != []
  {
    && t.last < |chain| && chain[t.last].generated && (forall j :: 0 <= j < t.last ==> !chain[j].generated)
    && (generated <==> chain[t.last].time / interval < chain[0].time / interval)
    && (!generated ==> modifier == chain[t.last].modifier)
    && (generated ==>
        var start := (chain[0].time / interval) * interval - Sections(interval, ROUNDS);
        && IsCandidates(chain, start, t.candidates)
        && Selects(digest, chain[t.last].modifier, index, t.candidates, interval, start, t.sorted, t.chosen)
        && modifier == BitsOf(Entropies(index, t.sorted, t.chosen)))
  }

  /** What ComputeNextStakeModifier returns. */
  ghost predicate Computed(digest: Digest, index: BlockMap, chain: seq<Block>, regtest: bool, interval: nat,
                           ok: bool, modifier: nat, generated: bool, t: Trace)
    requires interval > 0
  {
    if chain == [] then ok && generated && modifier == 0
    else if |chain| == 1 || regtest then ok && generated && modifier == FIRST_MODIFIER
    else
      && (ok <==> exists i :: 0 <= i < |chain| && chain[i].generated)
      && (ok ==> IsNext(digest, index, chain, interval, modifier, generated, t))
  }

  /** The random numbers of the shuffle do not matter: every computation gives the same modifier. */
  lemma ModifierUnique(digest: Digest, index: BlockMap, chain: seq<Block>, regtest: bool, interval: nat,
                       ok: bool, m: nat, g: bool, t: Trace, ok': bool, m': nat, g': bool, t': Trace)
    requires interval > 0
    requires Computed(digest, index, chain, regtest, interval, ok, m, g, t)
    requires Computed(digest, index, chain, regtest, interval, ok', m', g', t')
    ensures ok == ok' && (ok ==> m == m' && g == g')
  {
    if |chain| > 1 && !regtest && ok {
      assert t.last == t'.last;
      if g {
        var start := (chain[0].time / interval) * interval - Sections(interval, ROUNDS);
        CandidatesUnique(chain, start, t.candidates, t'.candidates);
        SelectionUnique(digest, chain[t.last].modifier, index, t.candidates, interval, start, t.sorted, t.chosen,
                        t'.sorted, t'.chosen);
      }
    }
  }

  lemma CandidatesUnique(chain: seq<Block>, start: int, s: seq<Item>, t: seq<Item>)
    requires IsCandidates(chain, start, s) && IsCandidates(chain, start, t)
    ensures s == t
  {
    assert |s| < |chain| ==> chain[|s|].time < start;
    assert |t| < |chain| ==> chain[|t|].time < start;
  }

  /** ComputeNextStakeModifier for the block after chain[0]. */
  method ComputeNextStakeModifier(digest: Digest, index: BlockMap, chain: seq<Block>, regtest: bool, interval: nat,
                                  rand: nat -> nat)
    returns (ok: bool, modifier: nat, generated: bool, ghost trace: Trace)
    requires Mapped(chain, index) && interval > 0 && forall i :: i > 1 ==> rand(i) < i
    ensures Computed(digest, index, chain, regtest, interval, ok, modifier, generated, trace)
  {
    ok, modifier, generated, trace := true, 0, false, Trace(0, [], [], []);
    if chain == [] {
      generated := true;
      return;
    }
    if |chain| == 1 || regtest {
      generated, modifier := true, FIRST_MODIFIER;
      return;
    }
    var i := GetLastStakeModifier(chain);
    trace := Trace(i, [], [], []);
    if i == |chain| {
      ok := false;
      return;
    }
    modifier := chain[i].modifier;
    if chain[i].time / interval >= chain[0].time / interval { return; }
    var total := SelectionInterval(interval);
    var start := (chain[0].time / interval) * interval - total;
    var candidates := Collect(chain, start);
    var items := Shuffle(candidates, rand);
    items := Sort(items);
    OrderedCandidates(chain, index, start, candidates, items);
    var prev := modifier;
    ghost var chosen;
    ok, modifier, chosen := SelectRounds(digest, prev, index, items, interval, start);
    generated := true;
    trace := Trace(i, candidates, items, chosen);
  }
}
