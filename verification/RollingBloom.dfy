/** The rolling bloom filter of bloom.cpp: two bits per position stamp the generation that set it. */
module RollingBloom {
  import opened Arithmetic

  /** A 64-bit word as its bits, lowest first; the bitwise operators work bit by bit. */
  type Word = w: seq<bool> | |w| == 64 witness seq(64, _ => false)

  function And(a: Word, b: Word): Word { seq(64, i requires 0 <= i < 64 => a[i] && b[i]) }

  function Or(a: Word, b: Word): Word { seq(64, i requires 0 <= i < 64 => a[i] || b[i]) }

  function Xor(a: Word, b: Word): Word { seq(64, i requires 0 <= i < 64 => a[i] != b[i]) }

  function Not(a: Word): Word { seq(64, i requires 0 <= i < 64 => !a[i]) }

  /** b << bit, for one bit b. */
  function Shifted(b: bool, bit: nat): Word { seq(64, i => b && i == bit) }

  /** 0 - b, for one bit b. */
  function Fill(b: bool): Word { seq(64, i => b) }

  type Key = seq<nat>

  /** The n-th 32-bit hash of a key under a tweak. */
  type HashFunction = (nat, nat, Key) -> nat

  /** A position of the filter: a bit of a pair of words. */
  datatype Pos = Pos(pair: nat, bit: nat)

  predicate InRange(data: seq<Word>, p: Pos) { 2 * p.pair + 1 < |data| && p.bit < 64 }

  /** The generation that a position is stamped with, or 0. */
  function Stamp(data: seq<Word>, p: Pos): nat
    requires InRange(data, p)
  {
    (if data[2 * p.pair][p.bit] then 1 else 0) + (if data[2 * p.pair + 1][p.bit] then 2 else 0)
  }

  /** The position of the n-th hash of a key. */
  function PositionOf(hash: HashFunction, tweak: nat, size: nat, n: nat, key: Key): Pos {
    var h := hash(n, tweak, key) % TWO_32;
    Pos(FastRange(h, size) / 2, h % 64)
  }

  lemma PositionInRange(hash: HashFunction, tweak: nat, data: seq<Word>, n: nat, key: Key)
    requires |data| > 0 && |data| % 2 == 0
    ensures InRange(data, PositionOf(hash, tweak, |data|, n, key))
  {
  }

  // ----- wiping and stamping --------------------------------------------------------------------

  predicate Low(generation: nat) { generation % 2 == 1 }

  predicate High(generation: nat) { generation / 2 == 1 }

  /** The wipe of one pair of words: bits stay where the stamp differs from the generation. */
  lemma WipePair(p1: Word, p2: Word, generation: nat, i: nat)
    requires 1 <= generation <= 3 && i < 64
    ensures var mask := Or(Xor(p1, Fill(Low(generation))), Xor(p2, Fill(High(generation))));
      var stamp := (if p1[i] then 1 else 0) + (if p2[i] then 2 else 0);
      && And(p1, mask)[i] == (p1[i] && stamp != generation)
      && And(p2, mask)[i] == (p2[i] && stamp != generation)
  {
  }

  /** Every position stamped with the generation is cleared, and no other is changed. */
  ghost predicate IsWiped(data: seq<Word>, data': seq<Word>, generation: nat) {
    && |data'| == |data|
    && forall p :: InRange(data, p) ==> Stamp(data', p) == if Stamp(data, p) == generation then 0 else Stamp(data, p)
  }

  /** One position is stamped with the generation, and no other is changed. */
  ghost predicate IsStamped(data: seq<Word>, data': seq<Word>, at: Pos, generation: nat) {
    && |data'| == |data|
    && forall p :: InRange(data, p) ==> Stamp(data', p) == if p == at then generation else Stamp(data, p)
  }

  method Wipe(data: seq<Word>, generation: nat) returns (data': seq<Word>)
    requires |data| % 2 == 0 && 1 <= generation <= 3
    ensures IsWiped(data, data', generation)
  {
    data' := data;
    var p := 0;
    while p < |data|
      invariant p % 2 == 0 && 0 <= p <= |data| == |data'|
      invariant forall q :: InRange(data, q) && 2 * q.pair < p ==>
        Stamp(data', q) == if Stamp(data, q) == generation then 0 else Stamp(data, q)
      invariant forall i :: p <= i < |data| ==> data'[i] == data[i]
    {
      var p1, p2 := data'[p], data'[p + 1];
      var mask := Or(Xor(p1, Fill(Low(generation))), Xor(p2, Fill(High(generation))));
      ghost var before := data';
      data' := data'[p := And(p1, mask)][p + 1 := And(p2, mask)];
      forall q | InRange(data, q) && 2 * q.pair < p + 2
        ensures Stamp(data', q) == if Stamp(data, q) == generation then 0 else Stamp(data, q)
      {
        if 2 * q.pair < p {
          assert Stamp(data', q) == Stamp(before, q);
        } else {
          WipePair(p1, p2, generation, q.bit);
        }
      }
      p := p + 2;
    }
  }

  method StampAt(data: seq<Word>, pos: nat, bit: nat, generation: nat) returns (data': seq<Word>)
    requires |data| % 2 == 0 && pos < |data| && bit < 64 && 1 <= generation <= 3
    ensures IsStamped(data, data', Pos(pos / 2, bit), generation)
  {
    var even, odd := pos - pos % 2, pos - pos % 2 + 1;
    data' := data[even := Or(And(data[even], Not(Shifted(true, bit))), Shifted(Low(generation), bit))];
    data' := data'[odd := Or(And(data'[odd], Not(Shifted(true, bit))), Shifted(High(generation), bit))];
  }

  // ----- what the stamps mean -------------------------------------------------------------------

  /** The stamp of a position last set in generation t, when gen is the current one: stamps are used in
      turn, and only those of the current and the two previous generations are left. */
  function Expected(touch: map<Pos, nat>, p: Pos, gen: nat): nat {
    if p in touch && touch[p] + 2 >= gen then touch[p] % 3 + 1 else 0
  }

  ghost predicate StampsOk(data: seq<Word>, touch: map<Pos, nat>, gen: nat) {
    forall p :: InRange(data, p) ==> (p in touch ==> touch[p] <= gen) && Stamp(data, p) == Expected(touch, p, gen)
  }

  /** Starting a generation wipes exactly the stamps of the third last one. */
  lemma WipeKeeps(data: seq<Word>, data': seq<Word>, touch: map<Pos, nat>, gen: nat)
    requires StampsOk(data, touch, gen) && IsWiped(data, data', (gen + 1) % 3 + 1)
    ensures StampsOk(data', touch, gen + 1)
  {
    forall p | InRange(data', p)
      ensures (p in touch ==> touch[p] <= gen + 1) && Stamp(data', p) == Expected(touch, p, gen + 1)
    {
      assert Stamp(data, p) == Expected(touch, p, gen);
    }
  }

  lemma StampKeeps(data: seq<Word>, data': seq<Word>, touch: map<Pos, nat>, gen: nat, at: Pos)
    requires StampsOk(data, touch, gen) && IsStamped(data, data', at, gen % 3 + 1)
    ensures StampsOk(data', touch[at := gen], gen)
  {
    forall p | InRange(data', p)
      ensures (p in touch[at := gen] ==> touch[at := gen][p] <= gen)
      ensures Stamp(data', p) == Expected(touch[at := gen], p, gen)
    {
      assert Stamp(data, p) == Expected(touch, p, gen);
    }
  }

  /** All positions of a key were set in generation g or later. */
  ghost predicate Touched(hash: HashFunction, tweak: nat, size: nat, funcs: nat, key: Key, touch: map<Pos, nat>,
                          g: nat) {
    forall n :: 0 <= n < funcs ==>
        PositionOf(hash, tweak, size, n, key) in touch && touch[PositionOf(hash, tweak, size, n, key)] >= g
  }

  ghost predicate AllStamped(hash: HashFunction, tweak: nat, data: seq<Word>, funcs: nat, key: Key) {
    forall n :: 0 <= n < funcs ==>
      InRange(data, PositionOf(hash, tweak, |data|, n, key))
          && Stamp(data, PositionOf(hash, tweak, |data|, n, key)) != 0
  }

  /** Positions set in one of the last three generations carry a stamp. */
  lemma RecentStamped(hash: HashFunction, tweak: nat, data: seq<Word>, funcs: nat, key: Key, touch: map<Pos, nat>,
                      gen: nat, g: nat)
    requires |data| > 0 && |data| % 2 == 0 && StampsOk(data, touch, gen) && g + 2 >= gen
    requires Touched(hash, tweak, |data|, funcs, key, touch, g)
    ensures AllStamped(hash, tweak, data, funcs, key)
  {
    forall n | 0 <= n < funcs
      ensures var p := PositionOf(hash, tweak, |data|, n, key); InRange(data, p) && Stamp(data, p) != 0
    {
      PositionInRange(hash, tweak, data, n, key);
      var p := PositionOf(hash, tweak, |data|, n, key);
      assert Stamp(data, p) == Expected(touch, p, gen);
    }
  }

  /** The keys and the generations they were inserted in. */
  ghost predicate KeysOk(hash: HashFunction, tweak: nat, size: nat, funcs: nat, history: seq<Key>, born: seq<nat>,
                         touch: map<Pos, nat>) {
    |born| == |history| && forall i :: 0 <= i < |history| ==>
        Touched(hash, tweak, size, funcs, history[i], touch, born[i])
  }

  /** The generations of the latest keys: this one's entries, and full ones before. */
  ghost predicate WindowOk(born: seq<nat>, gen: nat, entries: nat, perGeneration: nat) {
    && entries <= perGeneration
    && (forall i :: 0 <= i < |born| && i >= |born| - entries ==> born[i] == gen)
    && (forall i :: 0 <= i < |born| && i >= |born| - entries - perGeneration ==> born[i] + 1 >= gen)
    && (forall i :: 0 <= i < |born| && i >= |born| - entries - 2 * perGeneration ==> born[i] + 2 >= gen)
  }

  lemma NextWindow(born: seq<nat>, gen: nat, perGeneration: nat)
    requires WindowOk(born, gen, perGeneration, perGeneration)
    ensures WindowOk(born, gen + 1, 0, perGeneration)
  {
  }

  lemma AddWindow(born: seq<nat>, gen: nat, entries: nat, perGeneration: nat)
    requires WindowOk(born, gen, entries, perGeneration) && entries < perGeneration
    ensures WindowOk(born + [gen], gen, entries + 1, perGeneration)
  {
  }

  lemma AddKey(hash: HashFunction, tweak: nat, size: nat, funcs: nat, history: seq<Key>, born: seq<nat>, touch: map<Pos,
               nat>, key: Key, g: nat)
    requires KeysOk(hash, tweak, size, funcs, history, born, touch) && Touched(hash, tweak, size, funcs, key, touch, g)
    ensures KeysOk(hash, tweak, size, funcs, history + [key], born + [g], touch)
  {
  }

  class RollingBloomFilter {
    const hash: HashFunction
    var nEntriesPerGeneration: nat
    var nEntriesThisGeneration: nat
    var nGeneration: nat
    var data: seq<Word>
    var nTweak: nat
    var nHashFuncs: nat
    ghost var history: seq<Key>
    ghost var born: seq<nat>
    ghost var touch: map<Pos, nat>
    ghost var gen: nat

    ghost predicate Valid()
      reads this
    {
      && nEntriesPerGeneration > 0 && |data| > 0 && |data| % 2 == 0 && nGeneration == gen % 3 + 1
      && StampsOk(data, touch, gen)
      && KeysOk(hash, nTweak, |data|, nHashFuncs, history, born, touch)
      && WindowOk(born, gen, nEntriesThisGeneration, nEntriesPerGeneration)
    }

    /** The number of hash functions and of bits, which the source derives from the false positive rate
        with logarithms, are parameters; so is the random tweak. */
    constructor (hash: HashFunction, nElements: nat, nHashFuncs: nat, nFilterBits: nat, tweak: nat)
      requires nElements > 0 && nFilterBits > 0
      ensures Valid() && history == [] && nElements <= 2 * nEntriesPerGeneration
    {
      this.hash := hash;
      this.nHashFuncs := nHashFuncs;
      nEntriesPerGeneration := (nElements + 1) / 2;
      data := seq((nFilterBits + 63) / 64 * 2, _ => Fill(false));
      nEntriesThisGeneration, nGeneration, nTweak := 0, 1, tweak;
      history, born, touch, gen := [], [], map[], 0;
    }

    method Reset(tweak: nat)
      requires Valid()
      modifies this
      ensures Valid() && history == [] && nEntriesPerGeneration == old(nEntriesPerGeneration)
    {
      nTweak, nEntriesThisGeneration, nGeneration := tweak, 0, 1;
      data := seq(|data|, _ => Fill(false));
      history, born, touch, gen := [], [], map[], 0;
    }

    /** The start of insert: a full generation is followed by the next, whose old entries are wiped. */
    method StartGeneration()
      requires |data| % 2 == 0 && nGeneration == gen % 3 + 1 && StampsOk(data, touch, gen)
      modifies `nEntriesThisGeneration, `nGeneration, `data, `gen
      ensures |data| == old(|data|) && gen == old(gen) + 1 && nGeneration == gen % 3 + 1 && StampsOk(data, touch, gen)
      ensures nEntriesThisGeneration == 0
    {
      nEntriesThisGeneration := 0;
      nGeneration := nGeneration + 1;
      if nGeneration == 4 { nGeneration := 1; }
      var wiped := Wipe(data, nGeneration);
      WipeKeeps(data, wiped, touch, gen);
      data := wiped;
      gen := gen + 1;
    }

    /** The loop of insert over the hash functions. */
    method StampKey(vKey: Key)
      requires |data| > 0 && |data| % 2 == 0 && nGeneration == gen % 3 + 1 && StampsOk(data, touch, gen)
      modifies `data, `touch
      ensures |data| == old(|data|) && StampsOk(data, touch, gen)
      ensures Touched(hash, nTweak, |data|, nHashFuncs, vKey, touch, gen)
      ensures forall p :: p in old(touch) ==> p in touch && (touch[p] == old(touch)[p] || touch[p] == gen)
    {
      var n := 0;
      while n < nHashFuncs
        invariant n <= nHashFuncs && |data| == old(|data|) && StampsOk(data, touch, gen)
        invariant Touched(hash, nTweak, |data|, n, vKey, touch, gen)
        invariant forall p :: p in old(touch) ==> p in touch && (touch[p] == old(touch)[p] || touch[p] == gen)
      {
        var h := hash(n, nTweak, vKey) % TWO_32;
        var pos := FastRange(h, |data|);
        ghost var at := PositionOf(hash, nTweak, |data|, n, vKey);
        var stamped := StampAt(data, pos, h % 64, nGeneration);
        StampKeeps(data, stamped, touch, gen, at);
        data := stamped;
        touch := touch[at := gen];
        n := n + 1;
      }
    }

    method MakeRoom()
      requires Valid()
      modifies `nEntriesThisGeneration, `nGeneration, `data, `gen
      ensures Valid() && nEntriesThisGeneration < nEntriesPerGeneration
    {
      if nEntriesThisGeneration == nEntriesPerGeneration {
        NextWindow(born, gen, nEntriesPerGeneration);
        StartGeneration();
      }
    }

    /** insert. */
    method Insert(vKey: Key)
      requires Valid()
      modifies this
      ensures Valid() && history == old(history) + [vKey] && nEntriesPerGeneration == old(nEntriesPerGeneration)
    {
      MakeRoom();
      ghost var before := touch;
      assert forall p :: p in touch && InRange(data, p) ==> touch[p] <= gen;
      StampKey(vKey);
      StillTouched(hash, nTweak, |data|, nHashFuncs, history, born, before, touch, gen, data);
      AddKey(hash, nTweak, |data|, nHashFuncs, history, born, touch, vKey, gen);
      AddWindow(born, gen, nEntriesThisGeneration, nEntriesPerGeneration);
      nEntriesThisGeneration := nEntriesThisGeneration + 1;
      history, born := history + [vKey], born + [gen];
    }

    /** contains: whether all positions of the key carry a stamp. */
    method Contains(vKey: Key) returns (found: bool)
      requires Valid()
      ensures found <==> AllStamped(hash, nTweak, data, nHashFuncs, vKey)
      ensures forall i :: 0 <= i < |history| && i >= |history| - 2 * nEntriesPerGeneration && history[i] == vKey ==>
        found
    {
      forall i | 0 <= i < |history| && i >= |history| - 2 * nEntriesPerGeneration
        ensures AllStamped(hash, nTweak, data, nHashFuncs, history[i])
      {
        RecentStamped(hash, nTweak, data, nHashFuncs, history[i], touch, gen, born[i]);
      }
      var n := 0;
      while n < nHashFuncs
        invariant n <= nHashFuncs && AllStamped(hash, nTweak, data, n, vKey)
      {
        var h := hash(n, nTweak, vKey) % TWO_32;
        var pos := FastRange(h, |data|);
        if !Or(data[pos - pos % 2], data[pos - pos % 2 + 1])[h % 64] {
          assert Stamp(data, PositionOf(hash, nTweak, |data|, n, vKey)) == 0;
          return false;
        }
        n := n + 1;
      }
      found := true;
    }
  }

  /** Keys stay touched when stamps only move on to the current generation. */
  lemma StillTouched(hash: HashFunction, tweak: nat, size: nat, funcs: nat, history: seq<Key>, born: seq<nat>,
                     before: map<Pos, nat>, touch: map<Pos, nat>, gen: nat, data: seq<Word>)
    requires KeysOk(hash, tweak, size, funcs, history, born, before)
    requires size == |data| > 0 && |data| % 2 == 0 && forall p :: p in before && InRange(data, p) ==> before[p] <= gen
    requires forall p :: p in before ==> p in touch && (touch[p] == before[p] || touch[p] == gen)
    ensures KeysOk(hash, tweak, size, funcs, history, born, touch)
  {
    forall i | 0 <= i < |history| ensures Touched(hash, tweak, size, funcs, history[i], touch, born[i]) {
      assert Touched(hash, tweak, size, funcs, history[i], before, born[i]);
      forall n | 0 <= n < funcs
        ensures var p := PositionOf(hash, tweak, size, n, history[i]); p in touch && touch[p] >= born[i]
      {
        PositionInRange(hash, tweak, data, n, history[i]);
      }
    }
  }

  /** For every history of insertions: a filter for nElements finds each of the last nElements keys. */
  method Run(hash: HashFunction, nElements: nat, nHashFuncs: nat, nFilterBits: nat, tweak: nat, keys: seq<Key>,
             probe: Key)
    returns (found: bool)
    requires nElements > 0 && nFilterBits > 0
    ensures forall i :: 0 <= i < |keys| && i >= |keys| - nElements && keys[i] == probe ==> found
  {
    var filter := new RollingBloomFilter(hash, nElements, nHashFuncs, nFilterBits, tweak);
    ghost var per := filter.nEntriesPerGeneration;
    var i := 0;
    while i < |keys|
      invariant i <= |keys| && filter.Valid() && fresh(filter) && filter.history == keys[..i]
      invariant filter.nEntriesPerGeneration == per
    {
      filter.Insert(keys[i]);
      assert keys[..i + 1] == keys[..i] + [keys[i]];
      i := i + 1;
    }
    assert keys[..i] == keys;
    found := filter.Contains(probe);
  }
}
