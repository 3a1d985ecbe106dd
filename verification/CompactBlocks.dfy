/** Compact block reconstruction of blockencodings.cpp (BIP 152): placing prefilled transactions, mapping
    short ids to the slots left, filling slots from known transactions, and completing the block. */
module CompactBlocks {
  import SetSums

  /** A transaction, known by its witness hash; null when it has neither inputs nor outputs. */
  datatype Tx = Tx(hash: nat, isNull: bool)

  /** A shared pointer to a transaction. */
  datatype TxRef = Empty | Full(tx: Tx)

  datatype Prefilled = Prefilled(index: nat, tx: Tx)

  datatype Message = Message(headerNull: bool, proofOfStake: bool, sigEmpty: bool, shortids: seq<nat>,
                             prefilled: seq<Prefilled>)

  datatype Status = Ok | Invalid | Failed | CheckBlockFailed

  const MAX_INDEX := 0xffff
  const MAX_BLOCK_WEIGHT := 40000000
  const MIN_SERIALIZABLE_TRANSACTION_WEIGHT := 40

  // ----- free slots -----------------------------------------------------------------------------

  /** How many of the first k slots are empty. */
  function CountFree(avail: seq<TxRef>, k: nat): (r: nat)
    requires k <= |avail|
    ensures r <= k
  {
    if k == 0 then 0 else CountFree(avail, k - 1) + (if avail[k - 1] == Empty then 1 else 0)
  }

  lemma {:induction false} CountFreeMonotone(avail: seq<TxRef>, j: nat, k: nat)
    requires j <= k <= |avail|
    ensures CountFree(avail, j) <= CountFree(avail, k)
    ensures j < k && avail[j] == Empty ==> CountFree(avail, j) < CountFree(avail, k)
  {
    if j == k {
    } else {
      CountFreeMonotone(avail, j, k - 1);
    }
  }

  /** Filling a slot that was empty. */
  lemma {:induction false} CountFreeFill(avail: seq<TxRef>, p: nat, t: Tx, k: nat)
    requires p < |avail| && avail[p] == Empty && k <= |avail|
    ensures CountFree(avail[p := Full(t)], k) == CountFree(avail, k) - (if p < k then 1 else 0)
  {
    if k == 0 {
    } else {
      CountFreeFill(avail, p, t, k - 1);
    }
  }

  // ----- prefilled transactions -----------------------------------------------------------------

  /** The position of the i-th prefilled transaction: indices are coded as differences. */
  function PrefilledAt(prefilled: seq<Prefilled>, i: int): int
    requires -1 <= i < |prefilled|
  {
    if i < 0 then -1 else PrefilledAt(prefilled, i - 1) + prefilled[i].index + 1
  }

  function Position(m: Message, i: int): int
    requires 0 <= i < |m.prefilled|
  {
    PrefilledAt(m.prefilled, i)
  }

  predicate GoodPrefilled(m: Message, i: nat)
    requires i < |m.prefilled|
  {
    !m.prefilled[i].tx.isNull && Position(m, i) <= MAX_INDEX && Position(m, i) <= |m.shortids| + i
  }

  /** The slots after the first k prefilled transactions are in place. */
  ghost predicate PlacedUpTo(m: Message, avail: seq<TxRef>, k: nat) {
    && k <= |m.prefilled| && |avail| == |m.shortids| + |m.prefilled|
    && (forall i :: 0 <= i < k ==> 0 <= Position(m, i) < |avail| && avail[Position(m, i)] == Full(m.prefilled[i].tx))
    && (forall p :: 0 <= p < |avail| && avail[p].Full? ==> exists i :: 0 <= i < k && Position(m, i) == p)
    && (forall p :: PrefilledAt(m.prefilled, k - 1) < p < |avail| ==> avail[p] == Empty)
    && CountFree(avail, |avail|) == |avail| - k
  }

  lemma PlaceNext(m: Message, avail: seq<TxRef>, k: nat)
    requires k < |m.prefilled| && PlacedUpTo(m, avail, k) && GoodPrefilled(m, k)
    ensures 0 <= Position(m, k) < |avail|
    ensures PlacedUpTo(m, avail[Position(m, k) := Full(m.prefilled[k].tx)], k + 1)
  {
    var at := Position(m, k);
    LastNonNegative(m.prefilled, k - 1);
    var avail' := avail[at := Full(m.prefilled[k].tx)];
    CountFreeFill(avail, at, m.prefilled[k].tx, |avail|);
    forall i | 0 <= i < k ensures Position(m, i) < at { Increasing(m.prefilled, i, k); }
  }

  lemma {:induction false} LastNonNegative(prefilled: seq<Prefilled>, i: int)
    requires -1 <= i < |prefilled|
    ensures PrefilledAt(prefilled, i) >= i
  {
    if i >= 0 { LastNonNegative(prefilled, i - 1); }
  }

  lemma {:induction false} Increasing(prefilled: seq<Prefilled>, i: nat, k: nat)
    requires i < k < |prefilled|
    ensures PrefilledAt(prefilled, i) < PrefilledAt(prefilled, k)
    decreases k
  {
    if i < k - 1 { Increasing(prefilled, i, k - 1); }
  }

  /** The first loop of InitData. */
  method PlacePrefilled(m: Message) returns (ok: bool, avail: seq<TxRef>)
    ensures ok <==> forall i :: 0 <= i < |m.prefilled| ==> GoodPrefilled(m, i)
    ensures ok ==> PlacedUpTo(m, avail, |m.prefilled|)
  {
    avail := seq(|m.shortids| + |m.prefilled|, _ => Empty);
    AllFree(avail, |avail|);
    var last, i := -1, 0;
    while i < |m.prefilled|
      invariant 0 <= i <= |m.prefilled| && last == PrefilledAt(m.prefilled, i - 1)
      invariant PlacedUpTo(m, avail, i) && forall j :: 0 <= j < i ==> GoodPrefilled(m, j)
    {
      ok, last, avail := PlaceOne(m, i, last, avail);
      if !ok { return; }
      i := i + 1;
    }
    ok := true;
  }

  method PlaceOne(m: Message, i: nat, last: int, avail: seq<TxRef>) returns (ok: bool, last': int, avail': seq<TxRef>)
    requires i < |m.prefilled| && last == PrefilledAt(m.prefilled, i - 1) && PlacedUpTo(m, avail, i)
    ensures ok <==> GoodPrefilled(m, i)
    ensures ok ==> last' == Position(m, i) && PlacedUpTo(m, avail', i + 1)
  {
    ok, last', avail' := false, last + m.prefilled[i].index + 1, avail;
    if m.prefilled[i].tx.isNull || last' > MAX_INDEX || last' > |m.shortids| + i { return; }
    PlaceNext(m, avail, i);
    avail' := avail[last' := Full(m.prefilled[i].tx)];
    ok := true;
  }

  lemma {:induction false} AllFree(avail: seq<TxRef>, k: nat)
    requires k <= |avail| && forall p :: 0 <= p < |avail| ==> avail[p] == Empty
    ensures CountFree(avail, k) == k
  {
    if k == 0 {
    } else {
      AllFree(avail, k - 1);
    }
  }

  // ----- short ids ------------------------------------------------------------------------------

  /** The slot of the i-th short id is the i-th empty one. */
  ghost predicate IsSlot(avail: seq<TxRef>, i: nat, p: int) {
    0 <= p < |avail| && avail[p] == Empty && CountFree(avail, p) == i
  }

  lemma SlotUnique(avail: seq<TxRef>, i: nat, p: int, q: int)
    requires IsSlot(avail, i, p) && IsSlot(avail, i, q)
    ensures p == q
  {
    if p < q { CountFreeMonotone(avail, p, q); }
    if q < p { CountFreeMonotone(avail, q, p); }
  }

  /** Slots of short ids, in order. */
  ghost predicate AreSlots(avail: seq<TxRef>, slots: seq<nat>) {
    forall i :: 0 <= i < |slots| ==> IsSlot(avail, i, slots[i])
  }

  /** Prefilled and short-id slots partition the block: every slot without a prefilled transaction is the
      slot of exactly one short id. */
  lemma SlotsPartition(avail: seq<TxRef>, slots: seq<nat>, p: nat)
    requires AreSlots(avail, slots) && CountFree(avail, |avail|) == |slots| && p < |avail|
    ensures avail[p] == Empty <==> p in slots
    ensures forall i, j :: 0 <= i < j < |slots| ==> slots[i] != slots[j]
  {
    if avail[p] == Empty {
      CountFreeMonotone(avail, p, |avail|);
      var i := CountFree(avail, p);
      assert IsSlot(avail, i, slots[i]);
      SlotUnique(avail, i, p, slots[i]);
    }
    forall i, j | 0 <= i < j < |slots| ensures slots[i] != slots[j] {
      assert IsSlot(avail, i, slots[i]) && IsSlot(avail, j, slots[j]);
    }
  }

  /** The map from short ids to slots; a later id replaces an equal earlier one. */
  ghost predicate MapsUpTo(shortids: seq<nat>, slots: seq<nat>, positions: map<nat, nat>) {
    && |slots| <= |shortids|
    && (forall i :: 0 <= i < |slots| ==> shortids[i] in positions)
    && (forall id :: id in positions ==> exists i :: 0 <= i < |slots| && shortids[i] == id && positions[id] == slots[i])
  }

  /** The second loop of InitData; a bucket of the hash table may turn out too full. */
  method MapShortIds(m: Message, avail: seq<TxRef>, crowded: nat -> bool)
    returns (ok: bool, positions: map<nat, nat>, ghost slots: seq<nat>)
    requires CountFree(avail, |avail|) == |m.shortids|
    ensures ok ==> |slots| == |m.shortids| && AreSlots(avail, slots) && MapsUpTo(m.shortids, slots, positions)
    ensures ok <==> forall i :: 0 <= i < |m.shortids| ==> !crowded(i)
  {
    positions, slots := map[], [];
    var offset, i := 0, 0;
    while i < |m.shortids|
      invariant 0 <= i <= |m.shortids| && |slots| == i && 0 <= offset && i + offset <= |avail|
      invariant CountFree(avail, i + offset) == i && AreSlots(avail, slots) && MapsUpTo(m.shortids, slots, positions)
      invariant forall j :: 0 <= j < i ==> !crowded(j)
    {
      offset := SkipFull(avail, i, offset);
      positions := positions[m.shortids[i] := i + offset];
      slots := slots + [i + offset];
      if crowded(i) { return false, positions, slots; }
      i := i + 1;
    }
    ok := true;
  }

  method SkipFull(avail: seq<TxRef>, i: nat, from: nat) returns (offset: nat)
    requires i + from <= |avail| && CountFree(avail, i + from) == i < CountFree(avail, |avail|)
    ensures offset >= from && IsSlot(avail, i, i + offset)
  {
    offset := from;
    CountFreeMonotone(avail, i + offset, |avail|);
    while avail[i + offset] != Empty
      invariant from <= offset && i + offset < |avail| && CountFree(avail, i + offset) == i
      decreases |avail| - offset
    {
      offset := offset + 1;
    }
  }

  ghost predicate Distinct(s: seq<nat>) { forall i, j :: 0 <= i < j < |s| ==> s[i] != s[j] }

  lemma {:induction false} DistinctSize(s: seq<nat>)
    requires Distinct(s)
    ensures |SetSums.Elements(s)| == |s|
  {
    if s == [] {
    } else {
      var n := |s| - 1;
      assert Distinct(s[..n]);
      DistinctSize(s[..n]);
      assert s == s[..n] + [s[n]];
      SetSums.ElementsAppend(s[..n], s[n]);
      assert s[n] !in s[..n];
    }
  }

  lemma {:induction false} RepeatedSize(s: seq<nat>)
    requires !Distinct(s)
    ensures |SetSums.Elements(s)| < |s|
  {
    var n := |s| - 1;
    assert s == s[..n] + [s[n]];
    SetSums.ElementsAppend(s[..n], s[n]);
    SetSums.ElementsSize(s[..n]);
    SetSums.SizeWith(SetSums.Elements(s[..n]), s[n]);
    if s[n] !in s[..n] {
      assert !Distinct(s[..n]) by {
        var i, j :| 0 <= i < j < |s| && s[i] == s[j];
        assert s[..n][i] == s[i];
        assert j < n ==> s[..n][i] == s[..n][j];
      }
      RepeatedSize(s[..n]);
    }
  }

  /** The map is as large as the list of short ids exactly when no id is repeated; then each id has its slot. */
  lemma NoCollision(shortids: seq<nat>, slots: seq<nat>, positions: map<nat, nat>)
    requires MapsUpTo(shortids, slots, positions) && |slots| == |shortids|
    ensures |positions| == |shortids| <==> Distinct(shortids)
    ensures Distinct(shortids) ==> forall i :: 0 <= i < |shortids| ==>
      shortids[i] in positions && positions[shortids[i]] == slots[i]
  {
    KeysOf(shortids, slots, positions);
    assert |positions| == |positions.Keys|;
    if Distinct(shortids) {
      DistinctSize(shortids);
      forall i | 0 <= i < |shortids| ensures shortids[i] in positions && positions[shortids[i]] == slots[i] {
        OwnSlot(shortids, slots, positions, i);
      }
    } else {
      RepeatedSize(shortids);
    }
  }

  lemma OwnSlot(shortids: seq<nat>, slots: seq<nat>, positions: map<nat, nat>, i: nat)
    requires MapsUpTo(shortids, slots, positions) && |slots| == |shortids| && Distinct(shortids) && i < |shortids|
    ensures shortids[i] in positions && positions[shortids[i]] == slots[i]
  {
    var id := shortids[i];
    assert id in positions;
    var j :| 0 <= j < |slots| && shortids[j] == id && positions[id] == slots[j];
    assert i == j;
  }

  lemma KeysOf(shortids: seq<nat>, slots: seq<nat>, positions: map<nat, nat>)
    requires MapsUpTo(shortids, slots, positions) && |slots| == |shortids|
    ensures positions.Keys == SetSums.Elements(shortids)
  {
    forall id ensures id in positions.Keys <==> id in SetSums.Elements(shortids) {
      if id in shortids {
        var i :| 0 <= i < |shortids| && shortids[i] == id;
      }
    }
  }

  // ----- known transactions ---------------------------------------------------------------------

  /** The short id of a transaction hash, under the message's key. */
  type ShortId = nat -> nat

  predicate Matches(shortId: ShortId, known: seq<Tx>, k: int, id: nat) {
    0 <= k < |known| && shortId(known[k].hash) == id
  }

  /** All known transactions with this short id are the same one. */
  ghost predicate OneMatch(shortId: ShortId, known: seq<Tx>, id: nat) {
    forall k, l :: Matches(shortId, known, k, id) && Matches(shortId, known, l, id) ==> known[k].hash == known[l].hash
  }

  /** A short-id slot after looking at some transactions: only a match fills it, and a match without a
      rival does fill it. */
  ghost predicate SlotOk(shortId: ShortId, id: nat, known: seq<Tx>, ref: TxRef, have: bool) {
    && (have <==> exists k :: Matches(shortId, known, k, id))
    && (ref.Full? ==> exists k :: Matches(shortId, known, k, id) && known[k] == ref.tx)
    && (have && OneMatch(shortId, known, id) ==> ref.Full?)
  }

  /** What one transaction does to the slot of its short id; in the pool any second match is a rival, among
      extra transactions only one with another hash. */
  function NextRef(ref: TxRef, have: bool, t: Tx, strict: bool): TxRef {
    if !have then Full(t) else if ref.Full? && (strict || ref.tx.hash != t.hash) then Empty else ref
  }

  lemma SlotStep(shortId: ShortId, id: nat, known: seq<Tx>, ref: TxRef, have: bool, t: Tx, strict: bool)
    requires SlotOk(shortId, id, known, ref, have) && shortId(t.hash) == id
    requires strict ==> forall k :: 0 <= k < |known| ==> known[k].hash != t.hash
    ensures SlotOk(shortId, id, known + [t], NextRef(ref, have, t, strict), true)
  {
    var more := known + [t];
    assert Matches(shortId, more, |known|, id);
    forall k | Matches(shortId, known, k, id) ensures Matches(shortId, more, k, id) && more[k] == known[k] {}
    assert OneMatch(shortId, more, id) ==> OneMatch(shortId, known, id);
    if have {
      var k :| Matches(shortId, known, k, id);
      assert OneMatch(shortId, more, id) ==> known[k].hash == t.hash;
    }
  }

  lemma SlotSkip(shortId: ShortId, id: nat, known: seq<Tx>, ref: TxRef, have: bool, t: Tx)
    requires SlotOk(shortId, id, known, ref, have) && shortId(t.hash) != id
    ensures SlotOk(shortId, id, known + [t], ref, have)
  {
    var more := known + [t];
    forall k ensures Matches(shortId, more, k, id) <==> Matches(shortId, known, k, id) {}
  }

  /** The slots after looking at some known transactions. */
  ghost predicate Scanned(shortId: ShortId, positions: map<nat, nat>, start: seq<TxRef>, known: seq<Tx>,
                          avail: seq<TxRef>, have: seq<bool>) {
    && |avail| == |start| == |have|
    && (forall id :: id in positions ==> positions[id] < |avail|)
    && (forall p :: 0 <= p < |avail| && p !in positions.Values ==> avail[p] == start[p])
    && (forall id :: id in positions ==> SlotOk(shortId, id, known, avail[positions[id]], have[positions[id]]))
  }

  ghost predicate OneSlotEach(positions: map<nat, nat>) {
    forall a, b :: a in positions && b in positions && positions[a] == positions[b] ==> a == b
  }

  /** The short ids whose slot is filled. */
  ghost function Filled(positions: map<nat, nat>, avail: seq<TxRef>): set<nat>
    requires forall id :: id in positions ==> positions[id] < |avail|
  {
    set id | id in positions && avail[positions[id]].Full?
  }

  lemma ScanStep(shortId: ShortId, positions: map<nat, nat>, start: seq<TxRef>, known: seq<Tx>, avail: seq<TxRef>,
                 have: seq<bool>, t: Tx, strict: bool)
    requires Scanned(shortId, positions, start, known, avail, have) && OneSlotEach(positions)
    requires strict ==> forall k :: 0 <= k < |known| ==> known[k].hash != t.hash
    ensures shortId(t.hash) !in positions ==> Scanned(shortId, positions, start, known + [t], avail, have)
    ensures shortId(t.hash) in positions ==>
      var p := positions[shortId(t.hash)];
      Scanned(shortId, positions, start, known + [t], avail[p := NextRef(avail[p], have[p], t, strict)],
              have[p := true])
  {
    var id := shortId(t.hash);
    forall other | other in positions && other != id
      ensures SlotOk(shortId, other, known + [t], avail[positions[other]], have[positions[other]])
    {
      SlotSkip(shortId, other, known, avail[positions[other]], have[positions[other]], t);
    }
    if id in positions {
      var p := positions[id];
      SlotStep(shortId, id, known, avail[p], have[p], t, strict);
      assert p in positions.Values;
    }
  }

  lemma FilledStep(positions: map<nat, nat>, avail: seq<TxRef>, id: nat, ref: TxRef)
    requires (forall i :: i in positions ==> positions[i] < |avail|) && OneSlotEach(positions) && id in positions
    ensures |Filled(positions, avail[positions[id] := ref])| ==
      |Filled(positions, avail)| + (if ref.Full? then 1 else 0) - (if avail[positions[id]].Full? then 1 else 0)
  {
    var before, after := Filled(positions, avail), Filled(positions, avail[positions[id] := ref]);
    SetSums.SizeWith(before, id);
    SetSums.SizeWithout(before, id);
    forall x ensures x in after <==> x in (if ref.Full? then before + {id} else before - {id}) {}
    assert after == if ref.Full? then before + {id} else before - {id};
  }

  /** The loops of InitData over the pool (strict) and over the extra transactions: both stop early once
      every short id has a transaction. */
  method Scan(shortId: ShortId, positions: map<nat, nat>, start: seq<TxRef>, ghost known: seq<Tx>, list: seq<Tx>,
              strict: bool,
              avail: seq<TxRef>, have: seq<bool>, count: nat)
    returns (avail': seq<TxRef>, have': seq<bool>, count': nat, ghost seen: nat)
    requires Scanned(shortId, positions, start, known, avail, have) && OneSlotEach(positions)
    requires count == |Filled(positions, avail)|
    requires strict ==> known == [] && forall i, j :: 0 <= i < j < |list| ==> list[i].hash != list[j].hash
    ensures seen <= |list| && Scanned(shortId, positions, start, known + list[..seen], avail', have')
    ensures count' == |Filled(positions, avail')| && (seen < |list| ==> count' == |positions|)
  {
    avail', have', count' := avail, have, count;
    var i := 0;
    assert known + list[..0] == known;
    while i < |list|
      invariant i <= |list| && Scanned(shortId, positions, start, known + list[..i], avail', have')
      invariant count' == |Filled(positions, avail')|
    {
      ScanStep(shortId, positions, start, known + list[..i], avail', have', list[i], strict);
      assert known + list[..i] + [list[i]] == known + list[..i + 1];
      avail', have', count' := ScanOne(shortId, positions, list[i], strict, avail', have', count');
      i := i + 1;
      if count' == |positions| { break; }
    }
    seen := i;
  }

  method ScanOne(shortId: ShortId, positions: map<nat, nat>, t: Tx, strict: bool, avail: seq<TxRef>, have: seq<bool>,
                 count: nat)
    returns (avail': seq<TxRef>, have': seq<bool>, count': nat)
    requires |avail| == |have| && (forall id :: id in positions ==> positions[id] < |avail|) && OneSlotEach(positions)
    requires count == |Filled(positions, avail)|
    requires forall id :: id in positions && !have[positions[id]] ==> avail[positions[id]] == Empty
    ensures shortId(t.hash) !in positions ==> avail' == avail && have' == have
    ensures shortId(t.hash) in positions ==>
      var p := positions[shortId(t.hash)];
          avail' == avail[p := NextRef(avail[p], have[p], t, strict)] && have' == have[p := true]
    ensures |avail'| == |avail| && count' == |Filled(positions, avail')|
  {
    avail', have', count' := avail, have, count;
    var id := shortId(t.hash);
    if id in positions {
      var p := positions[id];
      FilledStep(positions, avail, id, NextRef(avail[p], have[p], t, strict));
      if !have[p] {
        avail' := avail[p := Full(t)];
        have' := have[p := true];
        count' := count + 1;
      } else if avail[p].Full? && (strict || avail[p].tx.hash != t.hash) {
        avail' := avail[p := Empty];
        count' := count - 1;
      }
    }
  }

  // ----- completing the block -------------------------------------------------------------------

  /** The block from the slots and the transactions for the empty ones, in order. */
  function Completed(avail: seq<TxRef>, missing: seq<Tx>, k: nat): seq<Tx>
    requires k <= |avail| && CountFree(avail, k) <= |missing|
  {
    if k == 0 then []
    else
      Completed(avail, missing, k - 1) +
      [if avail[k - 1].Full? then avail[k - 1].tx else missing[CountFree(avail, k - 1)]]
  }

  /** What a block has in the slots that are empty. */
  function Missing(avail: seq<TxRef>, block: seq<Tx>, k: nat): (r: seq<Tx>)
    requires k <= |avail| == |block|
    ensures |r| == CountFree(avail, k)
  {
    if k == 0 then [] else Missing(avail, block, k - 1) + (if avail[k - 1] == Empty then [block[k - 1]] else [])
  }

  /** Slots that agree with a block, completed with what it has in the empty ones, give the block. */
  lemma {:induction false} CompletedIsBlock(avail: seq<TxRef>, block: seq<Tx>, missing: seq<Tx>, k: nat)
    requires k <= |avail| == |block| && Missing(avail, block, k) <= missing
    requires forall p :: 0 <= p < |avail| && avail[p].Full? ==> avail[p].tx == block[p]
    ensures Completed(avail, missing, k) == block[..k]
  {
    if k == 0 {
    } else {
      var shorter := Missing(avail, block, k - 1);
      assert shorter <= missing;
      CompletedIsBlock(avail, block, missing, k - 1);
      assert avail[k - 1] == Empty ==> missing[|shorter|] == Missing(avail, block, k)[|shorter|];
    }
  }

  // ----- the object -----------------------------------------------------------------------------

  predicate Rejected(m: Message) {
    || m.headerNull || (m.proofOfStake && m.sigEmpty) || (m.shortids == [] && m.prefilled == [])
    || |m.shortids| + |m.prefilled| > MAX_BLOCK_WEIGHT / MIN_SERIALIZABLE_TRANSACTION_WEIGHT
  }

  ghost predicate StrictlyAscending(s: seq<nat>) { forall i, j :: 0 <= i < j < |s| ==> s[i] < s[j] }

  /** What InitData leaves when it accepts: prefilled transactions at their indices, and in the other slots,
      which are those of the short ids in order, nothing or a known transaction with the slot's short id. */
  ghost predicate Initialized(m: Message, shortId: ShortId, known: seq<Tx>, slots: seq<nat>, avail: seq<TxRef>) {
    && |avail| == |m.shortids| + |m.prefilled| && |slots| == |m.shortids| && StrictlyAscending(slots)
    && (forall i :: 0 <= i < |m.prefilled| ==>
        0 <= Position(m, i) < |avail| && Position(m, i) !in slots && avail[Position(m, i)] == Full(m.prefilled[i].tx))
    && (forall i :: 0 <= i < |slots| ==>
        slots[i] < |avail| && SlotFilled(shortId, m.shortids[i], known, avail[slots[i]]))
    && (forall p :: 0 <= p < |avail| ==> p in slots || exists i :: 0 <= i < |m.prefilled| && Position(m, i) == p)
  }

  /** A slot holds only a match of its short id, and it does hold the match when there is just one. */
  ghost predicate SlotFilled(shortId: ShortId, id: nat, known: seq<Tx>, ref: TxRef) {
    && (ref.Full? ==> exists k :: Matches(shortId, known, k, id) && known[k] == ref.tx)
    && ((exists k :: Matches(shortId, known, k, id)) && OneMatch(shortId, known, id) ==> ref.Full?)
  }

  class PartiallyDownloadedBlock {
    var headerNull: bool
    var proofOfStake: bool
    var sigEmpty: bool
    var txnAvailable: seq<TxRef>
    var prefilledCount: nat
    var mempoolCount: nat

    constructor ()
      ensures headerNull && sigEmpty && txnAvailable == []
    {
      headerNull, proofOfStake, sigEmpty, txnAvailable, prefilledCount, mempoolCount := true, false, true, [], 0, 0;
    }

    /** InitData. The pool's transactions have different hashes; BlockTxCount fits 16 bits, as in every
        message that was read from the wire. */
    method InitData(m: Message, shortId: ShortId, pool: seq<Tx>, extra: seq<Tx>, crowded: nat -> bool)
      returns (status: Status, ghost slots: seq<nat>)
      requires headerNull && sigEmpty && txnAvailable == []
      requires forall i, j :: 0 <= i < j < |pool| ==> pool[i].hash != pool[j].hash
      requires |m.shortids| + |m.prefilled| <= MAX_INDEX
      modifies this
      ensures status == Invalid <==> Rejected(m) || exists i :: 0 <= i < |m.prefilled| && !GoodPrefilled(m, i)
      ensures status == Ok ==> Distinct(m.shortids) && forall i :: 0 <= i < |m.shortids| ==> !crowded(i)
      ensures status == Failed ==> !Distinct(m.shortids) || exists i :: 0 <= i < |m.shortids| && crowded(i)
      ensures status == Ok ==> Initialized(m, shortId, pool + extra, slots, txnAvailable)
      ensures status != CheckBlockFailed && (status == Ok ==> !headerNull && (proofOfStake ==> !sigEmpty))
    {
      slots := [];
      if Rejected(m) { return Invalid, slots; }
      headerNull, proofOfStake, sigEmpty := m.headerNull, m.proofOfStake, m.sigEmpty;
      var placed, start := PlacePrefilled(m);
      txnAvailable := start;
      if !placed { return Invalid, slots; }
      prefilledCount := |m.prefilled|;
      var located, positions;
      located, positions, slots := LocateSlots(m, start, crowded);
      if !located { return Failed, slots; }
      var avail, count := FillSlots(m, shortId, pool, extra, start, positions, slots);
      txnAvailable, mempoolCount := avail, count;
      status := Ok;
    }

    /** FillBlock; the verdict of CheckBlock on the completed block is a parameter. */
    method FillBlock(missing: seq<Tx>, verdict: Status) returns (status: Status, vtx: seq<Tx>)
      requires !headerNull && (proofOfStake ==> !sigEmpty)
      modifies this
      ensures |missing| == CountFree(old(txnAvailable), |old(txnAvailable)|) ==>
        status == verdict && vtx == Completed(old(txnAvailable), missing, |old(txnAvailable)|)
      ensures |missing| != CountFree(old(txnAvailable), |old(txnAvailable)|) ==> status == Invalid
      ensures |missing| >= CountFree(old(txnAvailable), |old(txnAvailable)|) ==>
        headerNull && sigEmpty && txnAvailable == []
    {
      ghost var avail := txnAvailable;
      vtx := [];
      var offset, i := 0, 0;
      while i < |txnAvailable|
        invariant 0 <= i <= |txnAvailable| == |avail| && offset == CountFree(avail, i) <= |missing|
        invariant vtx == Completed(avail, missing, i)
        invariant forall p :: i <= p < |avail| ==> txnAvailable[p] == avail[p]
        invariant headerNull == old(headerNull)
      {
        if txnAvailable[i] == Empty {
          if |missing| <= offset {
            CountFreeMonotone(avail, i, |avail|);
            return Invalid, vtx;
          }
          vtx := vtx + [missing[offset]];
          offset := offset + 1;
        } else {
          vtx := vtx + [txnAvailable[i].tx];
          txnAvailable := txnAvailable[i := Empty];
        }
        i := i + 1;
      }
      headerNull, sigEmpty, txnAvailable := true, true, [];
      if |missing| != offset { return Invalid, vtx; }
      status := verdict;
    }
  }

  /** Each short id has a slot of its own. */
  ghost predicate Located(m: Message, start: seq<TxRef>, positions: map<nat, nat>, slots: seq<nat>) {
    && |slots| == |m.shortids| && AreSlots(start, slots) && MapsUpTo(m.shortids, slots, positions)
    && forall i :: 0 <= i < |m.shortids| ==> m.shortids[i] in positions && positions[m.shortids[i]] == slots[i]
  }

  method LocateSlots(m: Message, start: seq<TxRef>, crowded: nat -> bool)
    returns (ok: bool, positions: map<nat, nat>, ghost slots: seq<nat>)
    requires CountFree(start, |start|) == |m.shortids|
    ensures ok <==> Distinct(m.shortids) && forall i :: 0 <= i < |m.shortids| ==> !crowded(i)
    ensures ok ==> Located(m, start, positions, slots)
  {
    ok, positions, slots := MapShortIds(m, start, crowded);
    if ok {
      NoCollision(m.shortids, slots, positions);
      ok := |positions| == |m.shortids|;
    }
  }

  /** The part of InitData that looks at known transactions. */
  method FillSlots(m: Message, shortId: ShortId, pool: seq<Tx>, extra: seq<Tx>, start: seq<TxRef>,
                   positions: map<nat, nat>, ghost slots: seq<nat>)
    returns (avail: seq<TxRef>, count: nat)
    requires PlacedUpTo(m, start, |m.prefilled|) && Located(m, start, positions, slots)
    requires forall i, j :: 0 <= i < j < |pool| ==> pool[i].hash != pool[j].hash
    ensures Initialized(m, shortId, pool + extra, slots, avail)
  {
    var have := seq(|start|, _ => false);
    StartScan(m, shortId, start, positions, slots, have);
    ghost var seen, more;
    var fromPool;
    fromPool, have, count, seen := Scan(shortId, positions, start, [], pool, true, start, have, 0);
    assert [] + pool[..seen] == pool[..seen];
    ghost var havePool := have;
    avail, have, count, more := Scan(shortId, positions, start, pool[..seen], extra, false, fromPool, have, count);
    forall id | id in positions ensures SlotFilled(shortId, id, pool + extra, avail[positions[id]]) {
      SlotEnds(shortId, positions, start, pool, seen, extra, more, fromPool, havePool, avail, have, id);
    }
    SlotsEnd(m, shortId, pool + extra, start, positions, slots, avail);
  }

  /** When as many slots are filled as there are short ids, all are. */
  lemma AllFilled(positions: map<nat, nat>, avail: seq<TxRef>, id: nat)
    requires (forall i :: i in positions ==> positions[i] < |avail|) && |Filled(positions, avail)| == |positions|
    requires id in positions
    ensures avail[positions[id]].Full?
  {
    var filled := Filled(positions, avail);
    assert |positions| == |positions.Keys| && filled <= positions.Keys;
    assert positions.Keys == filled + (positions.Keys - filled);
  }

  lemma SlotEnds(shortId: ShortId, positions: map<nat, nat>, start: seq<TxRef>, pool: seq<Tx>, seen: nat,
                 extra: seq<Tx>, more: nat,
                 fromPool: seq<TxRef>, havePool: seq<bool>, avail: seq<TxRef>, have: seq<bool>, id: nat)
    requires seen <= |pool| && more <= |extra| && id in positions
    requires Scanned(shortId, positions, start, pool[..seen], fromPool, havePool)
    requires Scanned(shortId, positions, start, pool[..seen] + extra[..more], avail, have)
    requires seen < |pool| ==> |Filled(positions, fromPool)| == |positions|
    requires more < |extra| ==> |Filled(positions, avail)| == |positions|
    ensures SlotFilled(shortId, id, pool + extra, avail[positions[id]])
  {
    var known, all := pool[..seen] + extra[..more], pool + extra;
    forall k | Matches(shortId, known, k, id) ensures exists l :: Matches(shortId, all, l, id) && all[l] == known[k] {
      var l := if k < seen then k else |pool| + k - seen;
      assert Matches(shortId, all, l, id) && all[l] == known[k];
    }
    assert OneMatch(shortId, all, id) ==> OneMatch(shortId, known, id);
    if more < |extra| {
      AllFilled(positions, avail, id);
    } else if seen < |pool| {
      AllFilled(positions, fromPool, id);
      var k :| Matches(shortId, pool[..seen], k, id);
      assert Matches(shortId, known, k, id);
    } else {
      assert known == all;
    }
  }

  lemma SlotsEnd(m: Message, shortId: ShortId, known: seq<Tx>, start: seq<TxRef>, positions: map<nat, nat>,
                 slots: seq<nat>, avail: seq<TxRef>)
    requires PlacedUpTo(m, start, |m.prefilled|) && Located(m, start, positions, slots) && |avail| == |start|
    requires forall p :: 0 <= p < |avail| && p !in positions.Values ==> avail[p] == start[p]
    requires forall id :: id in positions ==>
      positions[id] < |avail| && SlotFilled(shortId, id, known, avail[positions[id]])
    ensures Initialized(m, shortId, known, slots, avail)
  {
    forall p | 0 <= p < |start| ensures start[p] == Empty <==> p in slots { SlotsPartition(start, slots, p); }
    forall i, j | 0 <= i < j < |slots| ensures slots[i] < slots[j] {
      assert IsSlot(start, i, slots[i]) && IsSlot(start, j, slots[j]);
      if slots[j] <= slots[i] { CountFreeMonotone(start, slots[j], slots[i]); }
    }
    forall p | p in positions.Values ensures p in slots {
      var id :| id in positions && positions[id] == p;
    }
  }

  lemma StartScan(m: Message, shortId: ShortId, start: seq<TxRef>, positions: map<nat, nat>, slots: seq<nat>,
                  have: seq<bool>)
    requires Located(m, start, positions, slots) && |have| == |start| && forall p :: 0 <= p < |have| ==> !have[p]
    ensures Scanned(shortId, positions, start, [], start, have) && OneSlotEach(positions)
    ensures Filled(positions, start) == {}
  {
    forall id | id in positions ensures positions[id] < |start| && start[positions[id]] == Empty {
      var i :| 0 <= i < |slots| && m.shortids[i] == id && positions[id] == slots[i];
      assert IsSlot(start, i, slots[i]);
    }
    forall a, b | a in positions && b in positions && positions[a] == positions[b] ensures a == b {
      var i :| 0 <= i < |slots| && m.shortids[i] == a && positions[a] == slots[i];
      var j :| 0 <= j < |slots| && m.shortids[j] == b && positions[b] == slots[j];
      assert IsSlot(start, i, slots[i]) && IsSlot(start, j, slots[j]);
    }
  }

  // ----- a whole transfer -----------------------------------------------------------------------

  /** The message stands for the block: prefilled transactions and short ids are those of its positions. */
  ghost predicate Describes(m: Message, shortId: ShortId, block: seq<Tx>, slots: seq<nat>) {
    && |block| == |m.shortids| + |m.prefilled| && |slots| == |m.shortids|
    && (forall i :: 0 <= i < |m.prefilled| ==>
        0 <= Position(m, i) < |block| && block[Position(m, i)] == m.prefilled[i].tx)
    && (forall i :: 0 <= i < |slots| ==> slots[i] < |block| && m.shortids[i] == shortId(block[slots[i]].hash))
  }

  /** No known transaction other than the block's own has the short id of one of its transactions. */
  ghost predicate NoImpostor(shortId: ShortId, block: seq<Tx>, known: seq<Tx>) {
    forall k, p :: 0 <= k < |known| && 0 <= p < |block| && shortId(known[k].hash) == shortId(block[p].hash) ==>
        known[k] == block[p]
  }

  /** Whatever the receiver knew, without impostors the block it completes with the transactions it asked
      for is the block that was sent. */
  lemma Reconstruction(m: Message, shortId: ShortId, block: seq<Tx>, known: seq<Tx>, slots: seq<nat>, avail: seq<TxRef>)
    requires Initialized(m, shortId, known, slots, avail) && Describes(m, shortId, block, slots)
    requires NoImpostor(shortId, block, known)
    ensures Completed(avail, Missing(avail, block, |avail|), |avail|) == block
  {
    forall p | 0 <= p < |avail| && avail[p].Full? ensures avail[p].tx == block[p] {
      if p in slots {
        var i :| 0 <= i < |slots| && slots[i] == p;
        assert SlotFilled(shortId, m.shortids[i], known, avail[slots[i]]);
      }
    }
    CompletedIsBlock(avail, block, Missing(avail, block, |avail|), |avail|);
    assert block[..|avail|] == block;
  }

  /** The message of the sender: the first transaction in full, short ids of the others. */
  method Announce(block: seq<Tx>, shortId: ShortId, proofOfStake: bool, sigEmpty: bool) returns (m: Message)
    requires block != []
    ensures m.prefilled == [Prefilled(0, block[0])] && |m.shortids| == |block| - 1
    ensures forall i :: 0 <= i < |m.shortids| ==> m.shortids[i] == shortId(block[i + 1].hash)
    ensures !m.headerNull && m.proofOfStake == proofOfStake && m.sigEmpty == sigEmpty
  {
    var ids: seq<nat> := [];
    while |ids| < |block| - 1
      invariant |ids| <= |block| - 1 && forall i :: 0 <= i < |ids| ==> ids[i] == shortId(block[i + 1].hash)
    {
      ids := ids + [shortId(block[|ids| + 1].hash)];
    }
    m := Message(false, proofOfStake, sigEmpty, ids, [Prefilled(0, block[0])]);
  }

  /** The sender's message describes the block, in the slots that the receiver finds for its short ids. */
  lemma AnnouncementDescribes(m: Message, shortId: ShortId, block: seq<Tx>, known: seq<Tx>, slots: seq<nat>,
                              avail: seq<TxRef>)
    requires block != [] && m.prefilled == [Prefilled(0, block[0])] && |m.shortids| == |block| - 1
    requires forall i :: 0 <= i < |m.shortids| ==> m.shortids[i] == shortId(block[i + 1].hash)
    requires Initialized(m, shortId, known, slots, avail)
    ensures Describes(m, shortId, block, slots)
  {
    assert Position(m, 0) == 0 by { assert PrefilledAt(m.prefilled, -1) == -1; }
    forall i | 0 <= i < |slots| ensures slots[i] == i + 1 {
      SlotAtLeast(slots, i);
      SlotAtMost(slots, i, |block|);
    }
  }

  lemma {:induction false} SlotAtLeast(slots: seq<nat>, i: nat)
    requires StrictlyAscending(slots) && i < |slots| && 0 !in slots
    ensures slots[i] >= i + 1
  {
    if i == 0 {
      assert slots[0] in slots;
    } else {
      SlotAtLeast(slots, i - 1);
    }
  }

  lemma {:induction false} SlotAtMost(slots: seq<nat>, i: nat, n: nat)
    requires StrictlyAscending(slots) && i < |slots| && n == |slots| + 1 && forall k :: 0 <= k < |slots| ==>
      slots[k] < n
    ensures slots[i] <= i + 1
    decreases |slots| - i
  {
    if i + 1 < |slots| { SlotAtMost(slots, i + 1, n); }
  }
}
