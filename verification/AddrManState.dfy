/** The address manager's tables as values: the five cross-linked indexes of addrman.h, each
    operation of addrman.cpp as a function on them, and the consistency that Check_ tests, proved
    to survive every operation. */
module AddrManState {

  const TRIED_BUCKET_COUNT := 256
  const NEW_BUCKET_COUNT := 1024
  const BUCKET_SIZE := 64
  const TRIED_BUCKETS_PER_GROUP := 8
  const NEW_BUCKETS_PER_SOURCE_GROUP := 64
  const NEW_BUCKETS_PER_ADDRESS := 8
  const HORIZON_DAYS := 30
  const RETRIES := 3
  const MAX_FAILURES := 10
  const MIN_FAIL_DAYS := 7
  const SET_TRIED_COLLISION_SIZE := 10

  type NetAddr = nat
  datatype Service = Service(ip: NetAddr, port: nat)

  /** A position in a bucket table. A slot that holds -1 in the source is a slot not in the map. */
  datatype Slot = Slot(bucket: nat, pos: nat)
  type Table = map<Slot, int>

  /** The table cell as the source sees it. */
  function At(t: Table, s: Slot): int { if s in t then t[s] else -1 }

  /** The keyed hashes behind bucket selection, for one fixed key and asmap. */
  datatype Hasher = Hasher(
    group: NetAddr -> nat,
    keyHash: Service -> nat,
    triedHash: (nat, nat) -> nat,
    sourceHash: (nat, nat) -> nat,
    newHash: (nat, nat) -> nat,
    posHash: (bool, nat, Service) -> nat)
  {
    function TriedBucket(a: Service): nat {
      triedHash(group(a.ip), keyHash(a) % TRIED_BUCKETS_PER_GROUP) % TRIED_BUCKET_COUNT
    }
    function NewBucket(a: Service, source: NetAddr): nat {
      newHash(group(source), sourceHash(group(a.ip), group(source)) % NEW_BUCKETS_PER_SOURCE_GROUP) % NEW_BUCKET_COUNT
    }
    function Position(isNew: bool, bucket: nat, a: Service): nat { posHash(isNew, bucket, a) % BUCKET_SIZE }

    /** The slots that an address can occupy. */
    function Slots(): Layout {
      Layout(a => Slot(TriedBucket(a), Position(false, TriedBucket(a), a)),
             (a, source) => NewBucket(a, source),
             (a, bucket: nat) => Slot(bucket, Position(true, bucket, a)))
    }
  }

  /** Where addresses may be stored: one tried slot each, a new bucket per source, and one slot in
      each new bucket. */
  datatype Layout = Layout(
    triedSlot: Service -> Slot,
    newBucket: (Service, NetAddr) -> nat,
    newSlot: (Service, nat) -> Slot)

  datatype Info = Info(
    service: Service, services: set<nat>, time: int, source: NetAddr,
    lastTry: int, lastCountAttempt: int, lastSuccess: int, attempts: int,
    refCount: int, inTried: bool, randomPos: int)
  {
    predicate IsTerrible(now: int) {
      if lastTry != 0 && lastTry >= now - 60 then false
      else
        || time > now + 10 * 60
        || time == 0 || now - time > HORIZON_DAYS * 24 * 60 * 60
        || (lastSuccess == 0 && attempts >= RETRIES)
        || (now - lastSuccess > MIN_FAIL_DAYS * 24 * 60 * 60 && attempts >= MAX_FAILURES)
    }
  }

  type Infos = map<int, Info>

  datatype State = State(
    nIdCount: int, mapInfo: Infos, mapAddr: map<NetAddr, int>, vRandom: seq<int>,
    nTried: int, vvTried: Table, nNew: int, vvNew: Table, triedCollisions: set<int>)

  // ----- consistency ----------------------------------------------------------------------------

  ghost predicate IdsOk(count: int, info: Infos) { forall n :: n in info ==> 0 <= n < count }

  /** vRandom lists every id once, and each entry knows its place. */
  ghost predicate RandomOk(info: Infos, random: seq<int>) {
    && |random| == |info|
    && (forall n :: n in info ==> 0 <= info[n].randomPos < |random| && random[info[n].randomPos] == n)
    && (forall i :: 0 <= i < |random| ==> random[i] in info && info[random[i]].randomPos == i)
  }

  /** mapAddr is the inverse of mapInfo's addresses. */
  ghost predicate AddrOk(info: Infos, addr: map<NetAddr, int>) {
    && (forall n :: n in info ==> info[n].service.ip in addr && addr[info[n].service.ip] == n)
    && (forall a :: a in addr ==> addr[a] in info && info[addr[a]].service.ip == a)
  }

  /** The tried table holds exactly the tried entries, each in the one slot its address selects. */
  ghost predicate TriedOk(h: Layout, info: Infos, tried: Table) {
    && (forall s :: s in tried ==>
          At(tried, s) in info && info[At(tried, s)].inTried && s == h.triedSlot(info[At(tried, s)].service))
    && (forall n :: n in info && info[n].inTried ==> At(tried, h.triedSlot(info[n].service)) == n)
  }

  ghost function RefSlots(vnew: Table, n: int): set<Slot> { set s | s in vnew && At(vnew, s) == n }

  /** The new table holds only untried entries in slots their addresses allow. */
  ghost predicate NewOk(h: Layout, info: Infos, vnew: Table) {
    forall s :: s in vnew ==>
      && At(vnew, s) in info && !info[At(vnew, s)].inTried
      && s.bucket < NEW_BUCKET_COUNT && s == h.newSlot(info[At(vnew, s)].service, s.bucket)
  }

  /** Reference counts are the numbers of slots in the new table. */
  ghost predicate RefsOk(info: Infos, vnew: Table) {
    forall n :: n in info ==> info[n].refCount == |RefSlots(vnew, n)|
  }

  /** Entries in limbo are in no bucket; all others are tried, or referenced one to eight times. */
  ghost predicate InfoOk(info: Infos, limbo: set<int>) {
    && (forall n :: n in info ==>
          && info[n].lastTry >= 0 && info[n].lastSuccess >= 0
          && (info[n].inTried ==> info[n].lastSuccess > 0 && info[n].refCount == 0)
          && (!info[n].inTried && n !in limbo ==> 1 <= info[n].refCount <= NEW_BUCKETS_PER_ADDRESS))
    && (forall n :: n in limbo ==> n in info && !info[n].inTried && info[n].refCount == 0)
  }

  ghost function TriedIds(info: Infos): set<int> { set n | n in info && info[n].inTried }
  ghost function NewIds(info: Infos): set<int> { set n | n in info && !info[n].inTried }

  /** Consistency of the three indexes by id, by address and by random position. */
  ghost predicate IndexOk(s: State) {
    && s.nIdCount >= 0 && IdsOk(s.nIdCount, s.mapInfo)
    && RandomOk(s.mapInfo, s.vRandom) && AddrOk(s.mapInfo, s.mapAddr)
  }

  ghost predicate TablesOk(h: Layout, s: State) {
    TriedOk(h, s.mapInfo, s.vvTried) && NewOk(h, s.mapInfo, s.vvNew) && RefsOk(s.mapInfo, s.vvNew)
  }

  ghost predicate RecordsOk(s: State, limbo: set<int>, uncounted: int) {
    && InfoOk(s.mapInfo, limbo)
    && s.nTried == |TriedIds(s.mapInfo)|
    && s.nNew + uncounted == |NewIds(s.mapInfo)|
  }

  /** Consistency with some entries in limbo and some untried entries not yet counted in nNew. */
  ghost predicate ConsistentBut(h: Layout, s: State, limbo: set<int>, uncounted: int) {
    IndexOk(s) && TablesOk(h, s) && RecordsOk(s, limbo, uncounted)
  }

  /** A pending collision that still names an entry names one whose tried slot is taken. */
  ghost predicate CollisionsOk(h: Layout, s: State) {
    forall n :: n in s.triedCollisions ==>
      n < s.nIdCount && (n in s.mapInfo ==> h.triedSlot(s.mapInfo[n].service) in s.vvTried)
  }

  /** Everything that Check_ tests, and the state of the pending collisions. */
  ghost predicate Consistent(h: Layout, s: State) { ConsistentBut(h, s, {}, 0) && CollisionsOk(h, s) }

  /** How states follow one another: ids are never reused or moved to another address, and a tried
      slot, once filled, stays filled. */
  ghost predicate Evolves(s: State, s': State) {
    && s.nIdCount <= s'.nIdCount
    && s.vvTried.Keys <= s'.vvTried.Keys
    && forall n :: n in s'.mapInfo && n < s.nIdCount ==> n in s.mapInfo && s'.mapInfo[n].service == s.mapInfo[n].service
  }

  lemma CollisionsPersist(h: Layout, s: State, s': State)
    requires CollisionsOk(h, s) && Evolves(s, s') && s'.triedCollisions <= s.triedCollisions
    ensures CollisionsOk(h, s')
  {
  }

  // ----- small facts ----------------------------------------------------------------------------

  lemma RefSlotsErase(vnew: Table, s: Slot, n: int)
    requires s in vnew
    ensures RefSlots(vnew - {s}, n) == RefSlots(vnew, n) - {s}
    ensures |RefSlots(vnew - {s}, n)| == |RefSlots(vnew, n)| - (if At(vnew, s) == n then 1 else 0)
  {
    assert RefSlots(vnew - {s}, n) == RefSlots(vnew, n) - {s};
    if At(vnew, s) == n { assert s in RefSlots(vnew, n); }
    else { assert RefSlots(vnew, n) - {s} == RefSlots(vnew, n); }
  }

  lemma RefSlotsFill(vnew: Table, s: Slot, id: int, n: int)
    requires s !in vnew
    ensures |RefSlots(vnew[s := id], n)| == |RefSlots(vnew, n)| + (if id == n then 1 else 0)
  {
    if id == n {
      assert RefSlots(vnew[s := id], n) == RefSlots(vnew, n) + {s};
    } else {
      assert RefSlots(vnew[s := id], n) == RefSlots(vnew, n);
    }
  }

  // ----- operations -----------------------------------------------------------------------------

  function Created(s: State, i: Info): State {
    s.(nIdCount := s.nIdCount + 1,
       mapInfo := s.mapInfo[s.nIdCount := i.(randomPos := |s.vRandom|, refCount := 0, inTried := false)],
       mapAddr := s.mapAddr[i.service.ip := s.nIdCount],
       vRandom := s.vRandom + [s.nIdCount])
  }

  lemma CreateIndex(s: State, i: Info)
    requires IndexOk(s) && i.service.ip !in s.mapAddr
    ensures IndexOk(Created(s, i))
  {
  }

  lemma CreateTables(h: Layout, s: State, i: Info)
    requires IndexOk(s) && TablesOk(h, s)
    ensures TablesOk(h, Created(s, i))
  {
    assert RefSlots(s.vvNew, s.nIdCount) == {};
  }

  lemma CreateInfo(info: Infos, id: int, i: Info, limbo: set<int>)
    requires InfoOk(info, limbo) && id !in info && i.lastTry >= 0 && i.lastSuccess >= 0 && i.refCount == 0 && !i.inTried
    ensures InfoOk(info[id := i], limbo + {id})
  {
  }

  lemma CreateIds(info: Infos, id: int, i: Info)
    requires id !in info && !i.inTried
    ensures TriedIds(info[id := i]) == TriedIds(info) && NewIds(info[id := i]) == NewIds(info) + {id}
    ensures |NewIds(info[id := i])| == |NewIds(info)| + 1
  {
    var info' := info[id := i];
    assert info'.Keys == info.Keys + {id} && info'[id] == i;
    assert forall n :: n in info ==> info'[n] == info[n];
    assert id !in NewIds(info);
  }

  lemma CreateRecords(s: State, i: Info, limbo: set<int>, u: int)
    requires IndexOk(s) && RecordsOk(s, limbo, u) && i.lastTry >= 0 && i.lastSuccess >= 0
    ensures RecordsOk(Created(s, i), limbo + {s.nIdCount}, u + 1)
  {
    var i' := i.(randomPos := |s.vRandom|, refCount := 0, inTried := false);
    CreateInfo(s.mapInfo, s.nIdCount, i', limbo);
    CreateIds(s.mapInfo, s.nIdCount, i');
  }

  /** A new entry starts in limbo, not yet counted. */
  lemma CreateKeeps(h: Layout, s: State, i: Info, limbo: set<int>, u: int)
    requires ConsistentBut(h, s, limbo, u) && i.service.ip !in s.mapAddr && i.lastTry >= 0 && i.lastSuccess >= 0
    ensures ConsistentBut(h, Created(s, i), limbo + {s.nIdCount}, u + 1) && Evolves(s, Created(s, i))
  {
    CreateIndex(s, i);
    CreateTables(h, s, i);
    CreateRecords(s, i, limbo, u);
  }

  /** The same entry in the same place, with other statistics. */
  ghost predicate SamePlace(i: Info, i': Info) {
    i'.service == i.service && i'.refCount == i.refCount && i'.inTried == i.inTried && i'.randomPos == i.randomPos
  }

  lemma UpdateTables(h: Layout, s: State, id: int, i: Info)
    requires TablesOk(h, s) && id in s.mapInfo && SamePlace(s.mapInfo[id], i)
    ensures TablesOk(h, s.(mapInfo := s.mapInfo[id := i]))
  {
  }

  lemma UpdateIndex(s: State, id: int, i: Info)
    requires IndexOk(s) && id in s.mapInfo && i.service == s.mapInfo[id].service
    requires i.randomPos == s.mapInfo[id].randomPos
    ensures IndexOk(s.(mapInfo := s.mapInfo[id := i]))
  {
    assert s.mapInfo[id := i].Keys == s.mapInfo.Keys;
    assert |s.mapInfo[id := i]| == |s.mapInfo[id := i].Keys|;
  }

  /** Changing an entry's statistics keeps everything, if the times stay sensible. */
  lemma UpdateKeeps(h: Layout, s: State, id: int, i: Info, limbo: set<int>, u: int)
    requires ConsistentBut(h, s, limbo, u) && id in s.mapInfo && SamePlace(s.mapInfo[id], i)
    requires i.lastTry >= 0 && i.lastSuccess >= 0 && (i.inTried ==> i.lastSuccess > 0)
    ensures ConsistentBut(h, s.(mapInfo := s.mapInfo[id := i]), limbo, u)
    ensures Evolves(s, s.(mapInfo := s.mapInfo[id := i]))
  {
    UpdateIndex(s, id, i);
    UpdateTables(h, s, id, i);
    assert RecordsOk(s.(mapInfo := s.mapInfo[id := i]), limbo, u) by {
      assert TriedIds(s.mapInfo[id := i]) == TriedIds(s.mapInfo);
      assert NewIds(s.mapInfo[id := i]) == NewIds(s.mapInfo);
    }
  }

  function Swapped(s: State, p: nat, q: nat): State
    requires p < |s.vRandom| && q < |s.vRandom| && s.vRandom[p] in s.mapInfo && s.vRandom[q] in s.mapInfo
  {
    if p == q then s else
    var id1, id2 := s.vRandom[p], s.vRandom[q];
    var info := s.mapInfo[id1 := s.mapInfo[id1].(randomPos := q)];
    s.(mapInfo := info[id2 := info[id2].(randomPos := p)],
       vRandom := s.vRandom[p := id2][q := id1])
  }

  ghost predicate Moved(i: Info, i': Info) {
    && i'.service == i.service && i'.services == i.services && i'.time == i.time && i'.source == i.source
    && i'.lastTry == i.lastTry && i'.lastCountAttempt == i.lastCountAttempt && i'.lastSuccess == i.lastSuccess
    && i'.attempts == i.attempts && i'.refCount == i.refCount && i'.inTried == i.inTried
  }

  /** Entries that differ at most in their random positions. */
  ghost predicate SameButPositions(info: Infos, info': Infos) {
    info'.Keys == info.Keys && forall n :: n in info ==> Moved(info[n], info'[n])
  }

  lemma IdsIgnorePositions(info: Infos, info': Infos)
    requires SameButPositions(info, info')
    ensures TriedIds(info') == TriedIds(info) && NewIds(info') == NewIds(info)
  {
    forall n ensures (n in TriedIds(info') <==> n in TriedIds(info)) && (n in NewIds(info') <==> n in NewIds(info)) {
      if n in info { assert Moved(info[n], info'[n]); }
    }
  }

  lemma TablesIgnorePositions(h: Layout, info: Infos, info': Infos, tried: Table, vnew: Table)
    requires SameButPositions(info, info') && TriedOk(h, info, tried) && NewOk(h, info, vnew) && RefsOk(info, vnew)
    ensures TriedOk(h, info', tried) && NewOk(h, info', vnew) && RefsOk(info', vnew)
  {
  }

  lemma InfoIgnoresPositions(info: Infos, info': Infos, limbo: set<int>)
    requires SameButPositions(info, info') && InfoOk(info, limbo)
    ensures InfoOk(info', limbo)
  {
  }

  lemma PositionsDoNotMatter(h: Layout, s: State, s': State, limbo: set<int>, u: int)
    requires TablesOk(h, s) && RecordsOk(s, limbo, u) && SameButPositions(s.mapInfo, s'.mapInfo)
    requires s' == s.(mapInfo := s'.mapInfo, vRandom := s'.vRandom)
    ensures TablesOk(h, s') && RecordsOk(s', limbo, u) && Evolves(s, s')
  {
    IdsIgnorePositions(s.mapInfo, s'.mapInfo);
    TablesIgnorePositions(h, s.mapInfo, s'.mapInfo, s.vvTried, s.vvNew);
    InfoIgnoresPositions(s.mapInfo, s'.mapInfo, limbo);
  }

  lemma SwapSymmetric(s: State, p: nat, q: nat)
    requires RandomOk(s.mapInfo, s.vRandom) && p < q < |s.vRandom|
    ensures Swapped(s, p, q) == Swapped(s, q, p)
  {
    assert s.vRandom[p] != s.vRandom[q];
    assert Swapped(s, p, q).mapInfo == Swapped(s, q, p).mapInfo;
    assert Swapped(s, p, q).vRandom == Swapped(s, q, p).vRandom;
  }

  lemma SwapMoves(s: State, p: nat, q: nat)
    requires RandomOk(s.mapInfo, s.vRandom) && p < q < |s.vRandom|
    ensures SameButPositions(s.mapInfo, Swapped(s, p, q).mapInfo) && |Swapped(s, p, q).mapInfo| == |s.mapInfo|
  {
    var info := Swapped(s, p, q).mapInfo;
    assert info.Keys == s.mapInfo.Keys;
    assert |info| == |info.Keys|;
  }

  lemma SwapRandom(s: State, p: nat, q: nat)
    requires RandomOk(s.mapInfo, s.vRandom) && p < q < |s.vRandom|
    ensures RandomOk(Swapped(s, p, q).mapInfo, Swapped(s, p, q).vRandom)
  {
    assert s.vRandom[p] != s.vRandom[q];
    SwapMoves(s, p, q);
  }

  lemma SwapIndex(s: State, p: nat, q: nat)
    requires IndexOk(s) && p < |s.vRandom| && q < |s.vRandom|
    ensures IndexOk(Swapped(s, p, q)) && SameButPositions(s.mapInfo, Swapped(s, p, q).mapInfo)
  {
    var lo, hi := if p < q then p else q, if p < q then q else p;
    if lo < hi {
      SwapMoves(s, lo, hi);
      SwapRandom(s, lo, hi);
      SwapSymmetric(s, lo, hi);
    }
    AddrIgnoresPositions(s.mapInfo, Swapped(s, p, q).mapInfo, s.mapAddr);
  }

  lemma AddrIgnoresPositions(info: Infos, info': Infos, addr: map<NetAddr, int>)
    requires AddrOk(info, addr) && SameButPositions(info, info')
    ensures AddrOk(info', addr)
  {
  }

  /** Exchanging two random positions keeps everything. */
  lemma SwapKeeps(h: Layout, s: State, p: nat, q: nat, limbo: set<int>, u: int)
    requires ConsistentBut(h, s, limbo, u) && p < |s.vRandom| && q < |s.vRandom|
    ensures ConsistentBut(h, Swapped(s, p, q), limbo, u) && Evolves(s, Swapped(s, p, q))
  {
    SwapIndex(s, p, q);
    PositionsDoNotMatter(h, s, Swapped(s, p, q), limbo, u);
  }

  /** Remove an entry that stands last in vRandom. */
  function Dropped(s: State, id: int): State
    requires id in s.mapInfo && |s.vRandom| > 0
  {
    s.(vRandom := s.vRandom[..|s.vRandom| - 1],
       mapAddr := s.mapAddr - {s.mapInfo[id].service.ip},
       mapInfo := s.mapInfo - {id},
       nNew := s.nNew - 1)
  }

  /** Delete an untried entry without references: swap it to the end of vRandom and drop it. */
  function Deleted(s: State, id: int): State
    requires RandomOk(s.mapInfo, s.vRandom) && id in s.mapInfo
  {
    Dropped(Swapped(s, s.mapInfo[id].randomPos, |s.vRandom| - 1), id)
  }

  /** Dropping the last of vRandom. */
  lemma DropLast(s: State, id: int)
    requires IndexOk(s) && id in s.mapInfo && s.mapInfo[id].randomPos == |s.vRandom| - 1
    ensures IndexOk(Dropped(s, id))
  {
    var info' := s.mapInfo - {id};
    assert info'.Keys == s.mapInfo.Keys - {id};
    assert |info'| == |info'.Keys|;
    assert s.vRandom[|s.vRandom| - 1] == id;
  }

  lemma RemoveTables(h: Layout, s: State, id: int)
    requires TablesOk(h, s) && id in s.mapInfo && !s.mapInfo[id].inTried && s.mapInfo[id].refCount == 0
    ensures TablesOk(h, s.(mapInfo := s.mapInfo - {id}))
  {
    assert RefSlots(s.vvNew, id) == {};
    forall x | x in s.vvNew ensures At(s.vvNew, x) != id { assert At(s.vvNew, x) == id ==> x in RefSlots(s.vvNew, id); }
    forall x | x in s.vvTried ensures At(s.vvTried, x) != id {}
  }

  lemma RemoveRecords(s: State, id: int, limbo: set<int>, u: int)
    requires RecordsOk(s, limbo, u) && id in s.mapInfo && !s.mapInfo[id].inTried
    ensures RecordsOk(s.(mapInfo := s.mapInfo - {id}, nNew := s.nNew - 1), limbo - {id}, u)
  {
    var info' := s.mapInfo - {id};
    assert TriedIds(info') == TriedIds(s.mapInfo);
    assert NewIds(info') == NewIds(s.mapInfo) - {id};
    assert id in NewIds(s.mapInfo);
  }

  lemma DropKeeps(h: Layout, s: State, id: int, limbo: set<int>, u: int)
    requires ConsistentBut(h, s, limbo, u) && id in s.mapInfo && !s.mapInfo[id].inTried && s.mapInfo[id].refCount == 0
    requires s.mapInfo[id].randomPos == |s.vRandom| - 1
    ensures ConsistentBut(h, Dropped(s, id), limbo - {id}, u) && Evolves(s, Dropped(s, id))
  {
    DropLast(s, id);
    RemoveTables(h, s, id);
    RemoveRecords(s, id, limbo, u);
  }

  lemma EvolvesTransitive(s: State, t: State, r: State)
    requires Evolves(s, t) && Evolves(t, r)
    ensures Evolves(s, r)
  {
  }

  /** Deleting keeps everything else. */
  lemma DeleteKeeps(h: Layout, s: State, id: int, limbo: set<int>, u: int)
    requires ConsistentBut(h, s, limbo, u) && id in s.mapInfo && !s.mapInfo[id].inTried && s.mapInfo[id].refCount == 0
    ensures ConsistentBut(h, Deleted(s, id), limbo - {id}, u) && Evolves(s, Deleted(s, id))
  {
    var p, q := s.mapInfo[id].randomPos, |s.vRandom| - 1;
    var t := Swapped(s, p, q);
    assert Deleted(s, id) == Dropped(t, id);
    SwapKeeps(h, s, p, q, limbo, u);
    assert t.mapInfo[id].randomPos == q && Moved(s.mapInfo[id], t.mapInfo[id]) by { SwapIndex(s, p, q); }
    DropKeeps(h, t, id, limbo, u);
    EvolvesTransitive(s, t, Dropped(t, id));
  }

  /** The other entries at most move in vRandom. */
  lemma DeleteMovesOthers(s: State, id: int)
    requires IndexOk(s) && id in s.mapInfo
    ensures SameButPositions(s.mapInfo - {id}, Deleted(s, id).mapInfo)
  {
    SwapIndex(s, s.mapInfo[id].randomPos, |s.vRandom| - 1);
  }

  // ----- the new table --------------------------------------------------------------------------

  function WithRefCount(info: Infos, id: int, k: int): Infos
    requires id in info
  {
    info[id := info[id].(refCount := k)]
  }

  lemma RefCountIndex(s: State, id: int, k: int, vnew: Table, n: int)
    requires IndexOk(s) && id in s.mapInfo
    ensures IndexOk(s.(mapInfo := WithRefCount(s.mapInfo, id, k), vvNew := vnew, nNew := n))
  {
    UpdateIndex(s, id, s.mapInfo[id].(refCount := k));
  }

  lemma RefCountIds(info: Infos, id: int, k: int)
    requires id in info
    ensures TriedIds(WithRefCount(info, id, k)) == TriedIds(info) && NewIds(WithRefCount(info, id, k)) == NewIds(info)
  {
    var info' := WithRefCount(info, id, k);
    assert TriedIds(info') == TriedIds(info);
    assert NewIds(info') == NewIds(info);
  }

  lemma RefCountTried(h: Layout, info: Infos, id: int, k: int, tried: Table)
    requires id in info && TriedOk(h, info, tried)
    ensures TriedOk(h, WithRefCount(info, id, k), tried)
  {
  }

  /** Take one reference away: the first half of ClearNew. */
  function Unreferenced(s: State, slot: Slot): State
    requires slot in s.vvNew && At(s.vvNew, slot) in s.mapInfo
  {
    var id := At(s.vvNew, slot);
    s.(vvNew := s.vvNew - {slot}, mapInfo := WithRefCount(s.mapInfo, id, s.mapInfo[id].refCount - 1))
  }

  lemma UnreferenceTables(h: Layout, s: State, slot: Slot)
    requires TablesOk(h, s) && slot in s.vvNew
    ensures TablesOk(h, Unreferenced(s, slot))
  {
    var id := At(s.vvNew, slot);
    var s' := Unreferenced(s, slot);
    RefCountTried(h, s.mapInfo, id, s.mapInfo[id].refCount - 1, s.vvTried);
    forall n | n in s'.mapInfo ensures s'.mapInfo[n].refCount == |RefSlots(s'.vvNew, n)| {
      RefSlotsErase(s.vvNew, slot, n);
    }
    forall x | x in s'.vvNew ensures At(s'.vvNew, x) == At(s.vvNew, x) {}
  }

  lemma UnreferenceRecords(s: State, slot: Slot, limbo: set<int>, u: int)
    requires RecordsOk(s, limbo, u) && slot in s.vvNew && At(s.vvNew, slot) in s.mapInfo
    requires var id := At(s.vvNew, slot); !s.mapInfo[id].inTried && s.mapInfo[id].refCount >= 1
    ensures var id := At(s.vvNew, slot);
      RecordsOk(Unreferenced(s, slot), if s.mapInfo[id].refCount == 1 then limbo + {id} else limbo, u)
  {
    var id := At(s.vvNew, slot);
    RefCountIds(s.mapInfo, id, s.mapInfo[id].refCount - 1);
  }

  lemma HolderNotInLimbo(h: Layout, s: State, slot: Slot, limbo: set<int>)
    requires TablesOk(h, s) && InfoOk(s.mapInfo, limbo) && slot in s.vvNew
    ensures var id := At(s.vvNew, slot);
      id in s.mapInfo && id !in limbo && !s.mapInfo[id].inTried && s.mapInfo[id].refCount >= 1
  {
    assert slot in RefSlots(s.vvNew, At(s.vvNew, slot));
  }

  lemma UnreferenceIndex(s: State, slot: Slot)
    requires IndexOk(s) && slot in s.vvNew && At(s.vvNew, slot) in s.mapInfo
    ensures IndexOk(Unreferenced(s, slot))
  {
    var id := At(s.vvNew, slot);
    RefCountIndex(s, id, s.mapInfo[id].refCount - 1, s.vvNew - {slot}, s.nNew);
  }

  /** The entry that loses its last reference goes to limbo. */
  lemma UnreferenceKeeps(h: Layout, s: State, slot: Slot, limbo: set<int>, u: int)
    requires ConsistentBut(h, s, limbo, u) && slot in s.vvNew
    ensures var id := At(s.vvNew, slot); id !in limbo && s.mapInfo[id].refCount >= 1
    ensures var id := At(s.vvNew, slot);
      ConsistentBut(h, Unreferenced(s, slot), if s.mapInfo[id].refCount == 1 then limbo + {id} else limbo, u)
  {
    HolderNotInLimbo(h, s, slot, limbo);
    UnreferenceTables(h, s, slot);
    UnreferenceIndex(s, slot);
    UnreferenceRecords(s, slot, limbo, u);
  }

  /** Put an untried entry into a free slot of the new table that suits it. */
  function Referenced(s: State, id: int, slot: Slot): State
    requires id in s.mapInfo
  {
    s.(vvNew := s.vvNew[slot := id], mapInfo := WithRefCount(s.mapInfo, id, s.mapInfo[id].refCount + 1))
  }

  lemma ReferenceTables(h: Layout, s: State, id: int, slot: Slot)
    requires TablesOk(h, s) && id in s.mapInfo && !s.mapInfo[id].inTried && slot !in s.vvNew
    requires slot.bucket < NEW_BUCKET_COUNT && slot == h.newSlot(s.mapInfo[id].service, slot.bucket)
    ensures TablesOk(h, Referenced(s, id, slot))
  {
    var s' := Referenced(s, id, slot);
    RefCountTried(h, s.mapInfo, id, s.mapInfo[id].refCount + 1, s.vvTried);
    forall n | n in s'.mapInfo ensures s'.mapInfo[n].refCount == |RefSlots(s'.vvNew, n)| {
      RefSlotsFill(s.vvNew, slot, id, n);
    }
    forall x | x in s'.vvNew ensures At(s'.vvNew, x) == if x == slot then id else At(s.vvNew, x) {}
  }

  lemma ReferenceIndex(s: State, id: int, slot: Slot)
    requires IndexOk(s) && id in s.mapInfo
    ensures IndexOk(Referenced(s, id, slot)) && Evolves(s, Referenced(s, id, slot))
  {
    RefCountIndex(s, id, s.mapInfo[id].refCount + 1, s.vvNew[slot := id], s.nNew);
  }

  lemma ReferenceRecords(s: State, id: int, slot: Slot, limbo: set<int>, u: int)
    requires RecordsOk(s, limbo, u) && id in s.mapInfo && !s.mapInfo[id].inTried
    requires s.mapInfo[id].refCount < NEW_BUCKETS_PER_ADDRESS
    ensures RecordsOk(Referenced(s, id, slot), limbo - {id}, u)
  {
    RefCountIds(s.mapInfo, id, s.mapInfo[id].refCount + 1);
  }

  lemma ReferenceKeeps(h: Layout, s: State, id: int, slot: Slot, limbo: set<int>, u: int)
    requires ConsistentBut(h, s, limbo, u) && id in s.mapInfo && !s.mapInfo[id].inTried && slot !in s.vvNew
    requires s.mapInfo[id].refCount < NEW_BUCKETS_PER_ADDRESS
    requires slot.bucket < NEW_BUCKET_COUNT && slot == h.newSlot(s.mapInfo[id].service, slot.bucket)
    ensures ConsistentBut(h, Referenced(s, id, slot), limbo - {id}, u) && Evolves(s, Referenced(s, id, slot))
  {
    ReferenceTables(h, s, id, slot);
    ReferenceIndex(s, id, slot);
    ReferenceRecords(s, id, slot, limbo, u);
  }

  /** ClearNew: free a slot of the new table, deleting its entry if that was the last reference. */
  function ClearedNew(s: State, slot: Slot): State
    requires IndexOk(s) && (slot in s.vvNew ==> At(s.vvNew, slot) in s.mapInfo)
    requires slot in s.vvNew ==> IndexOk(Unreferenced(s, slot))
  {
    if slot !in s.vvNew then s else
    var id := At(s.vvNew, slot);
    var t := Unreferenced(s, slot);
    if t.mapInfo[id].refCount == 0 then Deleted(t, id) else t
  }

  lemma ClearNewReady(h: Layout, s: State, slot: Slot, limbo: set<int>, u: int)
    requires ConsistentBut(h, s, limbo, u)
    ensures slot in s.vvNew ==> At(s.vvNew, slot) in s.mapInfo && IndexOk(Unreferenced(s, slot))
    ensures slot in s.vvNew ==> !s.mapInfo[At(s.vvNew, slot)].inTried && s.mapInfo[At(s.vvNew, slot)].refCount > 0
  {
    if slot in s.vvNew {
      HolderNotInLimbo(h, s, slot, limbo);
      UnreferenceIndex(s, slot);
    }
  }

  /** Freeing a slot keeps consistency and disturbs no other entry. */
  lemma ClearNewKeeps(h: Layout, s: State, slot: Slot, limbo: set<int>, u: int)
    requires ConsistentBut(h, s, limbo, u)
    requires slot in s.vvNew ==> At(s.vvNew, slot) in s.mapInfo && IndexOk(Unreferenced(s, slot))
    ensures ConsistentBut(h, ClearedNew(s, slot), limbo, u) && Evolves(s, ClearedNew(s, slot))
  {
    if slot in s.vvNew {
      UnreferenceKeeps(h, s, slot, limbo, u);
      UnreferenceEvolves(s, slot);
      DeleteIfUnused(h, s, Unreferenced(s, slot), At(s.vvNew, slot), limbo, u);
    }
  }

  /** The second half of ClearNew. */
  lemma DeleteIfUnused(h: Layout, s: State, t: State, id: int, limbo: set<int>, u: int)
    requires id in t.mapInfo && !t.mapInfo[id].inTried && id !in limbo && Evolves(s, t)
    requires ConsistentBut(h, t, if t.mapInfo[id].refCount == 0 then limbo + {id} else limbo, u)
    ensures var r := if t.mapInfo[id].refCount == 0 then Deleted(t, id) else t;
      ConsistentBut(h, r, limbo, u) && Evolves(s, r)
  {
    if t.mapInfo[id].refCount == 0 {
      DeleteKeeps(h, t, id, limbo + {id}, u);
      assert limbo + {id} - {id} == limbo;
      EvolvesTransitive(s, t, Deleted(t, id));
    }
  }

  lemma UnreferenceEvolves(s: State, slot: Slot)
    requires slot in s.vvNew && At(s.vvNew, slot) in s.mapInfo
    ensures Evolves(s, Unreferenced(s, slot))
  {
  }

  /** Nothing but the slot, one entry and its index positions change. */
  lemma ClearNewFrame(s: State, slot: Slot)
    requires IndexOk(s) && (slot in s.vvNew ==> At(s.vvNew, slot) in s.mapInfo && IndexOk(Unreferenced(s, slot)))
    ensures var s' := ClearedNew(s, slot);
      && s'.vvNew == s.vvNew - {slot} && s'.vvTried == s.vvTried && s'.nIdCount == s.nIdCount
      && s'.nTried == s.nTried && s'.triedCollisions == s.triedCollisions
  {
  }

  lemma ClearNewSparesOthers(s: State, slot: Slot, n: int)
    requires IndexOk(s) && (slot in s.vvNew ==> At(s.vvNew, slot) in s.mapInfo && IndexOk(Unreferenced(s, slot)))
    requires n in s.mapInfo && n != At(s.vvNew, slot)
    ensures n in ClearedNew(s, slot).mapInfo && Moved(s.mapInfo[n], ClearedNew(s, slot).mapInfo[n])
  {
    if slot in s.vvNew {
      var id := At(s.vvNew, slot);
      var t := Unreferenced(s, slot);
      if t.mapInfo[id].refCount == 0 { DeleteMovesOthers(t, id); }
    }
  }
}
