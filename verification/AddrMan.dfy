/** The address manager of addrman.cpp as a class whose methods update its five indexes in place,
    each proved against the state functions of AddrManState and AddrManTried. */
module AddrMan {
  import Arithmetic
  import opened AddrManState
  import opened AddrManTried

  const REPLACEMENT_SECONDS := 4 * 60 * 60
  const TEST_WINDOW := 40 * 60
  const GETADDR_MAX_PCT := 23
  const GETADDR_MAX := 2500

  /** CAddress: a service with advertised flags and a time stamp. */
  datatype Address = Address(service: Service, services: set<nat>, time: int)

  function NewInfo(a: Address, source: NetAddr): Info {
    Info(a.service, a.services, a.time, source, 0, 0, 0, 0, 0, false, -1)
  }

  lemma SlotsOk(k: Hasher)
    ensures LayoutOk(k.Slots())
  {
  }

  // ----- what Good does to the state ------------------------------------------------------------

  /** The id found for exactly this service, or -1. */
  function FindExact(s: State, a: Service): int {
    if a.ip in s.mapAddr && s.mapAddr[a.ip] in s.mapInfo && s.mapInfo[s.mapAddr[a.ip]].service == a
    then s.mapAddr[a.ip] else -1
  }

  function MarkedGood(s: State, id: int, time: int): State
    requires id in s.mapInfo
  {
    s.(mapInfo := s.mapInfo[id := s.mapInfo[id].(lastSuccess := time, lastTry := time, attempts := 0)])
  }

  lemma MarkGoodKeeps(h: Layout, s: State, id: int, time: int)
    requires Consistent(h, s) && id in s.mapInfo && time > 0
    ensures Consistent(h, MarkedGood(s, id, time)) && Evolves(s, MarkedGood(s, id, time))
  {
    UpdateKeeps(h, s, id, s.mapInfo[id].(lastSuccess := time, lastTry := time, attempts := 0), {}, 0);
    CollisionsPersist(h, s, MarkedGood(s, id, time));
  }

  function WithCollision(s: State, id: int): State {
    if |s.triedCollisions| < SET_TRIED_COLLISION_SIZE then s.(triedCollisions := s.triedCollisions + {id}) else s
  }

  /** Good_: an untried entry moves to tried, unless its slot is taken and eviction must be tested. */
  ghost function GoodState(h: Layout, s: State, a: Service, testBeforeEvict: bool, time: int): State
    requires Consistent(h, s) && time > 0
  {
    var id := FindExact(s, a);
    if id == -1 then s else
    MarkGoodKeeps(h, s, id, time);
    var m := MarkedGood(s, id, time);
    if m.mapInfo[id].inTried then m
    else if testBeforeEvict && h.triedSlot(a) in m.vvTried then WithCollision(m, id)
    else MadeTried(h, m, id)
  }

  lemma GoodKeeps(h: Layout, s: State, a: Service, testBeforeEvict: bool, time: int)
    requires LayoutOk(h) && Consistent(h, s) && time > 0
    ensures Consistent(h, GoodState(h, s, a, testBeforeEvict, time))
    ensures Evolves(s, GoodState(h, s, a, testBeforeEvict, time))
  {
    var id := FindExact(s, a);
    if id != -1 {
      MarkGoodKeeps(h, s, id, time);
      var m := MarkedGood(s, id, time);
      if !m.mapInfo[id].inTried {
        if testBeforeEvict && h.triedSlot(a) in m.vvTried {
          CollisionKeeps(h, m, id);
        } else {
          MoveKeeps(h, s, m, id);
        }
      }
    }
  }

  lemma CollisionKeeps(h: Layout, s: State, id: int)
    requires Consistent(h, s) && id in s.mapInfo && !s.mapInfo[id].inTried
    requires h.triedSlot(s.mapInfo[id].service) in s.vvTried
    ensures Consistent(h, WithCollision(s, id))
  {
    assert CollisionsOk(h, WithCollision(s, id));
  }

  lemma MoveKeeps(h: Layout, s: State, m: State, id: int)
    requires LayoutOk(h) && Consistent(h, m) && Evolves(s, m)
    requires id in m.mapInfo && !m.mapInfo[id].inTried && m.mapInfo[id].lastSuccess > 0
    ensures Consistent(h, MadeTried(h, m, id)) && Evolves(s, MadeTried(h, m, id))
  {
    var g := MadeTried(h, m, id);
    MakeTriedKeeps(h, m, id);
    MakeTriedEvolves(h, m, id);
    CollisionsPersist(h, m, g);
    EvolvesTransitive(s, m, g);
  }

  /** Without the eviction test, a known service always ends up tried. */
  lemma GoodWithoutTestIsTried(h: Layout, s: State, a: Service, time: int)
    requires LayoutOk(h) && Consistent(h, s) && time > 0 && FindExact(s, a) != -1
    ensures var g := GoodState(h, s, a, false, time);
      FindExact(s, a) in g.mapInfo && g.mapInfo[FindExact(s, a)].inTried
  {
    var id := FindExact(s, a);
    MarkGoodKeeps(h, s, id, time);
    var m := MarkedGood(s, id, time);
    if !m.mapInfo[id].inTried { MakeTriedKeeps(h, m, id); }
  }

  lemma GoodKeepsCollisions(h: Layout, s: State, a: Service, time: int)
    requires Consistent(h, s) && time > 0
    ensures GoodState(h, s, a, false, time).triedCollisions == s.triedCollisions
  {
    var id := FindExact(s, a);
    if id != -1 {
      MarkGoodKeeps(h, s, id, time);
      var m := MarkedGood(s, id, time);
      if !m.mapInfo[id].inTried { MakeTriedEvolves(h, m, id); }
    }
  }

  ghost function RefsBelow(vnew: Table, id: int, bucket: nat): set<Slot> {
    set x | x in RefSlots(vnew, id) && x.bucket < bucket
  }

  /** The one slot of a bucket that an entry can hold adds to its references below. */
  lemma RefsNext(h: Layout, info: Infos, vnew: Table, id: int, bucket: nat)
    requires LayoutOk(h) && NewOk(h, info, vnew) && id in info && id >= 0
    ensures var slot, gone := h.newSlot(info[id].service, bucket), RefsBelow(vnew, id, bucket);
      && slot !in gone && (At(vnew - gone, slot) == id <==> slot in RefSlots(vnew, id))
      && RefsBelow(vnew, id, bucket + 1) == if slot in RefSlots(vnew, id) then gone + {slot} else gone
  {
    var slot := h.newSlot(info[id].service, bucket);
    forall x | x in RefSlots(vnew, id) && x.bucket == bucket ensures x == slot {
    }
  }

  /** A swap at or beyond position n leaves the positions before it. */
  lemma SwapAhead(s: State, n: nat, r: nat)
    requires RandomOk(s.mapInfo, s.vRandom) && n <= r < |s.vRandom|
    ensures var t := if n == r then s else Swapped(s, n, r);
      && RandomOk(t.mapInfo, t.vRandom) && SameButPositions(s.mapInfo, t.mapInfo)
      && |t.vRandom| == |s.vRandom| && t.vRandom[..n] == s.vRandom[..n]
  {
    if n < r {
      SwapMoves(s, n, r);
      SwapRandom(s, n, r);
    }
  }

  lemma NonEmpty(s: set<int>)
    requires s != {}
    ensures exists x :: x in s
  {
    assert (forall x :: x !in s) ==> s == {};
  }

  // ----- what Add does to the state -------------------------------------------------------------

  /** An announcement of a known address: refresh its time now and then, and merge its flags. */
  function Refreshed(i: Info, a: Address, penalty: int, now: int): Info {
    var interval := if now - a.time < 24 * 60 * 60 then 60 * 60 else 24 * 60 * 60;
    var time := if a.time != 0 && (i.time == 0 || i.time < a.time - interval - penalty)
        then Arithmetic.Max(0, a.time - penalty) else i.time;
    i.(time := time, services := i.services + a.services)
  }

  /** May the occupant of a slot be overwritten by this entry? */
  predicate MayReplace(existing: Info, i: Info, now: int) {
    existing.IsTerrible(now) || (existing.refCount > 1 && i.refCount == 0)
  }

  function InsertSlot(h: Layout, i: Info, source: NetAddr): Slot {
    h.newSlot(i.service, h.newBucket(i.service, source))
  }

  /** Limbo holds the entry while it has no reference. */
  ghost function Waiting(s: State, id: int): set<int>
    requires id in s.mapInfo
  {
    if s.mapInfo[id].refCount == 0 then {id} else {}
  }

  /** The tail of Add_: try to reference the entry in the bucket that the source selects. */
  ghost function Inserted(h: Layout, s: State, id: int, source: NetAddr, now: int): State
    requires id in s.mapInfo && ConsistentBut(h, s, Waiting(s, id), 0)
  {
    var slot := InsertSlot(h, s.mapInfo[id], source);
    var cell := At(s.vvNew, slot);
    if cell == id then s
    else if cell == -1 || (cell in s.mapInfo && MayReplace(s.mapInfo[cell], s.mapInfo[id], now)) then
      ClearNewReady(h, s, slot, Waiting(s, id), 0);
      ClearNewSparesOthers(s, slot, id);
      Referenced(ClearedNew(s, slot), id, slot)
    else if s.mapInfo[id].refCount == 0 then Deleted(s, id)
    else s
  }

  lemma InsertKeeps(h: Layout, s: State, id: int, source: NetAddr, now: int)
    requires LayoutOk(h) && id in s.mapInfo && ConsistentBut(h, s, Waiting(s, id), 0)
    requires !s.mapInfo[id].inTried && s.mapInfo[id].refCount < NEW_BUCKETS_PER_ADDRESS
    ensures ConsistentBut(h, Inserted(h, s, id, source, now), {}, 0)
    ensures Evolves(s, Inserted(h, s, id, source, now))
  {
    var slot := InsertSlot(h, s.mapInfo[id], source);
    var cell := At(s.vvNew, slot);
    var limbo := Waiting(s, id);
    var r := Inserted(h, s, id, source, now);
    if cell == id {
      if s.mapInfo[id].refCount == 0 { LimboNotInNew(h, s, limbo, 0, id, slot); }
      assert r == s;
    } else if cell == -1 || (cell in s.mapInfo && MayReplace(s.mapInfo[cell], s.mapInfo[id], now)) {
      ClearNewReady(h, s, slot, limbo, 0);
      ClearNewKeeps(h, s, slot, limbo, 0);
      ClearNewFrame(s, slot);
      ClearNewSparesOthers(s, slot, id);
      var c := ClearedNew(s, slot);
      ReferenceKeeps(h, c, id, slot, limbo, 0);
      assert limbo - {id} == {};
      EvolvesTransitive(s, c, Referenced(c, id, slot));
      assert r == Referenced(c, id, slot);
    } else if s.mapInfo[id].refCount == 0 {
      DeleteKeeps(h, s, id, limbo, 0);
      assert limbo - {id} == {};
      assert r == Deleted(s, id);
    } else {
      assert r == s;
    }
  }

  /** The state in which Add_ reaches its insertion step for an unknown address. */
  ghost function Registered(s: State, a: Address, source: NetAddr, penalty: int): State {
    var c := Created(s, NewInfo(a, source).(time := Arithmetic.Max(0, a.time - penalty)));
    c.(nNew := c.nNew + 1)
  }

  lemma CreateCounted(h: Layout, s: State, i: Info, r: State)
    requires ConsistentBut(h, s, {}, 0) && i.service.ip !in s.mapAddr && i.lastTry >= 0 && i.lastSuccess >= 0
    requires r == Created(s, i).(nNew := Created(s, i).nNew + 1)
    ensures ConsistentBut(h, r, {s.nIdCount}, 0) && Evolves(s, r)
  {
    assert {} + {s.nIdCount} == {s.nIdCount};
    CreateKeeps(h, s, i, {}, 0);
    CountOneMore(h, Created(s, i), {s.nIdCount}, 1);
  }

  lemma RegisterWaits(s: State, a: Address, source: NetAddr, penalty: int, i: Info, r: State)
    requires i == NewInfo(a, source).(time := Arithmetic.Max(0, a.time - penalty))
    requires r == Registered(s, a, source, penalty)
    ensures r == Created(s, i).(nNew := Created(s, i).nNew + 1) && s.nIdCount in r.mapInfo
    ensures !r.mapInfo[s.nIdCount].inTried && r.mapInfo[s.nIdCount].refCount == 0
    ensures Waiting(r, s.nIdCount) == {s.nIdCount}
    ensures i.service == a.service && i.lastTry >= 0 && i.lastSuccess >= 0
  {
  }

  lemma RegisterKeeps(h: Layout, s: State, a: Address, source: NetAddr, penalty: int)
    requires ConsistentBut(h, s, {}, 0) && a.service.ip !in s.mapAddr
    ensures var r := Registered(s, a, source, penalty);
      s.nIdCount in r.mapInfo && ConsistentBut(h, r, Waiting(r, s.nIdCount), 0) && Evolves(s, r)
      && !r.mapInfo[s.nIdCount].inTried && r.mapInfo[s.nIdCount].refCount == 0
  {
    var i := NewInfo(a, source).(time := Arithmetic.Max(0, a.time - penalty));
    var r := Registered(s, a, source, penalty);
    RegisterWaits(s, a, source, penalty, i, r);
    CreateCounted(h, s, i, r);
  }

  /** Does an announcement of a known address go on to seek another bucket? */
  predicate SeeksBucket(i: Info, a: Address, lucky: bool) {
    && a.time != 0 && (i.time == 0 || a.time > i.time)
    && !i.inTried && i.refCount != NEW_BUCKETS_PER_ADDRESS
    && lucky
  }

  /** Add_ for a routable address. `lucky` is the stochastic test for an entry that has references. */
  ghost function AddState(h: Layout, s: State, a: Address, source: NetAddr, timePenalty: int, now: int,
                          lucky: bool): State
    requires Consistent(h, s)
  {
    var penalty := if a.service.ip == source then 0 else timePenalty;
    if a.service.ip in s.mapAddr then
      var id := s.mapAddr[a.service.ip];
      var i := Refreshed(s.mapInfo[id], a, penalty, now);
      UpdateKeeps(h, s, id, i, {}, 0);
      var u := s.(mapInfo := s.mapInfo[id := i]);
      if SeeksBucket(i, a, lucky) then Inserted(h, u, id, source, now) else u
    else
      RegisterKeeps(h, s, a, source, penalty);
      Inserted(h, Registered(s, a, source, penalty), s.nIdCount, source, now)
  }

  lemma AddKeeps(h: Layout, s: State, a: Address, source: NetAddr, timePenalty: int, now: int, lucky: bool)
    requires LayoutOk(h) && Consistent(h, s)
    ensures Consistent(h, AddState(h, s, a, source, timePenalty, now, lucky))
    ensures Evolves(s, AddState(h, s, a, source, timePenalty, now, lucky))
  {
    var penalty := if a.service.ip == source then 0 else timePenalty;
    var r := AddState(h, s, a, source, timePenalty, now, lucky);
    if a.service.ip in s.mapAddr {
      var id := s.mapAddr[a.service.ip];
      var i := Refreshed(s.mapInfo[id], a, penalty, now);
      UpdateKeeps(h, s, id, i, {}, 0);
      var u := s.(mapInfo := s.mapInfo[id := i]);
      CollisionsPersist(h, s, u);
      if SeeksBucket(i, a, lucky) {
        InsertKeeps(h, u, id, source, now);
        InsertCollisions(h, u, id, source, now);
        assert r == Inserted(h, u, id, source, now);
        CollisionsPersist(h, u, r);
        EvolvesTransitive(s, u, r);
      } else {
        assert r == u;
      }
    } else {
      RegisterKeeps(h, s, a, source, penalty);
      var g := Registered(s, a, source, penalty);
      InsertKeeps(h, g, s.nIdCount, source, now);
      InsertCollisions(h, g, s.nIdCount, source, now);
      assert r == Inserted(h, g, s.nIdCount, source, now);
      EvolvesTransitive(s, g, r);
      CollisionsPersist(h, s, r);
    }
  }

  lemma InsertCollisions(h: Layout, s: State, id: int, source: NetAddr, now: int)
    requires id in s.mapInfo && ConsistentBut(h, s, Waiting(s, id), 0)
    ensures Inserted(h, s, id, source, now).triedCollisions == s.triedCollisions
  {
    var slot := InsertSlot(h, s.mapInfo[id], source);
    ClearNewReady(h, s, slot, Waiting(s, id), 0);
    ClearNewFrame(s, slot);
  }

  // ----- pending collisions ---------------------------------------------------------------------

  datatype Decision = Keep | Drop | Replace

  /** What ResolveCollisions_ does about one pending id. */
  function Decide(h: Layout, valid: Service -> bool, s: State, id: int, now: int): (d: Decision)
    ensures d.Replace? ==> id in s.mapInfo
  {
    if id !in s.mapInfo || !valid(s.mapInfo[id].service) then Drop
    else
      var cell := At(s.vvTried, h.triedSlot(s.mapInfo[id].service));
      if cell !in s.mapInfo then Replace
      else
        var o := s.mapInfo[cell];
        if now - o.lastSuccess < REPLACEMENT_SECONDS then Drop
        else if now - o.lastTry < REPLACEMENT_SECONDS then (if now - o.lastTry > 60 then Replace else Keep)
        else if now - s.mapInfo[id].lastSuccess > TEST_WINDOW then Replace
        else Keep
  }

  /** One pending id settled: replaced or not, and struck off unless it is kept. */
  ghost function Settled(h: Layout, valid: Service -> bool, s: State, id: int, now: int): State
    requires Consistent(h, s) && now > 0
  {
    var d := Decide(h, valid, s, id, now);
    var t := if d.Replace? then GoodState(h, s, s.mapInfo[id].service, false, now) else s;
    if d.Keep? then t else t.(triedCollisions := t.triedCollisions - {id})
  }

  lemma StrikeKeeps(h: Layout, s: State, id: int)
    requires Consistent(h, s)
    ensures Consistent(h, s.(triedCollisions := s.triedCollisions - {id}))
    ensures Evolves(s, s.(triedCollisions := s.triedCollisions - {id}))
  {
  }

  lemma SettleKeeps(h: Layout, valid: Service -> bool, s: State, id: int, now: int)
    requires LayoutOk(h) && Consistent(h, s) && now > 0
    ensures Consistent(h, Settled(h, valid, s, id, now)) && Evolves(s, Settled(h, valid, s, id, now))
    ensures Settled(h, valid, s, id, now).triedCollisions <= s.triedCollisions
  {
    var d := Decide(h, valid, s, id, now);
    if d.Replace? {
      var a := s.mapInfo[id].service;
      var g := GoodState(h, s, a, false, now);
      GoodKeeps(h, s, a, false, now);
      GoodKeepsCollisions(h, s, a, now);
      StrikeKeeps(h, g, id);
      EvolvesTransitive(s, g, g.(triedCollisions := g.triedCollisions - {id}));
    } else {
      StrikeKeeps(h, s, id);
    }
  }

  ghost function AllSettled(h: Layout, valid: Service -> bool, s: State, order: seq<int>, now: int): (t: State)
    requires LayoutOk(h) && Consistent(h, s) && now > 0
    ensures Consistent(h, t)
  {
    if order == [] then s else
    var before := AllSettled(h, valid, s, order[..|order| - 1], now);
    SettleKeeps(h, valid, before, order[|order| - 1], now);
    Settled(h, valid, before, order[|order| - 1], now)
  }

  /** The loop state of ResolveCollisions_: the ids in order are settled, those in todo are not. */
  ghost predicate Settling(h: Layout, valid: Service -> bool, s0: State, todo: set<int>, order: seq<int>, now: int,
                           s: State)
    requires LayoutOk(h)
  {
    && Consistent(h, s0) && Consistent(h, s) && now > 0 && Evolves(s0, s) && s.triedCollisions <= s0.triedCollisions
    && todo <= s0.triedCollisions && multiset(order) == multiset(s0.triedCollisions - todo)
    && s == AllSettled(h, valid, s0, order, now)
  }

  lemma SettlingStart(h: Layout, valid: Service -> bool, s: State, now: int)
    requires LayoutOk(h) && Consistent(h, s) && now > 0
    ensures Settling(h, valid, s, s.triedCollisions, [], now, s)
  {
    assert s.triedCollisions - s.triedCollisions == {};
  }

  lemma SettlingEnd(h: Layout, valid: Service -> bool, s0: State, order: seq<int>, now: int, s: State)
    requires LayoutOk(h) && Settling(h, valid, s0, {}, order, now, s)
    ensures multiset(order) == multiset(s0.triedCollisions)
  {
    assert s0.triedCollisions - {} == s0.triedCollisions;
  }

  lemma SettledOrder(all: set<int>, todo: set<int>, order: seq<int>, id: int)
    requires multiset(order) == multiset(all - todo) && id in todo && todo <= all
    ensures multiset(order + [id]) == multiset(all - (todo - {id}))
  {
    assert all - (todo - {id}) == (all - todo) + {id};
  }

  lemma SettlingNext(h: Layout, valid: Service -> bool, s0: State, todo: set<int>, order: seq<int>, now: int, s: State,
                     id: int)
    requires LayoutOk(h) && Settling(h, valid, s0, todo, order, now, s) && id in todo
    ensures Settling(h, valid, s0, todo - {id}, order + [id], now, Settled(h, valid, s, id, now))
  {
    SettledOrder(s0.triedCollisions, todo, order, id);
    assert (order + [id])[..|order|] == order;
    SettleKeeps(h, valid, s, id, now);
    EvolvesTransitive(s0, s, Settled(h, valid, s, id, now));
  }

  // ----- what GetAddr reports -------------------------------------------------------------------

  function GetAddrLimit(size: nat): nat {
    if GETADDR_MAX_PCT * size / 100 > GETADDR_MAX then GETADDR_MAX else GETADDR_MAX_PCT * size / 100
  }

  /** ids are the good entries of the list in order, addrs their services. */
  ghost predicate Reports(info: Infos, list: seq<int>, now: int, ids: seq<int>, addrs: seq<Service>) {
    if list == [] then ids == [] && addrs == [] else
    var id := list[|list| - 1];
    if id in info && !info[id].IsTerrible(now) then
      && ids != [] && addrs != [] && ids[|ids| - 1] == id && addrs[|addrs| - 1] == info[id].service
      && Reports(info, list[..|list| - 1], now, ids[..|ids| - 1], addrs[..|addrs| - 1])
    else
      Reports(info, list[..|list| - 1], now, ids, addrs)
  }

  lemma ReportsOneMore(info: Infos, info': Infos, list: seq<int>, now: int, ids: seq<int>, addrs: seq<Service>, id: int)
    requires SameButPositions(info, info') && id in info' && Reports(info, list, now, ids, addrs)
    ensures if !info'[id].IsTerrible(now) then Reports(info, list + [id], now, ids + [id], addrs + [info'[id].service])
            else Reports(info, list + [id], now, ids, addrs)
  {
    assert Moved(info[id], info'[id]);
    assert (list + [id])[..|list|] == list;
    assert (ids + [id])[..|ids|] == ids;
    assert (addrs + [info'[id].service])[..|addrs|] == addrs;
  }

  /** The ids reported are different, and are exactly the good ones of the list, with their addresses. */
  ghost predicate ReportsExactly(info: Infos, list: seq<int>, now: int, ids: seq<int>, addrs: seq<Service>) {
    && |ids| == |addrs|
    && (forall k :: 0 <= k < |ids| ==>
          ids[k] in list && ids[k] in info && !info[ids[k]].IsTerrible(now) && addrs[k] == info[ids[k]].service)
    && (forall j, k :: 0 <= j < k < |ids| ==> ids[j] != ids[k])
    && forall id :: id in list && id in info && !info[id].IsTerrible(now) ==> id in ids
  }

  lemma ReportsOneGood(info: Infos, list: seq<int>, now: int, ids: seq<int>, addrs: seq<Service>, id: int)
    requires ReportsExactly(info, list, now, ids, addrs) && id !in list && id in info && !info[id].IsTerrible(now)
    ensures ReportsExactly(info, list + [id], now, ids + [id], addrs + [info[id].service])
  {
    var more := ids + [id];
    assert more[|ids|] == id && (list + [id])[|list|] == id;
    forall x | x in list + [id] && x in info && !info[x].IsTerrible(now) ensures x in more {
      if x != id {
        var k :| 0 <= k < |ids| && ids[k] == x;
        assert more[k] == x;
      }
    }
  }

  lemma {:induction false} ReportsElements(info: Infos, list: seq<int>, now: int, ids: seq<int>, addrs: seq<Service>)
    requires Reports(info, list, now, ids, addrs)
    requires forall i, j :: 0 <= i < j < |list| ==> list[i] != list[j]
    ensures ReportsExactly(info, list, now, ids, addrs)
    decreases |list|
  {
    if list == [] {
    } else {
      var last := |list| - 1;
      var id := list[last];
      assert list == list[..last] + [id] && id !in list[..last];
      if id in info && !info[id].IsTerrible(now) {
        var k, n := |ids| - 1, |addrs| - 1;
        ReportsElements(info, list[..last], now, ids[..k], addrs[..n]);
        assert ids == ids[..k] + [id] && addrs == addrs[..n] + [info[id].service];
        ReportsOneGood(info, list[..last], now, ids[..k], addrs[..n], id);
      } else {
        ReportsElements(info, list[..last], now, ids, addrs);
      }
    }
  }

  /** What a report over the first n random positions means for the manager's entries. */
  lemma ReportsGood(info: Infos, info': Infos, random: seq<int>, n: nat, now: int, ids: seq<int>, addrs: seq<Service>)
    requires RandomOk(info', random) && SameButPositions(info, info') && n <= |random|
    requires Reports(info, random[..n], now, ids, addrs)
    ensures |ids| == |addrs|
    ensures forall k :: 0 <= k < |ids| ==>
      ids[k] in info && !info[ids[k]].IsTerrible(now) && addrs[k] == info[ids[k]].service
    ensures forall j, k :: 0 <= j < k < |ids| ==> ids[j] != ids[k]
    ensures n == |random| ==> forall id :: id in info && !info[id].IsTerrible(now) ==> id in ids
  {
    var list := random[..n];
    forall i, j | 0 <= i < j < |list| ensures list[i] != list[j] {
      var a, b := random[i], random[j];
      assert info'[a].randomPos == i && info'[b].randomPos == j;
    }
    ReportsElements(info, list, now, ids, addrs);
    if n == |random| {
      forall id | id in info && !info[id].IsTerrible(now) ensures id in ids {
        assert id in info';
        var i := info'[id].randomPos;
        assert list[i] == id;
      }
    }
  }

  lemma SameButPositionsTransitive(a: Infos, b: Infos, c: Infos)
    requires SameButPositions(a, b) && SameButPositions(b, c)
    ensures SameButPositions(a, c)
  {
    forall n | n in a ensures Moved(a[n], c[n]) {
      assert Moved(a[n], b[n]) && Moved(b[n], c[n]);
    }
  }

  /** Any reordering of vRandom that the entries agree with is consistent. */
  lemma ShuffleKeeps(h: Layout, s: State, s': State)
    requires Consistent(h, s) && SameButPositions(s.mapInfo, s'.mapInfo) && RandomOk(s'.mapInfo, s'.vRandom)
    requires s' == s.(mapInfo := s'.mapInfo, vRandom := s'.vRandom)
    ensures Consistent(h, s') && Evolves(s, s')
  {
    PositionsDoNotMatter(h, s, s', {}, 0);
    AddrIgnoresPositions(s.mapInfo, s'.mapInfo, s.mapAddr);
    CollisionsPersist(h, s, s');
  }

  // ----- the manager ----------------------------------------------------------------------------

  class AddrMan {
    const layout: Layout
    const isRoutable: Service -> bool
    const isValid: Service -> bool
    var nIdCount: int
    var mapInfo: Infos
    var mapAddr: map<NetAddr, int>
    var vRandom: seq<int>
    var nTried: int
    var vvTried: Table
    var nNew: int
    var vvNew: Table
    var nLastGood: int
    var triedCollisions: set<int>

    ghost function S(): State
      reads this
    {
      State(nIdCount, mapInfo, mapAddr, vRandom, nTried, vvTried, nNew, vvNew, triedCollisions)
    }

    ghost predicate Valid()
      reads this
    {
      LayoutOk(layout) && Consistent(layout, S())
    }

    /** A fresh manager is empty and consistent. */
    constructor (hasher: Hasher, routable: Service -> bool, valid: Service -> bool)
      ensures Valid() && mapInfo == map[] && layout == hasher.Slots()
    {
      layout, isRoutable, isValid := hasher.Slots(), routable, valid;
      nIdCount, mapInfo, mapAddr, vRandom := 0, map[], map[], [];
      nTried, vvTried, nNew, vvNew := 0, map[], 0, map[];
      nLastGood, triedCollisions := 1, {};
      new;
      SlotsOk(hasher);
      assert TriedIds(mapInfo) == {} && NewIds(mapInfo) == {};
    }

    method Create(i: Info) returns (id: int)
      modifies this
      ensures id == old(nIdCount) && S() == Created(old(S()), i) && nLastGood == old(nLastGood)
    {
      id := nIdCount;
      nIdCount := nIdCount + 1;
      mapInfo := mapInfo[id := i.(refCount := 0, inTried := false)];
      mapAddr := mapAddr[i.service.ip := id];
      mapInfo := mapInfo[id := mapInfo[id].(randomPos := |vRandom|)];
      vRandom := vRandom + [id];
    }

    method SwapRandom(p: nat, q: nat)
      requires p == q || (p < |vRandom| && q < |vRandom| && vRandom[p] in mapInfo && vRandom[q] in mapInfo)
      modifies this`mapInfo, this`vRandom
      ensures S() == if p == q then old(S()) else Swapped(old(S()), p, q)
    {
      if p == q {
        return;
      }
      var id1, id2 := vRandom[p], vRandom[q];
      mapInfo := mapInfo[id1 := mapInfo[id1].(randomPos := q)];
      mapInfo := mapInfo[id2 := mapInfo[id2].(randomPos := p)];
      vRandom := vRandom[p := id2];
      vRandom := vRandom[q := id1];
    }

    method Delete(id: int)
      requires IndexOk(S()) && id in mapInfo && !mapInfo[id].inTried && mapInfo[id].refCount == 0
      modifies this
      ensures S() == Deleted(old(S()), id) && nLastGood == old(nLastGood)
    {
      var i := mapInfo[id];
      SwapRandom(i.randomPos, |vRandom| - 1);
      vRandom := vRandom[..|vRandom| - 1];
      mapAddr := mapAddr - {i.service.ip};
      mapInfo := mapInfo - {id};
      nNew := nNew - 1;
    }

    method ClearNew(slot: Slot)
      requires IndexOk(S())
      requires slot in vvNew ==> At(vvNew, slot) in mapInfo && IndexOk(Unreferenced(S(), slot))
      requires slot in vvNew ==> !mapInfo[At(vvNew, slot)].inTried && mapInfo[At(vvNew, slot)].refCount > 0
      modifies this
      ensures S() == ClearedNew(old(S()), slot) && nLastGood == old(nLastGood)
    {
      if slot in vvNew {
        var id := At(vvNew, slot);
        mapInfo := WithRefCount(mapInfo, id, mapInfo[id].refCount - 1);
        vvNew := vvNew - {slot};
        assert S() == Unreferenced(old(S()), slot);
        if mapInfo[id].refCount == 0 {
          Delete(id);
        }
      }
    }

    method StripBucket(id: int, bucket: nat, ghost info: Infos, ghost table: Table, ghost gone: set<Slot>)
      returns (ghost gone': set<Slot>)
      requires id in info && vvNew == table - gone && mapInfo == WithRefCount(info, id, info[id].refCount - |gone|)
      requires layout.newSlot(info[id].service, bucket) !in gone
      modifies this`mapInfo, this`vvNew
      ensures var slot := layout.newSlot(info[id].service, bucket);
        gone' == if At(table - gone, slot) == id then gone + {slot} else gone
      ensures vvNew == table - gone' && mapInfo == WithRefCount(info, id, info[id].refCount - |gone'|)
    {
      var slot := layout.newSlot(mapInfo[id].service, bucket);
      gone' := gone;
      if At(vvNew, slot) == id {
        vvNew := vvNew - {slot};
        mapInfo := WithRefCount(mapInfo, id, mapInfo[id].refCount - 1);
        gone' := gone + {slot};
      }
    }

    /** The bucket loop of MakeTried: every reference is found, so the count reaches zero. */
    method StripReferences(id: int)
      requires LayoutOk(layout) && NewOk(layout, mapInfo, vvNew)
      requires id in mapInfo && id >= 0 && mapInfo[id].refCount == |RefSlots(vvNew, id)|
      modifies this`mapInfo, this`vvNew
      ensures mapInfo == WithRefCount(old(mapInfo), id, 0) && vvNew == old(vvNew) - RefSlots(old(vvNew), id)
    {
      ghost var info, table := mapInfo, vvNew;
      ghost var gone: set<Slot> := {};
      var bucket := 0;
      while bucket < NEW_BUCKET_COUNT
        invariant 0 <= bucket <= NEW_BUCKET_COUNT
        invariant gone == RefsBelow(table, id, bucket)
        invariant vvNew == table - gone && mapInfo == WithRefCount(info, id, info[id].refCount - |gone|)
      {
        RefsNext(layout, info, table, id, bucket);
        gone := StripBucket(id, bucket, info, table, gone);
        bucket := bucket + 1;
      }
      assert gone == RefSlots(table, id);
    }

    method EvictFromTried(slot: Slot)
      requires slot in vvTried && At(vvTried, slot) in mapInfo
      modifies this
      ensures S() == Evicted(old(S()), slot) && nLastGood == old(nLastGood)
    {
      mapInfo := WithTried(mapInfo, At(vvTried, slot), false);
      vvTried := vvTried - {slot};
      nTried := nTried - 1;
    }

    method ReturnToNew(id: int, slot: Slot)
      requires id in mapInfo && mapInfo[id].refCount == 0
      modifies this
      ensures S() == Referenced(old(S()), id, slot).(nNew := old(nNew) + 1) && nLastGood == old(nLastGood)
    {
      mapInfo := WithRefCount(mapInfo, id, 1);
      vvNew := vvNew[slot := id];
      nNew := nNew + 1;
    }

    method EnterTried(id: int)
      requires id in mapInfo
      modifies this
      ensures S() == Entered(layout, old(S()), id) && nLastGood == old(nLastGood)
    {
      vvTried := vvTried[layout.triedSlot(mapInfo[id].service) := id];
      nTried := nTried + 1;
      mapInfo := WithTried(mapInfo, id, true);
    }

    method LeaveNew(id: int)
      requires LayoutOk(layout) && NewOk(layout, mapInfo, vvNew)
      requires id in mapInfo && id >= 0 && mapInfo[id].refCount == |RefSlots(vvNew, id)|
      modifies this
      ensures S() == Stripped(old(S()), id) && nLastGood == old(nLastGood)
    {
      StripReferences(id);
      nNew := nNew - 1;
    }

    /** src/addrman.cpp:167-188: the occupant of a tried slot goes back to the new table. */
    method DisplaceTried(slot: Slot, ghost id: int)
      requires ConsistentBut(layout, S(), {id}, 1) && slot in vvTried
      modifies this
      ensures S() == Displaced(layout, old(S()), slot, {id}, 1) && nLastGood == old(nLastGood)
    {
      ghost var e, back, c := DisplaceSteps(layout, S(), slot, {id}, 1);
      MoveBack(slot, e, back, c);
    }

    method MoveBack(slot: Slot, ghost e: State, ghost target: Slot, ghost c: State)
      requires slot in vvTried && At(vvTried, slot) in mapInfo && e == Evicted(S(), slot) && IndexOk(e)
      requires target == ReturnSlot(layout, e.mapInfo[At(vvTried, slot)])
      requires target in e.vvNew ==> At(e.vvNew, target) in e.mapInfo && IndexOk(Unreferenced(e, target))
      requires target in e.vvNew ==>
        !e.mapInfo[At(e.vvNew, target)].inTried && e.mapInfo[At(e.vvNew, target)].refCount > 0
      requires c == ClearedNew(e, target) && At(vvTried, slot) in c.mapInfo
      requires c.mapInfo[At(vvTried, slot)].refCount == 0
      modifies this
      ensures S() == Referenced(c, old(At(vvTried, slot)), target).(nNew := c.nNew + 1) && nLastGood == old(nLastGood)
    {
      var prior := At(vvTried, slot);
      EvictFromTried(slot);
      assert S() == e;
      var back := ReturnSlot(layout, mapInfo[prior]);
      ClearNew(back);
      assert S() == c;
      ReturnToNew(prior, back);
    }

    method MakeTried(id: int)
      requires LayoutOk(layout) && ConsistentBut(layout, S(), {}, 0) && id in mapInfo && !mapInfo[id].inTried
      modifies this
      ensures S() == MadeTried(layout, old(S()), id) && nLastGood == old(nLastGood)
    {
      StripKeeps(layout, S(), id);
      LeaveNew(id);
      var slot := layout.triedSlot(mapInfo[id].service);
      if slot in vvTried {
        DisplaceFrame(layout, S(), slot, id);
        DisplaceTried(slot, id);
      }
      EnterTried(id);
    }

    method Find(a: Service) returns (id: int)
      requires AddrOk(mapInfo, mapAddr)
      ensures id == FindExact(S(), a)
    {
      id := if a.ip in mapAddr && mapInfo[mapAddr[a.ip]].service == a then mapAddr[a.ip] else -1;
    }

    method SetInfo(id: int, i: Info)
      modifies this`mapInfo
      ensures S() == old(S()).(mapInfo := old(mapInfo)[id := i])
    {
      mapInfo := mapInfo[id := i];
    }

    /** src/addrman.cpp:225-235: look for a bucket that holds the entry, from a random start. */
    method FindNewBucket(id: int, start: nat) returns (bucket: int)
      requires LayoutOk(layout) && NewOk(layout, mapInfo, vvNew) && id in mapInfo && id >= 0
      requires RefSlots(vvNew, id) != {}
      ensures bucket != -1
    {
      ghost var x :| x in RefSlots(vvNew, id);
      ghost var k := (x.bucket - start) % NEW_BUCKET_COUNT;
      assert (k + start) % NEW_BUCKET_COUNT == x.bucket;
      bucket := -1;
      var n := 0;
      while n < NEW_BUCKET_COUNT && bucket == -1
        invariant 0 <= n <= NEW_BUCKET_COUNT && (bucket == -1 ==> n <= k)
      {
        var b := (n + start) % NEW_BUCKET_COUNT;
        if At(vvNew, layout.newSlot(mapInfo[id].service, b)) == id {
          bucket := b;
        }
        n := n + 1;
      }
    }

    /** src/addrman.cpp:225-259: an untried entry moves to tried or is noted as a collision. */
    method MoveToTried(id: int, testBeforeEvict: bool, start: nat)
      requires LayoutOk(layout) && ConsistentBut(layout, S(), {}, 0) && id in mapInfo && !mapInfo[id].inTried
      modifies this
      ensures nLastGood == old(nLastGood)
      ensures S() == if testBeforeEvict && layout.triedSlot(old(mapInfo)[id].service) in old(vvTried)
                     then WithCollision(old(S()), id) else MadeTried(layout, old(S()), id)
    {
      assert RefSlots(vvNew, id) != {};
      var bucket := FindNewBucket(id, start);
      if bucket == -1 {
        return;
      }
      if testBeforeEvict && layout.triedSlot(mapInfo[id].service) in vvTried {
        if |triedCollisions| < SET_TRIED_COLLISION_SIZE {
          triedCollisions := triedCollisions + {id};
        }
      } else {
        MakeTried(id);
      }
    }

    /** Good_: the outcome does not depend on the random bucket search, which always succeeds. */
    method Good(a: Service, testBeforeEvict: bool, time: int, start: nat)
      requires Valid() && time > 0
      modifies this
      ensures S() == GoodState(layout, old(S()), a, testBeforeEvict, time) && nLastGood == time
      ensures Valid() && Evolves(old(S()), S())
    {
      GoodKeeps(layout, S(), a, testBeforeEvict, time);
      nLastGood := time;
      var id := Find(a);
      if id != -1 {
        MarkGoodKeeps(layout, S(), id, time);
        SetInfo(id, mapInfo[id].(lastSuccess := time, lastTry := time, attempts := 0));
        if !mapInfo[id].inTried {
          MoveToTried(id, testBeforeEvict, start);
        }
      }
    }

    /** src/addrman.cpp:311-331: reference the entry in the bucket that the source selects, if there is room. */
    method Insert(id: int, source: NetAddr, now: int)
      requires id in mapInfo && ConsistentBut(layout, S(), Waiting(S(), id), 0) && !mapInfo[id].inTried
      modifies this
      ensures S() == Inserted(layout, old(S()), id, source, now) && nLastGood == old(nLastGood)
    {
      ghost var limbo := Waiting(S(), id);
      var slot := InsertSlot(layout, mapInfo[id], source);
      if At(vvNew, slot) != id {
        ClearNewReady(layout, S(), slot, limbo, 0);
        ClearNewSparesOthers(S(), slot, id);
        var insert := At(vvNew, slot) == -1;
        if !insert {
          insert := MayReplace(mapInfo[At(vvNew, slot)], mapInfo[id], now);
        }
        if insert {
          ClearNew(slot);
          AddReference(id, slot);
        } else if mapInfo[id].refCount == 0 {
          Delete(id);
        }
      }
    }

    method AddReference(id: int, slot: Slot)
      requires id in mapInfo
      modifies this
      ensures S() == Referenced(old(S()), id, slot) && nLastGood == old(nLastGood)
    {
      mapInfo := WithRefCount(mapInfo, id, mapInfo[id].refCount + 1);
      vvNew := vvNew[slot := id];
    }

    method Register(a: Address, source: NetAddr, penalty: int) returns (id: int)
      modifies this
      ensures id == old(nIdCount) && S() == Registered(old(S()), a, source, penalty) && nLastGood == old(nLastGood)
    {
      id := Create(NewInfo(a, source).(time := Arithmetic.Max(0, a.time - penalty)));
      nNew := nNew + 1;
    }

    /** Add_. The answer is true exactly for a routable address that was unknown. */
    method Add(a: Address, source: NetAddr, timePenalty: int, now: int, lucky: bool) returns (isNew: bool)
      requires Valid()
      modifies this
      ensures S() == if isRoutable(a.service) then AddState(layout, old(S()), a, source, timePenalty, now, lucky)
        else old(S())
      ensures isNew <==> isRoutable(a.service) && a.service.ip !in old(mapAddr)
      ensures Valid() && Evolves(old(S()), S()) && nLastGood == old(nLastGood)
    {
      if !isRoutable(a.service) {
        return false;
      }
      AddKeeps(layout, S(), a, source, timePenalty, now, lucky);
      var penalty := if a.service.ip == source then 0 else timePenalty;
      if a.service.ip in mapAddr {
        var id := mapAddr[a.service.ip];
        var i := Refreshed(mapInfo[id], a, penalty, now);
        UpdateKeeps(layout, S(), id, i, {}, 0);
        SetInfo(id, i);
        if SeeksBucket(i, a, lucky) {
          Insert(id, source, now);
        }
        isNew := false;
      } else {
        RegisterKeeps(layout, S(), a, source, penalty);
        var id := Register(a, source, penalty);
        Insert(id, source, now);
        isNew := true;
      }
    }

    /** A change to one entry's statistics, as made by Attempt_, Connected_ and SetServices_. */
    method Touch(id: int, i: Info)
      requires Valid() && id in mapInfo && SamePlace(mapInfo[id], i)
      requires i.lastTry >= 0 && i.lastSuccess >= 0 && (i.inTried ==> i.lastSuccess > 0)
      modifies this`mapInfo
      ensures S() == old(S()).(mapInfo := old(mapInfo)[id := i]) && Valid() && Evolves(old(S()), S())
    {
      UpdateKeeps(layout, S(), id, i, {}, 0);
      CollisionsPersist(layout, S(), S().(mapInfo := mapInfo[id := i]));
      SetInfo(id, i);
    }

    method Attempt(a: Service, countFailure: bool, time: int)
      requires Valid() && time > 0
      modifies this`mapInfo
      ensures Valid() && Evolves(old(S()), S())
      ensures var id := FindExact(old(S()), a);
        if id == -1 then mapInfo == old(mapInfo) else
        var i := old(mapInfo)[id].(lastTry := time);
        mapInfo == old(mapInfo)[id := if countFailure && i.lastCountAttempt < nLastGood
                                      then i.(lastCountAttempt := time, attempts := i.attempts + 1) else i]
    {
      var id := Find(a);
      if id != -1 {
        var i := mapInfo[id].(lastTry := time);
        if countFailure && i.lastCountAttempt < nLastGood {
          i := i.(lastCountAttempt := time, attempts := i.attempts + 1);
        }
        Touch(id, i);
      }
    }

    /** GetAddr_: partial shuffle of vRandom, reporting entries of good quality. At most 23% of the
        entries and 2500 are reported, each once, and below the limit no good entry is missed. */
    method GetAddr(now: int) returns (addrs: seq<Service>, ghost ids: seq<int>)
      requires Valid()
      modifies this`mapInfo, this`vRandom
      ensures Valid() && Evolves(old(S()), S()) && SameButPositions(old(mapInfo), mapInfo)
      ensures |ids| == |addrs| && forall k :: 0 <= k < |ids| ==>
        ids[k] in old(mapInfo) && !old(mapInfo)[ids[k]].IsTerrible(now) && addrs[k] == old(mapInfo)[ids[k]].service
      ensures forall j, k :: 0 <= j < k < |ids| ==> ids[j] != ids[k]
      ensures |addrs| <= GetAddrLimit(|mapInfo|)
      ensures |addrs| < GetAddrLimit(|mapInfo|) ==>
        forall n :: n in old(mapInfo) && !old(mapInfo)[n].IsTerrible(now) ==> n in ids
    {
      ghost var s := S();
      ghost var n;
      addrs, ids, n := ScanRandom(now, GetAddrLimit(|vRandom|));
      ShuffleKeeps(layout, s, S());
      ReportsGood(s.mapInfo, mapInfo, vRandom, n, now, ids, addrs);
    }

    /** src/addrman.cpp:488-500: the shuffle loop. */
    method ScanRandom(now: int, nodes: nat) returns (addrs: seq<Service>, ghost ids: seq<int>, n: nat)
      requires RandomOk(mapInfo, vRandom)
      modifies this`mapInfo, this`vRandom
      ensures RandomOk(mapInfo, vRandom) && SameButPositions(old(mapInfo), mapInfo)
      ensures n <= |vRandom| == |old(vRandom)| && |addrs| <= nodes && (|addrs| < nodes ==> n == |vRandom|)
      ensures Reports(old(mapInfo), vRandom[..n], now, ids, addrs)
    {
      addrs, ids, n := [], [], 0;
      while n < |vRandom| && |addrs| < nodes
        invariant 0 <= n <= |vRandom| == |old(vRandom)| && |addrs| <= nodes
        invariant RandomOk(mapInfo, vRandom) && SameButPositions(old(mapInfo), mapInfo)
        invariant Reports(old(mapInfo), vRandom[..n], now, ids, addrs)
      {
        var r :| n <= r < |vRandom|;
        addrs, ids := VisitNext(old(mapInfo), n, r, now, addrs, ids);
        n := n + 1;
      }
    }

    /** src/addrman.cpp:493-499: swap a random entry to position n and report it if it is good. */
    method VisitNext(ghost info: Infos, n: nat, r: nat, now: int, addrs0: seq<Service>, ghost ids0: seq<int>)
      returns (addrs: seq<Service>, ghost ids: seq<int>)
      requires RandomOk(mapInfo, vRandom) && n <= r < |vRandom| && SameButPositions(info, mapInfo)
      requires Reports(info, vRandom[..n], now, ids0, addrs0)
      modifies this`mapInfo, this`vRandom
      ensures RandomOk(mapInfo, vRandom) && SameButPositions(info, mapInfo) && |vRandom| == |old(vRandom)|
      ensures Reports(info, vRandom[..n + 1], now, ids, addrs) && |addrs| <= |addrs0| + 1
    {
      ghost var s := S();
      SwapAhead(s, n, r);
      SwapRandom(n, r);
      SameButPositionsTransitive(info, s.mapInfo, mapInfo);
      var id := vRandom[n];
      ReportsOneMore(info, mapInfo, vRandom[..n], now, ids0, addrs0, id);
      assert vRandom[..n + 1] == vRandom[..n] + [id];
      addrs, ids := addrs0, ids0;
      if !mapInfo[id].IsTerrible(now) {
        addrs := addrs + [mapInfo[id].service];
        ids := ids + [id];
      }
    }

    /** src/addrman.cpp:549-590 for one pending id: what Decide says, carried out. */
    method ResolveOne(id: int, now: int, start: nat) returns (erase: bool)
      requires Valid() && now > 0
      modifies this
      ensures var d := Decide(layout, isValid, old(S()), id, now);
        && erase == !d.Keep?
        && S() == if d.Replace? then GoodState(layout, old(S()), old(mapInfo)[id].service, false, now) else old(S())
      ensures Valid() && Evolves(old(S()), S())
    {
      var d := Judge(id, now);
      if d.Replace? { Good(mapInfo[id].service, false, now, start); }
      erase := !d.Keep?;
    }

    /** src/addrman.cpp:549-587: the tests that decide about one pending id. */
    method Judge(id: int, now: int) returns (d: Decision)
      requires Valid()
      ensures d == Decide(layout, isValid, S(), id, now)
    {
      if id !in mapInfo || !isValid(mapInfo[id].service) { return Drop; }
      var i := mapInfo[id];
      var slot := layout.triedSlot(i.service);
      if slot !in vvTried { return Replace; }
      var o := mapInfo[At(vvTried, slot)];
      if now - o.lastSuccess < REPLACEMENT_SECONDS {
        d := Drop;
      } else if now - o.lastTry < REPLACEMENT_SECONDS {
        d := if now - o.lastTry > 60 then Replace else Keep;
      } else {
        d := if now - i.lastSuccess > TEST_WINDOW then Replace else Keep;
      }
    }

    /** ResolveCollisions_: the pending ids are settled one after another, each against the tables the
        earlier ones left. */
    method ResolveCollisions(now: int, start: nat) returns (ghost order: seq<int>)
      requires Valid() && now > 0
      modifies this
      ensures Valid() && Evolves(old(S()), S()) && triedCollisions <= old(triedCollisions)
      ensures multiset(order) == multiset(old(triedCollisions))
      ensures S() == AllSettled(layout, isValid, old(S()), order, now)
    {
      ghost var s0 := S();
      var todo := triedCollisions;
      order := [];
      SettlingStart(layout, isValid, s0, now);
      while todo != {}
        invariant LayoutOk(layout) && Settling(layout, isValid, s0, todo, order, now, S())
      {
        NonEmpty(todo);
        var id :| id in todo;
        SettleNext(id, now, start, s0, todo, order);
        todo, order := todo - {id}, order + [id];
      }
      SettlingEnd(layout, isValid, s0, order, now, S());
    }

    method SettleNext(id: int, now: int, start: nat, ghost s0: State, ghost todo: set<int>, ghost order: seq<int>)
      requires LayoutOk(layout) && Settling(layout, isValid, s0, todo, order, now, S()) && id in todo
      modifies this
      ensures Settling(layout, isValid, s0, todo - {id}, order + [id], now, S())
    {
      SettlingNext(layout, isValid, s0, todo, order, now, S(), id);
      Settle(id, now, start);
    }

    method Settle(id: int, now: int, start: nat)
      requires Valid() && now > 0
      modifies this
      ensures S() == Settled(layout, isValid, old(S()), id, now)
    {
      var erase := ResolveOne(id, now, start);
      if erase {
        EraseCollision(id);
      }
    }

    method EraseCollision(id: int)
      requires Valid()
      modifies this`triedCollisions
      ensures Valid() && triedCollisions == old(triedCollisions) - {id}
    {
      ghost var s := S();
      triedCollisions := triedCollisions - {id};
      CollisionsPersist(layout, s, S());
    }

    /** SelectTriedCollision_: a live pending collision always names a real tried entry, so the lookup
        never invents one. */
    method SelectTriedCollision() returns (found: bool, occupant: int)
      requires Valid()
      modifies this`triedCollisions
      ensures Valid()
      ensures found ==> triedCollisions == old(triedCollisions) && exists id ::
        id in triedCollisions && id in mapInfo && occupant == At(vvTried, layout.triedSlot(mapInfo[id].service))
      ensures found ==> occupant in mapInfo && mapInfo[occupant].inTried
      ensures !found ==>
        || triedCollisions == {}
        || exists id :: id in old(triedCollisions) && id !in mapInfo && triedCollisions == old(triedCollisions) - {id}
    {
      if triedCollisions == {} {
        return false, -1;
      }
      NonEmpty(triedCollisions);
      var id :| id in triedCollisions;
      if id !in mapInfo {
        EraseCollision(id);
        return false, -1;
      }
      occupant := At(vvTried, layout.triedSlot(mapInfo[id].service));
      found := true;
    }
  }
}
