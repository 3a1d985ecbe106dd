/** Check_, the source's own consistency test, and whole runs of the address manager: from a fresh
    manager no run of operations can make the test report an error. */
module AddrManCheck {
  import opened SetSums
  import opened AddrManState
  import opened AddrManTried
  import opened AddrMan

  // ----- what Check_ tests ----------------------------------------------------------------------

  /** mapAddr[a] in the source: a missing address reads as id 0. */
  function FiledId(addr: map<NetAddr, int>, a: NetAddr): int { if a in addr then addr[a] else 0 }

  /** Every entry knows its place in vRandom and is the one filed under its address. */
  ghost predicate Linked(s: State) {
    forall n :: n in s.mapInfo ==>
      && FiledId(s.mapAddr, s.mapInfo[n].service.ip) == n
      && 0 <= s.mapInfo[n].randomPos < |s.vRandom| && s.vRandom[s.mapInfo[n].randomPos] == n
  }

  ghost predicate Counted(s: State) {
    && |s.vRandom| == s.nTried + s.nNew
    && s.nTried == |TriedIds(s.mapInfo)| && s.nNew == |NewIds(s.mapInfo)|
  }

  /** The part of consistency that Check_ tests. */
  ghost predicate Checked(h: Layout, s: State) {
    Counted(s) && InfoOk(s.mapInfo, {}) && Linked(s) && TablesOk(h, s)
  }

  /** The part it does not: ids below the counter, and an address index with nothing missing or stale. */
  ghost predicate Unchecked(s: State) {
    && s.nIdCount >= 0 && IdsOk(s.nIdCount, s.mapInfo)
    && (forall n :: n in s.mapInfo ==> s.mapInfo[n].service.ip in s.mapAddr)
    && (forall a :: a in s.mapAddr ==> s.mapAddr[a] in s.mapInfo && s.mapInfo[s.mapAddr[a]].service.ip == a)
  }

  /** The tables as the arrays hold them: ids are not negative, an empty cell is not in the map. */
  ghost predicate WellFormed(s: State) {
    && (forall n :: n in s.mapInfo ==> n >= 0)
    && (forall x :: x in s.vvTried ==> At(s.vvTried, x) != -1)
    && (forall x :: x in s.vvNew ==> At(s.vvNew, x) != -1 && x.bucket < NEW_BUCKET_COUNT)
  }

  lemma SizesAgree(s: State)
    ensures |s.mapInfo| == |TriedIds(s.mapInfo)| + |NewIds(s.mapInfo)|
  {
    var info := s.mapInfo;
    assert info.Keys == TriedIds(info) + NewIds(info);
    assert |info| == |info.Keys|;
  }

  ghost function Places(info: Infos, ids: set<int>): set<int>
    requires ids <= info.Keys
  {
    set n | n in ids :: info[n].randomPos
  }

  lemma {:induction false} PlacesSize(s: State, ids: set<int>)
    requires Linked(s) && ids <= s.mapInfo.Keys
    ensures |Places(s.mapInfo, ids)| == |ids|
    decreases ids
  {
    if ids == {} {
    } else {
      NonEmpty(ids);
      var n :| n in ids;
      var rest := ids - {n};
      PlacesSize(s, rest);
      assert s.mapInfo[n].randomPos !in Places(s.mapInfo, rest);
      assert Places(s.mapInfo, ids) == Places(s.mapInfo, rest) + {s.mapInfo[n].randomPos};
    }
  }

  /** Distinct places for as many entries as vRandom is long fill it. */
  lemma RandomFilled(s: State)
    requires Linked(s) && |s.vRandom| == |s.mapInfo|
    ensures RandomOk(s.mapInfo, s.vRandom)
  {
    var places := Places(s.mapInfo, s.mapInfo.Keys);
    var below := Below(|s.vRandom|);
    PlacesSize(s, s.mapInfo.Keys);
    FullSubset(places, below);
    forall i | 0 <= i < |s.vRandom|
      ensures s.vRandom[i] in s.mapInfo && s.mapInfo[s.vRandom[i]].randomPos == i
    {
      assert i in below;
    }
  }

  /** Consistency is what Check_ tests together with what it leaves untested. */
  lemma CheckedAndUnchecked(h: Layout, s: State)
    ensures ConsistentBut(h, s, {}, 0) <==> Checked(h, s) && Unchecked(s)
  {
    SizesAgree(s);
    if Checked(h, s) && Unchecked(s) {
      RandomFilled(s);
    }
  }

  lemma LinkedWithoutZero(s: State, a: NetAddr)
    requires Linked(s) && 0 in s.mapInfo && a == s.mapInfo[0].service.ip
    ensures Linked(s.(mapAddr := s.mapAddr - {a}))
  {
    forall n | n in s.mapInfo
      ensures FiledId(s.mapAddr - {a}, s.mapInfo[n].service.ip) == n
    {
      assert s.mapInfo[n].service.ip == a ==> n == FiledId(s.mapAddr, a) == 0;
    }
  }

  /** Check_ cannot see entry 0 missing from the address index. */
  lemma EntryZeroUnfiled(h: Layout, s: State, a: NetAddr)
    requires ConsistentBut(h, s, {}, 0) && 0 in s.mapInfo && a == s.mapInfo[0].service.ip
    ensures Checked(h, s.(mapAddr := s.mapAddr - {a})) && !Unchecked(s.(mapAddr := s.mapAddr - {a}))
  {
    CheckedAndUnchecked(h, s);
    LinkedWithoutZero(s, a);
    assert a !in s.mapAddr - {a};
  }

  // ----- Check_ ---------------------------------------------------------------------------------

  /** First loop of Check_ for one entry. */
  function EntryError(s: State, n: int): int
    requires n in s.mapInfo
  {
    var i := s.mapInfo[n];
    if i.inTried && i.lastSuccess == 0 then -1
    else if i.inTried && i.refCount != 0 then -2
    else if !i.inTried && (i.refCount < 0 || i.refCount > NEW_BUCKETS_PER_ADDRESS) then -3
    else if !i.inTried && i.refCount == 0 then -4
    else if FiledId(s.mapAddr, i.service.ip) != n then -5
    else if i.randomPos < 0 || i.randomPos >= |s.vRandom| || s.vRandom[i.randomPos] != n then -14
    else if i.lastTry < 0 then -6
    else if i.lastSuccess < 0 then -8
    else 0
  }

  /** src/addrman.cpp:413-437: collect the tried ids and the reference counts of the others. */
  method CheckEntries(s: State) returns (err: int, setTried: set<int>, mapNew: map<int, int>)
    ensures err == 0 <==> InfoOk(s.mapInfo, {}) && Linked(s)
    ensures err == 0 ==> setTried == TriedIds(s.mapInfo) && mapNew.Keys == NewIds(s.mapInfo)
    ensures err == 0 ==> forall n :: n in mapNew ==> mapNew[n] == s.mapInfo[n].refCount
  {
    setTried, mapNew := {}, map[];
    var rest := s.mapInfo.Keys;
    while rest != {}
      invariant rest <= s.mapInfo.Keys
      invariant forall n :: n in s.mapInfo && n !in rest ==> EntryError(s, n) == 0
      invariant setTried == TriedIds(s.mapInfo) - rest && mapNew.Keys == NewIds(s.mapInfo) - rest
      invariant forall n :: n in mapNew ==> mapNew[n] == s.mapInfo[n].refCount
    {
      NonEmpty(rest);
      var n :| n in rest;
      rest := rest - {n};
      err := EntryError(s, n);
      if err != 0 { return; }
      if s.mapInfo[n].inTried {
        setTried := setTried + {n};
      } else {
        mapNew := mapNew[n := s.mapInfo[n].refCount];
      }
    }
    assert forall n :: n in s.mapInfo ==> EntryError(s, n) == 0;
    err := 0;
  }

  /** src/addrman.cpp:444-456: every filled slot takes its entry off the list. */
  method CheckTriedTable(h: Layout, s: State, setTried0: set<int>) returns (err: int, setTried: set<int>)
    requires WellFormed(s) && setTried0 == TriedIds(s.mapInfo)
    ensures err == 0 && setTried == {} <==> TriedOk(h, s.mapInfo, s.vvTried)
  {
    setTried := setTried0;
    var rest := s.vvTried;
    while rest != map[]
      invariant forall x :: x in rest ==> x in s.vvTried && At(rest, x) == At(s.vvTried, x)
      invariant setTried <= TriedIds(s.mapInfo)
      invariant forall x :: x in s.vvTried && x !in rest ==> var n := At(s.vvTried, x);
        n in s.mapInfo && s.mapInfo[n].inTried && n !in setTried && x == h.triedSlot(s.mapInfo[n].service)
      invariant forall n :: n in TriedIds(s.mapInfo) && n !in setTried ==> var x := h.triedSlot(s.mapInfo[n].service);
        x in s.vvTried && x !in rest && At(s.vvTried, x) == n
      decreases rest.Keys
    {
      NonEmptyTable(rest);
      var x :| x in rest;
      var n := At(s.vvTried, x);
      if n !in setTried { return -11, setTried; }
      if h.triedSlot(s.mapInfo[n].service).bucket != x.bucket { return -17, setTried; }
      if h.triedSlot(s.mapInfo[n].service).pos != x.pos { return -18, setTried; }
      rest := rest - {x};
      setTried := setTried - {n};
    }
    assert forall x :: x in s.vvTried ==> x !in rest;
    assert setTried != {} ==> exists n :: n in setTried by { if setTried != {} { NonEmpty(setTried); } }
    err := 0;
  }

  lemma NonEmptyTable(t: Table)
    requires t != map[]
    ensures exists x :: x in t
  {
    assert (forall x :: x !in t) ==> t == map[];
  }

  /** The counts left over are the recorded ones less the references already met. */
  ghost predicate Tally(info: Infos, done: Table, mapNew: map<int, int>) {
    && mapNew.Keys <= NewIds(info)
    && forall n :: n in NewIds(info) ==> var left := info[n].refCount - |RefSlots(done, n)|;
         left >= 0 && (n in mapNew <==> left > 0) && (n in mapNew ==> mapNew[n] == left)
  }

  lemma TallyStep(info: Infos, done: Table, mapNew: map<int, int>, x: Slot, n: int)
    requires Tally(info, done, mapNew) && x !in done && n in mapNew
    ensures Tally(info, done[x := n], if mapNew[n] - 1 == 0 then mapNew - {n} else mapNew[n := mapNew[n] - 1])
  {
    forall k ensures |RefSlots(done[x := n], k)| == |RefSlots(done, k)| + (if k == n then 1 else 0) {
      RefSlotsFill(done, x, n, k);
    }
  }

  /** A slot whose entry has no count left over exceeds the recorded count. */
  lemma TooMany(info: Infos, vnew: Table, done: Table, mapNew: map<int, int>, x: Slot)
    requires Tally(info, done, mapNew) && x in vnew && x !in done
    requires forall y :: y in done ==> y in vnew && At(done, y) == At(vnew, y)
    requires At(vnew, x) in NewIds(info) && At(vnew, x) !in mapNew
    ensures !RefsOk(info, vnew)
  {
    var n := At(vnew, x);
    SubsetSize(RefSlots(done, n) + {x}, RefSlots(vnew, n));
    assert x !in RefSlots(done, n);
  }

  /** src/addrman.cpp:458-469: every filled slot takes one off its entry's count. */
  method CheckNewTable(h: Layout, s: State, mapNew0: map<int, int>) returns (err: int, mapNew: map<int, int>)
    requires LayoutOk(h) && WellFormed(s) && InfoOk(s.mapInfo, {})
    requires mapNew0.Keys == NewIds(s.mapInfo) && forall n :: n in mapNew0 ==> mapNew0[n] == s.mapInfo[n].refCount
    ensures err == 0 && mapNew == map[] <==> NewOk(h, s.mapInfo, s.vvNew) && RefsOk(s.mapInfo, s.vvNew)
  {
    mapNew := mapNew0;
    var rest := s.vvNew;
    ghost var done: Table := map[];
    while rest != map[]
      invariant forall x :: x in rest ==> x in s.vvNew && At(rest, x) == At(s.vvNew, x)
      invariant forall x :: x in s.vvNew ==> (x in done <==> x !in rest)
      invariant forall x :: x in done ==> x in s.vvNew && At(done, x) == At(s.vvNew, x)
      invariant NewOk(h, s.mapInfo, done) && Tally(s.mapInfo, done, mapNew)
      decreases rest.Keys
    {
      NonEmptyTable(rest);
      var x :| x in rest;
      var n := At(s.vvNew, x);
      if n !in mapNew {
        if n in NewIds(s.mapInfo) { TooMany(s.mapInfo, s.vvNew, done, mapNew, x); }
        return -12, mapNew;
      }
      if h.newSlot(s.mapInfo[n].service, x.bucket).pos != x.pos { return -19, mapNew; }
      TallyStep(s.mapInfo, done, mapNew, x, n);
      rest, done := rest - {x}, done[x := n];
      mapNew := if mapNew[n] - 1 == 0 then mapNew - {n} else mapNew[n := mapNew[n] - 1];
    }
    assert done == s.vvNew;
    TallyEnd(h, s, mapNew);
    err := 0;
  }

  lemma TallyEnd(h: Layout, s: State, mapNew: map<int, int>)
    requires InfoOk(s.mapInfo, {}) && NewOk(h, s.mapInfo, s.vvNew) && Tally(s.mapInfo, s.vvNew, mapNew)
    ensures mapNew == map[] <==> RefsOk(s.mapInfo, s.vvNew)
  {
    if RefsOk(s.mapInfo, s.vvNew) {
      assert forall n :: n in NewIds(s.mapInfo) ==> n !in mapNew;
      assert mapNew.Keys == {};
    }
    if mapNew == map[] {
      forall n | n in s.mapInfo
        ensures s.mapInfo[n].refCount == |RefSlots(s.vvNew, n)|
      {
        if s.mapInfo[n].inTried { assert RefSlots(s.vvNew, n) == {}; } else { assert n in NewIds(s.mapInfo); }
      }
    }
  }

  /** Check_ reports no error exactly on tables that pass every one of its tests. */
  method Check(h: Layout, s: State, keyIsNull: bool) returns (err: int)
    requires LayoutOk(h) && WellFormed(s)
    ensures err == 0 <==> Checked(h, s) && !keyIsNull
  {
    if |s.vRandom| != s.nTried + s.nNew { return -7; }
    var setTried, mapNew;
    err, setTried, mapNew := CheckEntries(s);
    if err != 0 { return; }
    if |setTried| != s.nTried { return -9; }
    assert |mapNew| == |mapNew.Keys|;
    if |mapNew| != s.nNew { return -10; }
    err, setTried := CheckTriedTable(h, s, setTried);
    if err != 0 { return; }
    err, mapNew := CheckNewTable(h, s, mapNew);
    if err != 0 { return; }
    if |setTried| != 0 { return -13; }
    if |mapNew| != 0 { return -15; }
    if keyIsNull { return -16; }
  }

  // ----- whole runs -----------------------------------------------------------------------------

  datatype Op =
    | Add(a: Address, source: NetAddr, penalty: int, now: int, lucky: bool)
    | Good(service: Service, testBeforeEvict: bool, now: int, start: nat)
    | Attempt(service: Service, countFailure: bool, now: int)
    | GetAddr(now: int)
    | ResolveCollisions(now: int, start: nat)
    | SelectTriedCollision

  method Perform(m: AddrMan, op: Op)
    requires m.Valid() && (op.SelectTriedCollision? || op.now > 0)
    modifies m
    ensures m.Valid() && Evolves(old(m.S()), m.S())
  {
    match op
    case Add(a, source, penalty, now, lucky) => var isNew := m.Add(a, source, penalty, now, lucky);
    case Good(service, test, now, start) => m.Good(service, test, now, start);
    case Attempt(service, countFailure, now) => m.Attempt(service, countFailure, now);
    case GetAddr(now) => var addrs, ids := m.GetAddr(now);
    case ResolveCollisions(now, start) => ghost var order := m.ResolveCollisions(now, start);
    case SelectTriedCollision => var found, occupant := m.SelectTriedCollision();
  }

  /** Every run with positive times leaves a manager that passes Check_, with every tried slot that was
      ever filled still filled and every live pending collision on a filled slot. */
  method Run(m: AddrMan, ops: seq<Op>) returns (err: int)
    requires m.Valid() && forall k :: 0 <= k < |ops| ==> ops[k].SelectTriedCollision? || ops[k].now > 0
    modifies m
    ensures err == 0 && m.Valid() && Evolves(old(m.S()), m.S())
  {
    var k := 0;
    while k < |ops|
      invariant 0 <= k <= |ops| && m.Valid() && Evolves(old(m.S()), m.S())
    {
      ghost var s := m.S();
      Perform(m, ops[k]);
      EvolvesTransitive(old(m.S()), s, m.S());
      k := k + 1;
    }
    CheckedAndUnchecked(m.layout, m.S());
    err := Check(m.layout,
                 State(m.nIdCount, m.mapInfo, m.mapAddr, m.vRandom, m.nTried, m.vvTried, m.nNew, m.vvNew,
                       m.triedCollisions), false);
  }
}
