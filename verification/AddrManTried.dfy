/** Moving an entry from the new table to the tried table: MakeTried as a function on the state, and
    the proof that it keeps the address manager consistent. */
module AddrManTried {
  import opened AddrManState

  function WithTried(info: Infos, id: int, b: bool): Infos
    requires id in info
  {
    info[id := info[id].(inTried := b)]
  }

  lemma TriedIndex(s: State, id: int, b: bool, tried: Table, n: int)
    requires IndexOk(s) && id in s.mapInfo
    ensures IndexOk(s.(mapInfo := WithTried(s.mapInfo, id, b), vvTried := tried, nTried := n))
  {
    UpdateIndex(s, id, s.mapInfo[id].(inTried := b));
  }

  lemma TriedIdsAfter(info: Infos, id: int, b: bool)
    requires id in info && info[id].inTried != b
    ensures b ==>
      |TriedIds(WithTried(info, id, b))| == |TriedIds(info)| + 1
          && |NewIds(WithTried(info, id, b))| == |NewIds(info)| - 1
    ensures !b ==>
      |TriedIds(WithTried(info, id, b))| == |TriedIds(info)| - 1
          && |NewIds(WithTried(info, id, b))| == |NewIds(info)| + 1
  {
    var info' := WithTried(info, id, b);
    if b {
      assert TriedIds(info') == TriedIds(info) + {id};
      assert NewIds(info') == NewIds(info) - {id};
      assert id in NewIds(info);
    } else {
      assert TriedIds(info') == TriedIds(info) - {id};
      assert NewIds(info') == NewIds(info) + {id};
      assert id in TriedIds(info);
    }
  }

  // ----- leaving the new table ------------------------------------------------------------------

  /** The bucket loop of MakeTried: drop every reference to an entry. */
  ghost function Stripped(s: State, id: int): State
    requires id in s.mapInfo
  {
    s.(vvNew := s.vvNew - RefSlots(s.vvNew, id), mapInfo := WithRefCount(s.mapInfo, id, 0), nNew := s.nNew - 1)
  }

  lemma StripTables(h: Layout, s: State, id: int)
    requires TablesOk(h, s) && id in s.mapInfo
    ensures TablesOk(h, Stripped(s, id))
  {
    var s' := Stripped(s, id);
    RefCountTried(h, s.mapInfo, id, 0, s.vvTried);
    forall x | x in s'.vvNew ensures At(s'.vvNew, x) == At(s.vvNew, x) && At(s.vvNew, x) != id {}
    forall n | n in s'.mapInfo ensures s'.mapInfo[n].refCount == |RefSlots(s'.vvNew, n)| {
      if n == id {
        assert RefSlots(s'.vvNew, id) == {};
      } else {
        assert RefSlots(s'.vvNew, n) == RefSlots(s.vvNew, n);
      }
    }
  }

  lemma StripKeeps(h: Layout, s: State, id: int)
    requires ConsistentBut(h, s, {}, 0) && id in s.mapInfo && !s.mapInfo[id].inTried
    ensures ConsistentBut(h, Stripped(s, id), {id}, 1)
  {
    StripTables(h, s, id);
    RefCountIndex(s, id, 0, Stripped(s, id).vvNew, s.nNew - 1);
    RefCountIds(s.mapInfo, id, 0);
  }

  // ----- leaving and entering the tried table ---------------------------------------------------

  /** Take the entry in a tried slot out of the tried set. */
  function Evicted(s: State, slot: Slot): State
    requires slot in s.vvTried && At(s.vvTried, slot) in s.mapInfo
  {
    var id := At(s.vvTried, slot);
    s.(vvTried := s.vvTried - {slot}, mapInfo := WithTried(s.mapInfo, id, false), nTried := s.nTried - 1)
  }

  lemma EvictTables(h: Layout, s: State, slot: Slot)
    requires TablesOk(h, s) && slot in s.vvTried
    ensures TablesOk(h, Evicted(s, slot))
  {
    var id := At(s.vvTried, slot);
    var s' := Evicted(s, slot);
    forall x | x in s'.vvTried ensures At(s'.vvTried, x) == At(s.vvTried, x) && At(s.vvTried, x) != id {}
    forall n | n in s'.mapInfo && s'.mapInfo[n].inTried
      ensures At(s'.vvTried, h.triedSlot(s'.mapInfo[n].service)) == n
    {
      assert At(s.vvTried, h.triedSlot(s.mapInfo[n].service)) == n;
    }
    forall x | x in s'.vvNew ensures At(s'.vvNew, x) != id {}
  }

  /** The evicted entry goes to limbo, uncounted. */
  lemma EvictKeeps(h: Layout, s: State, slot: Slot, limbo: set<int>, u: int)
    requires ConsistentBut(h, s, limbo, u) && slot in s.vvTried
    ensures var id := At(s.vvTried, slot); id !in limbo && ConsistentBut(h, Evicted(s, slot), limbo + {id}, u + 1)
  {
    var id := At(s.vvTried, slot);
    EvictTables(h, s, slot);
    TriedIndex(s, id, false, s.vvTried - {slot}, s.nTried - 1);
    TriedIdsAfter(s.mapInfo, id, false);
  }

  /** Put an entry from limbo into its free tried slot. */
  function Entered(h: Layout, s: State, id: int): State
    requires id in s.mapInfo
  {
    s.(vvTried := s.vvTried[h.triedSlot(s.mapInfo[id].service) := id], mapInfo := WithTried(s.mapInfo, id, true),
       nTried := s.nTried + 1)
  }

  lemma EnterTables(h: Layout, s: State, id: int)
    requires TablesOk(h, s) && id in s.mapInfo && !s.mapInfo[id].inTried && s.mapInfo[id].refCount == 0
    requires h.triedSlot(s.mapInfo[id].service) !in s.vvTried && id >= 0
    requires forall n :: n in s.mapInfo ==> n >= 0
    ensures TablesOk(h, Entered(h, s, id))
  {
    var slot := h.triedSlot(s.mapInfo[id].service);
    var s' := Entered(h, s, id);
    forall x | x in s'.vvTried ensures At(s'.vvTried, x) == if x == slot then id else At(s.vvTried, x) {}
    forall n | n in s'.mapInfo && s'.mapInfo[n].inTried
      ensures At(s'.vvTried, h.triedSlot(s'.mapInfo[n].service)) == n
    {
      if n != id { assert At(s.vvTried, h.triedSlot(s.mapInfo[n].service)) == n; }
    }
    assert RefSlots(s.vvNew, id) == {};
    forall x | x in s'.vvNew ensures At(s'.vvNew, x) != id {
      assert At(s.vvNew, x) == id ==> x in RefSlots(s.vvNew, id);
    }
  }

  lemma EnterKeeps(h: Layout, s: State, id: int, limbo: set<int>, u: int)
    requires ConsistentBut(h, s, limbo, u) && id in limbo && s.mapInfo[id].lastSuccess > 0
    requires h.triedSlot(s.mapInfo[id].service) !in s.vvTried
    ensures ConsistentBut(h, Entered(h, s, id), limbo - {id}, u - 1)
  {
    EnterTables(h, s, id);
    TriedIndex(s, id, true, Entered(h, s, id).vvTried, s.nTried + 1);
    EnterRecords(h, s, id, limbo, u);
  }

  lemma EnterRecords(h: Layout, s: State, id: int, limbo: set<int>, u: int)
    requires RecordsOk(s, limbo, u) && id in limbo && s.mapInfo[id].lastSuccess > 0
    ensures RecordsOk(Entered(h, s, id), limbo - {id}, u - 1)
  {
    TriedIdsAfter(s.mapInfo, id, true);
  }

  // ----- MakeTried ------------------------------------------------------------------------------

  /** Bucket numbers are in range and a new slot lies in the bucket it was asked for. */
  ghost predicate LayoutOk(h: Layout) {
    && (forall a, source :: h.newBucket(a, source) < NEW_BUCKET_COUNT)
    && (forall a, bucket :: h.newSlot(a, bucket).bucket == bucket)
  }

  function ReturnSlot(h: Layout, i: Info): Slot { h.newSlot(i.service, h.newBucket(i.service, i.source)) }

  lemma ReturnSlotFits(h: Layout, i: Info)
    requires LayoutOk(h)
    ensures var x := ReturnSlot(h, i); x.bucket < NEW_BUCKET_COUNT && x == h.newSlot(i.service, x.bucket)
  {
  }

  lemma OtherLeft(id: int, prior: int)
    requires id != prior
    ensures {id} + {prior} - {prior} == {id}
  {
  }

  /** An entry in limbo is in no slot of the new table. */
  lemma LimboNotInNew(h: Layout, s: State, limbo: set<int>, u: int, id: int, slot: Slot)
    requires ConsistentBut(h, s, limbo, u) && id in limbo
    ensures id != At(s.vvNew, slot)
  {
    assert At(s.vvNew, slot) == id ==> slot in RefSlots(s.vvNew, id);
  }

  /** Make room in a tried slot: its entry goes back to the new table, deleting what is in its way. */
  ghost function Displaced(h: Layout, s: State, slot: Slot, limbo: set<int>, u: int): State
    requires ConsistentBut(h, s, limbo, u) && slot in s.vvTried
  {
    EvictKeeps(h, s, slot, limbo, u);
    var prior := At(s.vvTried, slot);
    var e := Evicted(s, slot);
    var back := ReturnSlot(h, e.mapInfo[prior]);
    ClearNewReady(h, e, back, limbo + {prior}, u + 1);
    LimboNotInNew(h, e, limbo + {prior}, u + 1, prior, back);
    ClearNewSparesOthers(e, back, prior);
    var c := ClearedNew(e, back);
    Referenced(c, prior, back).(nNew := c.nNew + 1)
  }

  /** The steps of Displaced, each with what it needs. */
  lemma DisplaceSteps(h: Layout, s: State, slot: Slot, limbo: set<int>, u: int) returns (e: State, back: Slot, c: State)
    requires ConsistentBut(h, s, limbo, u) && slot in s.vvTried
    ensures At(s.vvTried, slot) in s.mapInfo && e == Evicted(s, slot)
    ensures back == ReturnSlot(h, e.mapInfo[At(s.vvTried, slot)])
    ensures IndexOk(e) && (back in e.vvNew ==> At(e.vvNew, back) in e.mapInfo && IndexOk(Unreferenced(e, back)))
    ensures back in e.vvNew ==> !e.mapInfo[At(e.vvNew, back)].inTried && e.mapInfo[At(e.vvNew, back)].refCount > 0
    ensures c == ClearedNew(e, back)
    ensures At(s.vvTried, slot) in c.mapInfo && c.mapInfo[At(s.vvTried, slot)].refCount == 0
    ensures Displaced(h, s, slot, limbo, u) == Referenced(c, At(s.vvTried, slot), back).(nNew := c.nNew + 1)
  {
    EvictKeeps(h, s, slot, limbo, u);
    var prior := At(s.vvTried, slot);
    e := Evicted(s, slot);
    back := ReturnSlot(h, e.mapInfo[prior]);
    ClearNewReady(h, e, back, limbo + {prior}, u + 1);
    LimboNotInNew(h, e, limbo + {prior}, u + 1, prior, back);
    ClearNewSparesOthers(e, back, prior);
    c := ClearedNew(e, back);
  }

  lemma CountOneMore(h: Layout, s: State, limbo: set<int>, u: int)
    requires ConsistentBut(h, s, limbo, u)
    ensures ConsistentBut(h, s.(nNew := s.nNew + 1), limbo, u - 1)
  {
  }

  /** The slot is made free for an entry in limbo, which stays there. */
  lemma MakeRoomKeeps(h: Layout, e: State, prior: int, back: Slot, limbo: set<int>, u: int)
    requires ConsistentBut(h, e, limbo, u) && prior in limbo
    requires back in e.vvNew ==> At(e.vvNew, back) in e.mapInfo && IndexOk(Unreferenced(e, back))
    ensures var c := ClearedNew(e, back);
      ConsistentBut(h, c, limbo, u) && back !in c.vvNew && prior in c.mapInfo
          && c.mapInfo[prior].service == e.mapInfo[prior].service
  {
    ClearNewKeeps(h, e, back, limbo, u);
    ClearNewFrame(e, back);
    LimboNotInNew(h, e, limbo, u, prior, back);
    ClearNewSparesOthers(e, back, prior);
  }

  /** The second half of Displaced: an entry in limbo takes a slot made free for it. */
  lemma ReturnKeeps(h: Layout, c: State, prior: int, back: Slot, limbo: set<int>, u: int)
    requires ConsistentBut(h, c, limbo, u) && prior in limbo && back !in c.vvNew
    requires back.bucket < NEW_BUCKET_COUNT && back == h.newSlot(c.mapInfo[prior].service, back.bucket)
    ensures ConsistentBut(h, Referenced(c, prior, back).(nNew := c.nNew + 1), limbo - {prior}, u - 1)
  {
    ReferenceKeeps(h, c, prior, back, limbo, u);
    CountOneMore(h, Referenced(c, prior, back), limbo - {prior}, u);
  }

  /** Displacing keeps consistency and the entry that waits in limbo, and frees exactly the slot. */
  lemma DisplaceKeeps(h: Layout, s: State, slot: Slot, id: int)
    requires LayoutOk(h) && ConsistentBut(h, s, {id}, 1) && slot in s.vvTried
    ensures ConsistentBut(h, Displaced(h, s, slot, {id}, 1), {id}, 1)
  {
    var prior := At(s.vvTried, slot);
    var limbo := {id} + {prior};
    var e, back, c := DisplaceSteps(h, s, slot, {id}, 1);
    EvictKeeps(h, s, slot, {id}, 1);
    ReturnSlotFits(h, e.mapInfo[prior]);
    MakeRoomKeeps(h, e, prior, back, limbo, 2);
    ReturnKeeps(h, c, prior, back, limbo, 2);
    OtherLeft(id, prior);
  }

  lemma DisplaceFrame(h: Layout, s: State, slot: Slot, id: int)
    requires ConsistentBut(h, s, {id}, 1) && slot in s.vvTried
    ensures var d := Displaced(h, s, slot, {id}, 1);
      && d.vvTried == s.vvTried - {slot} && d.nIdCount == s.nIdCount && d.triedCollisions == s.triedCollisions
      && id in d.mapInfo && Moved(s.mapInfo[id], d.mapInfo[id])
  {
    EvictKeeps(h, s, slot, {id}, 1);
    var prior := At(s.vvTried, slot);
    var e := Evicted(s, slot);
    var back := ReturnSlot(h, e.mapInfo[prior]);
    ClearNewReady(h, e, back, {id} + {prior}, 2);
    LimboNotInNew(h, e, {id} + {prior}, 2, id, back);
    ClearNewSparesOthers(e, back, id);
    ClearNewFrame(e, back);
  }

  /** No entry is new, and none has changed its address. */
  ghost predicate SameServices(info: Infos, info': Infos) {
    forall n :: n in info' ==> n in info && info'[n].service == info[n].service
  }

  lemma SameServicesTransitive(a: Infos, b: Infos, c: Infos)
    requires SameServices(a, b) && SameServices(b, c)
    ensures SameServices(a, c)
  {
  }

  lemma EvolvesSameServices(s: State, s': State)
    requires Evolves(s, s') && IndexOk(s') && s'.nIdCount == s.nIdCount
    ensures SameServices(s.mapInfo, s'.mapInfo)
  {
  }

  /** Displacing deletes at most one entry and changes no address. */
  lemma DisplaceServices(h: Layout, s: State, slot: Slot, id: int)
    requires ConsistentBut(h, s, {id}, 1) && slot in s.vvTried
    ensures SameServices(s.mapInfo, Displaced(h, s, slot, {id}, 1).mapInfo)
  {
    EvictKeeps(h, s, slot, {id}, 1);
    var prior := At(s.vvTried, slot);
    var e := Evicted(s, slot);
    var back := ReturnSlot(h, e.mapInfo[prior]);
    assert SameServices(s.mapInfo, e.mapInfo);
    ClearNewReady(h, e, back, {id} + {prior}, 2);
    var c := ClearedNew(e, back);
    assert SameServices(e.mapInfo, c.mapInfo) by {
      ClearNewKeeps(h, e, back, {id} + {prior}, 2);
      ClearNewFrame(e, back);
      EvolvesSameServices(e, c);
    }
    SameServicesTransitive(s.mapInfo, e.mapInfo, c.mapInfo);
    assert prior in c.mapInfo by {
      LimboNotInNew(h, e, {id} + {prior}, 2, prior, back);
      ClearNewSparesOthers(e, back, prior);
    }
    var d := Displaced(h, s, slot, {id}, 1);
    assert d.mapInfo == Referenced(c, prior, back).mapInfo;
    assert SameServices(c.mapInfo, d.mapInfo);
    SameServicesTransitive(s.mapInfo, c.mapInfo, d.mapInfo);
  }

  ghost function MadeTried(h: Layout, s: State, id: int): State
    requires ConsistentBut(h, s, {}, 0) && id in s.mapInfo && !s.mapInfo[id].inTried
  {
    StripKeeps(h, s, id);
    var t := Stripped(s, id);
    var slot := h.triedSlot(s.mapInfo[id].service);
    if slot in t.vvTried then
      DisplaceFrame(h, t, slot, id);
      Entered(h, Displaced(h, t, slot, {id}, 1), id)
    else
      Entered(h, t, id)
  }

  /** Moving an entry to tried keeps the tables consistent, fills its slot and empties none. */
  lemma MakeTriedKeeps(h: Layout, s: State, id: int)
    requires LayoutOk(h) && ConsistentBut(h, s, {}, 0)
    requires id in s.mapInfo && !s.mapInfo[id].inTried && s.mapInfo[id].lastSuccess > 0
    ensures ConsistentBut(h, MadeTried(h, s, id), {}, 0)
    ensures id in MadeTried(h, s, id).mapInfo && MadeTried(h, s, id).mapInfo[id].inTried
  {
    StripKeeps(h, s, id);
    var t := Stripped(s, id);
    var slot := h.triedSlot(s.mapInfo[id].service);
    assert {id} - {id} == {};
    if slot in t.vvTried {
      DisplaceKeeps(h, t, slot, id);
      DisplaceFrame(h, t, slot, id);
      var d := Displaced(h, t, slot, {id}, 1);
      assert MadeTried(h, s, id) == Entered(h, d, id);
      EnterKeeps(h, d, id, {id}, 1);
    } else {
      assert MadeTried(h, s, id) == Entered(h, t, id);
      EnterKeeps(h, t, id, {id}, 1);
    }
  }

  /** No tried slot is emptied, no id moves to another address. */
  lemma MakeTriedEvolves(h: Layout, s: State, id: int)
    requires ConsistentBut(h, s, {}, 0) && id in s.mapInfo && !s.mapInfo[id].inTried
    ensures Evolves(s, MadeTried(h, s, id)) && MadeTried(h, s, id).triedCollisions == s.triedCollisions
    ensures MadeTried(h, s, id).vvTried == s.vvTried[h.triedSlot(s.mapInfo[id].service) := id]
  {
    StripKeeps(h, s, id);
    var t := Stripped(s, id);
    var slot := h.triedSlot(s.mapInfo[id].service);
    assert SameServices(s.mapInfo, t.mapInfo);
    if slot in t.vvTried {
      DisplaceFrame(h, t, slot, id);
      DisplaceServices(h, t, slot, id);
      EnterEvolves(h, s, t, Displaced(h, t, slot, {id}, 1), id);
      assert MadeTried(h, s, id) == Entered(h, Displaced(h, t, slot, {id}, 1), id);
    } else {
      EnterEvolves(h, s, t, t, id);
      assert MadeTried(h, s, id) == Entered(h, t, id);
    }
  }

  lemma EnterEvolves(h: Layout, s: State, t: State, d: State, id: int)
    requires id in s.mapInfo && id in d.mapInfo && d.mapInfo[id].service == s.mapInfo[id].service
    requires SameServices(s.mapInfo, t.mapInfo) && SameServices(t.mapInfo, d.mapInfo)
    requires s.nIdCount == d.nIdCount && d.triedCollisions == s.triedCollisions
    requires d.vvTried == s.vvTried - {h.triedSlot(s.mapInfo[id].service)}
    ensures Evolves(s, Entered(h, d, id)) && Entered(h, d, id).triedCollisions == s.triedCollisions
    ensures Entered(h, d, id).vvTried == s.vvTried[h.triedSlot(s.mapInfo[id].service) := id]
  {
    SameServicesTransitive(s.mapInfo, t.mapInfo, d.mapInfo);
    assert SameServices(d.mapInfo, Entered(h, d, id).mapInfo);
    SameServicesTransitive(s.mapInfo, d.mapInfo, Entered(h, d, id).mapInfo);
  }
}
