/** Loading any file at all: what Unserialize makes of files that repeat addresses or hold odd times,
    and exactly when the tables it returns are consistent. */
module AddrManLoad {
  import opened SetSums
  import opened AddrManState
  import opened AddrManTried
  import opened AddrMan
  import opened AddrManDisk

  // ----- the relabelled file --------------------------------------------------------------------

  /** The records of a file by index: the untried ones, then the tried ones. */
  ghost function All(d: Disk): seq<Record> { d.news + d.trieds }

  /** A record with its index for an address and a plain time. */
  ghost function Relabel(r: Record, i: nat): Record { r.(service := Service(i, 0), lastSuccess := 1) }

  /** The file with every record relabelled. No address is repeated in it. */
  ghost function Relabelled(d: Disk): Disk {
    d.(news := seq(|d.news|, k requires 0 <= k < |d.news| => Relabel(d.news[k], k)),
       trieds := seq(|d.trieds|, j requires 0 <= j < |d.trieds| => Relabel(d.trieds[j], |d.news| + j)))
  }

  ghost function Original(d: Disk, a: Service): Service {
    if a.ip < |All(d)| then All(d)[a.ip].service else a
  }

  /** The layout that gives a relabelled record the slots of the original one. */
  ghost function RelabelledLayout(h: Layout, d: Disk): Layout {
    Layout(a => h.triedSlot(Original(d, a)),
           (a, source) => h.newBucket(Original(d, a), source),
           (a, bucket: nat) => h.newSlot(Original(d, a), bucket))
  }

  lemma RelabelledLoadable(d: Disk)
    ensures Loadable(Relabelled(d))
  {
    RelabelledRecords(d);
  }

  lemma RelabelledRecords(d: Disk)
    ensures |Relabelled(d).news| == |d.news| && |Relabelled(d).trieds| == |d.trieds|
    ensures forall k :: 0 <= k < |d.news| ==> Relabelled(d).news[k] == Relabel(d.news[k], k)
    ensures forall j :: 0 <= j < |d.trieds| ==> Relabelled(d).trieds[j] == Relabel(d.trieds[j], |d.news| + j)
  {
  }

  lemma RelabelledLayoutOk(h: Layout, d: Disk)
    requires LayoutOk(h)
    ensures LayoutOk(RelabelledLayout(h, d))
  {
    var h' := RelabelledLayout(h, d);
    forall a, source ensures h'.newBucket(a, source) < NEW_BUCKET_COUNT {
      assert h'.newBucket(a, source) == h.newBucket(Original(d, a), source);
    }
    forall a, bucket ensures h'.newSlot(a, bucket).bucket == bucket {
      assert h'.newSlot(a, bucket) == h.newSlot(Original(d, a), bucket);
    }
  }

  /** The slots of a relabelled record. */
  lemma SameSlots(h: Layout, d: Disk, i: nat)
    requires i < |All(d)|
    ensures var h', a := RelabelledLayout(h, d), All(d)[i].service;
      && h'.triedSlot(Service(i, 0)) == h.triedSlot(a)
      && (forall source :: h'.newBucket(Service(i, 0), source) == h.newBucket(a, source))
      && (forall bucket :: h'.newSlot(Service(i, 0), bucket) == h.newSlot(a, bucket))
  {
    assert Original(d, Service(i, 0)) == All(d)[i].service;
  }

  lemma SameTriedHome(h: Layout, d: Disk, j: nat)
    requires j < |d.trieds|
    ensures TriedHome(RelabelledLayout(h, d), Relabelled(d), j) == TriedHome(h, d, j)
  {
    RelabelledRecords(d);
    assert All(d)[|d.news| + j] == d.trieds[j];
    SameSlots(h, d, |d.news| + j);
  }

  lemma {:induction false} SameFirst(h: Layout, d: Disk, m: nat, x: Slot)
    requires m <= |d.trieds|
    ensures FirstAt(RelabelledLayout(h, d), Relabelled(d), m, x) == FirstAt(h, d, m, x)
  {
    if m == 0 {
    } else {
      SameFirst(h, d, m - 1, x);
      SameTriedHome(h, d, m - 1);
    }
  }

  lemma {:induction false} SameSlotCount(h: Layout, d: Disk, m: nat)
    requires m <= |d.trieds|
    ensures SlotCount(RelabelledLayout(h, d), Relabelled(d), m) == SlotCount(h, d, m)
  {
    if m == 0 {
    } else {
      SameSlotCount(h, d, m - 1);
      SameTriedHome(h, d, m - 1);
      SameFirst(h, d, m - 1, TriedHome(h, d, m - 1));
    }
  }

  lemma SameChoice(h: Layout, d: Disk, reuse: bool, t: Table, k: nat)
    requires k < |d.news|
    ensures Choice(RelabelledLayout(h, d), Relabelled(d), reuse, t, k) == Choice(h, d, reuse, t, k)
  {
    RelabelledRecords(d);
    assert All(d)[k] == d.news[k];
    SameSlots(h, d, k);
    assert Home(RelabelledLayout(h, d), Relabelled(d), k) == Home(h, d, k);
    assert Fallback(RelabelledLayout(h, d), Relabelled(d), k) == Fallback(h, d, k);
  }

  lemma {:induction false} SamePlaced(h: Layout, d: Disk, reuse: bool, n: nat)
    requires n <= |d.news|
    ensures Placed(RelabelledLayout(h, d), Relabelled(d), reuse, n) == Placed(h, d, reuse, n)
  {
    if n == 0 {
    } else {
      SamePlaced(h, d, reuse, n - 1);
      SameChoice(h, d, reuse, Placed(h, d, reuse, n - 1), n - 1);
    }
  }

  // ----- twin states ----------------------------------------------------------------------------

  /** An entry and its relabelled twin. */
  ghost predicate TwinEntry(d: Disk, i: Info, i': Info) {
    && i'.refCount == i.refCount && i'.inTried == i.inTried && i'.randomPos == i.randomPos
    && i.lastTry == 0 && i'.service.port == 0 && i'.service.ip < |All(d)| && RecordOf(i) == All(d)[i'.service.ip]
  }

  /** States that differ only in the labels of their entries and in the address index. */
  ghost predicate Twins(d: Disk, s: State, s': State) {
    && s' == s.(mapInfo := s'.mapInfo, mapAddr := s'.mapAddr)
    && s'.mapInfo.Keys == s.mapInfo.Keys
    && (forall n :: n in s.mapInfo ==> TwinEntry(d, s.mapInfo[n], s'.mapInfo[n]))
  }

  lemma TwinsCreated(d: Disk, s: State, s': State, r: Record, i: nat)
    requires Twins(d, s, s') && i < |All(d)| && All(d)[i] == r
    ensures Twins(d, Created(s, Fresh(r)), Created(s', Fresh(Relabel(r, i))))
  {
  }

  lemma TwinsEntered(h: Layout, d: Disk, s: State, s': State, id: int)
    requires Twins(d, s, s') && id in s.mapInfo
    ensures Twins(d, Entered(h, s, id), Entered(RelabelledLayout(h, d), s', id))
  {
    var i := s'.mapInfo[id].service.ip;
    assert TwinEntry(d, s.mapInfo[id], s'.mapInfo[id]);
    assert s'.mapInfo[id].service == Service(i, 0) && s.mapInfo[id].service == All(d)[i].service;
    SameSlots(h, d, i);
  }

  lemma TwinsReferenced(d: Disk, s: State, s': State, id: int, x: Slot)
    requires Twins(d, s, s') && id in s.mapInfo
    ensures Twins(d, Referenced(s, id, x), Referenced(s', id, x))
  {
    assert TwinEntry(d, s.mapInfo[id], s'.mapInfo[id]);
  }

  lemma TwinsRandom(d: Disk, s: State, s': State)
    requires Twins(d, s, s') && RandomOk(s'.mapInfo, s'.vRandom)
    ensures RandomOk(s.mapInfo, s.vRandom)
  {
    assert |s.mapInfo| == |s.mapInfo.Keys| && |s'.mapInfo| == |s'.mapInfo.Keys|;
    forall n | n in s.mapInfo ensures s.mapInfo[n].randomPos == s'.mapInfo[n].randomPos {
      assert TwinEntry(d, s.mapInfo[n], s'.mapInfo[n]);
    }
  }

  lemma {:induction false} TwinsNews(d: Disk, n: nat)
    requires n <= |d.news|
    ensures Twins(d, NewsLoaded(d, n), NewsLoaded(Relabelled(d), n))
  {
    if n == 0 {
    } else {
      TwinsNews(d, n - 1);
      assert All(d)[n - 1] == d.news[n - 1];
      TwinsCreated(d, NewsLoaded(d, n - 1), NewsLoaded(Relabelled(d), n - 1), d.news[n - 1], n - 1);
    }
  }

  lemma TwinsTriedRecord(h: Layout, d: Disk, s: State, s': State, j: nat)
    requires Twins(d, s, s') && j < |d.trieds|
    ensures Twins(d, WithTriedRecord(h, s, d.trieds[j]),
                  WithTriedRecord(RelabelledLayout(h, d), s', Relabelled(d).trieds[j]))
  {
    SameTriedHome(h, d, j);
    var r := d.trieds[j];
    assert All(d)[|d.news| + j] == r;
    if TriedHome(h, d, j) !in s.vvTried {
      TwinsCreated(d, s, s', r, |d.news| + j);
      TwinsEntered(h, d, Created(s, Fresh(r)), Created(s', Fresh(Relabel(r, |d.news| + j))), s.nIdCount);
    }
  }

  /** A relation that each tried record keeps holds at the end. */
  lemma {:induction false} PairInduction(h: Layout, d: Disk, h': Layout, d': Disk, s: State, s': State, m: nat,
                                         p: (State, State) -> bool)
    requires m <= |d.trieds| == |d'.trieds| && p(s, s')
    requires forall t, t', k: nat :: k < |d.trieds| && p(t, t') ==>
      p(WithTriedRecord(h, t, d.trieds[k]), WithTriedRecord(h', t', d'.trieds[k]))
    ensures p(TriedsLoaded(h, d, s, m), TriedsLoaded(h', d', s', m))
  {
    if m == 0 {
    } else {
      PairInduction(h, d, h', d', s, s', m - 1, p);
      var t, t' := TriedsLoaded(h, d, s, m - 1), TriedsLoaded(h', d', s', m - 1);
      assert p(WithTriedRecord(h, t, d.trieds[m - 1]), WithTriedRecord(h', t', d'.trieds[m - 1]));
    }
  }

  lemma TwinsTrieds(h: Layout, d: Disk, s: State, s': State, m: nat)
    requires Twins(d, s, s') && m <= |d.trieds|
    ensures Twins(d, TriedsLoaded(h, d, s, m), TriedsLoaded(RelabelledLayout(h, d), Relabelled(d), s', m))
  {
    var h', d' := RelabelledLayout(h, d), Relabelled(d);
    var p := (t: State, t': State) => Twins(d, t, t');
    forall t, t', k: nat | k < |d.trieds| && p(t, t')
      ensures p(WithTriedRecord(h, t, d.trieds[k]), WithTriedRecord(h', t', d'.trieds[k]))
    {
      TwinsTriedRecord(h, d, t, t', k);
    }
    PairInduction(h, d, h', d', s, s', m, p);
  }

  lemma TwinsPlaceOne(h: Layout, d: Disk, reuse: bool, s: State, s': State, k: nat)
    requires Twins(d, s, s') && k < |d.news|
    ensures Twins(d, PlaceOne(h, d, reuse, s, k), PlaceOne(RelabelledLayout(h, d), Relabelled(d), reuse, s', k))
  {
    SameChoice(h, d, reuse, s.vvNew, k);
    var x := Choice(h, d, reuse, s.vvNew, k);
    if x.Some? && k in s.mapInfo { TwinsReferenced(d, s, s', k, x.value); }
  }

  lemma {:induction false} TwinsPlaced(h: Layout, d: Disk, reuse: bool, s: State, s': State, n: nat)
    requires Twins(d, s, s') && n <= |d.news|
    ensures Twins(d, NewsPlaced(h, d, reuse, s, n), NewsPlaced(RelabelledLayout(h, d), Relabelled(d), reuse, s', n))
  {
    if n == 0 {
    } else {
      TwinsPlaced(h, d, reuse, s, s', n - 1);
      TwinsPlaceOne(h, d, reuse, NewsPlaced(h, d, reuse, s, n - 1),
                    NewsPlaced(RelabelledLayout(h, d), Relabelled(d), reuse, s', n - 1), n - 1);
    }
  }

  lemma TwinsSwapped(d: Disk, s: State, s': State, p: nat, q: nat)
    requires Twins(d, s, s') && p < |s.vRandom| && q < |s.vRandom| && s.vRandom[p] in s.mapInfo
    requires s.vRandom[q] in s.mapInfo
    ensures Twins(d, Swapped(s, p, q), Swapped(s', p, q))
  {
    var t, t' := Swapped(s, p, q), Swapped(s', p, q);
    assert t'.mapInfo.Keys == t.mapInfo.Keys;
    forall n | n in t.mapInfo ensures TwinEntry(d, t.mapInfo[n], t'.mapInfo[n]) {
      assert TwinEntry(d, s.mapInfo[n], s'.mapInfo[n]);
    }
  }

  lemma TwinsDropped(d: Disk, s: State, s': State, id: int)
    requires Twins(d, s, s') && id in s.mapInfo && |s.vRandom| > 0
    ensures Twins(d, Dropped(s, id), Dropped(s', id))
  {
  }

  lemma TwinsDeleted(d: Disk, s: State, s': State, id: int)
    requires Twins(d, s, s') && RandomOk(s'.mapInfo, s'.vRandom) && id in s.mapInfo
    ensures RandomOk(s.mapInfo, s.vRandom) && Twins(d, Deleted(s, id), Deleted(s', id))
  {
    TwinsRandom(d, s, s');
    assert TwinEntry(d, s.mapInfo[id], s'.mapInfo[id]);
    var p, q := s.mapInfo[id].randomPos, |s.vRandom| - 1;
    TwinsSwapped(d, s, s', p, q);
    TwinsDropped(d, Swapped(s, p, q), Swapped(s', p, q), id);
  }

  // ----- the address index ----------------------------------------------------------------------

  /** Every entry's address is filed, under an entry that has it, and ids stay below the counter. */
  ghost predicate Filed(s: State) {
    && (forall n :: n in s.mapInfo ==> n < s.nIdCount && s.mapInfo[n].service.ip in s.mapAddr)
    && (forall a :: a in s.mapAddr ==> s.mapAddr[a] in s.mapInfo && s.mapInfo[s.mapAddr[a]].service.ip == a)
  }

  lemma FiledCreated(s: State, i: Info)
    requires Filed(s)
    ensures Filed(Created(s, i))
  {
  }

  lemma {:induction false} FiledNews(d: Disk, n: nat)
    requires n <= |d.news|
    ensures Filed(NewsLoaded(d, n))
  {
    if n == 0 {
    } else {
      FiledNews(d, n - 1);
      FiledCreated(NewsLoaded(d, n - 1), Fresh(d.news[n - 1]));
    }
  }

  lemma FiledTriedRecord(h: Layout, s: State, r: Record)
    requires Filed(s)
    ensures Filed(WithTriedRecord(h, s, r))
  {
    FiledCreated(s, Fresh(r));
  }

  lemma {:induction false} FiledTrieds(h: Layout, d: Disk, s: State, m: nat)
    requires Filed(s) && m <= |d.trieds|
    ensures Filed(TriedsLoaded(h, d, s, m))
  {
    if m == 0 {
    } else {
      FiledTrieds(h, d, s, m - 1);
      FiledTriedRecord(h, TriedsLoaded(h, d, s, m - 1), d.trieds[m - 1]);
    }
  }

  lemma {:induction false} FiledPlaced(h: Layout, d: Disk, reuse: bool, s: State, n: nat)
    requires Filed(s) && n <= |d.news|
    ensures Filed(NewsPlaced(h, d, reuse, s, n))
  {
    if n == 0 {
    } else {
      FiledPlaced(h, d, reuse, s, n - 1);
    }
  }

  ghost function Addresses(info: Infos, ids: set<int>): set<NetAddr>
    requires ids <= info.Keys
  {
    set n | n in ids :: info[n].service.ip
  }

  // ----- pruning --------------------------------------------------------------------------------

  lemma TwinsUnplaced(d: Disk, s: State, s': State)
    requires Twins(d, s, s')
    ensures Unplaced(s.mapInfo) == Unplaced(s'.mapInfo)
  {
    forall n | n in s.mapInfo ensures n in Unplaced(s.mapInfo) <==> n in Unplaced(s'.mapInfo) {
      assert TwinEntry(d, s.mapInfo[n], s'.mapInfo[n]);
    }
  }

  /** The loop state of pruning: each deletion also takes the entry's address out of the index. */
  ghost predicate Erasing(h': Layout, d: Disk, s0: State, s0': State, s: State, s': State, rest: set<int>) {
    && Twins(d, s0, s0') && Twins(d, s, s') && Pruning(h', s0', s', rest)
    && s.mapAddr == s0.mapAddr - Addresses(s0.mapInfo, Unplaced(s0.mapInfo) - rest)
  }

  lemma SameAddress(d: Disk, s0: State, s0': State, s: State, s': State, left: set<int>, n: int)
    requires Twins(d, s0, s0') && Twins(d, s, s') && PrunedBut(s0', s', left) && n in s.mapInfo
    ensures n in s0.mapInfo && s.mapInfo[n].service == s0.mapInfo[n].service
    ensures n in Unplaced(s0.mapInfo) <==> !s.mapInfo[n].inTried && s.mapInfo[n].refCount == 0
  {
    assert Moved(s0'.mapInfo[n], s'.mapInfo[n]);
    assert TwinEntry(d, s0.mapInfo[n], s0'.mapInfo[n]) && TwinEntry(d, s.mapInfo[n], s'.mapInfo[n]);
    assert RecordOf(s.mapInfo[n]) == RecordOf(s0.mapInfo[n]);
  }

  lemma AddressesHave(info: Infos, ids: set<int>)
    requires ids <= info.Keys
    ensures forall n :: n in ids ==> info[n].service.ip in Addresses(info, ids)
  {
  }

  lemma AddressesMore(info: Infos, ids: set<int>, n: int)
    requires ids <= info.Keys && n in info
    ensures Addresses(info, ids + {n}) == Addresses(info, ids) + {info[n].service.ip}
  {
  }

  lemma ErasedMore(info: Infos, addr0: map<NetAddr, int>, addr: map<NetAddr, int>, all: set<int>, rest: set<int>,
                   n: int)
    requires all <= info.Keys && n in info && n in rest && addr == addr0 - Addresses(info, all - rest)
    ensures n in all ==> addr - {info[n].service.ip} == addr0 - Addresses(info, all - (rest - {n}))
    ensures n !in all ==> addr == addr0 - Addresses(info, all - (rest - {n}))
  {
    if n in all {
      assert all - (rest - {n}) == (all - rest) + {n};
      AddressesMore(info, all - rest, n);
    } else {
      assert all - (rest - {n}) == all - rest;
    }
  }

  lemma EraseOne(h': Layout, d: Disk, s0: State, s0': State, s: State, s': State, rest: set<int>, n: int)
    requires Erasing(h', d, s0, s0', s, s', rest) && n in rest && n in s.mapInfo && RandomOk(s'.mapInfo, s'.vRandom)
    requires Pruning(h', s0', Deleted(s', n), rest - {n}) && !s.mapInfo[n].inTried && s.mapInfo[n].refCount == 0
    ensures RandomOk(s.mapInfo, s.vRandom) && Erasing(h', d, s0, s0', Deleted(s, n), Deleted(s', n), rest - {n})
  {
    TwinsDeleted(d, s, s', n);
    SameAddress(d, s0, s0', s, s', Unplaced(s0'.mapInfo) * rest, n);
    ErasedMore(s0.mapInfo, s0.mapAddr, s.mapAddr, Unplaced(s0.mapInfo), rest, n);
    DeletedAddress(s, n);
  }

  lemma EraseNone(h': Layout, d: Disk, s0: State, s0': State, s: State, s': State, rest: set<int>, n: int)
    requires Erasing(h', d, s0, s0', s, s', rest) && n in rest && n in s.mapInfo
    requires Pruning(h', s0', s', rest - {n}) && (s.mapInfo[n].inTried || s.mapInfo[n].refCount != 0)
    ensures Erasing(h', d, s0, s0', s, s', rest - {n})
  {
    SameAddress(d, s0, s0', s, s', Unplaced(s0'.mapInfo) * rest, n);
    ErasedMore(s0.mapInfo, s0.mapAddr, s.mapAddr, Unplaced(s0.mapInfo), rest, n);
  }

  lemma EraseStep(h': Layout, d: Disk, s0: State, s0': State, s: State, s': State, rest: set<int>, n: int)
    requires Erasing(h', d, s0, s0', s, s', rest) && n in rest
    ensures n in s.mapInfo && RandomOk(s.mapInfo, s.vRandom) && RandomOk(s'.mapInfo, s'.vRandom)
    ensures !s.mapInfo[n].inTried && s.mapInfo[n].refCount == 0 ==>
      Erasing(h', d, s0, s0', Deleted(s, n), Deleted(s', n), rest - {n})
    ensures s.mapInfo[n].inTried || s.mapInfo[n].refCount != 0 ==> Erasing(h', d, s0, s0', s, s', rest - {n})
  {
    PruneStep(h', s0', s', rest, n);
    TwinsRandom(d, s, s');
    assert TwinEntry(d, s.mapInfo[n], s'.mapInfo[n]);
    if !s.mapInfo[n].inTried && s.mapInfo[n].refCount == 0 {
      EraseOne(h', d, s0, s0', s, s', rest, n);
    } else {
      EraseNone(h', d, s0, s0', s, s', rest, n);
    }
  }

  lemma DeletedAddress(s: State, n: int)
    requires RandomOk(s.mapInfo, s.vRandom) && n in s.mapInfo
    ensures Deleted(s, n).mapAddr == s.mapAddr - {s.mapInfo[n].service.ip}
  {
  }

  /** Prune the entries in no bucket, on any tables that have a consistent twin. */
  method Prune(s0: State, ghost h': Layout, ghost d: Disk, ghost s0': State) returns (s: State, ghost s': State)
    requires Erasing(h', d, s0, s0', s0, s0', s0.mapInfo.Keys)
    ensures Erasing(h', d, s0, s0', s, s', {})
  {
    s, s' := s0, s0';
    var rest := s0.mapInfo.Keys;
    while rest != {}
      invariant Erasing(h', d, s0, s0', s, s', rest)
    {
      NonEmpty(rest);
      var n :| n in rest;
      EraseStep(h', d, s0, s0', s, s', rest, n);
      if !s.mapInfo[n].inTried && s.mapInfo[n].refCount == 0 {
        s, s' := Deleted(s, n), Deleted(s', n);
      }
      rest := rest - {n};
    }
  }

  // ----- which records are loaded and kept ------------------------------------------------------

  ghost predicate HasSlot(t: Table, i: int) { exists x :: x in t && At(t, x) == i }

  /** Every untried record is loaded, and of the tried ones the first for each slot. */
  ghost predicate Loaded(h: Layout, d: Disk, i: nat) {
    && i < |All(d)|
    && (i >= |d.news| ==> FirstAt(h, d, |d.trieds|, TriedHome(h, d, i - |d.news|)) == i - |d.news|)
  }

  /** Of the loaded records, the untried ones without a slot are pruned. */
  ghost predicate Keeps(h: Layout, d: Disk, asmap: nat, i: nat) {
    && Loaded(h, d, i)
    && (i < |d.news| ==> HasSlot(Placed(h, d, Reuse(d, asmap), |d.news|), i))
  }

  ghost function Address(d: Disk, i: nat): NetAddr
    requires i < |All(d)|
  {
    All(d)[i].service.ip
  }

  /** The tables before pruning, with their twin. */
  ghost predicate Filled(h: Layout, d: Disk, asmap: nat, s: State, s': State) {
    && Twins(d, s, s')
    && Placing(RelabelledLayout(h, d), Relabelled(d), Reuse(d, asmap), s', |d.news|)
  }

  lemma TriedSource(h: Layout, d: Disk, s': State, n: int)
    requires TriedRead(RelabelledLayout(h, d), Relabelled(d), s', |d.trieds|)
    requires TriedOk(RelabelledLayout(h, d), s'.mapInfo, s'.vvTried) && n in s'.mapInfo && n >= 0
    requires s'.mapInfo[n].inTried
    ensures s'.mapInfo[n].service.ip >= |d.news| && Loaded(h, d, s'.mapInfo[n].service.ip)
  {
    var h', d' := RelabelledLayout(h, d), Relabelled(d);
    var x := h'.triedSlot(s'.mapInfo[n].service);
    TriedRecordOf(h', d', s', |d.trieds|, n);
    var j := FirstAt(h', d', |d.trieds|, x);
    RelabelledRecords(d);
    assert RecordOf(s'.mapInfo[n]) == Relabel(d.trieds[j], |d.news| + j);
    assert x == TriedHome(h', d', j);
    SameTriedHome(h, d, j);
    SameFirst(h, d, |d.trieds|, x);
  }

  lemma EntryIndex(h: Layout, d: Disk, asmap: nat, s: State, s': State, n: int)
    requires Filled(h, d, asmap, s, s') && n in s.mapInfo
    ensures n >= 0 && Loaded(h, d, s'.mapInfo[n].service.ip)
    ensures n < |d.news| ==> s'.mapInfo[n].service.ip == n && !s'.mapInfo[n].inTried
    ensures n >= |d.news| ==> s'.mapInfo[n].service.ip >= |d.news| && s'.mapInfo[n].inTried
  {
    if n < |d.news| {
      RelabelledRecords(d);
      assert RecordOf(s'.mapInfo[n]) == Relabel(d.news[n], n);
    } else {
      TriedSource(h, d, s', n);
    }
  }

  lemma TriedEntry(h: Layout, d: Disk, s': State, j: nat) returns (n: int)
    requires TriedRead(RelabelledLayout(h, d), Relabelled(d), s', |d.trieds|)
    requires j < |d.trieds| && FirstAt(h, d, |d.trieds|, TriedHome(h, d, j)) == j
    ensures n in s'.mapInfo && s'.mapInfo[n].service.ip == |d.news| + j
  {
    var x := TriedHome(h, d, j);
    SameFirst(h, d, |d.trieds|, x);
    n := At(s'.vvTried, x);
    RelabelledRecords(d);
    assert RecordOf(s'.mapInfo[n]) == Relabel(d.trieds[j], |d.news| + j);
  }

  lemma IndexEntry(h: Layout, d: Disk, asmap: nat, s: State, s': State, i: nat) returns (n: int)
    requires Filled(h, d, asmap, s, s') && Loaded(h, d, i)
    ensures n in s.mapInfo && s'.mapInfo[n].service.ip == i
  {
    if i < |d.news| {
      n := i;
      RelabelledRecords(d);
      assert RecordOf(s'.mapInfo[n]) == Relabel(d.news[i], i);
    } else {
      n := TriedEntry(h, d, s', i - |d.news|);
    }
  }

  /** An entry is left in no bucket exactly when its record is not kept. */
  lemma UnplacedIndex(h: Layout, d: Disk, asmap: nat, s: State, s': State, n: int)
    requires Filled(h, d, asmap, s, s') && n in s.mapInfo
    ensures n in Unplaced(s.mapInfo) <==> !Keeps(h, d, asmap, s'.mapInfo[n].service.ip)
  {
    EntryIndex(h, d, asmap, s, s', n);
    TwinsUnplaced(d, s, s');
    SamePlaced(h, d, Reuse(d, asmap), |d.news|);
    if n < |d.news| {
      assert s'.mapInfo[n].refCount == |RefSlots(s'.vvNew, n)|;
      NoSlots(s'.vvNew, n);
    }
  }

  lemma NoSlots(t: Table, n: int)
    ensures |RefSlots(t, n)| == 0 <==> !HasSlot(t, n)
  {
    if HasSlot(t, n) {
      var x :| x in t && At(t, x) == n;
      assert x in RefSlots(t, n);
    } else {
      assert RefSlots(t, n) == {};
    }
  }

  lemma EntryAddress(h: Layout, d: Disk, asmap: nat, s: State, s': State, n: int)
    requires Filled(h, d, asmap, s, s') && n in s.mapInfo
    ensures s'.mapInfo[n].service.ip < |All(d)| && s.mapInfo[n].service.ip == Address(d, s'.mapInfo[n].service.ip)
  {
    assert TwinEntry(d, s.mapInfo[n], s'.mapInfo[n]);
    assert RecordOf(s.mapInfo[n]).service == s.mapInfo[n].service;
  }

  // ----- what any file becomes ------------------------------------------------------------------

  /** Entries are tried without references or untried with one to eight. */
  ghost predicate CountsInRange(info: Infos) {
    forall n :: n in info ==>
      if info[n].inTried then info[n].refCount == 0 else 1 <= info[n].refCount <= NEW_BUCKETS_PER_ADDRESS
  }

  /** Consistency but for the address index and the times. */
  ghost predicate Sound(h: Layout, t: State) {
    && t.nIdCount >= 0 && IdsOk(t.nIdCount, t.mapInfo) && RandomOk(t.mapInfo, t.vRandom) && TablesOk(h, t)
    && CountsInRange(t.mapInfo) && t.nTried == |TriedIds(t.mapInfo)| && t.nNew == |NewIds(t.mapInfo)|
  }

  ghost predicate TimesSensible(info: Infos) {
    forall n :: n in info ==>
        info[n].lastTry >= 0 && info[n].lastSuccess >= 0 && (info[n].inTried ==> info[n].lastSuccess > 0)
  }

  lemma SoundAndMore(h: Layout, t: State)
    requires t.triedCollisions == {}
    ensures Consistent(h, t) <==> Sound(h, t) && AddrOk(t.mapInfo, t.mapAddr) && TimesSensible(t.mapInfo)
  {
  }

  /** Where the entries come from: each from a kept record of its own. */
  ghost predicate FromFile(h: Layout, d: Disk, asmap: nat, info: Infos, source: map<int, nat>) {
    && source.Keys == info.Keys && OneSourceEach(source)
    && (forall n {:trigger source[n]} :: n in info ==> IsSource(h, d, asmap, n, info[n], source[n]))
    && (forall i: nat :: Keeps(h, d, asmap, i) ==> IsUsed(source, i))
  }

  ghost predicate OneSourceEach(source: map<int, nat>) {
    forall m, n :: m in source && n in source && source[m] == source[n] ==> m == n
  }

  ghost predicate IsUsed(source: map<int, nat>, i: nat) { exists n :: n in source && source[n] == i }

  /** Untried entries have the index of their record for an id. */
  ghost predicate IsSource(h: Layout, d: Disk, asmap: nat, n: int, info: Info, i: nat) {
    && Keeps(h, d, asmap, i) && RecordOf(info) == All(d)[i]
    && n >= 0 && info.lastTry == 0 && (info.inTried <==> n >= |d.news|)
    && if n < |d.news| then i == n else i >= |d.news|
  }

  /** The address is that of some loaded record, and of none that was pruned. */
  ghost predicate StaysFiled(h: Layout, d: Disk, asmap: nat, a: NetAddr) {
    && (exists i: nat :: Loaded(h, d, i) && Address(d, i) == a)
    && (forall i: nat :: Loaded(h, d, i) && Address(d, i) == a ==> Keeps(h, d, asmap, i))
  }

  /** What a file becomes: sound tables with the kept records in the slots they could get, and an
      address index that lost the addresses of all pruned records. */
  ghost predicate Rebuilt(h: Layout, d: Disk, asmap: nat, t: State, source: map<int, nat>) {
    RebuiltTables(h, d, asmap, t, source) && RebuiltIndex(h, d, asmap, t)
  }

  ghost predicate RebuiltTables(h: Layout, d: Disk, asmap: nat, t: State, source: map<int, nat>) {
    && Sound(h, t) && t.triedCollisions == {} && FromFile(h, d, asmap, t.mapInfo, source)
    && TriedRead(h, d, t, |d.trieds|) && t.vvNew == Placed(h, d, Reuse(d, asmap), |d.news|)
  }

  ghost predicate RebuiltIndex(h: Layout, d: Disk, asmap: nat, t: State) {
    && (forall a :: a in t.mapAddr <==> StaysFiled(h, d, asmap, a))
    && (forall a :: a in t.mapAddr ==> t.mapAddr[a] in t.mapInfo && t.mapInfo[t.mapAddr[a]].service.ip == a)
  }

  /** No loaded record has the address of another one that is kept. */
  ghost predicate AddressesDiffer(h: Layout, d: Disk, asmap: nat) {
    forall i: nat, j: nat :: Keeps(h, d, asmap, i) && Loaded(h, d, j) && i != j ==> Address(d, i) != Address(d, j)
  }

  ghost predicate RecordTimesOk(h: Layout, d: Disk, asmap: nat) {
    forall i: nat :: Keeps(h, d, asmap, i) ==>
      All(d)[i].lastSuccess >= 0 && (i >= |d.news| ==> All(d)[i].lastSuccess > 0)
  }

  lemma TimesExactly(h: Layout, d: Disk, asmap: nat, info: Infos, source: map<int, nat>)
    requires FromFile(h, d, asmap, info, source)
    ensures TimesSensible(info) <==> RecordTimesOk(h, d, asmap)
  {
    forall n | n in info ensures info[n].lastSuccess == All(d)[source[n]].lastSuccess {
      assert RecordOf(info[n]).lastSuccess == info[n].lastSuccess;
    }
    if TimesSensible(info) {
      forall i: nat | Keeps(h, d, asmap, i)
        ensures All(d)[i].lastSuccess >= 0 && (i >= |d.news| ==> All(d)[i].lastSuccess > 0)
      {
        assert IsUsed(source, i);
        var n :| n in source && source[n] == i;
      }
    }
  }

  lemma SourceAddress(h: Layout, d: Disk, asmap: nat, info: Infos, source: map<int, nat>, n: int)
    requires FromFile(h, d, asmap, info, source) && n in info
    ensures info[n].service.ip == Address(d, source[n])
  {
    assert RecordOf(info[n]).service == info[n].service;
  }

  lemma IndexIfDifferent(h: Layout, d: Disk, asmap: nat, t: State, source: map<int, nat>)
    requires Rebuilt(h, d, asmap, t, source) && AddressesDiffer(h, d, asmap)
    ensures AddrOk(t.mapInfo, t.mapAddr)
  {
    forall n | n in t.mapInfo
      ensures t.mapInfo[n].service.ip in t.mapAddr && t.mapAddr[t.mapInfo[n].service.ip] == n
    {
      var a := t.mapInfo[n].service.ip;
      SourceAddress(h, d, asmap, t.mapInfo, source, n);
      assert Loaded(h, d, source[n]) && Address(d, source[n]) == a;
      assert StaysFiled(h, d, asmap, a);
      var m := t.mapAddr[a];
      SourceAddress(h, d, asmap, t.mapInfo, source, m);
    }
  }

  lemma DifferentIfIndex(h: Layout, d: Disk, asmap: nat, t: State, source: map<int, nat>)
    requires Rebuilt(h, d, asmap, t, source) && AddrOk(t.mapInfo, t.mapAddr)
    ensures AddressesDiffer(h, d, asmap)
  {
    forall i: nat, j: nat | Keeps(h, d, asmap, i) && Loaded(h, d, j) && Address(d, i) == Address(d, j) ensures i == j {
      assert IsUsed(source, i);
      var n :| n in source && source[n] == i;
      SourceAddress(h, d, asmap, t.mapInfo, source, n);
      assert StaysFiled(h, d, asmap, Address(d, i));
      assert Keeps(h, d, asmap, j);
      assert IsUsed(source, j);
      var m :| m in source && source[m] == j;
      SourceAddress(h, d, asmap, t.mapInfo, source, m);
    }
  }

  /** The tables are consistent exactly when no kept record shares its address with another loaded
      one and the kept records have sensible times. */
  lemma ConsistentExactly(h: Layout, d: Disk, asmap: nat, t: State, source: map<int, nat>)
    requires Rebuilt(h, d, asmap, t, source)
    ensures Consistent(h, t) <==> AddressesDiffer(h, d, asmap) && RecordTimesOk(h, d, asmap)
  {
    SoundAndMore(h, t);
    TimesExactly(h, d, asmap, t.mapInfo, source);
    if AddressesDiffer(h, d, asmap) { IndexIfDifferent(h, d, asmap, t, source); }
    if AddrOk(t.mapInfo, t.mapAddr) { DifferentIfIndex(h, d, asmap, t, source); }
  }

  // ----- from the twin to the file --------------------------------------------------------------

  /** The pruned tables of a file and of its relabelled twin. */
  ghost predicate Emptied(h: Layout, d: Disk, asmap: nat, s: State, s': State, t: State, t': State) {
    && Filled(h, d, asmap, s, s') && Twins(d, t, t') && PrunedBut(s', t', {})
    && ConsistentBut(RelabelledLayout(h, d), t', {}, 0)
  }

  /** The address index after pruning. */
  ghost predicate Unfiled(s: State, t: State) {
    Filed(s) && t.mapAddr == s.mapAddr - Addresses(s.mapInfo, Unplaced(s.mapInfo))
  }

  lemma TwinTables(h: Layout, d: Disk, t: State, t': State)
    requires Twins(d, t, t') && TablesOk(RelabelledLayout(h, d), t')
    ensures TablesOk(h, t)
  {
    forall n | n in t.mapInfo
      ensures h.triedSlot(t.mapInfo[n].service) == RelabelledLayout(h, d).triedSlot(t'.mapInfo[n].service)
      ensures forall b :: h.newSlot(t.mapInfo[n].service, b) == RelabelledLayout(h, d).newSlot(t'.mapInfo[n].service, b)
      ensures t.mapInfo[n].inTried == t'.mapInfo[n].inTried && t.mapInfo[n].refCount == t'.mapInfo[n].refCount
    {
      var i := t'.mapInfo[n].service.ip;
      assert TwinEntry(d, t.mapInfo[n], t'.mapInfo[n]);
      assert t'.mapInfo[n].service == Service(i, 0) && RecordOf(t.mapInfo[n]).service == t.mapInfo[n].service;
      SameSlots(h, d, i);
    }
  }

  lemma TwinSound(h: Layout, d: Disk, t: State, t': State)
    requires Twins(d, t, t') && ConsistentBut(RelabelledLayout(h, d), t', {}, 0)
    ensures Sound(h, t)
  {
    TwinTables(h, d, t, t');
    TwinsRandom(d, t, t');
    forall n | n in t.mapInfo
      ensures t.mapInfo[n].inTried == t'.mapInfo[n].inTried && t.mapInfo[n].refCount == t'.mapInfo[n].refCount
    {
      assert TwinEntry(d, t.mapInfo[n], t'.mapInfo[n]);
    }
    assert TriedIds(t.mapInfo) == TriedIds(t'.mapInfo);
    assert NewIds(t.mapInfo) == NewIds(t'.mapInfo);
  }

  lemma TwinTried(h: Layout, d: Disk, t: State, t': State)
    requires Twins(d, t, t') && TriedRead(RelabelledLayout(h, d), Relabelled(d), t', |d.trieds|)
    ensures TriedRead(h, d, t, |d.trieds|)
  {
    var h', d', m := RelabelledLayout(h, d), Relabelled(d), |d.trieds|;
    RelabelledRecords(d);
    SameSlotCount(h, d, m);
    forall x ensures FirstAt(h', d', m, x) == FirstAt(h, d, m, x) {
      SameFirst(h, d, m, x);
    }
    forall x | x in t.vvTried
      ensures At(t.vvTried, x) in t.mapInfo && RecordOf(t.mapInfo[At(t.vvTried, x)]) == d.trieds[FirstAt(h, d, m, x)]
    {
      var n, j := At(t.vvTried, x), FirstAt(h, d, m, x);
      assert RecordOf(t'.mapInfo[n]) == Relabel(d.trieds[j], |d.news| + j);
      assert TwinEntry(d, t.mapInfo[n], t'.mapInfo[n]);
      assert All(d)[|d.news| + j] == d.trieds[j];
    }
  }

  ghost function Sources(t': State): map<int, nat> { map n | n in t'.mapInfo :: t'.mapInfo[n].service.ip }

  /** What an entry of the pruned tables was before pruning. */
  lemma KeptEntry(h: Layout, d: Disk, asmap: nat, s: State, s': State, t: State, t': State, n: int)
    requires Emptied(h, d, asmap, s, s', t, t') && n in t.mapInfo
    ensures n in s.mapInfo && n !in Unplaced(s.mapInfo) && t'.mapInfo[n].service == s'.mapInfo[n].service
    ensures t'.mapInfo[n].inTried == s'.mapInfo[n].inTried && t.mapInfo[n].service == s.mapInfo[n].service
    ensures t.mapInfo[n].inTried == t'.mapInfo[n].inTried && t.mapInfo[n].lastTry == 0
    ensures t'.mapInfo[n].service.ip < |All(d)| && RecordOf(t.mapInfo[n]) == All(d)[t'.mapInfo[n].service.ip]
  {
    TwinsUnplaced(d, s, s');
    assert Moved(s'.mapInfo[n], t'.mapInfo[n]);
    assert TwinEntry(d, t.mapInfo[n], t'.mapInfo[n]) && TwinEntry(d, s.mapInfo[n], s'.mapInfo[n]);
    assert RecordOf(t.mapInfo[n]).service == RecordOf(s.mapInfo[n]).service;
  }

  lemma KeptSource(h: Layout, d: Disk, asmap: nat, s: State, s': State, t: State, t': State, n: int)
    requires Emptied(h, d, asmap, s, s', t, t') && n in t.mapInfo
    ensures IsSource(h, d, asmap, n, t.mapInfo[n], t'.mapInfo[n].service.ip)
  {
    KeptEntry(h, d, asmap, s, s', t, t', n);
    EntryIndex(h, d, asmap, s, s', n);
    UnplacedIndex(h, d, asmap, s, s', n);
  }

  lemma KeptOnto(h: Layout, d: Disk, asmap: nat, s: State, s': State, t: State, t': State, i: nat) returns (n: int)
    requires Emptied(h, d, asmap, s, s', t, t') && Keeps(h, d, asmap, i)
    ensures n in t.mapInfo && t'.mapInfo[n].service.ip == i
  {
    n := IndexEntry(h, d, asmap, s, s', i);
    UnplacedIndex(h, d, asmap, s, s', n);
    TwinsUnplaced(d, s, s');
    KeptEntry(h, d, asmap, s, s', t, t', n);
  }

  lemma KeptSources(h: Layout, d: Disk, asmap: nat, s: State, s': State, t: State, t': State, source: map<int, nat>)
    requires Emptied(h, d, asmap, s, s', t, t') && source == Sources(t')
    ensures forall n {:trigger source[n]} :: n in t.mapInfo ==> IsSource(h, d, asmap, n, t.mapInfo[n], source[n])
  {
    forall n | n in t.mapInfo ensures IsSource(h, d, asmap, n, t.mapInfo[n], source[n]) {
      KeptSource(h, d, asmap, s, s', t, t', n);
    }
  }

  lemma KeptUsed(h: Layout, d: Disk, asmap: nat, s: State, s': State, t: State, t': State, source: map<int, nat>)
    requires Emptied(h, d, asmap, s, s', t, t') && source == Sources(t')
    ensures forall i: nat :: Keeps(h, d, asmap, i) ==> IsUsed(source, i)
  {
    forall i: nat | Keeps(h, d, asmap, i) ensures IsUsed(source, i) {
      var n := KeptOnto(h, d, asmap, s, s', t, t', i);
      assert n in source && source[n] == i;
    }
  }

  lemma SourcesDiffer(t': State)
    requires AddrOk(t'.mapInfo, t'.mapAddr)
    ensures OneSourceEach(Sources(t'))
  {
    var source := Sources(t');
    forall m, n | m in source && n in source && source[m] == source[n] ensures m == n {
      assert t'.mapAddr[t'.mapInfo[m].service.ip] == m && t'.mapAddr[t'.mapInfo[n].service.ip] == n;
    }
  }

  lemma KeptFiled(h: Layout, d: Disk, asmap: nat, s: State, s': State, t: State, t': State, a: NetAddr)
    requires Emptied(h, d, asmap, s, s', t, t') && Unfiled(s, t)
    ensures a in t.mapAddr <==> StaysFiled(h, d, asmap, a)
    ensures a in t.mapAddr ==> t.mapAddr[a] in t.mapInfo && t.mapInfo[t.mapAddr[a]].service.ip == a
  {
    if a in t.mapAddr {
      var n := s.mapAddr[a];
      FiledEntry(h, d, asmap, s, s', t, t', a, n);
      forall i: nat | Loaded(h, d, i) && Address(d, i) == a ensures Keeps(h, d, asmap, i) {
        NotErased(h, d, asmap, s, s', t, t', i);
      }
      assert Loaded(h, d, s'.mapInfo[n].service.ip);
    }
    if StaysFiled(h, d, asmap, a) {
      FiledStays(h, d, asmap, s, s', t, t', a);
    }
  }

  lemma FiledEntry(h: Layout, d: Disk, asmap: nat, s: State, s': State, t: State, t': State, a: NetAddr, n: int)
    requires Emptied(h, d, asmap, s, s', t, t') && Unfiled(s, t) && a in t.mapAddr && n == s.mapAddr[a]
    ensures n in s.mapInfo && Loaded(h, d, s'.mapInfo[n].service.ip) && Address(d, s'.mapInfo[n].service.ip) == a
    ensures n in t.mapInfo && t.mapInfo[n].service.ip == a
  {
    EntryIndex(h, d, asmap, s, s', n);
    EntryAddress(h, d, asmap, s, s', n);
    AddressesHave(s.mapInfo, Unplaced(s.mapInfo));
    TwinsUnplaced(d, s, s');
    KeptEntry(h, d, asmap, s, s', t, t', n);
  }

  lemma NotErased(h: Layout, d: Disk, asmap: nat, s: State, s': State, t: State, t': State, i: nat)
    requires Emptied(h, d, asmap, s, s', t, t') && Unfiled(s, t) && Loaded(h, d, i) && Address(d, i) in t.mapAddr
    ensures Keeps(h, d, asmap, i)
  {
    var n := IndexEntry(h, d, asmap, s, s', i);
    EntryAddress(h, d, asmap, s, s', n);
    UnplacedIndex(h, d, asmap, s, s', n);
    AddressesHave(s.mapInfo, Unplaced(s.mapInfo));
  }

  lemma FiledStays(h: Layout, d: Disk, asmap: nat, s: State, s': State, t: State, t': State, a: NetAddr)
    requires Emptied(h, d, asmap, s, s', t, t') && Unfiled(s, t) && StaysFiled(h, d, asmap, a)
    ensures a in t.mapAddr
  {
    var i: nat :| Loaded(h, d, i) && Address(d, i) == a;
    var n := IndexEntry(h, d, asmap, s, s', i);
    EntryAddress(h, d, asmap, s, s', n);
    forall m | m in Unplaced(s.mapInfo) ensures s.mapInfo[m].service.ip != a {
      EntryIndex(h, d, asmap, s, s', m);
      EntryAddress(h, d, asmap, s, s', m);
      UnplacedIndex(h, d, asmap, s, s', m);
    }
  }

  lemma PrunedTables(h: Layout, d: Disk, asmap: nat, s: State, s': State, t: State, t': State)
    requires Emptied(h, d, asmap, s, s', t, t')
    ensures RebuiltTables(h, d, asmap, t, Sources(t'))
  {
    TwinSound(h, d, t, t');
    PrunedTried(RelabelledLayout(h, d), Relabelled(d), s', t');
    TwinTried(h, d, t, t');
    SamePlaced(h, d, Reuse(d, asmap), |d.news|);
    KeptSources(h, d, asmap, s, s', t, t', Sources(t'));
    KeptUsed(h, d, asmap, s, s', t, t', Sources(t'));
    SourcesDiffer(t');
  }

  lemma PrunedIndex(h: Layout, d: Disk, asmap: nat, s: State, s': State, t: State, t': State)
    requires Emptied(h, d, asmap, s, s', t, t') && Unfiled(s, t)
    ensures RebuiltIndex(h, d, asmap, t)
  {
    forall a ensures a in t.mapAddr <==> StaysFiled(h, d, asmap, a) {
      KeptFiled(h, d, asmap, s, s', t, t', a);
    }
    forall a | a in t.mapAddr ensures t.mapAddr[a] in t.mapInfo && t.mapInfo[t.mapAddr[a]].service.ip == a {
      KeptFiled(h, d, asmap, s, s', t, t', a);
    }
  }

  // ----- Unserialize ----------------------------------------------------------------------------

  lemma {:induction false} NewsLoadedNoTried(d: Disk, n: nat)
    requires n <= |d.news|
    ensures NewsLoaded(d, n).nTried == 0
  {
    if n == 0 {
    } else {
      NewsLoadedNoTried(d, n - 1);
    }
  }

  /** After the entries are read, the twin's untried entries all wait for their slots. */
  lemma TwinReady(h: Layout, d: Disk, reuse: bool)
    ensures var s := TriedsLoaded(RelabelledLayout(h, d), Relabelled(d), NewsLoaded(Relabelled(d), |d.news|),
                                  |d.trieds|);
      Placing(RelabelledLayout(h, d), Relabelled(d), reuse, s, 0)
  {
    var h', d' := RelabelledLayout(h, d), Relabelled(d);
    RelabelledLoadable(d);
    NewsLoadedOk(h', d');
    LoadTriedStart(h', d', NewsLoaded(d', |d.news|));
    TriedsLoadedOk(h', d', NewsLoaded(d', |d.news|));
    PlaceStart(h', d', reuse, TriedsLoaded(h', d', NewsLoaded(d', |d.news|), |d.trieds|));
  }

  lemma TwinWaits(h: Layout, d: Disk, reuse: bool, s: State, s': State, n: nat)
    requires LayoutOk(h) && (reuse ==> |d.buckets| == NEW_BUCKET_COUNT) && Twins(d, s, s') && n < |d.news|
    requires Placing(RelabelledLayout(h, d), Relabelled(d), reuse, s', 0)
    ensures NextWaits(h, d, reuse, s, n)
  {
    var h', d' := RelabelledLayout(h, d), Relabelled(d);
    RelabelledLayoutOk(h, d);
    EachWaits(h', d', reuse, s', n);
    TwinsPlaced(h, d, reuse, s, s', n);
    var t, t' := NewsPlaced(h, d, reuse, s, n), NewsPlaced(h', d', reuse, s', n);
    TwinsUnplaced(d, t, t');
    RelabelledRecords(d);
    assert RecordOf(t'.mapInfo[n]) == Relabel(d.news[n], n);
    assert TwinEntry(d, t.mapInfo[n], t'.mapInfo[n]) && All(d)[n] == d.news[n];
  }

  lemma ReadyToPrune(h: Layout, d: Disk, asmap: nat, s0: State, s0': State, s: State, s': State)
    requires LayoutOk(h) && Twins(d, s0, s0')
    requires Placing(RelabelledLayout(h, d), Relabelled(d), Reuse(d, asmap), s0', 0)
    requires s == NewsPlaced(h, d, Reuse(d, asmap), s0, |d.news|)
    requires s' == NewsPlaced(RelabelledLayout(h, d), Relabelled(d), Reuse(d, asmap), s0', |d.news|)
    ensures Filled(h, d, asmap, s, s') && Pruning(RelabelledLayout(h, d), s', s', s'.mapInfo.Keys)
  {
    RelabelledLayoutOk(h, d);
    NewsPlacedOk(RelabelledLayout(h, d), Relabelled(d), Reuse(d, asmap), s0', |d.news|);
    TwinsPlaced(h, d, Reuse(d, asmap), s0, s0', |d.news|);
    PruneStart(RelabelledLayout(h, d), s');
  }

  lemma PruneReady(h': Layout, d: Disk, s: State, s': State)
    requires Twins(d, s, s') && Pruning(h', s', s', s'.mapInfo.Keys)
    ensures Erasing(h', d, s, s', s, s', s.mapInfo.Keys)
  {
    assert Unplaced(s.mapInfo) - s.mapInfo.Keys == {};
    assert Addresses(s.mapInfo, {}) == {};
    assert s.mapAddr - {} == s.mapAddr;
  }

  /** The loops that place and prune. */
  method PlaceAndPrune(h: Layout, d: Disk, asmap: nat, s0: State, ghost s0': State)
    returns (t: State, ghost source: map<int, nat>)
    requires LayoutOk(h) && Twins(d, s0, s0') && Filed(s0)
    requires Placing(RelabelledLayout(h, d), Relabelled(d), Reuse(d, asmap), s0', 0)
    ensures RebuiltTables(h, d, asmap, t, source) && RebuiltIndex(h, d, asmap, t)
  {
    ghost var h' := RelabelledLayout(h, d);
    forall n: nat | n < |d.news| ensures NextWaits(h, d, Reuse(d, asmap), s0, n) {
      TwinWaits(h, d, Reuse(d, asmap), s0, s0', n);
    }
    var s := PlaceNews(h, d, asmap, s0);
    ghost var s' := NewsPlaced(h', Relabelled(d), Reuse(d, asmap), s0', |d.news|);
    ReadyToPrune(h, d, asmap, s0, s0', s, s');
    FiledPlaced(h, d, Reuse(d, asmap), s0, |d.news|);
    PruneReady(h', d, s, s');
    ghost var t';
    t, t' := Prune(s, h', d, s');
    PruneDone(h, d, asmap, s, s', t, t');
    PrunedTables(h, d, asmap, s, s', t, t');
    PrunedIndex(h, d, asmap, s, s', t, t');
    source := Sources(t');
  }

  lemma PruneDone(h: Layout, d: Disk, asmap: nat, s: State, s': State, t: State, t': State)
    requires Filled(h, d, asmap, s, s') && Filed(s) && Erasing(RelabelledLayout(h, d), d, s, s', t, t', {})
    ensures Emptied(h, d, asmap, s, s', t, t') && Unfiled(s, t)
  {
    PruneEnd(RelabelledLayout(h, d), s', t');
    assert Unplaced(s.mapInfo) - {} == Unplaced(s.mapInfo);
  }

  /** Unserialize, on every file: it rejects only oversized counts, what it builds is sound, and it is
      consistent exactly when no kept record shares its address with another loaded one and the kept
      records have sensible times. */
  method Unserialize(h: Layout, d: Disk, asmap: nat) returns (r: Option<State>, ghost source: map<int, nat>)
    requires LayoutOk(h)
    ensures r.Some? <==> |d.news| <= NEW_BUCKET_COUNT * BUCKET_SIZE && |d.trieds| <= TRIED_BUCKET_COUNT * BUCKET_SIZE
    ensures r.Some? ==> Rebuilt(h, d, asmap, r.value, source)
    ensures r.Some? ==> (Consistent(h, r.value) <==> AddressesDiffer(h, d, asmap) && RecordTimesOk(h, d, asmap))
  {
    if |d.news| > NEW_BUCKET_COUNT * BUCKET_SIZE || |d.trieds| > TRIED_BUCKET_COUNT * BUCKET_SIZE {
      return None, map[];
    }
    var s := LoadNews(d);
    NewsLoadedNoTried(d, |d.news|);
    s := LoadTrieds(h, d, s);
    ghost var s' := TriedsLoaded(RelabelledLayout(h, d), Relabelled(d), NewsLoaded(Relabelled(d), |d.news|),
                                 |d.trieds|);
    EntriesTwins(h, d, s, s');
    TwinReady(h, d, Reuse(d, asmap));
    var t;
    t, source := PlaceAndPrune(h, d, asmap, s, s');
    ConsistentExactly(h, d, asmap, t, source);
    r := Some(t);
  }

  lemma EntriesTwins(h: Layout, d: Disk, s: State, s': State)
    requires s == TriedsLoaded(h, d, NewsLoaded(d, |d.news|), |d.trieds|)
    requires s' == TriedsLoaded(RelabelledLayout(h, d), Relabelled(d), NewsLoaded(Relabelled(d), |d.news|), |d.trieds|)
    ensures Twins(d, s, s') && Filed(s)
  {
    TwinsNews(d, |d.news|);
    TwinsTrieds(h, d, NewsLoaded(d, |d.news|), NewsLoaded(Relabelled(d), |d.news|), |d.trieds|);
    FiledNews(d, |d.news|);
    FiledTrieds(h, d, NewsLoaded(d, |d.news|), |d.trieds|);
  }

  // ----- files that repeat an address -----------------------------------------------------------

  /** A file without repeated addresses and with sensible times loads consistently, whatever the asmap. */
  lemma LoadableIsConsistent(h: Layout, d: Disk, asmap: nat)
    requires Loadable(d)
    ensures AddressesDiffer(h, d, asmap) && RecordTimesOk(h, d, asmap)
  {
  }

  /** Two untried records of one service under an old file version: the second finds the slot taken and
      its deletion erases the address of the first, which stays in the tables. */
  lemma RepeatedUntriedBreaks(h: Layout, r: Record, asmap: nat, t: State, source: map<int, nat>)
    requires Rebuilt(h, Disk(0, [r, r], [], [], 0), asmap, t, source)
    ensures !Consistent(h, t) && 0 in t.mapInfo && r.service.ip !in t.mapAddr
  {
    var d := Disk(0, [r, r], [], [], 0);
    var x := Fallback(h, d, 0);
    assert Placed(h, d, false, 1) == map[x := 0];
    assert Placed(h, d, false, 2) == map[x := 0];
    assert x in Placed(h, d, false, 2) && At(Placed(h, d, false, 2), x) == 0;
    assert Keeps(h, d, asmap, 0) && Loaded(h, d, 1) && !Keeps(h, d, asmap, 1);
    assert Address(d, 0) == Address(d, 1);
    ConsistentExactly(h, d, asmap, t, source);
    assert !StaysFiled(h, d, asmap, r.service.ip);
    assert IsUsed(source, 0);
  }

  lemma FirstOfTwo(h: Layout, d: Disk, x: Slot)
    requires |d.trieds| == 2 && x == TriedHome(h, d, 0)
    ensures FirstAt(h, d, 2, x) == 0
  {
    assert FirstAt(h, d, 0, x) == -1;
    assert FirstAt(h, d, 1, x) == 0;
  }

  lemma SecondIsLost(h: Layout, r: Record, d: Disk, asmap: nat)
    requires d == Disk(2, [], [r, r], [], asmap) && r.lastSuccess > 0
    ensures AddressesDiffer(h, d, asmap) && RecordTimesOk(h, d, asmap)
  {
    FirstOfTwo(h, d, TriedHome(h, d, 0));
    OnlyFirstLoaded(h, r, d);
    assert All(d) == [r, r];
  }

  lemma OnlyFirstLoaded(h: Layout, r: Record, d: Disk)
    requires d.news == [] && d.trieds == [r, r] && FirstAt(h, d, 2, TriedHome(h, d, 0)) == 0
    ensures forall i: nat :: Loaded(h, d, i) ==> i == 0
  {
    assert TriedHome(h, d, 1) == TriedHome(h, d, 0);
  }

  /** Two tried records of one service do no harm: the second is lost to the first. */
  lemma RepeatedTriedIsHarmless(h: Layout, r: Record, asmap: nat, t: State, source: map<int, nat>)
    requires r.lastSuccess > 0 && Rebuilt(h, Disk(2, [], [r, r], [], asmap), asmap, t, source)
    ensures Consistent(h, t)
  {
    var d := Disk(2, [], [r, r], [], asmap);
    SecondIsLost(h, r, d, asmap);
    ConsistentExactly(h, d, asmap, t, source);
  }

  // ----- the round trip -------------------------------------------------------------------------

  lemma RebuiltLoaded(h: Layout, d: Disk, asmap: nat, t: State, source: map<int, nat>)
    requires Rebuilt(h, d, asmap, t, source) && Consistent(h, t)
    ensures LoadedFrom(h, d, asmap, t)
  {
    forall n | n in t.mapInfo
      ensures n >= |d.news| ==> t.mapInfo[n].inTried
      ensures 0 <= n < |d.news| ==> !t.mapInfo[n].inTried && RecordOf(t.mapInfo[n]) == d.news[n]
    {
      assert IsSource(h, d, asmap, n, t.mapInfo[n], source[n]);
    }
  }

  /** Dump and restart with the same key and asmap: the file is always accepted and nothing is lost. */
  method SaveAndLoad(hasher: Hasher, s: State, asmap: nat) returns (r: Option<State>)
    requires ConsistentBut(hasher.Slots(), s, {}, 0)
    ensures r.Some? && Survives(hasher.Slots(), s, r.value)
  {
    var h := hasher.Slots();
    SlotsOk(hasher);
    SlotsInArrays(hasher, s);
    var d, newIds, triedIds := Serialize(h, s, asmap);
    WrittenLoadable(h, s, asmap, d, newIds, triedIds);
    CountsFit(h, s);
    ghost var source;
    r, source := Unserialize(h, d, asmap);
    LoadableIsConsistent(h, d, asmap);
    RebuiltLoaded(h, d, asmap, r.value, source);
    RoundTrip(h, s, asmap, d, newIds, triedIds, r.value);
  }
}
