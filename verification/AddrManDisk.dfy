/** Saving the address manager and loading it again: what a file written by Serialize holds, what
    Unserialize makes of any such file, and what survives the round trip. */
module AddrManDisk {
  import opened SetSums
  import opened AddrManState
  import opened AddrManTried
  import opened AddrMan

  /** What is stored of an entry. */
  datatype Record = Record(service: Service, services: set<nat>, time: int, source: NetAddr, lastSuccess: int,
                           attempts: int)

  function RecordOf(i: Info): Record { Record(i.service, i.services, i.time, i.source, i.lastSuccess, i.attempts) }

  function Fresh(r: Record): Info {
    Info(r.service, r.services, r.time, r.source, 0, 0, r.lastSuccess, r.attempts, 0, false, -1)
  }

  /** The file after the key: the untried and the tried entries, for each bucket of the new table the
      indexes of its entries, and the version of the asmap in use. */
  datatype Disk = Disk(version: nat, news: seq<Record>, trieds: seq<Record>, buckets: seq<seq<int>>, asmap: nat)

  datatype Option<T> = None | Some(value: T)

  // ----- Serialize ------------------------------------------------------------------------------

  /** The ids of a set, each once. */
  ghost predicate Lists(ids: seq<int>, all: set<int>) {
    && |ids| == |all|
    && (forall k :: 0 <= k < |ids| ==> ids[k] in all)
    && (forall j, k :: 0 <= j < k < |ids| ==> ids[j] != ids[k])
    && (forall n :: n in all ==> n in ids)
  }

  ghost predicate Stores(info: Infos, ids: seq<int>, records: seq<Record>) {
    && |records| == |ids|
    && forall k :: 0 <= k < |ids| ==> ids[k] in info && records[k] == RecordOf(info[ids[k]])
  }

  /** The place of an id in a list, or -1. */
  ghost function IndexOf(ids: seq<int>, n: int): (r: int)
    ensures -1 <= r < |ids| && (r >= 0 ==> ids[r] == n)
  {
    if ids == [] then -1
    else if ids[|ids| - 1] == n then |ids| - 1
    else IndexOf(ids[..|ids| - 1], n)
  }

  /** The indexes of the entries in the first n positions of a bucket, in order. */
  ghost function Row(vnew: Table, ids: seq<int>, b: nat, n: nat): seq<int> {
    if n == 0 then [] else
    Row(vnew, ids, b, n - 1) + if Slot(b, n - 1) in vnew then [IndexOf(ids, At(vnew, Slot(b, n - 1)))] else []
  }

  ghost predicate Rows(vnew: Table, ids: seq<int>, buckets: seq<seq<int>>) {
    forall b :: 0 <= b < |buckets| ==> buckets[b] == Row(vnew, ids, b, BUCKET_SIZE)
  }

  /** What Serialize writes for a state. */
  ghost predicate Written(s: State, asmap: nat, d: Disk, newIds: seq<int>, triedIds: seq<int>) {
    && d.version == 2 && d.asmap == asmap && |d.buckets| == NEW_BUCKET_COUNT
    && Lists(newIds, NewIds(s.mapInfo)) && Stores(s.mapInfo, newIds, d.news)
    && Lists(triedIds, TriedIds(s.mapInfo)) && Stores(s.mapInfo, triedIds, d.trieds)
    && Rows(s.vvNew, newIds, d.buckets)
  }

  lemma ListsMore(ids: seq<int>, all: set<int>, rest: set<int>, n: int)
    requires Lists(ids, all - rest) && n in rest && n in all
    ensures Lists(ids + [n], all - (rest - {n}))
  {
    assert all - (rest - {n}) == (all - rest) + {n};
    var ids' := ids + [n];
    assert forall k :: 0 <= k < |ids| ==> ids'[k] == ids[k];
    forall m | m in all - (rest - {n}) ensures m in ids' {
      if m == n { assert ids'[|ids|] == n; } else { assert m in ids; }
    }
  }

  lemma ListsSame(ids: seq<int>, all: set<int>, rest: set<int>, n: int)
    requires Lists(ids, all - rest) && n !in all
    ensures Lists(ids, all - (rest - {n}))
  {
    assert all - (rest - {n}) == all - rest;
  }

  lemma NotYetListed(ids: seq<int>, all: set<int>, rest: set<int>, n: int)
    requires Lists(ids, all - rest) && n in rest && n in all
    ensures |ids| < |all|
  {
    SubsetSize(all - rest, all - {n});
  }

  /** The loops over mapInfo: the wanted ids met so far are listed and their records stored. */
  ghost predicate Saving(info: Infos, all: set<int>, rest: set<int>, ids: seq<int>, records: seq<Record>) {
    rest <= info.Keys && all <= info.Keys && Lists(ids, all - rest) && Stores(info, ids, records)
  }

  lemma SavingStart(info: Infos, all: set<int>)
    requires all <= info.Keys
    ensures Saving(info, all, info.Keys, [], [])
  {
    assert all - info.Keys == {};
  }

  lemma SavingMore(info: Infos, all: set<int>, rest: set<int>, ids: seq<int>, records: seq<Record>, n: int)
    requires Saving(info, all, rest, ids, records) && n in rest && n in all
    ensures |records| == |ids| < |all| && n !in ids
    ensures Saving(info, all, rest - {n}, ids + [n], records + [RecordOf(info[n])])
  {
    NotYetListed(ids, all, rest, n);
    ListsMore(ids, all, rest, n);
  }

  lemma SavingSame(info: Infos, all: set<int>, rest: set<int>, ids: seq<int>, records: seq<Record>, n: int)
    requires Saving(info, all, rest, ids, records) && n in rest && n !in all
    ensures n !in ids && Saving(info, all, rest - {n}, ids, records)
  {
    ListsSame(ids, all, rest, n);
  }

  lemma SavingEnd(info: Infos, all: set<int>, ids: seq<int>, records: seq<Record>)
    requires Saving(info, all, {}, ids, records)
    ensures Lists(ids, all) && Stores(info, ids, records)
  {
    assert all - {} == all;
  }

  ghost predicate Ranked(ids: seq<int>, rank: map<int, int>) {
    forall k :: 0 <= k < |ids| ==> ids[k] in rank && rank[ids[k]] == k
  }

  /** The first loop: the untried entries, and the index of each in the file. */
  method WriteNews(s: State) returns (news: seq<Record>, ids: seq<int>, rank: map<int, int>)
    requires RecordsOk(s, {}, 0)
    ensures Lists(ids, NewIds(s.mapInfo)) && Stores(s.mapInfo, ids, news) && Ranked(ids, rank)
  {
    ghost var all := NewIds(s.mapInfo);
    SavingStart(s.mapInfo, all);
    news, ids, rank := [], [], map[];
    var rest := s.mapInfo.Keys;
    while rest != {}
      invariant Saving(s.mapInfo, all, rest, ids, news) && Ranked(ids, rank)
    {
      NonEmpty(rest);
      var n :| n in rest;
      rank := rank[n := |news|];
      assert n in all <==> s.mapInfo[n].refCount != 0;
      if s.mapInfo[n].refCount != 0 {
        SavingMore(s.mapInfo, all, rest, ids, news, n);
        assert |news| != s.nNew;
        news, ids := news + [RecordOf(s.mapInfo[n])], ids + [n];
      } else {
        SavingSame(s.mapInfo, all, rest, ids, news, n);
      }
      rest := rest - {n};
    }
    SavingEnd(s.mapInfo, all, ids, news);
  }

  /** The second loop: the tried entries. */
  method WriteTrieds(s: State) returns (trieds: seq<Record>, ghost ids: seq<int>)
    requires RecordsOk(s, {}, 0)
    ensures Lists(ids, TriedIds(s.mapInfo)) && Stores(s.mapInfo, ids, trieds)
  {
    ghost var all := TriedIds(s.mapInfo);
    SavingStart(s.mapInfo, all);
    trieds, ids := [], [];
    var rest := s.mapInfo.Keys;
    while rest != {}
      invariant Saving(s.mapInfo, all, rest, ids, trieds)
    {
      NonEmpty(rest);
      var n :| n in rest;
      if s.mapInfo[n].inTried {
        SavingMore(s.mapInfo, all, rest, ids, trieds, n);
        assert |trieds| != s.nTried;
        trieds, ids := trieds + [RecordOf(s.mapInfo[n])], ids + [n];
      } else {
        SavingSame(s.mapInfo, all, rest, ids, trieds, n);
      }
      rest := rest - {n};
    }
    SavingEnd(s.mapInfo, all, ids, trieds);
  }

  lemma {:induction false} IndexOfUnique(ids: seq<int>, k: nat)
    requires k < |ids| && forall j, k :: 0 <= j < k < |ids| ==> ids[j] != ids[k]
    ensures IndexOf(ids, ids[k]) == k
  {
    var last := |ids| - 1;
    if k < last {
      assert ids[k] != ids[last];
      IndexOfUnique(ids[..last], k);
      assert ids[..last][k] == ids[k];
    }
  }

  /** An index in the row stands for a filled slot. */
  lemma {:induction false} RowHas(vnew: Table, ids: seq<int>, b: nat, n: nat, k: int) returns (x: Slot)
    requires k in Row(vnew, ids, b, n)
    ensures x.bucket == b && x.pos < n && x in vnew && IndexOf(ids, At(vnew, x)) == k
  {
    if k in Row(vnew, ids, b, n - 1) {
      x := RowHas(vnew, ids, b, n - 1, k);
    } else {
      x := Slot(b, n - 1);
    }
  }

  /** Every filled slot has its index in the row. */
  lemma {:induction false} RowLists(vnew: Table, ids: seq<int>, x: Slot, n: nat)
    requires x in vnew && x.pos < n
    ensures IndexOf(ids, At(vnew, x)) in Row(vnew, ids, x.bucket, n)
  {
    if x.pos == n - 1 {
      assert x == Slot(x.bucket, n - 1);
      var row := Row(vnew, ids, x.bucket, n);
      assert row[|row| - 1] == IndexOf(ids, At(vnew, x));
    } else {
      RowLists(vnew, ids, x, n - 1);
    }
  }

  /** The slots of the new table are the cells of its array. */
  ghost predicate InArray(vnew: Table) {
    forall x :: x in vnew ==> x.bucket < NEW_BUCKET_COUNT && x.pos < BUCKET_SIZE
  }

  /** Every entry of the new table has its index in the file. */
  ghost predicate Indexed(vnew: Table, ids: seq<int>, rank: map<int, int>) {
    forall x :: x in vnew ==> At(vnew, x) in rank && rank[At(vnew, x)] == IndexOf(ids, At(vnew, x)) >= 0
  }

  method WriteRow(vnew: Table, ghost ids: seq<int>, rank: map<int, int>, b: nat) returns (row: seq<int>)
    requires Indexed(vnew, ids, rank)
    ensures row == Row(vnew, ids, b, BUCKET_SIZE)
  {
    row := [];
    var i := 0;
    while i < BUCKET_SIZE
      invariant 0 <= i <= BUCKET_SIZE && row == Row(vnew, ids, b, i)
    {
      var x := Slot(b, i);
      if x in vnew {
        row := row + [rank[At(vnew, x)]];
      }
      i := i + 1;
    }
  }

  lemma NewEntriesIndexed(h: Layout, s: State, ids: seq<int>, rank: map<int, int>)
    requires NewOk(h, s.mapInfo, s.vvNew) && Lists(ids, NewIds(s.mapInfo)) && Ranked(ids, rank)
    ensures Indexed(s.vvNew, ids, rank)
  {
    forall x | x in s.vvNew
      ensures At(s.vvNew, x) in rank && rank[At(s.vvNew, x)] == IndexOf(ids, At(s.vvNew, x)) >= 0
    {
      var n := At(s.vvNew, x);
      assert n in NewIds(s.mapInfo);
      var k :| 0 <= k < |ids| && ids[k] == n;
      IndexOfUnique(ids, k);
    }
  }

  /** Serialize: the counts it asserts are right, and the file lists exactly the entries and slots. */
  method Serialize(h: Layout, s: State, asmap: nat) returns (d: Disk, ghost newIds: seq<int>, ghost triedIds: seq<int>)
    requires ConsistentBut(h, s, {}, 0)
    ensures Written(s, asmap, d, newIds, triedIds)
  {
    var news, ids, rank := WriteNews(s);
    var trieds;
    newIds := ids;
    trieds, triedIds := WriteTrieds(s);
    NewEntriesIndexed(h, s, newIds, rank);
    var buckets: seq<seq<int>> := [];
    while |buckets| < NEW_BUCKET_COUNT
      invariant |buckets| <= NEW_BUCKET_COUNT && Rows(s.vvNew, newIds, buckets)
    {
      var row := WriteRow(s.vvNew, newIds, rank, |buckets|);
      buckets := buckets + [row];
    }
    d := Disk(2, news, trieds, buckets, asmap);
  }

  // ----- Unserialize: the entries ---------------------------------------------------------------

  /** What a manager never breaks and a file it wrote therefore keeps: no address twice, sensible times. */
  ghost predicate Loadable(d: Disk) {
    && (forall j, k :: 0 <= j < k < |d.news| ==> d.news[j].service.ip != d.news[k].service.ip)
    && (forall j, k :: 0 <= j < k < |d.trieds| ==> d.trieds[j].service.ip != d.trieds[k].service.ip)
    && (forall j, k :: 0 <= j < |d.news| && 0 <= k < |d.trieds| ==> d.news[j].service.ip != d.trieds[k].service.ip)
    && (forall k :: 0 <= k < |d.news| ==> d.news[k].lastSuccess >= 0)
    && (forall k :: 0 <= k < |d.trieds| ==> d.trieds[k].lastSuccess > 0)
  }

  function Cleared(nNew: int): State { State(0, map[], map[], [], 0, map[], nNew, map[], {}) }

  /** The first n untried entries read, under their indexes as ids. */
  ghost function NewsLoaded(d: Disk, n: nat): State
    requires n <= |d.news|
  {
    if n == 0 then Cleared(|d.news|) else Created(NewsLoaded(d, n - 1), Fresh(d.news[n - 1]))
  }

  ghost predicate NewsRead(d: Disk, s: State, n: nat) {
    && n <= |d.news|
    && forall k :: 0 <= k < n ==> k in s.mapInfo && !s.mapInfo[k].inTried && RecordOf(s.mapInfo[k]) == d.news[k]
  }

  /** They wait in limbo, in no bucket yet. */
  ghost predicate LoadingNew(h: Layout, d: Disk, s: State, n: nat) {
    && NewsRead(d, s, n) && ConsistentBut(h, s, NewIds(s.mapInfo), n - |d.news|)
    && s.nIdCount == n && s.vvNew == map[] && s.vvTried == map[] && s.triedCollisions == {}
  }

  lemma NewAddressUnknown(h: Layout, d: Disk, s: State, n: nat)
    requires Loadable(d) && LoadingNew(h, d, s, n) && n < |d.news|
    ensures d.news[n].service.ip !in s.mapAddr
  {
    forall a | a in s.mapAddr ensures a != d.news[n].service.ip {
      assert RecordOf(s.mapInfo[s.mapAddr[a]]) == d.news[s.mapAddr[a]];
    }
  }

  lemma CreatedIds(s: State, i: Info)
    requires s.nIdCount !in s.mapInfo
    ensures NewIds(Created(s, i).mapInfo) == NewIds(s.mapInfo) + {s.nIdCount}
  {
    CreateIds(s.mapInfo, s.nIdCount, i.(randomPos := |s.vRandom|, refCount := 0, inTried := false));
  }

  lemma NewsReadNext(d: Disk, s: State, n: nat)
    requires NewsRead(d, s, n) && n < |d.news| && s.nIdCount == n
    ensures NewsRead(d, Created(s, Fresh(d.news[n])), n + 1)
  {
  }

  lemma LoadNewNext(h: Layout, d: Disk, s: State, n: nat)
    requires Loadable(d) && LoadingNew(h, d, s, n) && n < |d.news|
    ensures LoadingNew(h, d, Created(s, Fresh(d.news[n])), n + 1)
  {
    NewAddressUnknown(h, d, s, n);
    CreateKeeps(h, s, Fresh(d.news[n]), NewIds(s.mapInfo), n - |d.news|);
    CreatedIds(s, Fresh(d.news[n]));
    NewsReadNext(d, s, n);
  }

  lemma LoadStart(h: Layout, d: Disk)
    ensures LoadingNew(h, d, Cleared(|d.news|), 0)
  {
    var s := Cleared(|d.news|);
    assert TriedIds(s.mapInfo) == {} && NewIds(s.mapInfo) == {};
  }

  lemma {:induction false} NewsInduction(d: Disk, n: nat, p: (State, nat) -> bool)
    requires n <= |d.news| && p(Cleared(|d.news|), 0)
    requires forall s, k: nat :: k < |d.news| && p(s, k) ==> p(Created(s, Fresh(d.news[k])), k + 1)
    ensures p(NewsLoaded(d, n), n)
  {
    if n == 0 {
    } else {
      NewsInduction(d, n - 1, p);
    }
  }

  lemma NewsLoadedOk(h: Layout, d: Disk)
    requires Loadable(d)
    ensures LoadingNew(h, d, NewsLoaded(d, |d.news|), |d.news|)
  {
    var p := (s: State, k: nat) => LoadingNew(h, d, s, k);
    forall s, k: nat | k < |d.news| && p(s, k) ensures p(Created(s, Fresh(d.news[k])), k + 1) {
      LoadNewNext(h, d, s, k);
    }
    LoadStart(h, d);
    NewsInduction(d, |d.news|, p);
  }

  lemma {:induction false} NewsLoadedCount(d: Disk, n: nat)
    requires n <= |d.news|
    ensures NewsLoaded(d, n).nIdCount == n
  {
    if n == 0 {
    } else {
      NewsLoadedCount(d, n - 1);
    }
  }

  /** The loop over the untried entries. */
  method LoadNews(d: Disk) returns (s: State)
    ensures s == NewsLoaded(d, |d.news|)
  {
    s := Cleared(|d.news|);
    var n := 0;
    while n < |d.news|
      invariant 0 <= n <= |d.news| && s == NewsLoaded(d, n)
    {
      NewsLoadedCount(d, n);
      s := LoadNew(s, d.news[n], n);
      n := n + 1;
    }
  }

  method LoadNew(s: State, r: Record, n: nat) returns (s': State)
    requires s.nIdCount == n
    ensures s' == Created(s, Fresh(r))
  {
    s' := s.(mapInfo := s.mapInfo[n := Fresh(r)], mapAddr := s.mapAddr[r.service.ip := n]);
    s' := s'.(mapInfo := s'.mapInfo[n := s'.mapInfo[n].(randomPos := |s.vRandom|)], vRandom := s.vRandom + [n]);
    s' := s'.(nIdCount := n + 1);
  }

  // ----- Unserialize: the tried table -----------------------------------------------------------

  function TriedHome(h: Layout, d: Disk, j: nat): Slot
    requires j < |d.trieds|
  {
    h.triedSlot(d.trieds[j].service)
  }

  /** A tried record takes its slot if that is free and is lost otherwise. */
  ghost function TriedsLoaded(h: Layout, d: Disk, s0: State, m: nat): State
    requires m <= |d.trieds|
  {
    if m == 0 then s0 else WithTriedRecord(h, TriedsLoaded(h, d, s0, m - 1), d.trieds[m - 1])
  }

  function WithTriedRecord(h: Layout, s: State, r: Record): State {
    if h.triedSlot(r.service) in s.vvTried then s else Entered(h, Created(s, Fresh(r)), s.nIdCount)
  }

  /** The first of m tried records that wants a slot, or -1. */
  ghost function FirstAt(h: Layout, d: Disk, m: nat, x: Slot): (j: int)
    requires m <= |d.trieds|
    ensures -1 <= j < m
  {
    if m == 0 then -1 else
    var f := FirstAt(h, d, m - 1, x);
    if f >= 0 then f else if TriedHome(h, d, m - 1) == x then m - 1 else -1
  }

  lemma {:induction false} FirstAtMeans(h: Layout, d: Disk, m: nat, x: Slot)
    requires m <= |d.trieds|
    ensures var j := FirstAt(h, d, m, x);
      && (j >= 0 ==> TriedHome(h, d, j) == x)
      && (forall i :: 0 <= i < m && TriedHome(h, d, i) == x ==> 0 <= j <= i)
  {
    if m == 0 {
    } else {
      FirstAtMeans(h, d, m - 1, x);
    }
  }

  /** How many different slots m tried records want. */
  ghost function SlotCount(h: Layout, d: Disk, m: nat): int
    requires m <= |d.trieds|
  {
    if m == 0 then 0
    else SlotCount(h, d, m - 1) + if FirstAt(h, d, m - 1, TriedHome(h, d, m - 1)) >= 0 then 0 else 1
  }

  /** Of the tried records read so far, the first for each slot has it. */
  ghost predicate TriedRead(h: Layout, d: Disk, s: State, m: nat) {
    && m <= |d.trieds| && s.nTried == SlotCount(h, d, m)
    && (forall x :: x in s.vvTried <==> FirstAt(h, d, m, x) >= 0)
    && (forall x :: x in s.vvTried ==>
          At(s.vvTried, x) in s.mapInfo && RecordOf(s.mapInfo[At(s.vvTried, x)]) == d.trieds[FirstAt(h, d, m, x)])
  }

  ghost predicate LoadingTried(h: Layout, d: Disk, s: State, m: nat) {
    NewsWaiting(d, s) && TriedRead(h, d, s, m) && ConsistentBut(h, s, NewIds(s.mapInfo), 0)
  }

  /** A tried entry is one of the records read so far. */
  lemma TriedRecordOf(h: Layout, d: Disk, s: State, m: nat, n: int)
    requires TriedRead(h, d, s, m) && TriedOk(h, s.mapInfo, s.vvTried) && n in s.mapInfo && n >= 0
    requires s.mapInfo[n].inTried
    ensures var j := FirstAt(h, d, m, h.triedSlot(s.mapInfo[n].service));
      0 <= j && RecordOf(s.mapInfo[n]) == d.trieds[j]
  {
    assert At(s.vvTried, h.triedSlot(s.mapInfo[n].service)) == n;
  }

  lemma TriedAddressUnknown(h: Layout, d: Disk, s: State, m: nat)
    requires Loadable(d) && LoadingTried(h, d, s, m) && m < |d.trieds|
    ensures d.trieds[m].service.ip !in s.mapAddr
  {
    forall a | a in s.mapAddr ensures a != d.trieds[m].service.ip {
      var n := s.mapAddr[a];
      if n < |d.news| {
        assert RecordOf(s.mapInfo[n]) == d.news[n];
      } else {
        TriedRecordOf(h, d, s, m, n);
      }
    }
  }

  lemma TriedReadKept(h: Layout, d: Disk, s: State, m: nat)
    requires TriedRead(h, d, s, m) && m < |d.trieds| && TriedHome(h, d, m) in s.vvTried
    ensures TriedRead(h, d, s, m + 1)
  {
    forall x ensures FirstAt(h, d, m + 1, x) == FirstAt(h, d, m, x) {
    }
  }

  lemma TriedReadMore(h: Layout, d: Disk, s: State, s': State, m: nat, id: int)
    requires TriedRead(h, d, s, m) && m < |d.trieds| && TriedHome(h, d, m) !in s.vvTried && id !in s.mapInfo
    requires s'.vvTried == s.vvTried[TriedHome(h, d, m) := id] && s'.nTried == s.nTried + 1
    requires id in s'.mapInfo && RecordOf(s'.mapInfo[id]) == d.trieds[m]
    requires forall n :: n in s.mapInfo ==> n in s'.mapInfo && s'.mapInfo[n] == s.mapInfo[n]
    ensures TriedRead(h, d, s', m + 1)
  {
    var y := TriedHome(h, d, m);
    forall x ensures FirstAt(h, d, m + 1, x) == if x == y then m else FirstAt(h, d, m, x) {
    }
    forall x | x in s'.vvTried
      ensures At(s'.vvTried, x) == if x == y then id else At(s.vvTried, x)
    {
    }
  }

  /** What the tried records leave alone. */
  ghost predicate NewsWaiting(d: Disk, s: State) {
    && NewsRead(d, s, |d.news|) && s.vvNew == map[] && s.triedCollisions == {}
    && (forall n :: n in s.mapInfo && n >= |d.news| ==> s.mapInfo[n].inTried)
  }

  lemma EnterRecordLeaves(h: Layout, d: Disk, s: State, r: Record)
    requires NewsWaiting(d, s) && s.nIdCount !in s.mapInfo && s.nIdCount >= |d.news|
    ensures NewsWaiting(d, WithTriedRecord(h, s, r))
  {
  }

  lemma LoadTriedNext(h: Layout, d: Disk, s: State, m: nat)
    requires Loadable(d) && LoadingTried(h, d, s, m) && m < |d.trieds|
    ensures LoadingTried(h, d, WithTriedRecord(h, s, d.trieds[m]), m + 1)
  {
    var r := d.trieds[m];
    if TriedHome(h, d, m) in s.vvTried {
      TriedReadKept(h, d, s, m);
    } else {
      TriedAddressUnknown(h, d, s, m);
      IdsBelowCount(h, d, s);
      EnterRecordKeeps(h, s, r, NewIds(s.mapInfo));
      EnterRecordIds(h, s, r);
      EnterRecordLeaves(h, d, s, r);
      TriedReadMore(h, d, s, WithTriedRecord(h, s, r), m, s.nIdCount);
    }
  }

  lemma IdsBelowCount(h: Layout, d: Disk, s: State)
    requires IndexOk(s) && NewsWaiting(d, s)
    ensures s.nIdCount !in s.mapInfo && s.nIdCount >= |d.news|
  {
    if |d.news| > 0 { assert |d.news| - 1 in s.mapInfo; }
  }

  lemma EnterRecordKeeps(h: Layout, s: State, r: Record, limbo: set<int>)
    requires ConsistentBut(h, s, limbo, 0) && r.service.ip !in s.mapAddr && r.lastSuccess > 0
    requires h.triedSlot(r.service) !in s.vvTried
    ensures ConsistentBut(h, WithTriedRecord(h, s, r), limbo, 0)
  {
    var id := s.nIdCount;
    assert id !in limbo;
    CreateKeeps(h, s, Fresh(r), limbo, 0);
    EnterKeeps(h, Created(s, Fresh(r)), id, limbo + {id}, 1);
    assert limbo + {id} - {id} == limbo;
  }

  lemma EnterRecordIds(h: Layout, s: State, r: Record)
    requires h.triedSlot(r.service) !in s.vvTried && s.nIdCount !in s.mapInfo
    ensures NewIds(WithTriedRecord(h, s, r).mapInfo) == NewIds(s.mapInfo)
  {
    var s' := WithTriedRecord(h, s, r);
    assert s'.mapInfo == s.mapInfo[s.nIdCount := s'.mapInfo[s.nIdCount]];
  }

  lemma LoadTriedStart(h: Layout, d: Disk, s: State)
    requires LoadingNew(h, d, s, |d.news|)
    ensures LoadingTried(h, d, s, 0)
  {
    forall n | n in s.mapInfo ensures !s.mapInfo[n].inTried {
      assert At(s.vvTried, h.triedSlot(s.mapInfo[n].service)) == -1;
    }
    assert TriedIds(s.mapInfo) == {};
  }

  /** What each tried record keeps holds at the end. */
  lemma {:induction false} TriedsInduction(h: Layout, d: Disk, s0: State, m: nat, p: (State, nat) -> bool)
    requires m <= |d.trieds| && p(s0, 0)
    requires forall s, k: nat :: k < |d.trieds| && p(s, k) ==> p(WithTriedRecord(h, s, d.trieds[k]), k + 1)
    ensures p(TriedsLoaded(h, d, s0, m), m)
  {
    if m == 0 {
    } else {
      TriedsInduction(h, d, s0, m - 1, p);
    }
  }

  lemma TriedsLoadedOk(h: Layout, d: Disk, s0: State)
    requires Loadable(d) && LoadingTried(h, d, s0, 0)
    ensures LoadingTried(h, d, TriedsLoaded(h, d, s0, |d.trieds|), |d.trieds|)
  {
    var p := (s: State, k: nat) => LoadingTried(h, d, s, k);
    forall s, k: nat | k < |d.trieds| && p(s, k) ensures p(WithTriedRecord(h, s, d.trieds[k]), k + 1) {
      LoadTriedNext(h, d, s, k);
    }
    TriedsInduction(h, d, s0, |d.trieds|, p);
  }

  /** The loop over the tried entries: nTried starts from the file and gives up the lost ones. */
  method LoadTrieds(h: Layout, d: Disk, s0: State) returns (s: State)
    requires s0.nTried == 0
    ensures s == TriedsLoaded(h, d, s0, |d.trieds|)
  {
    s := s0;
    var nLost, m := 0, 0;
    while m < |d.trieds|
      invariant 0 <= m <= |d.trieds| && s == TriedsLoaded(h, d, s0, m) && s.nTried == m - nLost
    {
      var r := d.trieds[m];
      if h.triedSlot(r.service) in s.vvTried {
        nLost := nLost + 1;
      } else {
        s := LoadTried(h, s, r);
      }
      m := m + 1;
    }
    s := s.(nTried := |d.trieds| - nLost);
  }

  method LoadTried(h: Layout, s: State, r: Record) returns (s': State)
    requires h.triedSlot(r.service) !in s.vvTried
    ensures s' == WithTriedRecord(h, s, r)
  {
    var id := s.nIdCount;
    var info := Fresh(r).(randomPos := |s.vRandom|, inTried := true);
    s' := s.(vRandom := s.vRandom + [id], mapInfo := s.mapInfo[id := info], mapAddr := s.mapAddr[r.service.ip := id]);
    s' := s'.(vvTried := s.vvTried[h.triedSlot(r.service) := id], nIdCount := id + 1, nTried := s.nTried + 1);
  }

  // ----- Unserialize: the new table -------------------------------------------------------------

  /** The last bucket that lists an index, or bucket 0. */
  ghost function LastBucket(buckets: seq<seq<int>>, k: int): nat {
    if buckets == [] then 0
    else if k in buckets[|buckets| - 1] then |buckets| - 1
    else LastBucket(buckets[..|buckets| - 1], k)
  }

  function Lookup(m: map<int, nat>, k: int): nat { if k in m then m[k] else 0 }

  lemma LastBucketNext(buckets: seq<seq<int>>, b: nat, k: int)
    requires b < |buckets|
    ensures LastBucket(buckets[..b + 1], k) == if k in buckets[b] then b else LastBucket(buckets[..b], k)
  {
    assert buckets[..b + 1][..b] == buckets[..b];
  }

  method ReadBucket(row: seq<int>, b: nat, nNew: nat, before: map<int, nat>) returns (entryToBucket: map<int, nat>)
    ensures forall k :: 0 <= k < nNew ==> Lookup(entryToBucket, k) == if k in row then b else Lookup(before, k)
  {
    entryToBucket := before;
    var n := 0;
    while n < |row|
      invariant 0 <= n <= |row|
      invariant forall k :: 0 <= k < nNew ==> Lookup(entryToBucket, k) == if k in row[..n] then b else Lookup(before, k)
    {
      if 0 <= row[n] < nNew {
        entryToBucket := entryToBucket[row[n] := b];
      }
      assert row[..n + 1] == row[..n] + [row[n]];
      n := n + 1;
    }
    assert row[..|row|] == row;
  }

  /** The stored bucket lists, read into one bucket for each untried entry. */
  method ReadBuckets(d: Disk) returns (entryToBucket: map<int, nat>)
    ensures forall k :: 0 <= k < |d.news| ==> Lookup(entryToBucket, k) == LastBucket(d.buckets, k)
  {
    entryToBucket := map[];
    var b := 0;
    while b < |d.buckets|
      invariant 0 <= b <= |d.buckets|
      invariant forall k :: 0 <= k < |d.news| ==> Lookup(entryToBucket, k) == LastBucket(d.buckets[..b], k)
    {
      entryToBucket := ReadBucket(d.buckets[b], b, |d.news|, entryToBucket);
      forall k ensures LastBucket(d.buckets[..b + 1], k) == if k in d.buckets[b] then b
          else LastBucket(d.buckets[..b], k) {
        LastBucketNext(d.buckets, b, k);
      }
      b := b + 1;
    }
    assert d.buckets[..|d.buckets|] == d.buckets;
  }

  /** May the stored buckets be used as they are? */
  predicate Reuse(d: Disk, asmap: nat) { d.version == 2 && |d.buckets| == NEW_BUCKET_COUNT && d.asmap == asmap }

  ghost function Home(h: Layout, d: Disk, k: nat): Slot
    requires k < |d.news|
  {
    h.newSlot(d.news[k].service, LastBucket(d.buckets, k))
  }

  function Fallback(h: Layout, d: Disk, k: nat): Slot
    requires k < |d.news|
  {
    h.newSlot(d.news[k].service, h.newBucket(d.news[k].service, d.news[k].source))
  }

  /** The slot an untried entry gets: its stored one, or that of its source if it is free. */
  ghost function Choice(h: Layout, d: Disk, reuse: bool, t: Table, k: nat): Option<Slot>
    requires k < |d.news|
  {
    if reuse && Home(h, d, k) !in t then Some(Home(h, d, k))
    else if Fallback(h, d, k) !in t then Some(Fallback(h, d, k))
    else None
  }

  /** The new table after n entries have taken their slots. */
  ghost function Placed(h: Layout, d: Disk, reuse: bool, n: nat): Table
    requires n <= |d.news|
  {
    if n == 0 then map[] else
    var t := Placed(h, d, reuse, n - 1);
    var x := Choice(h, d, reuse, t, n - 1);
    if x.None? then t else t[x.value := n - 1]
  }

  ghost function PlaceOne(h: Layout, d: Disk, reuse: bool, s: State, k: nat): State
    requires k < |d.news|
  {
    var x := Choice(h, d, reuse, s.vvNew, k);
    if x.None? || k !in s.mapInfo then s else Referenced(s, k, x.value)
  }

  ghost function NewsPlaced(h: Layout, d: Disk, reuse: bool, s0: State, n: nat): State
    requires n <= |d.news|
  {
    if n == 0 then s0 else PlaceOne(h, d, reuse, NewsPlaced(h, d, reuse, s0, n - 1), n - 1)
  }

  ghost function Unplaced(info: Infos): set<int> { set n | n in info && !info[n].inTried && info[n].refCount == 0 }

  /** What placing keeps of the entries. */
  ghost predicate EntriesRead(h: Layout, d: Disk, s: State) {
    && NewsRead(d, s, |d.news|) && TriedRead(h, d, s, |d.trieds|) && s.triedCollisions == {}
    && (forall n :: n in s.mapInfo && n >= |d.news| ==> s.mapInfo[n].inTried)
  }

  lemma ReferenceReads(h: Layout, d: Disk, s: State, k: int, x: Slot)
    requires EntriesRead(h, d, s) && k in s.mapInfo
    ensures EntriesRead(h, d, Referenced(s, k, x))
  {
  }

  lemma ReferenceUnplaced(s: State, k: int, x: Slot)
    requires k in Unplaced(s.mapInfo)
    ensures Unplaced(Referenced(s, k, x).mapInfo) == Unplaced(s.mapInfo) - {k}
  {
  }

  /** A chosen slot suits the entry. */
  lemma ChoiceFits(h: Layout, d: Disk, reuse: bool, t: Table, k: nat)
    requires LayoutOk(h) && k < |d.news| && (reuse ==> |d.buckets| == NEW_BUCKET_COUNT)
    ensures var x := Choice(h, d, reuse, t, k);
      x.Some? ==>
        && x.value !in t && x.value.bucket < NEW_BUCKET_COUNT
        && x.value == h.newSlot(d.news[k].service, x.value.bucket)
  {
    if reuse { LastBucketBelow(d.buckets, k); }
  }

  lemma {:induction false} LastBucketBelow(buckets: seq<seq<int>>, k: int)
    ensures LastBucket(buckets, k) < |buckets| || buckets == []
  {
    if buckets == [] {
    } else {
      LastBucketBelow(buckets[..|buckets| - 1], k);
    }
  }

  /** From the n-th on, the entries wait for a slot. */
  ghost predicate StillWaiting(d: Disk, info: Infos, n: nat) {
    forall k :: n <= k < |d.news| ==> k in Unplaced(info)
  }

  lemma PlaceKeeps(h: Layout, s: State, k: nat, x: Slot)
    requires ConsistentBut(h, s, Unplaced(s.mapInfo), 0) && k in Unplaced(s.mapInfo)
    requires x !in s.vvNew && x.bucket < NEW_BUCKET_COUNT && x == h.newSlot(s.mapInfo[k].service, x.bucket)
    ensures ConsistentBut(h, Referenced(s, k, x), Unplaced(Referenced(s, k, x).mapInfo), 0)
  {
    ReferenceUnplaced(s, k, x);
    ReferenceKeeps(h, s, k, x, Unplaced(s.mapInfo), 0);
  }

  lemma PlaceOneKeeps(h: Layout, d: Disk, reuse: bool, s: State, k: nat)
    requires LayoutOk(h) && k < |d.news| && (reuse ==> |d.buckets| == NEW_BUCKET_COUNT)
    requires ConsistentBut(h, s, Unplaced(s.mapInfo), 0) && k in Unplaced(s.mapInfo)
    requires RecordOf(s.mapInfo[k]) == d.news[k]
    ensures var s' := PlaceOne(h, d, reuse, s, k); ConsistentBut(h, s', Unplaced(s'.mapInfo), 0)
  {
    var x := Choice(h, d, reuse, s.vvNew, k);
    ChoiceFits(h, d, reuse, s.vvNew, k);
    if x.Some? {
      PlaceKeeps(h, s, k, x.value);
      assert PlaceOne(h, d, reuse, s, k) == Referenced(s, k, x.value);
    } else {
      assert PlaceOne(h, d, reuse, s, k) == s;
    }
  }

  lemma {:induction false} PlacingInduction(h: Layout, d: Disk, reuse: bool, s0: State, n: nat, p: (State, nat) -> bool)
    requires n <= |d.news| && p(s0, 0)
    requires forall s, k: nat :: k < |d.news| && p(s, k) ==> p(PlaceOne(h, d, reuse, s, k), k + 1)
    ensures p(NewsPlaced(h, d, reuse, s0, n), n)
  {
    if n == 0 {
    } else {
      PlacingInduction(h, d, reuse, s0, n - 1, p);
    }
  }

  ghost predicate Placing(h: Layout, d: Disk, reuse: bool, s: State, n: nat) {
    && n <= |d.news| && s.vvNew == Placed(h, d, reuse, n)
    && EntriesRead(h, d, s) && StillWaiting(d, s.mapInfo, n) && ConsistentBut(h, s, Unplaced(s.mapInfo), 0)
  }

  lemma PlaceOneReads(h: Layout, d: Disk, reuse: bool, s: State, k: nat)
    requires EntriesRead(h, d, s) && StillWaiting(d, s.mapInfo, k) && k < |d.news|
    ensures k in Unplaced(s.mapInfo) && RecordOf(s.mapInfo[k]) == d.news[k]
    ensures EntriesRead(h, d, PlaceOne(h, d, reuse, s, k))
    ensures StillWaiting(d, PlaceOne(h, d, reuse, s, k).mapInfo, k + 1)
  {
    var x := Choice(h, d, reuse, s.vvNew, k);
    assert k in Unplaced(s.mapInfo);
    if x.Some? {
      ReferenceReads(h, d, s, k, x.value);
      ReferenceUnplaced(s, k, x.value);
    }
  }

  lemma PlaceOneTable(h: Layout, d: Disk, reuse: bool, s: State, k: nat)
    requires k < |d.news| && k in s.mapInfo && s.vvNew == Placed(h, d, reuse, k)
    ensures PlaceOne(h, d, reuse, s, k).vvNew == Placed(h, d, reuse, k + 1)
  {
  }

  lemma PlaceNext(h: Layout, d: Disk, reuse: bool, s: State, k: nat)
    requires LayoutOk(h) && k < |d.news| && (reuse ==> |d.buckets| == NEW_BUCKET_COUNT) && Placing(h, d, reuse, s, k)
    ensures Placing(h, d, reuse, PlaceOne(h, d, reuse, s, k), k + 1)
  {
    PlaceOneReads(h, d, reuse, s, k);
    PlaceOneTable(h, d, reuse, s, k);
    PlaceOneKeeps(h, d, reuse, s, k);
  }

  lemma NewsPlacedOk(h: Layout, d: Disk, reuse: bool, s0: State, n: nat)
    requires LayoutOk(h) && (reuse ==> |d.buckets| == NEW_BUCKET_COUNT) && Placing(h, d, reuse, s0, 0) && n <= |d.news|
    ensures Placing(h, d, reuse, NewsPlaced(h, d, reuse, s0, n), n)
  {
    var p := (s: State, k: nat) => Placing(h, d, reuse, s, k);
    forall s, k: nat | k < |d.news| && p(s, k) ensures p(PlaceOne(h, d, reuse, s, k), k + 1) {
      PlaceNext(h, d, reuse, s, k);
    }
    PlacingInduction(h, d, reuse, s0, n, p);
  }

  /** The next entry to place is in limbo under its own record. */
  ghost predicate NextWaits(h: Layout, d: Disk, reuse: bool, s0: State, n: nat)
    requires n < |d.news|
  {
    var s := NewsPlaced(h, d, reuse, s0, n);
    n in Unplaced(s.mapInfo) && RecordOf(s.mapInfo[n]) == d.news[n]
  }

  lemma EachWaits(h: Layout, d: Disk, reuse: bool, s0: State, n: nat)
    requires LayoutOk(h) && (reuse ==> |d.buckets| == NEW_BUCKET_COUNT) && Placing(h, d, reuse, s0, 0) && n < |d.news|
    ensures NextWaits(h, d, reuse, s0, n)
  {
    NewsPlacedOk(h, d, reuse, s0, n);
    PlaceOneReads(h, d, reuse, NewsPlaced(h, d, reuse, s0, n), n);
  }

  method LoadPlace(h: Layout, d: Disk, asmap: nat, s: State, k: nat, bucket: nat) returns (s': State)
    requires k < |d.news| && k in Unplaced(s.mapInfo) && RecordOf(s.mapInfo[k]) == d.news[k]
    requires bucket == LastBucket(d.buckets, k)
    ensures s' == PlaceOne(h, d, Reuse(d, asmap), s, k)
  {
    s' := s;
    var info := s.mapInfo[k];
    var x := h.newSlot(info.service, bucket);
    if d.version == 2 && |d.buckets| == NEW_BUCKET_COUNT && x !in s.vvNew
      && info.refCount < NEW_BUCKETS_PER_ADDRESS && d.asmap == asmap
    {
      s' := s.(vvNew := s.vvNew[x := k], mapInfo := s.mapInfo[k := info.(refCount := info.refCount + 1)]);
    } else {
      x := h.newSlot(info.service, h.newBucket(info.service, info.source));
      if x !in s.vvNew {
        s' := s.(vvNew := s.vvNew[x := k], mapInfo := s.mapInfo[k := info.(refCount := info.refCount + 1)]);
      }
    }
  }

  /** The loop that gives the untried entries their slots. */
  method PlaceNews(h: Layout, d: Disk, asmap: nat, s0: State) returns (s: State)
    requires forall n: nat :: n < |d.news| ==> NextWaits(h, d, Reuse(d, asmap), s0, n)
    ensures s == NewsPlaced(h, d, Reuse(d, asmap), s0, |d.news|)
  {
    var entryToBucket := ReadBuckets(d);
    s := s0;
    var n := 0;
    while n < |d.news|
      invariant 0 <= n <= |d.news| && s == NewsPlaced(h, d, Reuse(d, asmap), s0, n)
    {
      assert NextWaits(h, d, Reuse(d, asmap), s0, n);
      s := LoadPlace(h, d, asmap, s, n, Lookup(entryToBucket, n));
      n := n + 1;
    }
  }

  /** After the tried table is read, every untried entry waits. */
  lemma WaitingAtFirst(h: Layout, d: Disk, s: State)
    requires LoadingTried(h, d, s, |d.trieds|)
    ensures EntriesRead(h, d, s) && StillWaiting(d, s.mapInfo, 0) && s.vvNew == map[]
    ensures Unplaced(s.mapInfo) == NewIds(s.mapInfo)
  {
    forall n | n in NewIds(s.mapInfo) ensures s.mapInfo[n].refCount == 0 {
    }
    assert Unplaced(s.mapInfo) == NewIds(s.mapInfo);
    forall k | 0 <= k < |d.news| ensures k in NewIds(s.mapInfo) {
      assert k in s.mapInfo;
    }
  }

  // ----- Unserialize ----------------------------------------------------------------------------

  /** The same entries but for some that were in no bucket, and the same tables. */
  ghost predicate PrunedBut(s: State, s': State, left: set<int>) {
    && s'.mapInfo.Keys == s.mapInfo.Keys - (Unplaced(s.mapInfo) - left)
    && (forall n :: n in s'.mapInfo ==> Moved(s.mapInfo[n], s'.mapInfo[n]))
    && s'.vvTried == s.vvTried && s'.vvNew == s.vvNew && s'.nTried == s.nTried
        && s'.triedCollisions == s.triedCollisions
  }

  lemma DeleteFrame(s: State, id: int)
    requires IndexOk(s) && id in s.mapInfo
    ensures var t := Deleted(s, id);
      && t.mapInfo.Keys == s.mapInfo.Keys - {id} && (forall n :: n in t.mapInfo ==> Moved(s.mapInfo[n], t.mapInfo[n]))
      && t.vvTried == s.vvTried && t.vvNew == s.vvNew && t.nTried == s.nTried && t.triedCollisions == s.triedCollisions
  {
    DeleteMovesOthers(s, id);
    var rest := s.mapInfo - {id};
    assert rest.Keys == s.mapInfo.Keys - {id};
    forall n | n in rest ensures rest[n] == s.mapInfo[n] {
    }
  }

  lemma PrunedMore(s0: State, s: State, t: State, left: set<int>, id: int)
    requires PrunedBut(s0, s, left) && id in left && left <= Unplaced(s0.mapInfo)
    requires t.mapInfo.Keys == s.mapInfo.Keys - {id}
    requires (forall n :: n in t.mapInfo ==> Moved(s.mapInfo[n], t.mapInfo[n]))
    requires t.vvTried == s.vvTried && t.vvNew == s.vvNew && t.nTried == s.nTried
    requires t.triedCollisions == s.triedCollisions
    ensures PrunedBut(s0, t, left - {id})
  {
    forall n | n in t.mapInfo ensures Moved(s0.mapInfo[n], t.mapInfo[n]) {
      assert Moved(s0.mapInfo[n], s.mapInfo[n]) && Moved(s.mapInfo[n], t.mapInfo[n]);
    }
  }

  /** The loop state: what is left to prune is in limbo. */
  ghost predicate Pruning(h: Layout, s0: State, s: State, rest: set<int>) {
    && rest <= s.mapInfo.Keys
    && ConsistentBut(h, s, Unplaced(s0.mapInfo) * rest, 0) && PrunedBut(s0, s, Unplaced(s0.mapInfo) * rest)
  }

  lemma PruneNext(h: Layout, s0: State, s: State, left: set<int>, id: int)
    requires ConsistentBut(h, s, left, 0) && PrunedBut(s0, s, left) && id in left && left <= Unplaced(s0.mapInfo)
    ensures IndexOk(s) && ConsistentBut(h, Deleted(s, id), left - {id}, 0) && PrunedBut(s0, Deleted(s, id), left - {id})
  {
    DeleteKeeps(h, s, id, left, 0);
    DeleteFrame(s, id);
    PrunedMore(s0, s, Deleted(s, id), left, id);
  }

  lemma PruneStep(h: Layout, s0: State, s: State, rest: set<int>, n: int)
    requires Pruning(h, s0, s, rest) && n in rest
    ensures IndexOk(s)
    ensures !s.mapInfo[n].inTried && s.mapInfo[n].refCount == 0 ==> Pruning(h, s0, Deleted(s, n), rest - {n})
    ensures s.mapInfo[n].inTried || s.mapInfo[n].refCount != 0 ==> Pruning(h, s0, s, rest - {n})
  {
    var left := Unplaced(s0.mapInfo) * rest;
    assert Moved(s0.mapInfo[n], s.mapInfo[n]);
    if !s.mapInfo[n].inTried && s.mapInfo[n].refCount == 0 {
      PruneNext(h, s0, s, left, n);
      DeleteFrame(s, n);
      assert left - {n} == Unplaced(s0.mapInfo) * (rest - {n});
    } else {
      assert left == Unplaced(s0.mapInfo) * (rest - {n});
    }
  }

  /** What a file becomes: consistent tables in which every entry is a record of the file, the first
      tried record for each slot has it, and the untried ones have the slots they could get. */
  ghost predicate LoadedFrom(h: Layout, d: Disk, asmap: nat, t: State) {
    && Consistent(h, t) && t.triedCollisions == {}
    && TriedRead(h, d, t, |d.trieds|) && t.vvNew == Placed(h, d, Reuse(d, asmap), |d.news|)
    && (forall n :: n in t.mapInfo && 0 <= n < |d.news| ==>
        !t.mapInfo[n].inTried && RecordOf(t.mapInfo[n]) == d.news[n])
    && (forall n :: n in t.mapInfo && n >= |d.news| ==> t.mapInfo[n].inTried)
  }

  lemma PruneEnd(h: Layout, s: State, t: State)
    requires Pruning(h, s, t, {})
    ensures ConsistentBut(h, t, {}, 0) && PrunedBut(s, t, {})
  {
    assert Unplaced(s.mapInfo) * {} == {};
  }

  lemma PruneStart(h: Layout, s: State)
    requires ConsistentBut(h, s, Unplaced(s.mapInfo), 0)
    ensures Pruning(h, s, s, s.mapInfo.Keys)
  {
    assert Unplaced(s.mapInfo) * s.mapInfo.Keys == Unplaced(s.mapInfo);
  }

  lemma PrunedTried(h: Layout, d: Disk, s: State, t: State)
    requires TriedRead(h, d, s, |d.trieds|) && TriedOk(h, s.mapInfo, s.vvTried) && PrunedBut(s, t, {})
    ensures TriedRead(h, d, t, |d.trieds|)
  {
    forall x | x in t.vvTried
      ensures At(t.vvTried, x) in t.mapInfo
      ensures RecordOf(t.mapInfo[At(t.vvTried, x)]) == RecordOf(s.mapInfo[At(s.vvTried, x)])
    {
      var id := At(s.vvTried, x);
      assert id in s.mapInfo && s.mapInfo[id].inTried;
      assert Moved(s.mapInfo[id], t.mapInfo[id]);
    }
  }

  lemma PlaceStart(h: Layout, d: Disk, reuse: bool, s: State)
    requires LoadingTried(h, d, s, |d.trieds|)
    ensures Placing(h, d, reuse, s, 0)
  {
    WaitingAtFirst(h, d, s);
  }

  lemma {:induction false} PlacedGrows(h: Layout, d: Disk, reuse: bool, k: nat, n: nat)
    requires k <= n <= |d.news|
    ensures forall x :: x in Placed(h, d, reuse, k) ==>
      x in Placed(h, d, reuse, n) && At(Placed(h, d, reuse, n), x) == At(Placed(h, d, reuse, k), x)
  {
    if k == n {
    } else {
      PlacedGrows(h, d, reuse, k, n - 1);
      ChoiceIsFree(h, d, reuse, Placed(h, d, reuse, n - 1), n - 1);
    }
  }

  lemma ChoiceIsFree(h: Layout, d: Disk, reuse: bool, t: Table, k: nat)
    requires k < |d.news|
    ensures var x := Choice(h, d, reuse, t, k); x.Some? ==> x.value !in t
  {
  }

  lemma ChosenStays(h: Layout, d: Disk, reuse: bool, k: nat)
    requires k < |d.news|
    ensures var x, t := Choice(h, d, reuse, Placed(h, d, reuse, k), k), Placed(h, d, reuse, |d.news|);
      x.Some? ==> x.value in t && At(t, x.value) == k
  {
    var x := Choice(h, d, reuse, Placed(h, d, reuse, k), k);
    if x.Some? {
      assert Placed(h, d, reuse, k + 1) == Placed(h, d, reuse, k)[x.value := k];
      PlacedGrows(h, d, reuse, k + 1, |d.news|);
      assert At(Placed(h, d, reuse, k + 1), x.value) == k;
    }
  }

  /** Under any asmap, an untried entry is lost only where another already holds the slot of its source. */
  lemma LostToCollision(h: Layout, d: Disk, asmap: nat, t: State, k: nat)
    requires TablesOk(h, t) && t.vvNew == Placed(h, d, Reuse(d, asmap), |d.news|) && k < |d.news| && k !in t.mapInfo
    ensures Fallback(h, d, k) in t.vvNew
  {
    ChosenStays(h, d, Reuse(d, asmap), k);
    PlacedGrows(h, d, Reuse(d, asmap), k, |d.news|);
  }

  // ----- the round trip -------------------------------------------------------------------------

  lemma StoredNew(h: Layout, s: State, asmap: nat, d: Disk, newIds: seq<int>, triedIds: seq<int>, k: nat)
    requires ConsistentBut(h, s, {}, 0) && Written(s, asmap, d, newIds, triedIds) && k < |d.news|
    ensures newIds[k] in s.mapInfo && !s.mapInfo[newIds[k]].inTried && d.news[k] == RecordOf(s.mapInfo[newIds[k]])
    ensures var a := d.news[k].service.ip; a in s.mapAddr && s.mapAddr[a] == newIds[k] && d.news[k].lastSuccess >= 0
  {
    var n := newIds[k];
    assert n in NewIds(s.mapInfo) && d.news[k] == RecordOf(s.mapInfo[n]);
    assert n in s.mapInfo;
  }

  lemma StoredTried(h: Layout, s: State, asmap: nat, d: Disk, newIds: seq<int>, triedIds: seq<int>, k: nat)
    requires ConsistentBut(h, s, {}, 0) && Written(s, asmap, d, newIds, triedIds) && k < |d.trieds|
    ensures triedIds[k] in s.mapInfo && s.mapInfo[triedIds[k]].inTried
    ensures d.trieds[k] == RecordOf(s.mapInfo[triedIds[k]])
    ensures var a := d.trieds[k].service.ip;
      a in s.mapAddr && s.mapAddr[a] == triedIds[k] && d.trieds[k].lastSuccess > 0
  {
    var n := triedIds[k];
    assert n in TriedIds(s.mapInfo) && d.trieds[k] == RecordOf(s.mapInfo[n]);
    assert n in s.mapInfo;
  }

  lemma WrittenLoadable(h: Layout, s: State, asmap: nat, d: Disk, newIds: seq<int>, triedIds: seq<int>)
    requires ConsistentBut(h, s, {}, 0) && Written(s, asmap, d, newIds, triedIds)
    ensures Loadable(d)
  {
    DistinctRecords(s, newIds, d.news);
    DistinctRecords(s, triedIds, d.trieds);
    forall j, k | 0 <= j < |d.news| && 0 <= k < |d.trieds| ensures d.news[j].service.ip != d.trieds[k].service.ip {
      StoredNew(h, s, asmap, d, newIds, triedIds, j);
      StoredTried(h, s, asmap, d, newIds, triedIds, k);
    }
    forall k | 0 <= k < |d.news| ensures d.news[k].lastSuccess >= 0 {
      StoredNew(h, s, asmap, d, newIds, triedIds, k);
    }
    forall k | 0 <= k < |d.trieds| ensures d.trieds[k].lastSuccess > 0 {
      StoredTried(h, s, asmap, d, newIds, triedIds, k);
    }
  }

  lemma DistinctRecords(s: State, ids: seq<int>, records: seq<Record>)
    requires IndexOk(s) && Stores(s.mapInfo, ids, records) && forall j, k :: 0 <= j < k < |ids| ==> ids[j] != ids[k]
    ensures forall j, k :: 0 <= j < k < |records| ==> records[j].service.ip != records[k].service.ip
  {
    forall j, k | 0 <= j < k < |records| ensures records[j].service.ip != records[k].service.ip {
      assert ids[j] != ids[k];
    }
  }

  lemma {:induction false} LastBucketLists(buckets: seq<seq<int>>, b: nat, k: int)
    requires b < |buckets| && k in buckets[b]
    ensures LastBucket(buckets, k) < |buckets| && k in buckets[LastBucket(buckets, k)]
  {
    var last := |buckets| - 1;
    if k !in buckets[last] {
      assert buckets[..last][b] == buckets[b];
      LastBucketLists(buckets[..last], b, k);
      assert buckets[..last][LastBucket(buckets[..last], k)] == buckets[LastBucket(buckets[..last], k)];
    }
  }

  /** Some bucket lists the entry. */
  lemma EntryListed(h: Layout, s: State, asmap: nat, d: Disk, newIds: seq<int>, triedIds: seq<int>, k: nat)
    returns (b: nat)
    requires ConsistentBut(h, s, {}, 0) && InArray(s.vvNew) && Written(s, asmap, d, newIds, triedIds) && k < |newIds|
    ensures b < |d.buckets| && k in d.buckets[b]
  {
    var n := newIds[k];
    assert n in NewIds(s.mapInfo) && |RefSlots(s.vvNew, n)| >= 1;
    var x :| x in RefSlots(s.vvNew, n);
    b := x.bucket;
    IndexOfUnique(newIds, k);
    RowLists(s.vvNew, newIds, x, BUCKET_SIZE);
  }

  /** The bucket remembered for an untried entry names one of the slots it had. */
  lemma HomeWasHeld(h: Layout, s: State, asmap: nat, d: Disk, newIds: seq<int>, triedIds: seq<int>, k: nat)
    requires ConsistentBut(h, s, {}, 0) && InArray(s.vvNew) && Written(s, asmap, d, newIds, triedIds) && k < |newIds|
    ensures Home(h, d, k) in s.vvNew && At(s.vvNew, Home(h, d, k)) == newIds[k]
  {
    var b0 := EntryListed(h, s, asmap, d, newIds, triedIds, k);
    LastBucketLists(d.buckets, b0, k);
    var b := LastBucket(d.buckets, k);
    var x := RowHas(s.vvNew, newIds, b, BUCKET_SIZE, k);
    assert d.news[k] == RecordOf(s.mapInfo[newIds[k]]);
    assert x == h.newSlot(s.mapInfo[newIds[k]].service, b);
  }

  ghost predicate HomesDiffer(h: Layout, d: Disk) {
    forall j, k :: 0 <= j < k < |d.news| ==> Home(h, d, j) != Home(h, d, k)
  }

  /** n entries, each in its own home. */
  ghost predicate AtHome(h: Layout, d: Disk, t: Table, n: nat) {
    && n <= |d.news|
    && (forall k :: 0 <= k < n ==> Home(h, d, k) in t && At(t, Home(h, d, k)) == k)
    && (forall x :: x in t ==> 0 <= At(t, x) < n && x == Home(h, d, At(t, x)))
  }

  /** Homes that differ are all taken. */
  lemma {:induction false} PlacedAtHome(h: Layout, d: Disk, n: nat)
    requires HomesDiffer(h, d) && n <= |d.news|
    ensures AtHome(h, d, Placed(h, d, true, n), n)
  {
    if n == 0 {
    } else {
      PlacedAtHome(h, d, n - 1);
      AtHomeNext(h, d, Placed(h, d, true, n - 1), n - 1);
    }
  }

  lemma AtHomeNext(h: Layout, d: Disk, t: Table, n: nat)
    requires HomesDiffer(h, d) && n < |d.news| && AtHome(h, d, t, n)
    ensures Home(h, d, n) !in t && AtHome(h, d, t[Home(h, d, n) := n], n + 1)
  {
    var y := Home(h, d, n);
    assert y !in t;
    var t' := t[y := n];
    forall x | x in t' ensures At(t', x) == if x == y then n else At(t, x) {
    }
  }

  lemma OneSlotEach(h: Layout, d: Disk, t: Table, k: nat)
    requires AtHome(h, d, t, |d.news|) && k < |d.news|
    ensures RefSlots(t, k) == {Home(h, d, k)}
  {
  }

  lemma HomesAreDifferent(h: Layout, s: State, asmap: nat, d: Disk, newIds: seq<int>, triedIds: seq<int>)
    requires ConsistentBut(h, s, {}, 0) && InArray(s.vvNew) && Written(s, asmap, d, newIds, triedIds)
    ensures HomesDiffer(h, d)
  {
    forall j, k | 0 <= j < k < |d.news| ensures Home(h, d, j) != Home(h, d, k) {
      HomeWasHeld(h, s, asmap, d, newIds, triedIds, j);
      HomeWasHeld(h, s, asmap, d, newIds, triedIds, k);
      assert newIds[j] != newIds[k];
    }
  }

  /** Every tried record was alone in its slot. */
  lemma TriedHomeWasHeld(h: Layout, s: State, asmap: nat, d: Disk, newIds: seq<int>, triedIds: seq<int>, j: nat)
    requires ConsistentBut(h, s, {}, 0) && Written(s, asmap, d, newIds, triedIds) && j < |triedIds|
    ensures TriedHome(h, d, j) in s.vvTried && At(s.vvTried, TriedHome(h, d, j)) == triedIds[j]
  {
    var n := triedIds[j];
    assert n in TriedIds(s.mapInfo) && d.trieds[j] == RecordOf(s.mapInfo[n]);
    assert n in s.mapInfo && s.mapInfo[n].inTried && TriedHome(h, d, j) == h.triedSlot(s.mapInfo[n].service);
  }

  lemma TriedHomesDiffer(h: Layout, s: State, asmap: nat, d: Disk, newIds: seq<int>, triedIds: seq<int>)
    requires ConsistentBut(h, s, {}, 0) && Written(s, asmap, d, newIds, triedIds)
    ensures forall j :: 0 <= j < |d.trieds| ==> FirstAt(h, d, |d.trieds|, TriedHome(h, d, j)) == j
    ensures SlotCount(h, d, |d.trieds|) == |d.trieds|
  {
    forall j, k | 0 <= j < k < |d.trieds| ensures TriedHome(h, d, j) != TriedHome(h, d, k) {
      TriedHomeWasHeld(h, s, asmap, d, newIds, triedIds, j);
      TriedHomeWasHeld(h, s, asmap, d, newIds, triedIds, k);
      assert triedIds[j] != triedIds[k];
    }
    forall j | 0 <= j < |d.trieds| ensures FirstAt(h, d, |d.trieds|, TriedHome(h, d, j)) == j {
      FirstAtMeans(h, d, |d.trieds|, TriedHome(h, d, j));
    }
    SlotsCounted(h, d, |d.trieds|);
  }

  lemma {:induction false} SlotsCounted(h: Layout, d: Disk, m: nat)
    requires m <= |d.trieds| && forall j, k :: 0 <= j < k < |d.trieds| ==> TriedHome(h, d, j) != TriedHome(h, d, k)
    ensures SlotCount(h, d, m) == m
  {
    if m == 0 {
    } else {
      SlotsCounted(h, d, m - 1);
      FirstAtMeans(h, d, m - 1, TriedHome(h, d, m - 1));
    }
  }

  /** The address is known in both states with the same record in the same table; if untried, it now
      has one slot, which it had before. */
  ghost predicate SameEntry(s: State, t: State, a: NetAddr) {
    && a in s.mapAddr && a in t.mapAddr && s.mapAddr[a] in s.mapInfo && t.mapAddr[a] in t.mapInfo
    && var i, j := s.mapInfo[s.mapAddr[a]], t.mapInfo[t.mapAddr[a]];
    && RecordOf(j) == RecordOf(i) && j.inTried == i.inTried
    && (!j.inTried ==> j.refCount == 1 && RefSlots(t.vvNew, t.mapAddr[a]) <= RefSlots(s.vvNew, s.mapAddr[a]))
  }

  /** Nothing is lost: the same addresses, the same tried slots, the same counts. */
  ghost predicate Survives(h: Layout, s: State, t: State) {
    && Consistent(h, t) && t.mapAddr.Keys == s.mapAddr.Keys && (forall a :: a in s.mapAddr ==> SameEntry(s, t, a))
    && t.vvTried.Keys == s.vvTried.Keys && t.nTried == s.nTried && t.nNew == s.nNew
  }

  lemma NewSurvives(h: Layout, s: State, asmap: nat, d: Disk, newIds: seq<int>, triedIds: seq<int>, t: State, k: nat)
    requires ConsistentBut(h, s, {}, 0) && InArray(s.vvNew) && Written(s, asmap, d, newIds, triedIds) && k < |newIds|
    requires LoadedFrom(h, d, asmap, t) && AtHome(h, d, t.vvNew, |d.news|)
    ensures k in t.mapInfo && !t.mapInfo[k].inTried && SameEntry(s, t, d.news[k].service.ip)
    ensures s.mapAddr[d.news[k].service.ip] == newIds[k]
  {
    HomeWasHeld(h, s, asmap, d, newIds, triedIds, k);
    OneSlotEach(h, d, t.vvNew, k);
    assert At(t.vvNew, Home(h, d, k)) == k;
    assert newIds[k] in NewIds(s.mapInfo);
    assert d.news[k] == RecordOf(s.mapInfo[newIds[k]]) == RecordOf(t.mapInfo[k]);
  }

  lemma TriedSurvives(h: Layout, s: State, asmap: nat, d: Disk, newIds: seq<int>, triedIds: seq<int>, t: State, j: nat)
    requires ConsistentBut(h, s, {}, 0) && Written(s, asmap, d, newIds, triedIds) && j < |triedIds|
    requires LoadedFrom(h, d, asmap, t) && FirstAt(h, d, |d.trieds|, TriedHome(h, d, j)) == j
    ensures SameEntry(s, t, d.trieds[j].service.ip) && s.mapAddr[d.trieds[j].service.ip] == triedIds[j]
    ensures TriedHome(h, d, j) in t.vvTried
  {
    var x := TriedHome(h, d, j);
    assert triedIds[j] in TriedIds(s.mapInfo);
    assert x in t.vvTried;
    var id := At(t.vvTried, x);
    assert RecordOf(t.mapInfo[id]) == d.trieds[j] == RecordOf(s.mapInfo[triedIds[j]]);
  }

  /** Every address of the saved manager comes back. */
  lemma AddressSurvives(h: Layout, s: State, asmap: nat, d: Disk, newIds: seq<int>, triedIds: seq<int>, t: State,
                        a: NetAddr)
    requires ConsistentBut(h, s, {}, 0) && InArray(s.vvNew) && Written(s, asmap, d, newIds, triedIds) && a in s.mapAddr
    requires LoadedFrom(h, d, asmap, t) && AtHome(h, d, t.vvNew, |d.news|)
    requires forall j :: 0 <= j < |d.trieds| ==> FirstAt(h, d, |d.trieds|, TriedHome(h, d, j)) == j
    ensures SameEntry(s, t, a)
  {
    var n := s.mapAddr[a];
    if s.mapInfo[n].inTried {
      assert n in TriedIds(s.mapInfo);
      var j :| 0 <= j < |triedIds| && triedIds[j] == n;
      TriedSurvives(h, s, asmap, d, newIds, triedIds, t, j);
      assert d.trieds[j] == RecordOf(s.mapInfo[n]);
    } else {
      assert n in NewIds(s.mapInfo);
      var k :| 0 <= k < |newIds| && newIds[k] == n;
      NewSurvives(h, s, asmap, d, newIds, triedIds, t, k);
      assert d.news[k] == RecordOf(s.mapInfo[n]);
    }
  }

  /** No address appears that was not saved. */
  lemma AddressWasSaved(h: Layout, s: State, asmap: nat, d: Disk, newIds: seq<int>, triedIds: seq<int>, t: State,
                        a: NetAddr)
    requires ConsistentBut(h, s, {}, 0) && Written(s, asmap, d, newIds, triedIds) && LoadedFrom(h, d, asmap, t)
    requires a in t.mapAddr
    ensures a in s.mapAddr
  {
    var n := t.mapAddr[a];
    if n < |d.news| {
      assert RecordOf(t.mapInfo[n]) == d.news[n] == RecordOf(s.mapInfo[newIds[n]]);
    } else {
      TriedRecordOf(h, d, t, |d.trieds|, n);
      var j := FirstAt(h, d, |d.trieds|, h.triedSlot(t.mapInfo[n].service));
      assert RecordOf(t.mapInfo[n]) == d.trieds[j] == RecordOf(s.mapInfo[triedIds[j]]);
    }
  }

  lemma TriedSlotsSurvive(h: Layout, s: State, asmap: nat, d: Disk, newIds: seq<int>, triedIds: seq<int>, t: State,
                          x: Slot)
    requires ConsistentBut(h, s, {}, 0) && Written(s, asmap, d, newIds, triedIds) && LoadedFrom(h, d, asmap, t)
    requires forall j :: 0 <= j < |d.trieds| ==> FirstAt(h, d, |d.trieds|, TriedHome(h, d, j)) == j
    ensures x in s.vvTried <==> x in t.vvTried
  {
    if x in s.vvTried {
      var n := At(s.vvTried, x);
      assert n in TriedIds(s.mapInfo);
      var j :| 0 <= j < |triedIds| && triedIds[j] == n;
      assert d.trieds[j] == RecordOf(s.mapInfo[n]);
      TriedSurvives(h, s, asmap, d, newIds, triedIds, t, j);
    }
    if x in t.vvTried {
      var j := FirstAt(h, d, |d.trieds|, x);
      FirstAtMeans(h, d, |d.trieds|, x);
      TriedHomeWasHeld(h, s, asmap, d, newIds, triedIds, j);
    }
  }

  lemma NewCountSurvives(h: Layout, d: Disk, asmap: nat, t: State)
    requires LoadedFrom(h, d, asmap, t) && AtHome(h, d, t.vvNew, |d.news|)
    ensures t.nNew == |d.news|
  {
    forall n ensures n in NewIds(t.mapInfo) <==> n in Below(|d.news|) {
      if n in Below(|d.news|) { assert At(t.vvNew, Home(h, d, n)) == n; }
    }
    assert NewIds(t.mapInfo) == Below(|d.news|);
  }

  /** What the file says of the slots, once for all entries. */
  ghost predicate AllHome(h: Layout, d: Disk, t: State) {
    && AtHome(h, d, t.vvNew, |d.news|) && SlotCount(h, d, |d.trieds|) == |d.trieds|
    && (forall j :: 0 <= j < |d.trieds| ==> FirstAt(h, d, |d.trieds|, TriedHome(h, d, j)) == j)
  }

  lemma AllComeHome(h: Layout, s: State, asmap: nat, d: Disk, newIds: seq<int>, triedIds: seq<int>, t: State)
    requires ConsistentBut(h, s, {}, 0) && InArray(s.vvNew) && Written(s, asmap, d, newIds, triedIds)
    requires LoadedFrom(h, d, asmap, t)
    ensures AllHome(h, d, t)
  {
    HomesAreDifferent(h, s, asmap, d, newIds, triedIds);
    PlacedAtHome(h, d, |d.news|);
    TriedHomesDiffer(h, s, asmap, d, newIds, triedIds);
  }

  lemma AddressesSurvive(h: Layout, s: State, asmap: nat, d: Disk, newIds: seq<int>, triedIds: seq<int>, t: State)
    requires ConsistentBut(h, s, {}, 0) && InArray(s.vvNew) && Written(s, asmap, d, newIds, triedIds)
    requires LoadedFrom(h, d, asmap, t) && AllHome(h, d, t)
    ensures t.mapAddr.Keys == s.mapAddr.Keys && forall a :: a in s.mapAddr ==> SameEntry(s, t, a)
  {
    forall a | a in s.mapAddr ensures SameEntry(s, t, a) {
      AddressSurvives(h, s, asmap, d, newIds, triedIds, t, a);
    }
    forall a | a in t.mapAddr ensures a in s.mapAddr {
      AddressWasSaved(h, s, asmap, d, newIds, triedIds, t, a);
    }
  }

  lemma TriedKeysSurvive(h: Layout, s: State, asmap: nat, d: Disk, newIds: seq<int>, triedIds: seq<int>, t: State)
    requires ConsistentBut(h, s, {}, 0) && Written(s, asmap, d, newIds, triedIds) && LoadedFrom(h, d, asmap, t)
    requires AllHome(h, d, t)
    ensures t.vvTried.Keys == s.vvTried.Keys
  {
    forall x ensures x in s.vvTried <==> x in t.vvTried {
      TriedSlotsSurvive(h, s, asmap, d, newIds, triedIds, t, x);
    }
  }

  /** Saving a consistent manager and loading it under the same key and asmap loses nothing. */
  lemma RoundTrip(h: Layout, s: State, asmap: nat, d: Disk, newIds: seq<int>, triedIds: seq<int>, t: State)
    requires ConsistentBut(h, s, {}, 0) && InArray(s.vvNew) && Written(s, asmap, d, newIds, triedIds)
    requires LoadedFrom(h, d, asmap, t)
    ensures Survives(h, s, t)
  {
    AllComeHome(h, s, asmap, d, newIds, triedIds, t);
    NewCountSurvives(h, d, asmap, t);
    AddressesSurvive(h, s, asmap, d, newIds, triedIds, t);
    TriedKeysSurvive(h, s, asmap, d, newIds, triedIds, t);
  }

  // ----- the limits on load ---------------------------------------------------------------------

  function Code(x: Slot): int { x.bucket * BUCKET_SIZE + x.pos }

  lemma CodeDiffers(x: Slot, y: Slot)
    requires x.pos < BUCKET_SIZE && y.pos < BUCKET_SIZE && x != y
    ensures Code(x) != Code(y)
  {
    assert x.bucket == y.bucket ==> x.pos != y.pos;
  }

  ghost function Codes(slots: set<Slot>): set<int> { set x | x in slots :: Code(x) }

  lemma {:induction false} CodesSize(slots: set<Slot>)
    requires forall x :: x in slots ==> x.pos < BUCKET_SIZE
    ensures |Codes(slots)| == |slots|
    decreases slots
  {
    if slots == {} {
    } else {
      var x :| x in slots;
      var rest := slots - {x};
      CodesSize(rest);
      assert Codes(slots) == Codes(rest) + {Code(x)};
      forall y | y in rest ensures Code(y) != Code(x) {
        CodeDiffers(y, x);
      }
    }
  }

  lemma SlotsFit(slots: set<Slot>, buckets: nat, limit: nat)
    requires limit == buckets * BUCKET_SIZE && forall x :: x in slots ==> x.bucket < buckets && x.pos < BUCKET_SIZE
    ensures |slots| <= limit
  {
    CodesSize(slots);
    forall c | c in Codes(slots) ensures c in Below(limit) {
      var x :| x in slots && c == Code(x);
      assert (x.bucket + 1) * BUCKET_SIZE <= limit;
    }
    SubsetSize(Codes(slots), Below(limit));
  }

  /** Entries that each hold a slot are no more than the slots. */
  lemma {:induction false} HoldersFit(t: Table, slots: set<Slot>, ids: set<int>)
    requires slots <= t.Keys && forall n :: n in ids ==> exists x :: x in slots && At(t, x) == n
    ensures |ids| <= |slots|
    decreases ids
  {
    if ids == {} {
    } else {
      NonEmpty(ids);
      var n :| n in ids;
      var x :| x in slots && At(t, x) == n;
      forall m | m in ids - {n} ensures exists y :: y in slots - {x} && At(t, y) == m {
        var y :| y in slots && At(t, y) == m;
        assert y in slots - {x};
      }
      HoldersFit(t, slots - {x}, ids - {n});
    }
  }

  ghost predicate InArrays(s: State) {
    InArray(s.vvNew) && forall x :: x in s.vvTried ==> x.bucket < TRIED_BUCKET_COUNT && x.pos < BUCKET_SIZE
  }

  /** What fits the tables passes the limits on load. */
  lemma CountsFit(h: Layout, s: State)
    requires ConsistentBut(h, s, {}, 0) && InArrays(s)
    ensures |NewIds(s.mapInfo)| <= NEW_BUCKET_COUNT * BUCKET_SIZE
    ensures |TriedIds(s.mapInfo)| <= TRIED_BUCKET_COUNT * BUCKET_SIZE
  {
    forall n | n in NewIds(s.mapInfo) ensures exists x :: x in s.vvNew.Keys && At(s.vvNew, x) == n {
      assert |RefSlots(s.vvNew, n)| >= 1;
      var x :| x in RefSlots(s.vvNew, n);
      assert x in s.vvNew.Keys;
    }
    HoldersFit(s.vvNew, s.vvNew.Keys, NewIds(s.mapInfo));
    SlotsFit(s.vvNew.Keys, NEW_BUCKET_COUNT, NEW_BUCKET_COUNT * BUCKET_SIZE);
    forall n | n in TriedIds(s.mapInfo) ensures exists x :: x in s.vvTried.Keys && At(s.vvTried, x) == n {
      assert h.triedSlot(s.mapInfo[n].service) in s.vvTried.Keys;
    }
    HoldersFit(s.vvTried, s.vvTried.Keys, TriedIds(s.mapInfo));
    SlotsFit(s.vvTried.Keys, TRIED_BUCKET_COUNT, TRIED_BUCKET_COUNT * BUCKET_SIZE);
  }

  /** Bucket selection only ever names cells of the arrays. */
  lemma SlotsInArrays(hasher: Hasher, s: State)
    requires ConsistentBut(hasher.Slots(), s, {}, 0)
    ensures InArrays(s)
  {
    var h := hasher.Slots();
    forall x | x in s.vvNew ensures x.bucket < NEW_BUCKET_COUNT && x.pos < BUCKET_SIZE {
      assert x == h.newSlot(s.mapInfo[At(s.vvNew, x)].service, x.bucket);
    }
    forall x | x in s.vvTried ensures x.bucket < TRIED_BUCKET_COUNT && x.pos < BUCKET_SIZE {
      assert x == h.triedSlot(s.mapInfo[At(s.vvTried, x)].service);
    }
  }
}
