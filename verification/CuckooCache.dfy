/** The signature cache of cuckoocache.h: eight-way cuckoo hashing with lazily collected slots and two
    epochs of live entries. */
module CuckooCache {
  import opened Arithmetic
  import opened Bits
  import SetSums

  /** Elements as numbers; a fresh table holds the default-constructed element in every slot. */
  type Element = nat

  const DEFAULT: Element := 0
  const LOCATIONS := 8

  /** The k-th 32-bit hash of an element. */
  type HashFunction = (nat, Element) -> nat

  /** The k-th location of an element. */
  function Loc(hash: HashFunction, size: nat, e: Element, k: nat): (r: nat)
    ensures size > 0 ==> r < size
  {
    FastRange(hash(k, e) % TWO_32, size)
  }

  predicate IsLoc(hash: HashFunction, size: nat, e: Element, i: nat) {
    exists k :: 0 <= k < LOCATIONS && Loc(hash, size, e, k) == i
  }

  /** The slots: their elements, whether each may be overwritten, and whether it is of the current epoch. */
  datatype Slots = Slots(table: seq<Element>, collected: seq<bool>, epoch: seq<bool>) {
    predicate Sized(n: nat) { |table| == n && |collected| == n && |epoch| == n && n > 0 }

    predicate Live(i: int) { 0 <= i < |table| && i < |collected| && !collected[i] }
  }

  function Place(s: Slots, loc: nat, e: Element, epoch: bool): Slots
    requires s.Sized(|s.table|) && loc < |s.table|
  {
    Slots(s.table[loc := e], s.collected[loc := false], s.epoch[loc := epoch])
  }

  function Swap(s: Slots, loc: nat, e: Element, epoch: bool): Slots
    requires s.Sized(|s.table|) && loc < |s.table|
  {
    Slots(s.table[loc := e], s.collected, s.epoch[loc := epoch])
  }

  function Freed(s: Slots, loc: nat): Slots
    requires s.Sized(|s.table|) && loc < |s.table|
  {
    s.(collected := s.collected[loc := true])
  }

  /** The current epoch becomes the old one, and the old one may be overwritten. */
  function Age(s: Slots): Slots
    requires s.Sized(|s.table|)
  {
    Slots(s.table,
          seq(|s.table|, i requires 0 <= i < |s.table| => s.collected[i] || !s.epoch[i]),
          seq(|s.table|, i => false))
  }

  // ----- where elements are ---------------------------------------------------------------------

  /** Untouched slots are as they were set up, and may be overwritten. */
  ghost predicate Untouched(s: Slots, written: set<nat>) {
    forall i :: 0 <= i < |s.table| && i !in written ==> s.table[i] == DEFAULT && !s.Live(i)
  }

  ghost predicate AtHome(s: Slots, written: set<nat>, hash: HashFunction) {
    forall i :: i in written ==> i < |s.table| && IsLoc(hash, |s.table|, s.table[i], i)
  }

  ghost predicate Once(s: Slots, written: set<nat>)
    requires forall i :: i in written ==> i < |s.table|
  {
    forall i, j :: i in written && j in written && s.table[i] == s.table[j] ==> i == j
  }

  /** Slot i is the k-th location of the default element or an earlier one. */
  predicate AmongFirst(hash: HashFunction, size: nat, k: nat, i: nat) {
    exists q :: 0 <= q <= k && Loc(hash, size, DEFAULT, q) == i
  }

  /** Among the locations of the default element, none holds it ahead of slot i. */
  ghost predicate HeldFirst(s: Slots, hash: HashFunction, i: nat)
    requires |s.table| > 0
  {
    forall p :: 0 <= p < LOCATIONS && s.table[Loc(hash, |s.table|, DEFAULT, p)] == DEFAULT ==>
        AmongFirst(hash, |s.table|, p, i)
  }

  ghost predicate DefaultFirst(s: Slots, written: set<nat>, hash: HashFunction)
    requires |s.table| > 0 && forall i :: i in written ==> i < |s.table|
  {
    forall i :: i in written && s.table[i] == DEFAULT ==> HeldFirst(s, hash, i)
  }

  /** Every element ever written to the table sits in one of its eight locations, once. */
  ghost predicate Placed(s: Slots, written: set<nat>, hash: HashFunction) {
    && s.Sized(|s.table|)
    && Untouched(s, written) && AtHome(s, written, hash) && Once(s, written) && DefaultFirst(s, written, hash)
  }

  ghost predicate Absent(s: Slots, written: set<nat>, e: Element)
    requires forall i :: i in written ==> i < |s.table|
  {
    forall i :: i in written ==> s.table[i] != e
  }

  /** k is the first of the element's locations that holds it, or their number. */
  predicate FirstHolder(table: seq<Element>, hash: HashFunction, e: Element, k: nat)
    requires |table| > 0
  {
    && k <= LOCATIONS && (k < LOCATIONS ==> table[Loc(hash, |table|, e, k)] == e)
    && forall q :: 0 <= q < k ==> table[Loc(hash, |table|, e, q)] != e
  }

  /** k is the first of the element's locations that may be overwritten, or their number. */
  predicate FirstFree(s: Slots, hash: HashFunction, e: Element, k: nat) {
    && k <= LOCATIONS && (k < LOCATIONS ==> !s.Live(Loc(hash, |s.table|, e, k)))
    && forall q :: 0 <= q < k ==> s.Live(Loc(hash, |s.table|, e, q))
  }

  /** The q-th location of the element is its first at slot i. */
  predicate FirstAt(hash: HashFunction, size: nat, e: Element, i: nat, q: nat) {
    q < LOCATIONS && Loc(hash, size, e, q) == i && forall p :: 0 <= p < q ==> Loc(hash, size, e, p) != i
  }

  /** An element found in none of its locations is in no written slot. */
  lemma NotFound(s: Slots, written: set<nat>, hash: HashFunction, e: Element)
    requires Placed(s, written, hash) && FirstHolder(s.table, hash, e, LOCATIONS)
    ensures Absent(s, written, e)
  {
    forall i | i in written ensures s.table[i] != e {
      assert IsLoc(hash, |s.table|, s.table[i], i);
    }
  }

  /** Writing an absent element to its k-th location, when it is absent or its earlier locations are taken. */
  lemma WriteKeeps(s: Slots, written: set<nat>, hash: HashFunction, k: nat, e: Element, s': Slots)
    requires Placed(s, written, hash) && Absent(s, written, e) && k < LOCATIONS
    requires forall q :: 0 <= q < k ==> Loc(hash, |s.table|, e, q) in written
    requires s'.Sized(|s.table|) && s'.table == s.table[Loc(hash, |s.table|, e, k) := e]
    requires forall i :: i != Loc(hash, |s.table|, e, k) && s'.Live(i) ==> s.Live(i)
    ensures Placed(s', written + {Loc(hash, |s.table|, e, k)}, hash)
  {
    var n, loc := |s.table|, Loc(hash, |s.table|, e, k);
    var w' := written + {loc};
    assert AtHome(s', w', hash);
    assert Once(s', w');
    forall i | i in w' && s'.table[i] == DEFAULT ensures HeldFirst(s', hash, i) {
      if i == loc {
        NoneAhead(s, written, hash, k, s');
      } else {
        assert HeldFirst(s, hash, i);
      }
    }
  }

  lemma NoneAhead(s: Slots, written: set<nat>, hash: HashFunction, k: nat, s': Slots)
    requires |s.table| == |s'.table| > 0 && (forall i :: i in written ==> i < |s.table|) && k < LOCATIONS
    requires Absent(s, written, DEFAULT)
    requires forall q :: 0 <= q < k ==> Loc(hash, |s.table|, DEFAULT, q) in written
    requires s'.table == s.table[Loc(hash, |s.table|, DEFAULT, k) := DEFAULT]
    ensures HeldFirst(s', hash, Loc(hash, |s.table|, DEFAULT, k))
  {
    var n, loc := |s.table|, Loc(hash, |s.table|, DEFAULT, k);
    forall p | 0 <= p < LOCATIONS && s'.table[Loc(hash, n, DEFAULT, p)] == DEFAULT ensures AmongFirst(hash, n, p, loc) {
      if p < k { assert Loc(hash, n, DEFAULT, p) in written; }
    }
  }

  /** Finding an element in its k-th location, the first that holds it, and keeping it there. */
  lemma FoundKeeps(s: Slots, written: set<nat>, hash: HashFunction, k: nat, e: Element, s': Slots)
    requires Placed(s, written, hash) && k < LOCATIONS && FirstHolder(s.table, hash, e, k)
    requires s'.Sized(|s.table|) && s'.table == s.table
    requires forall i :: i != Loc(hash, |s.table|, e, k) && s'.Live(i) ==> s.Live(i)
    ensures Placed(s', written + {Loc(hash, |s.table|, e, k)}, hash)
    ensures forall i :: i in written && s.table[i] == e ==> i == Loc(hash, |s.table|, e, k)
  {
    var n, loc := |s.table|, Loc(hash, |s.table|, e, k);
    var w' := written + {loc};
    forall i | i in written && s.table[i] == e ensures i == loc {
      if e == DEFAULT {
        assert HeldFirst(s, hash, i);
        assert AmongFirst(hash, n, k, i);
      }
    }
    assert IsLoc(hash, n, e, loc);
    assert AtHome(s', w', hash);
    assert Once(s', w');
    forall i | i in w' && s'.table[i] == DEFAULT ensures HeldFirst(s', hash, i) {
      if i == loc {
        FoundFirst(s, hash, k, s');
      } else {
        assert HeldFirst(s, hash, i);
      }
    }
  }

  lemma FoundFirst(s: Slots, hash: HashFunction, k: nat, s': Slots)
    requires |s.table| > 0 && s'.table == s.table && k < LOCATIONS && FirstHolder(s.table, hash, DEFAULT, k)
    ensures HeldFirst(s', hash, Loc(hash, |s.table|, DEFAULT, k))
  {
    var n, loc := |s.table|, Loc(hash, |s.table|, DEFAULT, k);
    forall p | 0 <= p < LOCATIONS && s'.table[Loc(hash, n, DEFAULT, p)] == DEFAULT ensures AmongFirst(hash, n, p, loc) {
      assert p >= k;
    }
  }

  /** Marking slots as free, whatever becomes of the epochs. */
  lemma FreeKeeps(s: Slots, written: set<nat>, hash: HashFunction, s': Slots)
    requires Placed(s, written, hash)
    requires s'.Sized(|s.table|) && s'.table == s.table && forall i :: s'.Live(i) ==> s.Live(i)
    ensures Placed(s', written, hash)
  {
    forall i | i in written && s'.table[i] == DEFAULT ensures HeldFirst(s', hash, i) {
      assert HeldFirst(s, hash, i);
    }
  }

  // ----- which elements are stored --------------------------------------------------------------

  ghost function Contents(table: seq<Element>, slots: set<nat>): set<Element> {
    set i | i in slots && i < |table| :: table[i]
  }

  ghost function LiveSlots(s: Slots): set<nat> {
    set i: nat | i < |s.table| && s.Live(i)
  }

  /** The elements that may not be overwritten. */
  ghost function LiveElements(s: Slots): set<Element> { Contents(s.table, LiveSlots(s)) }

  /** Overwriting a slot that is in the set: the new element replaces the one there. */
  lemma ContentsReplace(table: seq<Element>, slots: set<nat>, loc: nat, e: Element)
    requires loc in slots && loc < |table| && e !in Contents(table, slots)
    requires forall i, j :: i in slots && j in slots && i < |table| && j < |table| && table[i] == table[j] ==> i == j
    ensures Contents(table[loc := e], slots) == Contents(table, slots) + {e} - {table[loc]}
    ensures table[loc] in Contents(table, slots)
  {
    var t' := table[loc := e];
    forall x ensures x in Contents(t', slots) <==> x in Contents(table, slots) + {e} - {table[loc]} {
      if x in Contents(t', slots) {
        var i :| i in slots && i < |t'| && t'[i] == x;
        assert i != loc ==> table[i] == x;
      }
      if x in Contents(table, slots) + {e} - {table[loc]} {
        if x == e {
          assert t'[loc] == x;
        } else {
          var i :| i in slots && i < |table| && table[i] == x;
          assert t'[i] == x;
        }
      }
    }
  }

  /** Writing to a slot that is not in the set yet adds the element. */
  lemma ContentsAdd(table: seq<Element>, slots: set<nat>, loc: nat, e: Element)
    requires loc !in slots && loc < |table|
    ensures Contents(table[loc := e], slots + {loc}) == Contents(table, slots) + {e}
  {
    var t', slots' := table[loc := e], slots + {loc};
    forall x ensures x in Contents(t', slots') <==> x in Contents(table, slots) + {e} {
      if x in Contents(t', slots') {
        var i :| i in slots' && i < |t'| && t'[i] == x;
        assert i != loc ==> table[i] == x;
      }
      if x in Contents(table, slots) {
        var i :| i in slots && i < |table| && table[i] == x;
        assert t'[i] == x;
      }
      assert t'[loc] == e;
    }
  }

  // ----- how many are live ----------------------------------------------------------------------

  /** The live slots of the current epoch, or of the old one. */
  ghost function InEpoch(s: Slots, current: bool): set<nat>
    requires s.Sized(|s.table|)
  {
    set i: nat | i < |s.table| && s.Live(i) && s.epoch[i] == current
  }

  function One(b: bool): nat { if b then 1 else 0 }

  /** Giving slot loc a flag for its epoch, and making it live. */
  lemma PlaceCounts(s: Slots, loc: nat, e: Element, epoch: bool, current: bool)
    requires s.Sized(|s.table|) && loc < |s.table|
    ensures |InEpoch(Place(s, loc, e, epoch), current)| ==
      |InEpoch(s, current)| + One(epoch == current) - One(s.Live(loc) && s.epoch[loc] == current)
  {
    PlaceInEpoch(s, loc, e, epoch, current);
    SetSums.SizeWith(InEpoch(s, current), loc);
    SetSums.SizeWithout(InEpoch(s, current), loc);
  }

  lemma PlaceInEpoch(s: Slots, loc: nat, e: Element, epoch: bool, current: bool)
    requires s.Sized(|s.table|) && loc < |s.table|
    ensures InEpoch(Place(s, loc, e, epoch), current) ==
      if epoch == current then InEpoch(s, current) + {loc} else InEpoch(s, current) - {loc}
  {
    var s' := Place(s, loc, e, epoch);
    forall i: nat | i != loc ensures i in InEpoch(s', current) <==> i in InEpoch(s, current) {
      assert i < |s.table| ==> s'.Live(i) == s.Live(i) && s'.epoch[i] == s.epoch[i];
    }
  }

  lemma AgeCounts(s: Slots)
    requires s.Sized(|s.table|)
    ensures InEpoch(Age(s), true) == {} && InEpoch(Age(s), false) == InEpoch(s, true)
  {
  }

  lemma EraseCounts(s: Slots, loc: nat, current: bool)
    requires s.Sized(|s.table|) && loc < |s.table|
    ensures |InEpoch(Freed(s, loc), current)| <= |InEpoch(s, current)|
  {
    var a, a' := InEpoch(s, current), InEpoch(Freed(s, loc), current);
    SetSums.SizeWithout(a, loc);
    forall i: nat ensures i in a' <==> i in a - {loc} {}
    assert a' == a - {loc};
  }

  // ----- an insertion under way -----------------------------------------------------------------

  /** While an insertion of e0 into s0 displaces elements, the one in hand is the only one not in the
      table; elements carry their epoch along. */
  ghost predicate Carrying(s0: Slots, written: set<nat>, hash: HashFunction, e0: Element, s: Slots, e: Element,
                           epoch: bool) {
    && Placed(s, written, hash) && Absent(s, written, e)
    && s0.Sized(|s.table|) && s.collected == s0.collected
    && Accounted(s0, written, e0, s, e, epoch)
  }

  ghost predicate Accounted(s0: Slots, written: set<nat>, e0: Element, s: Slots, e: Element, epoch: bool)
    requires s0.Sized(|s0.table|) && s.Sized(|s.table|)
  {
    && Contents(s.table, written) + {e} == Contents(s0.table, written) + {e0}
    && LiveElements(s) + {e} == LiveElements(s0) + {e0}
    && |InEpoch(s, true)| + One(epoch) == |InEpoch(s0, true)| + 1
    && |InEpoch(s, false)| + One(!epoch) == |InEpoch(s0, false)|
  }

  lemma LiveIsWritten(s: Slots, written: set<nat>)
    requires Untouched(s, written)
    ensures LiveSlots(s) <= written
  {
  }

  /** Swapping the element in hand with the one in a live location of it. */
  lemma CarryOn(s0: Slots, written: set<nat>, hash: HashFunction, e0: Element, s: Slots, e: Element, epoch: bool,
                k: nat)
    requires Carrying(s0, written, hash, e0, s, e, epoch) && k < LOCATIONS && FirstFree(s, hash, e, LOCATIONS)
    ensures var loc := Loc(hash, |s.table|, e, k);
      Carrying(s0, written, hash, e0, Swap(s, loc, e, epoch), s.table[loc], s.epoch[loc])
  {
    var loc := Loc(hash, |s.table|, e, k);
    assert s.Live(loc);
    LiveIsWritten(s, written);
    var s' := Swap(s, loc, e, epoch);
    forall q | 0 <= q < k ensures Loc(hash, |s.table|, e, q) in written {
      assert s.Live(Loc(hash, |s.table|, e, q));
    }
    assert written + {loc} == written;
    WriteKeeps(s, written, hash, k, e, s');
    AccountSwap(s0, written, e0, s, e, epoch, loc);
  }

  lemma AccountSwap(s0: Slots, written: set<nat>, e0: Element, s: Slots, e: Element, epoch: bool, loc: nat)
    requires s0.Sized(|s0.table|) && s.Sized(|s.table|) && Accounted(s0, written, e0, s, e, epoch)
    requires s.Live(loc) && LiveSlots(s) <= written && (forall i :: i in written ==> i < |s.table|)
    requires Once(s, written) && Absent(s, written, e)
    ensures Accounted(s0, written, e0, Swap(s, loc, e, epoch), s.table[loc], s.epoch[loc])
  {
    var s' := Swap(s, loc, e, epoch);
    assert loc in LiveSlots(s);
    ContentsReplace(s.table, written, loc, e);
    ContentsReplace(s.table, LiveSlots(s), loc, e);
    assert LiveSlots(s') == LiveSlots(s);
    assert s' == Place(s, loc, e, epoch);
    PlaceCounts(s, loc, e, epoch, true);
    PlaceCounts(s, loc, e, epoch, false);
  }

  // ----- what an insertion does -----------------------------------------------------------------

  /** Inserting e adds it to the stored and to the live elements, and loses at most one element of
      either; at most one more entry is of the current epoch, and none more of the old one. */
  ghost predicate Inserted(s: Slots, written: set<nat>, e: Element, s': Slots, written': set<nat>, lost: set<Element>) {
    && s.Sized(|s.table|) && s'.Sized(|s'.table|)
    && lost <= Contents(s.table, written) + {e} && |lost| <= 1
    && Contents(s'.table, written') == Contents(s.table, written) + {e} - lost
    && LiveElements(s') == LiveElements(s) + {e} - lost
    && |InEpoch(s', true)| <= |InEpoch(s, true)| + 1
    && |InEpoch(s', false)| <= |InEpoch(s, false)|
  }

  lemma LiveAdd(s: Slots, loc: nat, e: Element, epoch: bool)
    requires s.Sized(|s.table|) && loc < |s.table| && (s.Live(loc) ==> s.table[loc] == e)
    ensures LiveElements(Place(s, loc, e, epoch)) == LiveElements(s) + {e}
  {
    var s' := Place(s, loc, e, epoch);
    forall i: nat ensures i in LiveSlots(s') <==> i in LiveSlots(s) + {loc} {}
    assert LiveSlots(s') == LiveSlots(s) + {loc};
    if s.Live(loc) {
      assert loc in LiveSlots(s);
      assert s'.table == s.table;
    } else {
      ContentsAdd(s.table, LiveSlots(s), loc, e);
    }
  }

  /** The element is already in the table. */
  lemma FoundInserted(s: Slots, written: set<nat>, e: Element, loc: nat)
    requires s.Sized(|s.table|) && loc < |s.table| && s.table[loc] == e
    ensures Inserted(s, written, e, Place(s, loc, e, true), written + {loc}, {})
  {
    var s' := Place(s, loc, e, true);
    assert s'.table == s.table;
    LiveAdd(s, loc, e, true);
    if loc in written {
      assert written + {loc} == written && e in Contents(s.table, written);
    } else {
      ContentsAdd(s.table, written, loc, e);
    }
    PlaceCounts(s, loc, e, true, true);
    PlaceCounts(s, loc, e, true, false);
  }

  /** The element in hand finds a slot that may be overwritten. */
  lemma PlacedInserted(s0: Slots, written: set<nat>, hash: HashFunction, e0: Element, s: Slots, e: Element, epoch: bool,
                       loc: nat)
    returns (lost: set<Element>)
    requires Carrying(s0, written, hash, e0, s, e, epoch) && loc < |s.table| && !s.Live(loc)
    ensures Inserted(s0, written, e0, Place(s, loc, e, epoch), written + {loc}, lost)
    ensures lost !! LiveElements(s) && e !in lost
  {
    var s' := Place(s, loc, e, epoch);
    lost := if loc in written then {s.table[loc]} else {};
    LiveAdd(s, loc, e, epoch);
    LiveIsWritten(s, written);
    if loc in written {
      ContentsReplace(s.table, written, loc, e);
      assert written + {loc} == written;
    } else {
      ContentsAdd(s.table, written, loc, e);
    }
    PlaceCounts(s, loc, e, epoch, true);
    PlaceCounts(s, loc, e, epoch, false);
  }

  /** The element in hand is dropped. */
  lemma DroppedInserted(s0: Slots, written: set<nat>, hash: HashFunction, e0: Element, s: Slots, e: Element,
                        epoch: bool)
    requires Carrying(s0, written, hash, e0, s, e, epoch)
    ensures Inserted(s0, written, e0, s, written, {e})
  {
    LiveIsWritten(s, written);
    assert e !in Contents(s.table, written);
    assert LiveElements(s) <= Contents(s.table, written);
  }

  /** Freeing the first location that holds an element takes it, and nothing else, from the live ones. */
  lemma FreedContents(s: Slots, written: set<nat>, hash: HashFunction, e: Element, loc: nat)
    requires Placed(s, written, hash) && loc < |s.table| && s.table[loc] == e
    requires forall i :: i in written && s.table[i] == e ==> i == loc
    ensures LiveElements(Freed(s, loc)) == LiveElements(s) - {e}
  {
    var s' := Freed(s, loc);
    LiveIsWritten(s, written);
    assert LiveSlots(s') == LiveSlots(s) - {loc};
    forall x ensures x in LiveElements(s') <==> x in LiveElements(s) - {e} {
      if x in LiveElements(s) && x != e {
        var i :| i in LiveSlots(s) && i < |s.table| && s.table[i] == x;
        assert i in LiveSlots(s');
      }
    }
  }

  /** What looking through an element's locations tells. */
  lemma Looked(s: Slots, written: set<nat>, hash: HashFunction, k: nat, e: Element)
    requires Placed(s, written, hash) && FirstHolder(s.table, hash, e, k)
    ensures k == LOCATIONS ==> e !in Contents(s.table, written) && e !in LiveElements(s)
    ensures k < LOCATIONS && e != DEFAULT ==> e in Contents(s.table, written)
  {
    if k == LOCATIONS {
      NotFound(s, written, hash, e);
      LiveIsWritten(s, written);
    } else {
      var loc := Loc(hash, |s.table|, e, k);
      assert e != DEFAULT ==> loc in written;
    }
  }

  lemma FreedKeeps(s: Slots, written: set<nat>, hash: HashFunction, k: nat, e: Element)
    requires Placed(s, written, hash) && k < LOCATIONS && FirstHolder(s.table, hash, e, k)
    ensures var s' := Freed(s, Loc(hash, |s.table|, e, k));
      && Placed(s', written, hash) && LiveElements(s') == LiveElements(s) - {e}
      && |InEpoch(s', true)| <= |InEpoch(s, true)| && |InEpoch(s', false)| <= |InEpoch(s, false)|
  {
    var loc := Loc(hash, |s.table|, e, k);
    FoundKeeps(s, written, hash, k, e, s);
    FreeKeeps(s, written, hash, Freed(s, loc));
    FreedContents(s, written, hash, e, loc);
    EraseCounts(s, loc, true);
    EraseCounts(s, loc, false);
  }

  // ----- the cache ------------------------------------------------------------------------------

  ghost function Unpacked(mem: seq<bv8>, n: nat): (r: seq<bool>)
    requires n <= 8 * |mem|
    ensures |r| == n && forall i :: 0 <= i < n ==> r[i] == BitAt(mem, i)
  {
    seq(n, i requires 0 <= i < n => BitAt(mem, i))
  }

  /** The most live entries that one epoch can have. */
  function EpochBound(epochSize: nat): nat { epochSize + Max(1, epochSize / 16) }

  /** The slots after epoch_check: aged when its counter has run out and the current epoch is full. */
  ghost function Checked(s: Slots, counter: nat, epochSize: nat): Slots
    requires s.Sized(|s.table|)
  {
    if counter == 0 && |InEpoch(s, true)| >= epochSize then Age(s) else s
  }

  class Cache {
    const hash: HashFunction
    var size: nat
    var table: seq<Element>
    var collectionFlags: seq<bv8>
    var epochFlags: seq<bool>
    var epochHeuristicCounter: nat
    var epochSize: nat
    var depthLimit: nat
    ghost var written: set<nat>

    ghost predicate Allocated()
      reads this
    {
      size > 0 && |table| == size && |epochFlags| == size && |collectionFlags| == (size + 7) / 8
    }

    ghost function S(): (s: Slots)
      requires Allocated()
      reads this
      ensures s.Sized(size)
    {
      Slots(table, Unpacked(collectionFlags, size), epochFlags)
    }

    /** What every call keeps: elements are stored where lookups find them, once each, and neither
        epoch has more live entries than the bound. */
    ghost predicate Valid()
      reads this
    {
      && Allocated() && epochSize > 0 && depthLimit > 0
      && Placed(S(), written, hash)
      && |InEpoch(S(), true)| + epochHeuristicCounter <= EpochBound(epochSize)
      && |InEpoch(S(), false)| <= EpochBound(epochSize)
    }

    /** setup; the depth limit, the base-2 logarithm of the size, is a parameter. */
    constructor (hash: HashFunction, newSize: nat, depthLimit: nat)
      requires newSize < TWO_32 && depthLimit > 0
      ensures Valid() && this.hash == hash && size == Max(2, newSize) && LiveElements(S()) == {} && written == {}
      ensures forall i :: 0 <= i < size ==> table[i] == DEFAULT
    {
      this.hash := hash;
      this.depthLimit := depthLimit;
      var n := Max(2, newSize);
      size := n;
      table := seq(n, _ => DEFAULT);
      collectionFlags := seq((n + 7) / 8, _ => 0xFF as bv8);
      epochFlags := seq(n, _ => false);
      epochSize := Max(1, 45 * n % TWO_32 / 100);
      epochHeuristicCounter := Max(1, 45 * n % TWO_32 / 100);
      written := {};
      new;
      assert forall i :: 0 <= i < size ==> BitAt(collectionFlags, i);
      assert forall i :: !S().Live(i);
      assert InEpoch(S(), true) == {} && InEpoch(S(), false) == {} && LiveSlots(S()) == {};
    }

    method AllowErase(n: nat)
      requires Allocated() && n < size
      modifies `collectionFlags
      ensures Allocated() && S() == Freed(old(S()), n)
    {
      collectionFlags := SetBitAt(collectionFlags, n);
      assert S().collected == old(S()).collected[n := true];
    }

    method PleaseKeep(n: nat)
      requires Allocated() && n < size
      modifies `collectionFlags
      ensures Allocated() && S() == old(S()).(collected := old(S()).collected[n := false])
    {
      collectionFlags := ClearBitAt(collectionFlags, n);
      assert S().collected == old(S()).collected[n := false];
    }

    method CountCurrent() returns (count: nat)
      requires Allocated()
      ensures count == |InEpoch(S(), true)|
    {
      count := 0;
      var i := 0;
      ghost var seen: set<nat> := {};
      while i < size
        invariant i <= size && count == |seen|
        invariant forall j: nat :: j in seen <==> j < i && j in InEpoch(S(), true)
      {
        if epochFlags[i] && !BitAt(collectionFlags, i) {
          count := count + 1;
          seen := seen + {i};
        }
        i := i + 1;
      }
      assert seen == InEpoch(S(), true);
    }

    method AgeEpochs()
      requires Allocated()
      modifies `collectionFlags, `epochFlags
      ensures Allocated() && S() == Age(old(S()))
    {
      var i := 0;
      while i < size
        invariant i <= size && Allocated()
        invariant forall j :: 0 <= j < i ==>
          !epochFlags[j] && (BitAt(collectionFlags, j) <==> old(S()).collected[j] || !old(epochFlags[j]))
        invariant forall j :: i <= j < size ==>
          epochFlags[j] == old(epochFlags[j]) && (BitAt(collectionFlags, j) <==> old(S()).collected[j])
      {
        if epochFlags[i] {
          epochFlags := epochFlags[i := false];
        } else {
          AllowErase(i);
        }
        i := i + 1;
      }
      assert S().collected == Age(old(S())).collected && S().epoch == Age(old(S())).epoch;
    }

    /** epoch_check leaves room for one more entry in the current epoch. */
    method EpochCheck()
      requires Valid()
      modifies `epochHeuristicCounter, `collectionFlags, `epochFlags
      ensures Valid() && S() == Checked(old(S()), old(epochHeuristicCounter), epochSize)
      ensures |InEpoch(S(), true)| + 1 + epochHeuristicCounter <= EpochBound(epochSize)
    {
      if epochHeuristicCounter != 0 {
        epochHeuristicCounter := epochHeuristicCounter - 1;
        return;
      }
      var epochUnusedCount := CountCurrent();
      if epochUnusedCount >= epochSize {
        AgeEpochs();
        AgeCounts(old(S()));
        FreeKeeps(old(S()), written, hash, S());
        epochHeuristicCounter := epochSize;
      } else {
        epochHeuristicCounter := Max(1, Max(epochSize / 16, epochSize - epochUnusedCount));
      }
    }

    method FindElement(e: Element) returns (k: nat)
      requires Allocated()
      ensures FirstHolder(S().table, hash, e, k)
    {
      k := 0;
      while k < LOCATIONS && table[Loc(hash, size, e, k)] != e
        invariant k <= LOCATIONS
        invariant forall q :: 0 <= q < k ==> table[Loc(hash, size, e, q)] != e
      {
        k := k + 1;
      }
    }

    method FindFree(e: Element) returns (k: nat)
      requires Allocated()
      ensures FirstFree(S(), hash, e, k)
    {
      k := 0;
      ghost var s := S();
      while k < LOCATIONS && !BitAt(collectionFlags, Loc(hash, size, e, k))
        invariant k <= LOCATIONS
        invariant forall q :: 0 <= q < k ==> s.Live(Loc(hash, size, e, q))
      {
        k := k + 1;
      }
    }

    /** The index of the location after the one last swapped; the second location at the start. */
    method NextLocation(e: Element, lastLoc: nat) returns (k: nat)
      ensures k < LOCATIONS
      ensures forall q: nat :: FirstAt(hash, size, e, lastLoc, q) ==> k == (1 + q) % LOCATIONS
      ensures !IsLoc(hash, size, e, lastLoc) ==> k == 1
    {
      var q := 0;
      while q < LOCATIONS && Loc(hash, size, e, q) != lastLoc
        invariant q <= LOCATIONS
        invariant forall p :: 0 <= p < q ==> Loc(hash, size, e, p) != lastLoc
      {
        q := q + 1;
      }
      k := (1 + q) % 8;
    }

    method Store(loc: nat, e: Element, epoch: bool)
      requires Allocated() && loc < size
      modifies `table, `collectionFlags, `epochFlags, `written
      ensures Allocated() && S() == Place(old(S()), loc, e, epoch) && written == old(written) + {loc}
    {
      table := table[loc := e];
      PleaseKeep(loc);
      epochFlags := epochFlags[loc := epoch];
      written := written + {loc};
    }

    method Exchange(loc: nat, e: Element, epoch: bool) returns (evicted: Element, itsEpoch: bool)
      requires Allocated() && loc < size
      modifies `table, `epochFlags
      ensures Allocated() && S() == Swap(old(S()), loc, e, epoch)
      ensures evicted == old(S()).table[loc] && itsEpoch == old(S()).epoch[loc]
    {
      evicted, itsEpoch := table[loc], epochFlags[loc];
      table := table[loc := e];
      epochFlags := epochFlags[loc := epoch];
    }

    /** contains: whether one of the element's locations holds it, optionally freeing that slot; the
        element stays findable until the slot is overwritten. */
    method Contains(e: Element, erase: bool) returns (found: bool)
      requires Valid()
      modifies `collectionFlags
      ensures Valid()
      ensures found <==> exists k :: 0 <= k < LOCATIONS && table[Loc(hash, size, e, k)] == e
      ensures e != DEFAULT ==> (found <==> e in Contents(table, written))
      ensures LiveElements(S()) == if erase then old(LiveElements(S())) - {e} else old(LiveElements(S()))
    {
      var k := FindElement(e);
      Looked(S(), written, hash, k, e);
      found := k < LOCATIONS;
      if found {
        if erase {
          FreedKeeps(S(), written, hash, k, e);
          AllowErase(Loc(hash, size, e, k));
        }
      }
    }

    /** insert: looks for the element, then for a free location, then displaces elements. */
    method Insert(e0: Element) returns (ghost lost: set<Element>)
      requires Valid()
      modifies this
      ensures Valid() && Contents(table, written) <= old(Contents(table, written)) + {e0}
      ensures var checked := Checked(old(S()), old(epochHeuristicCounter), old(epochSize));
        && Inserted(checked, old(written), e0, S(), written, lost)
        && (FirstFree(checked, hash, e0, LOCATIONS) || lost !! LiveElements(checked) + {e0})
    {
      EpochCheck();
      ghost var s0 := S();
      var k := FindElement(e0);
      if k < LOCATIONS {
        FoundKeeps(s0, written, hash, k, e0, Place(s0, Loc(hash, size, e0, k), e0, true));
        FoundInserted(s0, written, e0, Loc(hash, size, e0, k));
        Store(Loc(hash, size, e0, k), e0, true);
        lost := {};
        return;
      }
      NotFound(s0, written, hash, e0);
      lost := Displace(e0);
    }

    /** Stores the element in hand in the first of its locations that may be overwritten, if any. */
    method TryStore(e: Element, epoch: bool, ghost s0: Slots, ghost e0: Element)
      returns (stored: bool, ghost lost: set<Element>)
      requires Allocated() && Carrying(s0, written, hash, e0, S(), e, epoch)
      modifies `table, `collectionFlags, `epochFlags, `written
      ensures Allocated()
      ensures !stored ==> S() == old(S()) && written == old(written) && FirstFree(S(), hash, e, LOCATIONS)
      ensures stored ==> Placed(S(), written, hash) && Inserted(s0, old(written), e0, S(), written, lost)
      ensures stored ==> lost !! old(LiveElements(S())) && e !in lost
    {
      var k := FindFree(e);
      stored, lost := k < LOCATIONS, {};
      if stored {
        ghost var s := S();
        lost := PlacedInserted(s0, written, hash, e0, s, e, epoch, Loc(hash, size, e, k));
        LiveIsWritten(s, written);
        WriteKeeps(s, written, hash, k, e, Place(s, Loc(hash, size, e, k), e, epoch));
        Store(Loc(hash, size, e, k), e, epoch);
      }
    }

    /** Swaps the element in hand with the one at its location after the last one swapped. */
    method Evict(e: Element, epoch: bool, lastLoc: nat, ghost s0: Slots, ghost e0: Element)
      returns (evicted: Element, itsEpoch: bool, loc: nat)
      requires Allocated() && Carrying(s0, written, hash, e0, S(), e, epoch) && FirstFree(S(), hash, e, LOCATIONS)
      modifies `table, `epochFlags
      ensures Allocated() && Carrying(s0, written, hash, e0, S(), evicted, itsEpoch)
    {
      var k := NextLocation(e, lastLoc);
      CarryOn(s0, written, hash, e0, S(), e, epoch, k);
      loc := Loc(hash, size, e, k);
      evicted, itsEpoch := Exchange(loc, e, epoch);
    }

    method StoreOrEvict(e: Element, epoch: bool, lastLoc: nat, ghost s0: Slots, ghost e0: Element)
      returns (stored: bool, next: Element, itsEpoch: bool, loc: nat, ghost lost: set<Element>)
      requires Allocated() && Carrying(s0, written, hash, e0, S(), e, epoch)
      modifies `table, `collectionFlags, `epochFlags, `written
      ensures Allocated()
      ensures !stored ==> written == old(written) && Carrying(s0, written, hash, e0, S(), next, itsEpoch)
      ensures !stored ==> FirstFree(old(S()), hash, e, LOCATIONS)
      ensures stored ==> Placed(S(), written, hash) && Inserted(s0, old(written), e0, S(), written, lost)
      ensures stored ==> lost !! old(LiveElements(S())) && e !in lost
    {
      stored, lost := TryStore(e, epoch, s0, e0);
      next, itsEpoch, loc := e, epoch, lastLoc;
      if !stored {
        next, itsEpoch, loc := Evict(e, epoch, lastLoc, s0, e0);
      }
    }

    /** The displacement loop of insert, for an element that is in none of its locations. */
    method Displace(e0: Element) returns (ghost lost: set<Element>)
      requires Allocated() && depthLimit > 0 && Placed(S(), written, hash) && Absent(S(), written, e0)
      modifies `table, `collectionFlags, `epochFlags, `written
      ensures Allocated() && Placed(S(), written, hash) && Inserted(old(S()), old(written), e0, S(), written, lost)
      ensures FirstFree(old(S()), hash, e0, LOCATIONS) || lost !! old(LiveElements(S())) + {e0}
    {
      ghost var s0 := S();
      var e, lastEpoch, depth := e0, true, 0;
      var lastLoc: nat := TWO_32 - 1;
      while depth < depthLimit
        invariant Allocated() && written == old(written)
        invariant Carrying(s0, written, hash, e0, S(), e, lastEpoch)
        invariant FirstFree(s0, hash, e0, LOCATIONS) || (depth == 0 && S() == s0 && e == e0)
      {
        var stored;
        stored, e, lastEpoch, lastLoc, lost := StoreOrEvict(e, lastEpoch, lastLoc, s0, e0);
        if stored { return; }
        depth := depth + 1;
      }
      DroppedInserted(s0, written, hash, e0, S(), e, lastEpoch);
      lost := {e};
    }
  }

  // ----- whole runs -----------------------------------------------------------------------------

  datatype Operation = InsertElement(e: Element) | LookUp(e: Element, erase: bool)

  function Adds(op: Operation): set<Element> { if op.InsertElement? then {op.e} else {} }

  function InsertedBy(ops: seq<Operation>): set<Element> {
    if ops == [] then {} else InsertedBy(ops[..|ops| - 1]) + Adds(ops[|ops| - 1])
  }

  /** A lookup that succeeds is for an element inserted before it, or for the default one. */
  ghost predicate Sound(ops: seq<Operation>, answers: seq<bool>, i: nat)
    requires i < |ops| && i < |answers|
  {
    ops[i].LookUp? && answers[i] ==> ops[i].e == DEFAULT || ops[i].e in InsertedBy(ops[..i])
  }

  method Perform(c: Cache, op: Operation) returns (answer: bool)
    requires c.Valid()
    modifies c
    ensures c.Valid() && Contents(c.table, c.written) <= old(Contents(c.table, c.written)) + Adds(op)
    ensures op.LookUp? && answer ==> op.e == DEFAULT || op.e in old(Contents(c.table, c.written))
  {
    match op {
      case InsertElement(e) =>
        ghost var lost := c.Insert(e);
        answer := true;
      case LookUp(e, erase) =>
        answer := c.Contains(e, erase);
    }
  }

  /** A table that was never written reports the default element, and nothing else, as contained. */
  method FreshContains(hash: HashFunction, newSize: nat, depthLimit: nat, e: Element, erase: bool) returns (found: bool)
    requires newSize < TWO_32 && depthLimit > 0
    ensures found <==> e == DEFAULT
  {
    var c := new Cache(hash, newSize, depthLimit);
    assert forall k :: 0 <= k < LOCATIONS ==> 0 <= Loc(hash, c.size, e, k) < c.size;
    assert e == DEFAULT ==> c.table[Loc(hash, c.size, e, 0)] == e;
    found := c.Contains(e, erase);
  }

  /** Both epochs together. */
  lemma LiveTotal(s: Slots, bound: nat)
    requires s.Sized(|s.table|) && |InEpoch(s, true)| <= bound && |InEpoch(s, false)| <= bound
    ensures |LiveSlots(s)| <= 2 * bound
  {
    var current, dying := InEpoch(s, true), InEpoch(s, false);
    assert LiveSlots(s) == current + dying && current !! dying;
  }

  ghost predicate AllSound(ops: seq<Operation>, answers: seq<bool>) {
    |answers| == |ops| && forall i :: 0 <= i < |ops| ==> Sound(ops, answers, i)
  }

  lemma SoundExtends(ops: seq<Operation>, answers: seq<bool>, answer: bool)
    requires ops != [] && AllSound(ops[..|ops| - 1], answers)
    requires ops[|ops| - 1].LookUp? && answer ==>
      ops[|ops| - 1].e == DEFAULT || ops[|ops| - 1].e in InsertedBy(ops[..|ops| - 1])
    ensures AllSound(ops, answers + [answer])
  {
    var prefix := ops[..|ops| - 1];
    forall i | 0 <= i < |ops| ensures Sound(ops, answers + [answer], i) {
      if i < |prefix| {
        assert Sound(prefix, answers, i);
        assert prefix[..i] == ops[..i];
      }
    }
  }

  /** Over every run from setup: the cache stays valid, and a lookup only succeeds for elements inserted
      before, or the default one. */
  method Run(hash: HashFunction, newSize: nat, depthLimit: nat, ops: seq<Operation>)
    returns (c: Cache, answers: seq<bool>)
    requires newSize < TWO_32 && depthLimit > 0
    ensures c.Valid() && fresh(c)
    ensures Contents(c.table, c.written) <= InsertedBy(ops) && AllSound(ops, answers)
    decreases |ops|
  {
    if ops == [] {
      c := new Cache(hash, newSize, depthLimit);
      answers := [];
    } else {
      c, answers := Run(hash, newSize, depthLimit, ops[..|ops| - 1]);
      var answer := Perform(c, ops[|ops| - 1]);
      SoundExtends(ops, answers, answer);
      answers := answers + [answer];
    }
  }

  /** A valid cache has at most twice the bound of an epoch in live entries, all of them stored. */
  lemma ValidBounds(c: Cache)
    requires c.Valid()
    ensures |LiveSlots(c.S())| <= 2 * EpochBound(c.epochSize) && LiveElements(c.S()) <= Contents(c.table, c.written)
  {
    LiveTotal(c.S(), EpochBound(c.epochSize));
    LiveIsWritten(c.S(), c.written);
  }
}
