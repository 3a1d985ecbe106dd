/** The layered coin cache of coins.cpp: write-back caches with DIRTY and FRESH flags stacked on a
    database view, which together behave as one plain map from outpoints to unspent coins. */
module Coins {
  import opened SetSums

  const OP_RETURN: nat := 0x6a
  const MAX_SCRIPT_SIZE := 10000

  datatype OutPoint = OutPoint(hash: nat, n: nat)

  /** Spent stands for a cleared coin: a null output. */
  datatype Coin = Spent | Unspent(value: nat, script: seq<nat>, height: nat, coinBase: bool, coinStake: bool)
  {
    /** Heap bytes behind the script: scripts of up to 28 bytes are stored in place. */
    function DynamicMemoryUsage(): nat {
      if Spent? || |script| <= 28 then 0 else (|script| + 31) / 16 * 16
    }

    /** AddCoin silently drops unspendable, zero-value and empty-script outputs. */
    predicate Kept() {
      && Unspent? && value != 0 && script != []
      && script[0] != OP_RETURN && |script| <= MAX_SCRIPT_SIZE
    }
  }

  datatype CacheEntry = CacheEntry(coin: Coin, DIRTY: bool, FRESH: bool)

  type CoinsMap = map<OutPoint, CacheEntry>

  /** What the flags promise, given the coin that the parent view shows (Spent for none). */
  predicate EntryOk(e: CacheEntry, parent: Coin) {
    && (e.FRESH ==> parent == Spent)
    && (!e.DIRTY ==> e.coin == parent)
  }

  // ----- the memory counter ---------------------------------------------------------------------

  ghost function UsageOf(c: CoinsMap): OutPoint -> nat {
    o => if o in c then c[o].coin.DynamicMemoryUsage() else 0
  }

  ghost function TotalUsage(c: CoinsMap): nat { Sum(c.Keys, UsageOf(c)) }

  lemma UsageAfterErase(c: CoinsMap, o: OutPoint)
    requires o in c
    ensures TotalUsage(c - {o}) == TotalUsage(c) - c[o].coin.DynamicMemoryUsage()
  {
    SumSplit(c.Keys, UsageOf(c), o);
    assert (c - {o}).Keys == c.Keys - {o};
    SumSame(c.Keys - {o}, UsageOf(c), UsageOf(c - {o}));
  }

  lemma UsageAfterUpdate(c: CoinsMap, o: OutPoint, e: CacheEntry)
    ensures TotalUsage(c[o := e]) == TotalUsage(c) - UsageOf(c)(o) + e.coin.DynamicMemoryUsage()
  {
    var c' := c[o := e];
    SumSplit(c'.Keys, UsageOf(c'), o);
    SumSame(c'.Keys - {o}, UsageOf(c'), UsageOf(c));
    if o in c {
      SumSplit(c.Keys, UsageOf(c), o);
      assert c'.Keys == c.Keys;
    } else {
      assert c'.Keys - {o} == c.Keys;
    }
  }

  // ----- the database ---------------------------------------------------------------------------

  class CoinsViewDB {
    var coins: map<OutPoint, Coin>

    constructor ()
      ensures Valid() && coins == map[]
    {
      coins := map[];
    }

    ghost predicate Valid()
      reads this
    {
      forall o :: o in coins ==> coins[o].Unspent?
    }

    ghost function View(o: OutPoint): Coin
      reads this
    {
      if o in coins then coins[o] else Spent
    }

    method GetCoin(o: OutPoint) returns (ok: bool, coin: Coin)
      requires Valid()
      ensures ok == View(o).Unspent? && coin == View(o)
    {
      ok := o in coins;
      coin := if ok then coins[o] else Spent;
    }

    /** Dirty entries are written or, when spent, erased; the rest are skipped. */
    method BatchWrite(mapCoins: CoinsMap)
      requires Valid()
      requires forall o :: o in mapCoins ==> EntryOk(mapCoins[o], View(o))
      modifies this
      ensures Valid()
      ensures forall o :: View(o) == if o in mapCoins then mapCoins[o].coin else old(View(o))
    {
      var rest := mapCoins.Keys;
      while rest != {}
        invariant rest <= mapCoins.Keys && Valid()
        invariant forall o :: View(o) == if o in mapCoins && o !in rest then mapCoins[o].coin else old(View(o))
      {
        var o :| o in rest;
        rest := rest - {o};
        if mapCoins[o].DIRTY {
          if mapCoins[o].coin.Spent? {
            coins := coins - {o};
          } else {
            coins := coins[o := mapCoins[o].coin];
          }
        }
      }
    }
  }

  // ----- one cache layer ------------------------------------------------------------------------

  class CoinsViewCache {
    const base: CoinsViewCache?
    const db: CoinsViewDB
    ghost const Repr: set<object>
    var cacheCoins: CoinsMap
    var cachedCoinsUsage: int

    constructor OnDatabase(db: CoinsViewDB)
      requires db.Valid()
      ensures Valid() && base == null && this.db == db && cacheCoins == map[] && fresh(this)
    {
      base, this.db := null, db;
      Repr := {this, db};
      cacheCoins, cachedCoinsUsage := map[], 0;
    }

    constructor OnCache(base: CoinsViewCache)
      requires base.Valid()
      ensures Valid() && this.base == base && cacheCoins == map[] && fresh(this)
    {
      this.base, db := base, base.db;
      Repr := {this} + base.Repr;
      cacheCoins, cachedCoinsUsage := map[], 0;
    }

    /** The stack below this cache: distinct layers ending at one database. */
    ghost predicate Stacked()
      decreases Repr
    {
      if base == null then
        Repr == {this, db}
      else
        && Repr == {this} + base.Repr && this !in base.Repr && base in base.Repr
        && base.db == db && base.Stacked()
    }

    ghost function Below(): set<object> { if base == null then {db} else base.Repr }

    /** The coin visible at o through this cache and everything below; Spent when there is none. */
    ghost function View(o: OutPoint): Coin
      requires Stacked()
      reads Repr
      decreases Repr, 1
    {
      if o in cacheCoins then cacheCoins[o].coin else ParentView(o)
    }

    ghost function ParentView(o: OutPoint): Coin
      requires Stacked()
      reads Below()
      decreases Repr, 0
    {
      if base == null then db.View(o) else base.View(o)
    }

    /** FRESH implies that the parent shows no coin, non-DIRTY implies agreement with the parent, and
        the usage counter is the true total, here and in every layer below. */
    ghost predicate Valid()
      reads this, Repr
      decreases Repr
    {
      && this in Repr && Stacked()
      && (forall o :: o in cacheCoins ==> EntryOk(cacheCoins[o], ParentView(o)))
      && cachedCoinsUsage == TotalUsage(cacheCoins)
      && ParentValid()
    }

    ghost predicate ParentValid()
      requires Stacked()
      reads Below()
      decreases Repr, 0
    {
      if base == null then db.Valid() else base.Valid()
    }

    /** Every layer shows the same coins as before, whatever was cached on the way. */
    twostate predicate SameView()
      requires Stacked()
      reads Repr
    {
      forall o :: View(o) == old(View(o))
    }

    /** Changing only this layer's own fields leaves the parent's view and validity alone. */
    twostate lemma OnlyThisChanged()
      requires old(Valid()) && forall x: object :: x in Below() ==> unchanged(x)
      ensures ParentValid() && forall o :: ParentView(o) == old(ParentView(o))
    {
    }

    /** Store an entry and adjust the usage counter; the flags stay truthful exactly when they are
        truthful for the new entry. */
    method SetEntry(o: OutPoint, e: CacheEntry)
      requires Valid()
      modifies this
      ensures cacheCoins == old(cacheCoins)[o := e] && cachedCoinsUsage == TotalUsage(cacheCoins)
      ensures forall x :: View(x) == if x == o then e.coin else old(View(x))
      ensures Valid() <==> EntryOk(e, old(ParentView(o)))
    {
      UsageAfterUpdate(cacheCoins, o, e);
      var before := if o in cacheCoins then cacheCoins[o].coin.DynamicMemoryUsage() else 0;
      cachedCoinsUsage := cachedCoinsUsage - before + e.coin.DynamicMemoryUsage();
      cacheCoins := cacheCoins[o := e];
      OnlyThisChanged();
      assert EntryOk(cacheCoins[o], ParentView(o)) <==> EntryOk(e, old(ParentView(o)));
    }

    method EraseEntry(o: OutPoint)
      requires Valid() && o in cacheCoins
      modifies this
      ensures Valid() && cacheCoins == old(cacheCoins) - {o}
      ensures forall x :: View(x) == if x == o then old(ParentView(o)) else old(View(x))
    {
      UsageAfterErase(cacheCoins, o);
      cachedCoinsUsage := cachedCoinsUsage - cacheCoins[o].coin.DynamicMemoryUsage();
      cacheCoins := cacheCoins - {o};
      OnlyThisChanged();
    }

    /** Ask the parent: a lookup there may cache coins on the way but changes no view. */
    method GetCoinFromBase(o: OutPoint) returns (ok: bool, coin: Coin)
      requires Valid()
      modifies Below()
      ensures Valid() && SameView() && cacheCoins == old(cacheCoins)
      ensures ok == ParentView(o).Unspent? && coin == ParentView(o) == old(ParentView(o))
      decreases Repr, 0
    {
      if base == null {
        ok, coin := db.GetCoin(o);
      } else {
        ok, coin := base.GetCoin(o);
        assert forall x :: base.View(x) == old(base.View(x));
      }
      assert forall x :: ParentView(x) == old(ParentView(x));
    }

    /** Find an entry for o, pulling a copy up from the parent if this layer has none. */
    method FetchCoin(o: OutPoint) returns (found: bool)
      requires Valid()
      modifies Repr
      ensures Valid() && SameView()
      ensures found <==> o in cacheCoins
      ensures found <==> o in old(cacheCoins) || old(View(o)).Unspent?
      ensures cacheCoins == if o in old(cacheCoins) || !found then old(cacheCoins)
                            else old(cacheCoins)[o := CacheEntry(old(View(o)), false, false)]
      decreases Repr, 1
    {
      if o in cacheCoins {
        return true;
      }
      var ok, tmp := GetCoinFromBase(o);
      if !ok {
        return false;
      }
      SetEntry(o, CacheEntry(tmp, false, tmp.Spent?));
      found := true;
    }

    /** Look up a coin: exactly what the view shows. */
    method GetCoin(o: OutPoint) returns (ok: bool, coin: Coin)
      requires Valid()
      modifies Repr
      ensures Valid() && SameView()
      ensures ok == View(o).Unspent? && coin == View(o)
      decreases Repr, 2
    {
      var found := FetchCoin(o);
      coin := if found then cacheCoins[o].coin else Spent;
      ok := coin.Unspent?;
    }

    /** Add a coin. Without possibleOverwrite the caller promises that no coin is there. A coin that
        this layer can see makes the call throw, with the map alone but the usage counter reduced.
        Otherwise the flags stay truthful exactly when no coin hides below an empty slot. */
    method AddCoin(o: OutPoint, coin: Coin, possibleOverwrite: bool) returns (threw: bool)
      requires Valid() && coin.Unspent?
      modifies this
      ensures threw <==> coin.Kept() && !possibleOverwrite && o in old(cacheCoins) && old(cacheCoins[o]).coin.Unspent?
      ensures threw ==>
        && cacheCoins == old(cacheCoins)
        && cachedCoinsUsage == old(cachedCoinsUsage) - cacheCoins[o].coin.DynamicMemoryUsage()
      ensures !coin.Kept() ==> Valid() && SameView()
      ensures coin.Kept() && !threw ==>
        && (Valid() <==> possibleOverwrite || o in old(cacheCoins) || old(ParentView(o)) == Spent)
        && (forall x :: View(x) == if x == o then coin else old(View(x)))
      ensures coin.Kept() && !threw ==>
        var was := if o in old(cacheCoins) then old(cacheCoins)[o] else CacheEntry(Spent, false, false);
        cacheCoins == old(cacheCoins)[o := CacheEntry(coin, true, was.FRESH || (!possibleOverwrite && !was.DIRTY))]
    {
      if !coin.Kept() {
        return false;
      }
      var entry := if o in cacheCoins then cacheCoins[o] else CacheEntry(Spent, false, false);
      var markFresh := false;
      if !possibleOverwrite {
        if entry.coin.Unspent? {
          cachedCoinsUsage := cachedCoinsUsage - entry.coin.DynamicMemoryUsage();
          return true;
        }
        markFresh := !entry.DIRTY;
      }
      SetEntry(o, CacheEntry(coin, true, entry.FRESH || markFresh));
      threw := false;
    }

    /** Spend a coin. The answer is true whenever an entry was found, also an already spent one; the
        coin handed out is always the one that was visible, and afterwards none is. */
    method SpendCoin(o: OutPoint) returns (found: bool, moveout: Coin)
      requires Valid()
      modifies Repr
      ensures Valid()
      ensures moveout == old(View(o)) && (found <==> o in old(cacheCoins) || moveout.Unspent?)
      ensures forall x :: View(x) == if x == o then Spent else old(View(x))
      ensures cacheCoins == if !found then old(cacheCoins)
                            else if o in old(cacheCoins) && old(cacheCoins)[o].FRESH then old(cacheCoins) - {o}
                            else old(cacheCoins)[o := CacheEntry(Spent, true, false)]
    {
      found := FetchCoin(o);
      if !found {
        return false, Spent;
      }
      var e := cacheCoins[o];
      moveout := e.coin;
      if e.FRESH {
        EraseEntry(o);
      } else {
        SetEntry(o, CacheEntry(Spent, true, false));
      }
    }

    /** Forget an unmodified entry. */
    method Uncache(o: OutPoint)
      requires Valid()
      modifies this
      ensures Valid() && SameView()
      ensures cacheCoins == if o in old(cacheCoins) && !old(cacheCoins)[o].DIRTY && !old(cacheCoins)[o].FRESH
                            then old(cacheCoins) - {o} else old(cacheCoins)
    {
      if o in cacheCoins && !cacheCoins[o].DIRTY && !cacheCoins[o].FRESH {
        EraseEntry(o);
      }
    }

    /** The body of BatchWrite's loop for one dirty child entry; true if it throws. */
    method WriteEntry(o: OutPoint, child: CacheEntry) returns (threw: bool)
      requires Valid() && child.DIRTY
      modifies this
      ensures threw <==> child.FRESH && o in old(cacheCoins) && old(cacheCoins)[o].coin.Unspent?
      ensures threw ==> unchanged(this)
      ensures EntryOk(child, old(View(o))) ==>
        !threw && Valid() && forall x :: View(x) == if x == o then child.coin else old(View(x))
    {
      if o !in cacheCoins {
        if !(child.FRESH && child.coin.Spent?) {
          SetEntry(o, CacheEntry(child.coin, true, child.FRESH));
        }
      } else {
        var us := cacheCoins[o];
        if child.FRESH && us.coin.Unspent? {
          return true;
        }
        if us.FRESH && child.coin.Spent? {
          EraseEntry(o);
        } else {
          SetEntry(o, CacheEntry(child.coin, true, us.FRESH));
        }
      }
      threw := false;
    }

    /** Absorb a child's entries: the child's view becomes this layer's view, and the
        misapplied-FRESH error is never raised. */
    method BatchWrite(mapCoins: CoinsMap) returns (threw: bool)
      requires Valid()
      requires forall o :: o in mapCoins ==> EntryOk(mapCoins[o], View(o))
      modifies this
      ensures !threw && Valid()
      ensures forall o :: View(o) == if o in mapCoins then mapCoins[o].coin else old(View(o))
    {
      var rest := mapCoins.Keys;
      while rest != {}
        invariant rest <= mapCoins.Keys && Valid()
        invariant forall o :: View(o) == if o in mapCoins && o !in rest then mapCoins[o].coin else old(View(o))
      {
        var o :| o in rest;
        rest := rest - {o};
        if mapCoins[o].DIRTY {
          threw := WriteEntry(o, mapCoins[o]);
          if threw { return; }
        }
      }
      threw := false;
    }

    /** Push everything to the parent: nothing visible changes, here or below the flags. */
    method Flush() returns (threw: bool)
      requires Valid()
      modifies Repr
      ensures !threw && Valid() && SameView() && cacheCoins == map[]
      ensures forall o :: ParentView(o) == View(o)
    {
      threw := false;
      if base == null {
        db.BatchWrite(cacheCoins);
      } else {
        threw := base.BatchWrite(cacheCoins);
      }
      cacheCoins := map[];
      cachedCoinsUsage := 0;
    }
  }

  // ----- whole runs -----------------------------------------------------------------------------

  /** The reference: one plain map of unspent coins. */
  type PlainMap = map<OutPoint, Coin>

  datatype Op = Add(o: OutPoint, coin: Coin, possibleOverwrite: bool) | Spend(o: OutPoint) | Get(o: OutPoint)
              | Uncache(o: OutPoint) | Flush

  function Shown(m: PlainMap, o: OutPoint): Coin { if o in m then m[o] else Spent }

  function PlainStep(m: PlainMap, op: Op): PlainMap {
    match op
    case Add(o, coin, _) => if coin.Kept() then m[o := coin] else m
    case Spend(o) => m - {o}
    case _ => m
  }

  /** What a caller observes: the coin read or handed out. */
  function PlainReply(m: PlainMap, op: Op): Coin {
    if op.Get? || op.Spend? then Shown(m, op.o) else Spent
  }

  function PlainFinal(m: PlainMap, ops: seq<Op>): PlainMap
    decreases |ops|
  {
    if ops == [] then m else PlainFinal(PlainStep(m, ops[0]), ops[1..])
  }

  function PlainReplies(m: PlainMap, ops: seq<Op>): seq<Coin>
    decreases |ops|
  {
    if ops == [] then [] else [PlainReply(m, ops[0])] + PlainReplies(PlainStep(m, ops[0]), ops[1..])
  }

  predicate PromiseKept(m: PlainMap, o: OutPoint, coin: Coin, possibleOverwrite: bool) {
    coin.Unspent? && (coin.Kept() ==> possibleOverwrite || Shown(m, o) == Spent)
  }

  /** The caller's side of AddCoin along a run: real coins, and no overwrite by a coin that is kept where
      none is announced. */
  predicate PromisesKept(m: PlainMap, ops: seq<Op>)
    decreases |ops|
  {
    ops == [] ||
    (&& (ops[0].Add? ==> PromiseKept(m, ops[0].o, ops[0].coin, ops[0].possibleOverwrite))
     && PromisesKept(PlainStep(m, ops[0]), ops[1..]))
  }

  ghost predicate Agrees(cache: CoinsViewCache, m: PlainMap)
    requires cache.Stacked()
    reads cache.Repr
  {
    forall o :: cache.View(o) == Shown(m, o)
  }

  method Perform(cache: CoinsViewCache, op: Op, ghost m: PlainMap) returns (reply: Coin)
    requires cache.Valid() && Agrees(cache, m)
    requires op.Add? ==> PromiseKept(m, op.o, op.coin, op.possibleOverwrite)
    modifies cache.Repr
    ensures cache.Valid() && Agrees(cache, PlainStep(m, op)) && reply == PlainReply(m, op)
  {
    reply := Spent;
    match op
    case Add(o, coin, possibleOverwrite) =>
      assert cache.View(o) == Shown(m, o);
      var threw := cache.AddCoin(o, coin, possibleOverwrite);
    case Spend(o) =>
      var found;
      found, reply := cache.SpendCoin(o);
    case Get(o) =>
      var ok;
      ok, reply := cache.GetCoin(o);
    case Uncache(o) =>
      cache.Uncache(o);
    case Flush =>
      var threw := cache.Flush();
  }

  /** Any run of operations on the top of any stack of caches is indistinguishable from the same run
      on one plain map. */
  method Run(cache: CoinsViewCache, ops: seq<Op>, ghost m: PlainMap) returns (replies: seq<Coin>)
    requires cache.Valid() && Agrees(cache, m) && PromisesKept(m, ops)
    modifies cache.Repr
    ensures cache.Valid() && Agrees(cache, PlainFinal(m, ops)) && replies == PlainReplies(m, ops)
  {
    replies := [];
    ghost var now := m;
    var i := 0;
    while i < |ops|
      invariant 0 <= i <= |ops| && cache.Valid() && Agrees(cache, now) && PromisesKept(now, ops[i..])
      invariant PlainFinal(m, ops) == PlainFinal(now, ops[i..])
      invariant PlainReplies(m, ops) == replies + PlainReplies(now, ops[i..])
    {
      assert ops[i..][1..] == ops[i + 1..];
      var reply := Perform(cache, ops[i], now);
      replies := replies + [reply];
      now := PlainStep(now, ops[i]);
      i := i + 1;
    }
  }
}
