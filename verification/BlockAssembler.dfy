/** The block assembler of miner.cpp: greedy selection of ancestor packages, with a side table
    of corrected package totals for transactions whose ancestors are already in the block. */
module BlockAssembler {
  import Arithmetic
  import opened SetSums
  import opened Mempool

  const MAX_BLOCK_SIGOPS_COST := 800000
  const MAX_CONSECUTIVE_FAILURES := 1000
  const COINBASE_WEIGHT := 4000
  const COINBASE_SIGOPS := 400

  /** CTxMemPoolModifiedEntry: the package totals of a transaction, less what is already included. */
  datatype ModifiedEntry = ModifiedEntry(size: int, modFees: int, sigOps: int)

  type ModifiedTxs = map<TxId, ModifiedEntry>

  function PoolTotals(e: Entry): ModifiedEntry {
    ModifiedEntry(e.sizeWithAncestors, e.modFeesWithAncestors, e.sigOpCostWithAncestors)
  }

  // ----- fee rates and the score order ---------------------------------------------------------

  /** C++ integer division, which truncates toward zero. */
  function TruncDiv(a: int, b: nat): int
    requires b > 0
  {
    if a >= 0 then a / b else -((-a) / b)
  }

  /** CFeeRate::GetFee for a rate in satoshis per kilobyte. */
  function FeeFor(satoshisPerK: int, size: int): int {
    var fee := TruncDiv(satoshisPerK * size, 1000);
    if fee == 0 && size != 0 && satoshisPerK != 0 then (if satoshisPerK > 0 then 1 else -1) else fee
  }

  /** The fee and size that rank an entry: its own, or its package's if that is the lower rate. */
  function RankFeeAndSize(m: Pool, t: TxId, e: ModifiedEntry): (int, int)
    requires t in m.mapTx
  {
    if m.mapTx[t].ModifiedFee() * e.size > e.modFees * m.Size(t)
    then (e.modFees, e.size)
    else (m.mapTx[t].ModifiedFee(), m.Size(t))
  }

  /** CompareTxMemPoolEntryByAncestorFee: higher fee rate first, ties by transaction hash. */
  predicate RanksBefore(m: Pool, a: TxId, ea: ModifiedEntry, b: TxId, eb: ModifiedEntry)
    requires a in m.mapTx && b in m.mapTx
  {
    var (feeA, sizeA) := RankFeeAndSize(m, a, ea);
    var (feeB, sizeB) := RankFeeAndSize(m, b, eb);
    if feeA * sizeB == sizeA * feeB then a < b else feeA * sizeB > sizeA * feeB
  }

  ghost predicate Sized(m: Pool, t: TxId, e: ModifiedEntry) { t in m.mapTx && m.Size(t) > 0 && e.size > 0 }

  ghost predicate PositiveSizes(m: Pool, mod: ModifiedTxs) { forall t :: t in mod ==> Sized(m, t, mod[t]) }

  /** The score index: higher ranks first by the pool's own totals. */
  ghost predicate SortedByScore(m: Pool) {
    forall i, j :: 0 <= i < j < |m.byScore| ==>
      m.byScore[i] in m.mapTx && BeforeIndex(m, m.byScore[i], PoolTotals(m.mapTx[m.byScore[i]]), j)
  }

  /** t ranks before the entry at a place of the score index. */
  ghost predicate BeforeIndex(m: Pool, t: TxId, e: ModifiedEntry, k: nat) {
    && t in m.mapTx && k < |m.byScore| && m.byScore[k] in m.mapTx
    && RanksBefore(m, t, e, m.byScore[k], PoolTotals(m.mapTx[m.byScore[k]]))
  }

  lemma CrossMultiply(fa: int, sa: int, fb: int, sb: int)
    requires sa > 0 && sb > 0
    ensures fa * sb == sa * fb <==> fa as real / sa as real == fb as real / sb as real
    ensures fa * sb > sa * fb <==> fa as real / sa as real > fb as real / sb as real
  {
    var ra, rb := fa as real / sa as real, fb as real / sb as real;
    assert ra * sa as real == fa as real && rb * sb as real == fb as real;
    var k := sa as real * sb as real;
    assert (fa * sb) as real == ra * k && (sa * fb) as real == rb * k;
    assert k > 0.0;
    if ra > rb { assert (ra - rb) * k > 0.0; }
    if ra < rb { assert (rb - ra) * k > 0.0; }
  }

  lemma RanksBeforeTransitive(m: Pool, a: TxId, ea: ModifiedEntry, b: TxId, eb: ModifiedEntry, c: TxId,
                              ec: ModifiedEntry)
    requires Sized(m, a, ea) && Sized(m, b, eb) && Sized(m, c, ec)
    requires RanksBefore(m, a, ea, b, eb) && RanksBefore(m, b, eb, c, ec)
    ensures RanksBefore(m, a, ea, c, ec)
  {
    var (fa, sa) := RankFeeAndSize(m, a, ea);
    var (fb, sb) := RankFeeAndSize(m, b, eb);
    var (fc, sc) := RankFeeAndSize(m, c, ec);
    CrossMultiply(fa, sa, fb, sb);
    CrossMultiply(fb, sb, fc, sc);
    CrossMultiply(fa, sa, fc, sc);
  }

  /** Of two different transactions one ranks before the other. */
  lemma RanksBeforeTotal(m: Pool, a: TxId, ea: ModifiedEntry, b: TxId, eb: ModifiedEntry)
    requires a in m.mapTx && b in m.mapTx && a != b
    ensures RanksBefore(m, a, ea, b, eb) <==> !RanksBefore(m, b, eb, a, ea)
  {
    var (fa, sa) := RankFeeAndSize(m, a, ea);
    var (fb, sb) := RankFeeAndSize(m, b, eb);
    assert fa * sb == sb * fa && fb * sa == sa * fb;
  }

  /** The first element of mapModifiedTx in score order. */
  method BestModified(m: Pool, mod: ModifiedTxs) returns (best: TxId)
    requires mod != map[] && PositiveSizes(m, mod)
    ensures best in mod
    ensures forall t :: t in mod && t != best ==> RanksBefore(m, best, mod[best], t, mod[t])
  {
    best :| best in mod;
    var rest := mod.Keys - {best};
    while rest != {}
      invariant rest <= mod.Keys && best in mod && best !in rest
      invariant forall t :: t in mod && t !in rest && t != best ==> RanksBefore(m, best, mod[best], t, mod[t])
    {
      var t :| t in rest;
      rest := rest - {t};
      if RanksBefore(m, t, mod[t], best, mod[best]) {
        forall x | x in mod && x !in rest && x != t ensures RanksBefore(m, t, mod[t], x, mod[x]) {
          if x != best { RanksBeforeTransitive(m, t, mod[t], best, mod[best], x, mod[x]); }
        }
        best := t;
      } else {
        RanksBeforeTotal(m, best, mod[best], t, mod[t]);
      }
    }
  }

  /** What the first of the table does not rank before ranks before the whole table. */
  lemma BeforeAll(m: Pool, mod: ModifiedTxs, best: TxId, t: TxId, e: ModifiedEntry)
    requires PositiveSizes(m, mod) && best in mod && t !in mod && Sized(m, t, e)
    requires forall x :: x in mod && x != best ==> RanksBefore(m, best, mod[best], x, mod[x])
    requires !RanksBefore(m, best, mod[best], t, e)
    ensures forall x :: x in mod ==> RanksBefore(m, t, e, x, mod[x])
  {
    RanksBeforeTotal(m, t, e, best, mod[best]);
    forall x | x in mod ensures RanksBefore(m, t, e, x, mod[x]) {
      if x != best { RanksBeforeTransitive(m, t, e, best, mod[best], x, mod[x]); }
    }
  }

  // ----- what the side table means --------------------------------------------------------------

  type Links = map<TxId, set<TxId>>

  /** Each entry of the side table is the pool's cached package total less a set of ancestors. */
  ghost predicate Tracks(m: Pool, anc: Links, mod: ModifiedTxs, deducted: Links) {
    && mod.Keys == deducted.Keys
    && mod.Keys <= m.mapTx.Keys
    && anc.Keys == m.mapTx.Keys
    && (forall t :: t in mod ==> deducted[t] != {})
    && forall t {:trigger TracksEntry(m, anc, t, mod[t], deducted[t])} :: t in mod ==>
         TracksEntry(m, anc, t, mod[t], deducted[t])
  }

  ghost predicate TracksEntry(m: Pool, anc: Links, t: TxId, e: ModifiedEntry, gone: set<TxId>)
    requires t in m.mapTx && t in anc
  {
    && gone <= anc[t]
    && e.size == m.mapTx[t].sizeWithAncestors - Sum(gone, m.Size)
    && e.sigOps == m.mapTx[t].sigOpCostWithAncestors - Sum(gone, m.SigOps)
    && FeesTrack(m, t, e, gone)
  }

  /** Fees are taken off with the fee delta for the first deducted ancestor and without it for the
      others: creating an entry deducts the modified fee, updating one the plain fee. */
  ghost predicate FeesTrack(m: Pool, t: TxId, e: ModifiedEntry, gone: set<TxId>)
    requires t in m.mapTx
  {
    if gone == {} then e.modFees == m.mapTx[t].modFeesWithAncestors
    else exists first :: first in gone && FeesLess(m, t, e, gone, first)
  }

  ghost predicate FeesLess(m: Pool, t: TxId, e: ModifiedEntry, gone: set<TxId>, first: TxId)
    requires t in m.mapTx
  {
    e.modFees == m.mapTx[t].modFeesWithAncestors - Sum(gone, m.Fee) - m.FeeDelta(first)
  }

  /** The recorded package fee is that of the transactions still to be added. */
  ghost predicate FeeRight(m: Pool, anc: Links, t: TxId, inBlock: set<TxId>, e: ModifiedEntry)
    requires t in anc
  {
    var rest := anc[t] + {t} - inBlock;
    e.modFees == Sum(rest, m.Fee) + SumInt(rest, m.FeeDelta)
  }

  /** The package fee is right exactly when the fee deltas of the later deducted ancestors cancel. */
  lemma FeesExact(m: Pool, anc: Links, t: TxId, inBlock: set<TxId>, e: ModifiedEntry, first: TxId)
    requires Graded(m, anc) && t in anc && t !in inBlock && first in anc[t] * inBlock
    requires FeesLess(m, t, e, anc[t] * inBlock, first)
    ensures FeeRight(m, anc, t, inBlock, e) <==> SumInt(anc[t] * inBlock - {first}, m.FeeDelta) == 0
  {
    var all, gone := anc[t] + {t}, anc[t] * inBlock;
    assert TotalsOf(m, anc, t);
    SumSubset(gone, all, m.Fee);
    SumIntSubset(gone, all, m.FeeDelta);
    SumIntSplit(gone, m.FeeDelta, first);
    assert all - gone == all - inBlock;
  }

  /** The entry that results when an ancestor is deducted first. */
  function LessFees(m: Pool, t: TxId, fees: int, first: TxId): ModifiedEntry
    requires t in m.mapTx
  {
    ModifiedEntry(0, m.mapTx[t].modFeesWithAncestors - fees - m.FeeDelta(first), 0)
  }

  lemma EqualDeltas(gone: set<TxId>, f: TxId -> int)
    requires gone != {} && forall a :: a in gone ==> SumInt(gone - {a}, f) == 0
    ensures |gone| == 1 || forall a :: a in gone ==> f(a) == 0
  {
    var c := SumInt(gone, f);
    forall a | a in gone ensures f(a) == c {
      SumIntSplit(gone, f, a);
    }
    SumIntConstant(gone, f, c);
    if |gone| > 1 { MultipleOfItself(|gone|, c); }
  }

  lemma MultipleOfItself(n: nat, c: int)
    requires n > 1 && n * c == c
    ensures c == 0
  {
    assert (n - 1) * c == 0;
  }

  lemma NoDeltas(gone: set<TxId>, f: TxId -> int, first: TxId)
    requires first in gone && (|gone| == 1 || forall a :: a in gone ==> f(a) == 0)
    ensures SumInt(gone - {first}, f) == 0
  {
    if |gone| == 1 {
      assert |gone - {first}| == 0;
    } else {
      SumIntConstant(gone - {first}, f, 0);
    }
  }

  /** Whatever the order of deduction, the package fee is right exactly when only one ancestor is
      included or none of the included ones is prioritised. */
  lemma FeesExactInAnyOrder(m: Pool, anc: Links, t: TxId, inBlock: set<TxId>)
    requires Graded(m, anc) && t in anc && t !in inBlock && anc[t] * inBlock != {}
    ensures var gone := anc[t] * inBlock;
      (forall e, first :: first in gone && FeesLess(m, t, e, gone, first) ==> FeeRight(m, anc, t, inBlock, e))
      <==> |gone| == 1 || forall a :: a in gone ==> m.FeeDelta(a) == 0
  {
    var gone := anc[t] * inBlock;
    if |gone| == 1 || forall a :: a in gone ==> m.FeeDelta(a) == 0 {
      forall e, first | first in gone && FeesLess(m, t, e, gone, first) ensures FeeRight(m, anc, t, inBlock, e) {
        NoDeltas(gone, m.FeeDelta, first);
        FeesExact(m, anc, t, inBlock, e, first);
      }
    }
    if forall e, first :: first in gone && FeesLess(m, t, e, gone, first) ==> FeeRight(m, anc, t, inBlock, e) {
      forall a | a in gone ensures SumInt(gone - {a}, m.FeeDelta) == 0 {
        var e := LessFees(m, t, Sum(gone, m.Fee), a);
        assert FeesLess(m, t, e, gone, a);
        FeesExact(m, anc, t, inBlock, e, a);
      }
      EqualDeltas(gone, m.FeeDelta);
    }
  }

  /** Without prioritised ancestors in the block it is always right. */
  lemma UnprioritisedFeesExact(m: Pool, anc: Links, t: TxId, inBlock: set<TxId>, e: ModifiedEntry)
    requires Graded(m, anc) && t in anc && t !in inBlock && TracksEntry(m, anc, t, e, anc[t] * inBlock)
    requires forall a :: a in anc[t] * inBlock ==> m.FeeDelta(a) == 0
    ensures FeeRight(m, anc, t, inBlock, e)
  {
    var gone := anc[t] * inBlock;
    if gone == {} {
      assert TotalsOf(m, anc, t);
      assert anc[t] + {t} - inBlock == anc[t] + {t};
    } else {
      var first :| first in gone && FeesLess(m, t, e, gone, first);
      NoDeltas(gone, m.FeeDelta, first);
      FeesExact(m, anc, t, inBlock, e, first);
    }
  }

  /** The loop invariant on the side table: only included ancestors are deducted, all of them unless
      the transaction failed before, and every stale transaction is in the table or has failed. */
  ghost predicate TableCurrent(m: Pool, anc: Links, inBlock: set<TxId>, failed: set<TxId>, mod: ModifiedTxs,
                               deducted: Links) {
    && Tracks(m, anc, mod, deducted)
    && mod.Keys !! inBlock
    && (forall t :: t in mod ==> deducted[t] <= inBlock)
    && (forall t :: t in mod && t !in failed ==> deducted[t] == anc[t] * inBlock)
    && (forall t :: t in anc && t !in inBlock && t !in failed && t !in mod ==> anc[t] !! inBlock)
  }

  /** Deducting only included ancestors leaves at least the size and sigops still to be added;
      deducting all of them leaves exactly that. */
  lemma DeductionsCover(m: Pool, anc: Links, t: TxId, inBlock: set<TxId>, e: ModifiedEntry, gone: set<TxId>)
    requires Graded(m, anc) && t in anc && t !in inBlock && TracksEntry(m, anc, t, e, gone) && gone <= inBlock
    ensures m.mapTx[t].sizeWithAncestors >= e.size >= Sum(anc[t] + {t} - inBlock, m.Size) >= m.Size(t) > 0
    ensures m.mapTx[t].sigOpCostWithAncestors >= e.sigOps >= Sum(anc[t] + {t} - inBlock, m.SigOps)
    ensures gone == anc[t] * inBlock ==>
      && e.size == Sum(anc[t] + {t} - inBlock, m.Size)
      && e.sigOps == Sum(anc[t] + {t} - inBlock, m.SigOps)
  {
    var all := anc[t] + {t};
    assert TotalsOf(m, anc, t);
    SumSubset(gone, all, m.Size);
    SumSubset(gone, all, m.SigOps);
    SumSubset(all - inBlock, all - gone, m.Size);
    SumSubset(all - inBlock, all - gone, m.SigOps);
    SumSplit(all - inBlock, m.Size, t);
    if gone == anc[t] * inBlock {
      assert (all - gone) - (all - inBlock) == {};
    }
  }

  // ----- updating the side table ----------------------------------------------------------------

  ghost function Deducted(deducted: Links, t: TxId): set<TxId> {
    if t in deducted then deducted[t] else {}
  }

  /** The totals an entry starts from: its own if it is in the table, else the pool's. */
  function Base(m: Pool, mod: ModifiedTxs, t: TxId): ModifiedEntry
    requires t in m.mapTx
  {
    if t in mod then mod[t] else PoolTotals(m.mapTx[t])
  }

  ghost predicate OneLess(m: Pool, it: TxId, e: ModifiedEntry, e': ModifiedEntry, isNew: bool) {
    && e'.size == e.size - m.Size(it) && e'.sigOps == e.sigOps - m.SigOps(it)
    && e'.modFees == e.modFees - m.Fee(it) - if isNew then m.FeeDelta(it) else 0
  }

  /** The inner loop of UpdatePackagesForAdded: take one included transaction out of the totals of
      each of its descendants, creating entries from the pool's totals where there are none. */
  method DeductFromDescendants(m: Pool, it: TxId, descendants: set<TxId>, mod0: ModifiedTxs)
    returns (mod: ModifiedTxs)
    requires it in m.mapTx && descendants <= m.mapTx.Keys
    ensures mod.Keys == mod0.Keys + descendants
    ensures forall t :: t in descendants ==> OneLess(m, it, Base(m, mod0, t), mod[t], t !in mod0)
    ensures forall t :: t in mod0 && t !in descendants ==> mod[t] == mod0[t]
  {
    mod := mod0;
    var pending := descendants;
    while pending != {}
      invariant pending <= descendants
      invariant mod.Keys == mod0.Keys + (descendants - pending)
      invariant forall t :: t in descendants - pending ==> OneLess(m, it, Base(m, mod0, t), mod[t], t !in mod0)
      invariant forall t :: t in mod0 && t !in descendants - pending ==> mod[t] == mod0[t]
    {
      var desc :| desc in pending;
      pending := pending - {desc};
      if desc !in mod {
        var e := PoolTotals(m.mapTx[desc]);
        mod := mod[desc := ModifiedEntry(e.size - m.Size(it), e.modFees - m.mapTx[it].ModifiedFee(),
                                         e.sigOps - m.SigOps(it))];
      } else {
        var e := mod[desc];
        mod := mod[desc := ModifiedEntry(e.size - m.Size(it), e.modFees - m.mapTx[it].fee, e.sigOps - m.SigOps(it))];
      }
    }
  }

  lemma TracksOneMore(m: Pool, anc: Links, t: TxId, e: ModifiedEntry, gone: set<TxId>, it: TxId, e': ModifiedEntry)
    requires t in m.mapTx && t in anc && TracksEntry(m, anc, t, e, gone) && it in anc[t] && it !in gone
    requires OneLess(m, it, e, e', gone == {})
    ensures TracksEntry(m, anc, t, e', gone + {it})
  {
    SumAdd(gone, m.Size, it);
    SumAdd(gone, m.SigOps, it);
    SumAdd(gone, m.Fee, it);
    var first := it;
    if gone != {} { first :| first in gone && FeesLess(m, t, e, gone, first); }
    assert FeesLess(m, t, e', gone + {it}, first);
  }

  /** What deducting one included transaction means for the bookkeeping of deducted ancestors. */
  lemma DeductionTracks(m: Pool, anc: Links, it: TxId, descendants: set<TxId>, mod0: ModifiedTxs, ded0: Links,
                        mod: ModifiedTxs)
    returns (ded: Links)
    requires it in m.mapTx && Tracks(m, anc, mod0, ded0) && mod.Keys == mod0.Keys + descendants
    requires forall d :: d in descendants ==> d in anc && it in anc[d] && it !in Deducted(ded0, d)
    requires forall t :: t in descendants ==> OneLess(m, it, Base(m, mod0, t), mod[t], t !in mod0)
    requires forall t :: t in mod0 && t !in descendants ==> mod[t] == mod0[t]
    ensures Tracks(m, anc, mod, ded)
    ensures forall t :: t in mod ==>
      ded[t] == if t in descendants then Deducted(ded0, t) + {it} else Deducted(ded0, t)
  {
    ded := map t | t in mod :: if t in descendants then Deducted(ded0, t) + {it} else Deducted(ded0, t);
    forall t | t in mod ensures ded[t] != {} && TracksEntry(m, anc, t, mod[t], ded[t]) {
      if t in descendants { TracksOneMore(m, anc, t, Base(m, mod0, t), Deducted(ded0, t), it, mod[t]); }
    }
  }

  /** The transactions outside `added` that have an ancestor in `done`. */
  ghost function Stale(anc: Links, added: set<TxId>, done: set<TxId>): set<TxId> {
    set d | d in anc && d !in added && !(anc[d] !! done)
  }

  ghost predicate DeductedSoFar(anc: Links, ded0: Links, done: set<TxId>, ded: Links)
    requires ded.Keys <= anc.Keys
  {
    forall t :: t in ded ==> ded[t] == Deducted(ded0, t) + anc[t] * done
  }

  lemma DeductionStep(anc: Links, added: set<TxId>, done: set<TxId>, it: TxId, ded0: Links, ded: Links, ded': Links)
    requires it in added && it !in done && ded0.Keys !! added && ded0.Keys <= anc.Keys
    requires ded.Keys == ded0.Keys + Stale(anc, added, done)
    requires ded'.Keys == ded0.Keys + Stale(anc, added, done + {it})
    requires DeductedSoFar(anc, ded0, done, ded)
    requires forall t :: t in ded' ==> ded'[t] == if it in anc[t] then Deducted(ded, t) + {it} else Deducted(ded, t)
    ensures DeductedSoFar(anc, ded0, done + {it}, ded')
  {
    forall t | t in ded' ensures ded'[t] == Deducted(ded0, t) + anc[t] * (done + {it}) {
      if t !in ded {
        assert t !in Stale(anc, added, done);
        assert anc[t] * done == {};
      }
      DeductOneMore(anc[t], done, it, Deducted(ded0, t), Deducted(ded, t));
    }
  }

  lemma DeductOneMore(a: set<TxId>, done: set<TxId>, it: TxId, base: set<TxId>, gone: set<TxId>)
    requires gone == base + a * done
    ensures (if it in a then gone + {it} else gone) == base + a * (done + {it})
  {
  }

  lemma StaleStep(anc: Links, added: set<TxId>, done: set<TxId>, it: TxId)
    ensures Stale(anc, added, done + {it}) ==
            Stale(anc, added, done) + (set d | d in anc && d !in added && it in anc[d])
  {
    forall d | d in anc ensures anc[d] !! done + {it} <==> anc[d] !! done && it !in anc[d] {}
  }

  ghost predicate TableDone(m: Pool, anc: Links, added: set<TxId>, done: set<TxId>, mod0: ModifiedTxs, ded0: Links,
                            mod: ModifiedTxs, ded: Links) {
    && Tracks(m, anc, mod, ded)
    && mod.Keys == mod0.Keys + Stale(anc, added, done)
    && DeductedSoFar(anc, ded0, done, ded)
  }

  /** One round of UpdatePackagesForAdded's outer loop. */
  method DeductIncluded(m: Pool, ghost anc: Links, alreadyAdded: set<TxId>, ghost done: set<TxId>, it: TxId,
                        ghost mod0: ModifiedTxs, ghost ded0: Links, mod: ModifiedTxs, ghost ded: Links)
    returns (mod': ModifiedTxs, ghost ded': Links)
    requires m.WellLinked() && m.IsClosure(anc) && it in m.mapTx && it in alreadyAdded && it !in done
    requires mod0.Keys == ded0.Keys && mod0.Keys !! alreadyAdded && mod0.Keys <= anc.Keys
    requires forall t :: t in ded0 ==> it !in ded0[t]
    requires TableDone(m, anc, alreadyAdded, done, mod0, ded0, mod, ded)
    ensures TableDone(m, anc, alreadyAdded, done + {it}, mod0, ded0, mod', ded')
  {
    var descendants := CalculateDescendants(m, it);
    descendants := descendants - alreadyAdded;
    assert descendants == set d | d in anc && d !in alreadyAdded && it in anc[d] by {
      DescendantsByClosure(m, anc, it);
    }
    mod' := DeductFromDescendants(m, it, descendants, mod);
    ded' := TableStep(m, anc, alreadyAdded, done, it, descendants, mod0, ded0, mod, ded, mod');
  }

  lemma NotYetDeducted(anc: Links, ded0: Links, done: set<TxId>, ded: Links, it: TxId)
    requires ded.Keys <= anc.Keys && DeductedSoFar(anc, ded0, done, ded)
    requires it !in done && forall t :: t in ded0 ==> it !in ded0[t]
    ensures forall d :: it !in Deducted(ded, d)
  {
  }

  lemma StaleKeys(anc: Links, added: set<TxId>, done: set<TxId>, it: TxId, before: set<TxId>, now: set<TxId>,
                  after: set<TxId>)
    requires now == before + Stale(anc, added, done) && before !! added
    requires after == now + set d | d in anc && d !in added && it in anc[d]
    ensures after == before + Stale(anc, added, done + {it}) && after !! added
  {
    StaleStep(anc, added, done, it);
  }

  lemma TableStep(m: Pool, anc: Links, added: set<TxId>, done: set<TxId>, it: TxId, descendants: set<TxId>,
                  mod0: ModifiedTxs, ded0: Links, mod: ModifiedTxs, ded: Links, mod': ModifiedTxs)
    returns (ded': Links)
    requires it in m.mapTx && it in added && it !in done
    requires mod0.Keys == ded0.Keys && mod0.Keys !! added && mod0.Keys <= anc.Keys
    requires forall t :: t in ded0 ==> it !in ded0[t]
    requires TableDone(m, anc, added, done, mod0, ded0, mod, ded)
    requires descendants == set d | d in anc && d !in added && it in anc[d]
    requires mod'.Keys == mod.Keys + descendants
    requires forall t :: t in descendants ==> OneLess(m, it, Base(m, mod, t), mod'[t], t !in mod)
    requires forall t :: t in mod && t !in descendants ==> mod'[t] == mod[t]
    ensures TableDone(m, anc, added, done + {it}, mod0, ded0, mod', ded')
  {
    StaleKeys(anc, added, done, it, mod0.Keys, mod.Keys, mod'.Keys);
    NotYetDeducted(anc, ded0, done, ded, it);
    ded' := DeductionTracks(m, anc, it, descendants, mod, ded, mod');
    assert forall t :: t in ded' ==> (t in descendants <==> it in anc[t]);
    DeductionStep(anc, added, done, it, ded0, ded, ded');
  }

  /** After transactions enter the block, every descendant outside the block gets an entry, with
      exactly its newly included ancestors taken out. */
  method UpdatePackagesForAdded(m: Pool, ghost anc: Links, alreadyAdded: set<TxId>, mod0: ModifiedTxs,
                                ghost ded0: Links)
    returns (mod: ModifiedTxs, ghost ded: Links)
    requires m.WellLinked() && m.IsClosure(anc) && alreadyAdded <= m.mapTx.Keys
    requires Tracks(m, anc, mod0, ded0) && mod0.Keys !! alreadyAdded
    requires forall t :: t in mod0 ==> ded0[t] !! alreadyAdded
    ensures TableDone(m, anc, alreadyAdded, alreadyAdded, mod0, ded0, mod, ded)
  {
    mod, ded := mod0, ded0;
    var todo := alreadyAdded;
    while todo != {}
      invariant todo <= alreadyAdded
      invariant TableDone(m, anc, alreadyAdded, alreadyAdded - todo, mod0, ded0, mod, ded)
    {
      var it :| it in todo;
      mod, ded := DeductIncluded(m, anc, alreadyAdded, alreadyAdded - todo, it, mod0, ded0, mod, ded);
      assert alreadyAdded - (todo - {it}) == alreadyAdded - todo + {it};
      todo := todo - {it};
    }
    assert alreadyAdded - todo == alreadyAdded;
  }

  lemma DescendantsByClosure(m: Pool, anc: Links, it: TxId)
    requires m.IsClosure(anc) && it in m.mapTx
    ensures (set d | d in m.mapTx && it in m.Package(d)) == (set d | d in anc && it in anc[d]) + {it}
  {
    forall d | d in m.mapTx ensures it in m.Package(d) <==> it in anc[d] || d == it {
      assert anc[d] == m.Ancestors(d);
    }
  }

  // ----- ordering -------------------------------------------------------------------------------

  ghost predicate AncestorsFirst(anc: Links, list: seq<TxId>) {
    forall i :: 0 <= i < |list| ==> forall a :: list[i] in anc && a in anc[list[i]] ==> a in list[..i]
  }

  ghost predicate NoDuplicates(list: seq<TxId>) {
    forall i, j :: 0 <= i < j < |list| ==> list[i] != list[j]
  }

  lemma NoDuplicatesAppend(list: seq<TxId>, t: TxId)
    requires NoDuplicates(list) && t !in Elements(list)
    ensures NoDuplicates(list + [t])
  {
  }

  lemma AncestorsFirstAppend(anc: Links, list: seq<TxId>, t: TxId)
    requires AncestorsFirst(anc, list) && t in anc && anc[t] <= Elements(list)
    ensures AncestorsFirst(anc, list + [t])
  {
    var longer := list + [t];
    forall i, a | 0 <= i < |longer| && longer[i] in anc && a in anc[longer[i]] ensures a in longer[..i] {
      if i < |list| {
        assert longer[i] == list[i] && longer[..i] == list[..i];
      } else {
        assert longer[..i] == list;
      }
    }
  }

  /** CompareTxIterByAncestorCount. */
  predicate CountBefore(m: Pool, a: TxId, b: TxId)
    requires a in m.mapTx && b in m.mapTx
  {
    if m.mapTx[a].countWithAncestors != m.mapTx[b].countWithAncestors
    then m.mapTx[a].countWithAncestors < m.mapTx[b].countWithAncestors
    else a < b
  }

  /** Sort a package by ancestor count, then hash. */
  method SortForBlock(m: Pool, package: set<TxId>) returns (sorted: seq<TxId>)
    requires package <= m.mapTx.Keys
    ensures Elements(sorted) == package && NoDuplicates(sorted)
    ensures forall i, j :: 0 <= i < j < |sorted| ==> CountBefore(m, sorted[i], sorted[j])
  {
    sorted := [];
    var rest := package;
    while rest != {}
      invariant rest <= package
      invariant forall i :: 0 <= i < |sorted| ==> sorted[i] in m.mapTx
      invariant Elements(sorted) == package - rest
      invariant forall i, j :: 0 <= i < j < |sorted| ==> CountBefore(m, sorted[i], sorted[j])
      invariant forall i, t :: 0 <= i < |sorted| && t in rest ==> CountBefore(m, sorted[i], t)
    {
      var least := FirstByCount(m, rest);
      ElementsAppend(sorted, least);
      sorted := sorted + [least];
      rest := rest - {least};
    }
  }

  method FirstByCount(m: Pool, s: set<TxId>) returns (least: TxId)
    requires s != {} && s <= m.mapTx.Keys
    ensures least in s
    ensures forall t :: t in s && t != least ==> CountBefore(m, least, t)
  {
    least :| least in s;
    var rest := s - {least};
    while rest != {}
      invariant rest <= s && least in s && least !in rest
      invariant forall t :: t in s && t !in rest && t != least ==> CountBefore(m, least, t)
    {
      var t :| t in rest;
      rest := rest - {t};
      if CountBefore(m, t, least) { least := t; }
    }
  }

  /** In a package sorted by ancestor count, every ancestor outside the block so far comes earlier. */
  lemma SortedPackageIsTopological(m: Pool, anc: Links, t: TxId, inBlock: set<TxId>, sorted: seq<TxId>, i: nat)
    requires Graded(m, anc) && t in anc && i < |sorted|
    requires Elements(sorted) == anc[t] + {t} - inBlock
    requires forall k :: 0 <= k < |sorted| ==> sorted[k] in m.mapTx
    requires forall j, k :: 0 <= j < k < |sorted| ==> CountBefore(m, sorted[j], sorted[k])
    ensures anc[sorted[i]] <= inBlock + Elements(sorted[..i])
  {
    var x := sorted[i];
    assert x in Elements(sorted);
    assert anc[x] <= anc[t];
    forall a | a in anc[x] && a !in inBlock ensures a in sorted[..i] {
      assert a in Elements(sorted);
      var j :| 0 <= j < |sorted| && sorted[j] == a;
    }
  }

  // ----- the assembler --------------------------------------------------------------------------

  /** The transaction-level checks of TestPackageTransactions for one transaction. */
  predicate Eligible(m: Pool, segwit: bool, t: TxId) {
    t in m.mapTx && m.mapTx[t].isFinal && (segwit || !m.mapTx[t].hasWitness)
  }

  /** A block body: no repeats, ancestors first, only minable pool transactions. */
  ghost predicate ValidBody(m: Pool, anc: Links, segwit: bool, list: seq<TxId>) {
    && NoDuplicates(list)
    && AncestorsFirst(anc, list)
    && forall t :: t in list ==> Eligible(m, segwit, t)
  }

  lemma ValidBodyAppend(m: Pool, anc: Links, segwit: bool, list: seq<TxId>, t: TxId)
    requires ValidBody(m, anc, segwit, list)
    requires t !in list && Eligible(m, segwit, t) && t in anc && anc[t] <= Elements(list)
    ensures ValidBody(m, anc, segwit, list + [t])
    ensures Elements(list + [t]) == Elements(list) + {t}
  {
    NoDuplicatesAppend(list, t);
    AncestorsFirstAppend(anc, list, t);
    ElementsAppend(list, t);
  }

  /** The block so far, with its limits. */
  datatype Body = Body(segwit: bool, maxWeight: nat, weight: nat, sigOps: nat, inBlock: set<TxId>)
  {
    /** TestPackage. */
    predicate Fits(size: int, cost: int) {
      weight + WITNESS_SCALE_FACTOR * size < maxWeight && sigOps + cost < MAX_BLOCK_SIGOPS_COST
    }
  }

  /** The totals by which t is judged: some of its included ancestors are taken out, and all of them
      unless it failed before. */
  ghost predicate JudgedBy(m: Pool, anc: Links, b: Body, failed: set<TxId>, t: TxId, e: ModifiedEntry, gone: set<TxId>)
    requires t in m.mapTx && t in anc
  {
    gone <= anc[t] * b.inBlock && (t !in failed ==> gone == anc[t] * b.inBlock) && TracksEntry(m, anc, t, e, gone)
  }

  /** An entry of the side table is what its transaction is judged by. */
  lemma TableJudges(m: Pool, anc: Links, b: Body, failed: set<TxId>, mod: ModifiedTxs, ded: Links, t: TxId)
    requires TableCurrent(m, anc, b.inBlock, failed, mod, ded) && t in mod
    ensures JudgedBy(m, anc, b, failed, t, mod[t], ded[t])
  {
    assert TracksEntry(m, anc, t, mod[t], ded[t]);
  }

  /** Some transaction of the package may not be mined yet. */
  ghost predicate Unminable(m: Pool, anc: Links, b: Body, t: TxId)
    requires t in anc
  {
    exists a :: a in anc[t] + {t} && !Eligible(m, b.segwit, a)
  }

  /** What is left of the package does not fit, or may not be mined. */
  ghost predicate Full(m: Pool, anc: Links, b: Body, t: TxId)
    requires t in anc
  {
    var rest := anc[t] + {t} - b.inBlock;
    !b.Fits(Sum(rest, m.Size), Sum(rest, m.SigOps)) || Unminable(m, anc, b, t)
  }

  /** What is left of the package would not fit together with the slack of the ancestors in the block. */
  ghost predicate NoRoom(m: Pool, anc: Links, b: Body, t: TxId)
    requires t in anc
  {
    var rest := anc[t] + {t} - b.inBlock;
    || b.sigOps + Sum(rest, m.SigOps) >= MAX_BLOCK_SIGOPS_COST
    || b.weight + WITNESS_SCALE_FACTOR * Sum(rest, m.Size) + Sum(anc[t] * b.inBlock, m.Slack) >= b.maxWeight
    || Unminable(m, anc, b, t)
  }

  /** Why a transaction stays out: there is no room for it, and unless it failed before, what is left of
      its package does not fit or may not be mined. */
  ghost predicate RuledOut(m: Pool, anc: Links, b: Body, failed: set<TxId>, t: TxId)
    requires t in m.mapTx && t in anc
  {
    NoRoom(m, anc, b, t) && (t !in failed ==> Full(m, anc, b, t))
  }

  lemma FullHasNoRoom(m: Pool, anc: Links, b: Body, t: TxId)
    requires t in anc && Full(m, anc, b, t)
    ensures NoRoom(m, anc, b, t)
  {
  }

  lemma {:induction false} SlackSum(m: Pool, s: set<TxId>)
    ensures Sum(s, m.Slack) + Sum(s, m.Weight) == WITNESS_SCALE_FACTOR * Sum(s, m.Size)
    decreases s
  {
    if s == {} {
    } else {
      var x :| x in s;
      SumSplit(s, m.Slack, x);
      SumSplit(s, m.Weight, x);
      SumSplit(s, m.Size, x);
      SlackSum(m, s - {x});
    }
  }

  /** A transaction that stays out does not fit, if it did not fail before or its included ancestors have
      no slack. */
  lemma RuledOutExactly(m: Pool, anc: Links, b: Body, failed: set<TxId>, t: TxId)
    requires t in m.mapTx && t in anc && RuledOut(m, anc, b, failed, t)
    requires t !in failed || forall a :: a in anc[t] * b.inBlock ==> m.Slack(a) == 0
    ensures Full(m, anc, b, t)
  {
    if t in failed { SumZero(anc[t] * b.inBlock, m.Slack); }
  }

  /** In terms of the pool alone: no ancestor whose virtual size is above a quarter of its weight. */
  lemma RuledOutWithoutSlack(m: Pool, anc: Links, b: Body, failed: set<TxId>, t: TxId)
    requires t in m.mapTx && t in anc && RuledOut(m, anc, b, failed, t)
    requires forall a :: a in anc[t] ==> WITNESS_SCALE_FACTOR * m.Size(a) == m.Weight(a)
    ensures Full(m, anc, b, t)
  {
    RuledOutExactly(m, anc, b, failed, t);
  }

  /** The slack is needed: over all blocks with the same transactions, no room means that the rest does
      not fit exactly when the included ancestors have no slack, or the sigops alone rule it out. */
  lemma NoRoomExactly(m: Pool, anc: Links, inBlock: set<TxId>, segwit: bool, t: TxId)
    requires t in anc && forall a :: a in anc[t] + {t} ==> Eligible(m, segwit, a)
    ensures (forall b: Body :: b.inBlock == inBlock && b.segwit == segwit && NoRoom(m, anc, b, t) ==>
      Full(m, anc, b, t))
      <==> (forall a :: a in anc[t] * inBlock ==> m.Slack(a) == 0)
           || Sum(anc[t] + {t} - inBlock, m.SigOps) >= MAX_BLOCK_SIGOPS_COST
  {
    var rest, gone := anc[t] + {t} - inBlock, anc[t] * inBlock;
    if forall a :: a in gone ==> m.Slack(a) == 0 {
      SumZero(gone, m.Slack);
    } else if Sum(rest, m.SigOps) < MAX_BLOCK_SIGOPS_COST {
      var a :| a in gone && m.Slack(a) != 0;
      SumSplit(gone, m.Slack, a);
      var b := Body(segwit, WITNESS_SCALE_FACTOR * Sum(rest, m.Size) + Sum(gone, m.Slack), 0, 0, inBlock);
      assert NoRoom(m, anc, b, t) && !Full(m, anc, b, t);
    }
  }

  /** The block after a package was added. */
  ghost predicate Grown(m: Pool, b: Body, b': Body, package: set<TxId>) {
    && b'.segwit == b.segwit && b'.maxWeight == b.maxWeight
    && package !! b.inBlock && b'.inBlock == b.inBlock + package
    && b'.weight == b.weight + Sum(package, m.Weight) && b'.sigOps == b.sigOps + Sum(package, m.SigOps)
  }

  /** Adding a package leaves no room where there was none. */
  lemma NoRoomGrows(m: Pool, anc: Links, b: Body, b': Body, package: set<TxId>, t: TxId)
    requires t in anc && Grown(m, b, b', package) && t !in b'.inBlock && NoRoom(m, anc, b, t)
    ensures NoRoom(m, anc, b', t)
  {
    var rest, rest', taken := anc[t] + {t} - b.inBlock, anc[t] + {t} - b'.inBlock, anc[t] * package;
    assert rest - taken == rest' && anc[t] * b'.inBlock == anc[t] * b.inBlock + taken;
    SumSubset(taken, rest, m.SigOps);
    SumSubset(taken, rest, m.Size);
    SumDisjoint(anc[t] * b.inBlock, taken, m.Slack);
    SumSubset(taken, package, m.SigOps);
    SumSubset(taken, package, m.Weight);
    SlackSum(m, taken);
  }

  lemma RuledOutGrows(m: Pool, anc: Links, b: Body, b': Body, failed: set<TxId>, package: set<TxId>, t: TxId)
    requires t in m.mapTx && t in anc && RuledOut(m, anc, b, failed, t) && Grown(m, b, b', package) && t !in b'.inBlock
    requires t !in failed ==> anc[t] !! package
    ensures RuledOut(m, anc, b', failed, t)
  {
    NoRoomGrows(m, anc, b, b', package, t);
    if t !in failed { assert anc[t] + {t} - b'.inBlock == anc[t] + {t} - b.inBlock; }
  }

  /** Ancestor-closed: what a valid block body always is. */
  ghost predicate Closed(anc: Links, s: set<TxId>) {
    forall t {:trigger anc[t]} :: t in s && t in anc ==> anc[t] <= s
  }

  lemma AncestorsFirstIsClosed(anc: Links, list: seq<TxId>)
    requires AncestorsFirst(anc, list)
    ensures Closed(anc, Elements(list))
  {
    forall t, a | t in list && t in anc && a in anc[t] ensures a in list {
      var i :| 0 <= i < |list| && list[i] == t;
      assert a in list[..i];
    }
  }

  /** The table without the members of a package that enters the block. */
  lemma TableWithout(m: Pool, anc: Links, inBlock: set<TxId>, failed: set<TxId>, mod: ModifiedTxs, ded: Links,
                     package: set<TxId>)
    requires TableCurrent(m, anc, inBlock, failed, mod, ded) && package !! inBlock
    ensures Tracks(m, anc, mod - package, ded - package) && (mod - package).Keys !! package
    ensures forall t :: t in mod - package ==> (ded - package)[t] !! package
  {
    var mod', ded' := mod - package, ded - package;
    forall t | t in mod'
      ensures ded'[t] == ded[t] && mod'[t] == mod[t] && ded[t] != {} && TracksEntry(m, anc, t, mod[t], ded[t])
      ensures ded[t] <= inBlock
    {
    }
  }

  /** Adding a package and updating the table restores the table invariant for the larger block. */
  lemma TableAfterAdd(m: Pool, anc: Links, inBlock: set<TxId>, package: set<TxId>, failed: set<TxId>,
                      mod: ModifiedTxs, ded: Links, mod': ModifiedTxs, ded': Links)
    requires Graded(m, anc) && Closed(anc, inBlock) && package !! inBlock
    requires TableCurrent(m, anc, inBlock, failed, mod, ded)
    requires TableDone(m, anc, package, package, mod - package, ded - package, mod', ded')
    ensures TableCurrent(m, anc, inBlock + package, failed, mod', ded')
  {
    forall t | t in mod' ensures t !in inBlock + package && ded'[t] <= inBlock + package {
      TableEntryAfterAdd(anc, inBlock, package, ded, ded', t);
    }
    forall t | t in mod' && t !in failed ensures ded'[t] == anc[t] * (inBlock + package) {
      TableEntryAfterAdd(anc, inBlock, package, ded, ded', t);
    }
    forall t | t in anc && t !in inBlock + package && t !in failed && t !in mod'
      ensures anc[t] !! inBlock + package
    {
      assert t !in Stale(anc, package, package);
    }
  }

  lemma TableEntryAfterAdd(anc: Links, inBlock: set<TxId>, package: set<TxId>, ded: Links, ded': Links, t: TxId)
    requires Closed(anc, inBlock) && package !! inBlock && ded.Keys <= anc.Keys && ded.Keys !! inBlock
    requires ded'.Keys == (ded - package).Keys + Stale(anc, package, package)
    requires DeductedSoFar(anc, ded - package, package, ded') && t in ded'
    requires t in ded ==> ded[t] <= inBlock
    ensures t !in inBlock && t !in package && ded'[t] <= inBlock + package
    ensures (t in ded ==> ded[t] == anc[t] * inBlock) && (t !in ded ==> anc[t] !! inBlock) ==>
            ded'[t] == anc[t] * (inBlock + package)
  {
    var before := Deducted(ded - package, t);
    assert ded'[t] == before + anc[t] * package;
    if before == anc[t] * inBlock {
      assert before + anc[t] * package == anc[t] * (inBlock + package);
    }
  }

  /** No entry of the table and none ahead in the index outranks t. */
  ghost predicate Leads(m: Pool, mod: ModifiedTxs, mi: nat, t: TxId, e: ModifiedEntry)
    requires t in m.mapTx && mod.Keys <= m.mapTx.Keys
  {
    && (forall x {:trigger RanksBefore(m, t, e, x, mod[x])} :: x in mod && x != t ==> RanksBefore(m, t, e, x, mod[x]))
    && (forall k {:trigger BeforeIndex(m, t, e, k)} :: mi <= k < |m.byScore| && m.byScore[k] != t ==>
        BeforeIndex(m, t, e, k))
  }

  lemma PoolSized(m: Pool, anc: Links, t: TxId)
    requires Graded(m, anc) && t in anc
    ensures Sized(m, t, PoolTotals(m.mapTx[t]))
  {
    assert TotalsOf(m, anc, t);
    SumSplit(anc[t] + {t}, m.Size, t);
  }

  lemma TableSized(m: Pool, anc: Links, inBlock: set<TxId>, failed: set<TxId>, mod: ModifiedTxs, ded: Links)
    requires Graded(m, anc) && TableCurrent(m, anc, inBlock, failed, mod, ded)
    ensures PositiveSizes(m, mod)
  {
    forall x | x in mod ensures Sized(m, x, mod[x]) {
      DeductionsCover(m, anc, x, inBlock, mod[x], ded[x]);
    }
  }

  /** Who ranks before an index entry ranks before all later ones. */
  lemma IndexFollows(m: Pool, anc: Links, mi: nat, t: TxId, e: ModifiedEntry, k: nat)
    requires Graded(m, anc) && anc.Keys == m.mapTx.Keys && SortedByScore(m) && Sized(m, t, e)
    requires BeforeIndex(m, t, e, mi) && mi <= k < |m.byScore|
    ensures BeforeIndex(m, t, e, k)
  {
    if mi < k {
      var next, x := m.byScore[mi], m.byScore[k];
      assert BeforeIndex(m, next, PoolTotals(m.mapTx[next]), k);
      PoolSized(m, anc, next);
      PoolSized(m, anc, x);
      RanksBeforeTransitive(m, t, e, next, PoolTotals(m.mapTx[next]), x, PoolTotals(m.mapTx[x]));
    }
  }

  /** The best of the table leads if it outranks the next index entry. */
  lemma TableLeads(m: Pool, anc: Links, mod: ModifiedTxs, mi: nat, t: TxId)
    requires Graded(m, anc) && anc.Keys == m.mapTx.Keys && SortedByScore(m) && PositiveSizes(m, mod) && t in mod
    requires mod.Keys <= m.mapTx.Keys && mi <= |m.byScore|
    requires forall x :: x in mod && x != t ==> RanksBefore(m, t, mod[t], x, mod[x])
    requires mi < |m.byScore| ==> BeforeIndex(m, t, mod[t], mi)
    ensures Leads(m, mod, mi, t, mod[t])
  {
    forall k | mi <= k < |m.byScore| ensures BeforeIndex(m, t, mod[t], k) {
      IndexFollows(m, anc, mi, t, mod[t], k);
    }
  }

  /** The next index entry leads if the table's best does not outrank it. */
  lemma IndexLeads(m: Pool, anc: Links, mod: ModifiedTxs, mi: nat, best: TxId)
    requires Graded(m, anc) && anc.Keys == m.mapTx.Keys && SortedByScore(m) && PositiveSizes(m, mod)
    requires mod.Keys <= m.mapTx.Keys && mi < |m.byScore| && m.byScore[mi] in m.mapTx && m.byScore[mi] !in mod
    requires mod != map[] ==>
      best in mod && (forall x :: x in mod && x != best ==> RanksBefore(m, best, mod[best], x, mod[x]))
    requires mod != map[] ==> !RanksBefore(m, best, mod[best], m.byScore[mi], PoolTotals(m.mapTx[m.byScore[mi]]))
    ensures Leads(m, mod, mi, m.byScore[mi], PoolTotals(m.mapTx[m.byScore[mi]]))
  {
    var t := m.byScore[mi];
    PoolSized(m, anc, t);
    if mod != map[] { BeforeAll(m, mod, best, t, PoolTotals(m.mapTx[t])); }
    forall k | mi <= k < |m.byScore| && m.byScore[k] != t ensures BeforeIndex(m, t, PoolTotals(m.mapTx[t]), k) {
    }
  }

  /** Nothing is forgotten: a transaction outside the block is in the table, still ahead in the score
      index, or ruled out; one that failed is ruled out. */
  ghost predicate Considered(m: Pool, anc: Links, b: Body, failed: set<TxId>, mod: ModifiedTxs, ahead: seq<TxId>)
    requires anc.Keys == m.mapTx.Keys
  {
    && failed <= anc.Keys
    && (forall t {:trigger RuledOut(m, anc, b, failed, t)} :: t in failed && t !in b.inBlock ==>
        RuledOut(m, anc, b, failed, t))
    && (forall t {:trigger RuledOut(m, anc, b, failed, t)} ::
          t in anc && t !in b.inBlock && t !in mod && t !in ahead ==> RuledOut(m, anc, b, failed, t))
  }

  /** Dropping a ruled-out candidate from the table, and noting it as failed. */
  lemma ConsideredAfterFailure(m: Pool, anc: Links, b: Body, failed: set<TxId>, mod: ModifiedTxs, ahead: seq<TxId>,
                               t: TxId)
    requires anc.Keys == m.mapTx.Keys && Considered(m, anc, b, failed, mod, ahead)
    requires t in anc && RuledOut(m, anc, b, failed, t)
    ensures Considered(m, anc, b, failed + {t}, mod - {t}, ahead)
  {
    forall x | x in anc && RuledOut(m, anc, b, failed, x) ensures RuledOut(m, anc, b, failed + {t}, x) {
    }
  }

  /** Advancing past an index entry that is ruled out, in the table, in the block, or has failed. */
  lemma ConsideredAfterSkip(m: Pool, anc: Links, b: Body, failed: set<TxId>, mod: ModifiedTxs, ahead: seq<TxId>)
    requires anc.Keys == m.mapTx.Keys && ahead != [] && Considered(m, anc, b, failed, mod, ahead)
    requires ahead[0] in mod || ahead[0] in b.inBlock || ahead[0] in failed ||
      (ahead[0] in anc && RuledOut(m, anc, b, failed, ahead[0]))
    ensures Considered(m, anc, b, failed, mod, ahead[1..])
  {
  }

  /** Growing the block only rules out more; who gets an ancestor included returns to the table. */
  lemma ConsideredAfterAdd(m: Pool, anc: Links, b: Body, b': Body, failed: set<TxId>, mod: ModifiedTxs,
                           ahead: seq<TxId>,
                           package: set<TxId>, mod': ModifiedTxs)
    requires anc.Keys == m.mapTx.Keys && Considered(m, anc, b, failed, mod, ahead)
    requires Grown(m, b, b', package) && mod'.Keys == (mod - package).Keys + Stale(anc, package, package)
    ensures Considered(m, anc, b', failed, mod', ahead)
    ensures ahead != [] && ahead[0] in package ==> Considered(m, anc, b', failed, mod', ahead[1..])
  {
    forall t | t in anc && t !in b'.inBlock && RuledOut(m, anc, b, failed, t) && (t in failed || t !in mod')
      ensures RuledOut(m, anc, b', failed, t)
    {
      if t !in failed {
        assert t !in Stale(anc, package, package);
      }
      RuledOutGrows(m, anc, b, b', failed, package, t);
    }
  }

  /** Erasing an entry from the table keeps the table invariant once the entry counts as failed. */
  lemma TableAfterFailure(m: Pool, anc: Links, inBlock: set<TxId>, failed: set<TxId>, mod: ModifiedTxs, ded: Links,
                          t: TxId)
    requires TableCurrent(m, anc, inBlock, failed, mod, ded)
    ensures TableCurrent(m, anc, inBlock, failed + {t}, mod - {t}, ded - {t})
  {
  }

  lemma ElementsPrefix(list: seq<TxId>, i: nat)
    requires i < |list|
    ensures Elements(list[..i + 1]) == Elements(list[..i]) + {list[i]}
  {
    assert list[..i + 1] == list[..i] + [list[i]];
    ElementsAppend(list[..i], list[i]);
  }

  lemma PackageJoins(inBlock: set<TxId>, all: set<TxId>)
    ensures inBlock + (all - inBlock) == inBlock + all
  {
  }

  lemma EraseOneMore(mod: ModifiedTxs, gone: set<TxId>, t: TxId)
    ensures mod - gone - {t} == mod - (gone + {t})
  {
  }

  /** The loop variables of addPackageTxs: index position, side table, failed set and counters. */
  datatype Search = Search(mi: nat, mod: ModifiedTxs, failed: set<TxId>, consecutiveFailed: nat, selected: nat)

  datatype Outcome = DoesNotFit | NotMinable | Added

  class BlockAssembler {
    const mempool: Pool
    ghost const anc: Links
    const blockMaxWeight: nat
    const blockMinFeeRate: int
    const includeWitness: bool
    var entries: seq<TxId>
    var inBlock: set<TxId>
    var blockWeight: nat
    var blockTx: nat
    var blockSigOpsCost: nat
    var fees: nat

    ghost predicate PoolReady() {
      && mempool.WellLinked() && mempool.IsClosure(anc) && Graded(mempool, anc)
      && (forall t :: t in mempool.mapTx <==> t in mempool.byScore) && SortedByScore(mempool)
      && blockMaxWeight >= 4000
    }

    /** The block so far as a value. */
    ghost function B(): Body
      reads this
    {
      Body(includeWitness, blockMaxWeight, blockWeight, blockSigOpsCost, inBlock)
    }

    /** The block holds each selected transaction once, after all its in-pool ancestors; only final
        transactions are in it, and the counters are the true totals plus the coinbase reserve. */
    ghost predicate Valid()
      reads this
    {
      && PoolReady()
      && ValidBody(mempool, anc, includeWitness, entries)
      && inBlock == Elements(entries)
      && blockTx == |entries|
      && blockWeight == COINBASE_WEIGHT + Sum(inBlock, mempool.Weight)
      && blockSigOpsCost == COINBASE_SIGOPS + Sum(inBlock, mempool.SigOps)
      && fees == Sum(inBlock, mempool.Fee)
    }

    ghost predicate StaysOut(failed: set<TxId>, t: TxId)
      requires t in mempool.mapTx && t in anc
      reads this
    {
      RuledOut(mempool, anc, B(), failed, t)
    }

    /** No ancestor of t has a virtual size above a quarter of its weight, through sigops or rounding. */
    ghost predicate NoSlackAbove(t: TxId)
      requires t in anc
    {
      forall a :: a in anc[t] ==> WITNESS_SCALE_FACTOR * mempool.Size(a) == mempool.Weight(a)
    }

    /** What is left of the package of t does not fit into the block, or may not be mined. */
    ghost predicate IsFull(t: TxId)
      requires t in anc
      reads this
    {
      Full(mempool, anc, B(), t)
    }

    /** Valid in terms of the pool's parent links: an ancestor in the pool stands earlier in the block. */
    lemma AncestorsPrecede(i: nat, a: TxId)
      requires Valid() && i < |entries| && a in mempool.mapTx && mempool.AncestorOf(a, entries[i])
      ensures a in entries[..i]
    {
      assert Eligible(mempool, includeWitness, entries[i]);
      assert anc[entries[i]] == mempool.Ancestors(entries[i]);
    }

    constructor (pool: Pool, optionMaxWeight: nat, minFeeRate: int, segwit: bool)
      requires pool.Valid() && SortedByScore(pool)
      ensures Valid() && mempool == pool && entries == [] && blockMinFeeRate == minFeeRate && includeWitness == segwit
      ensures blockMaxWeight == if optionMaxWeight < 40000000 - 4000 then Arithmetic.Max(4000, optionMaxWeight)
        else 40000000 - 4000
    {
      ValidPoolIsGraded(pool);
      mempool := pool;
      anc := Closure(pool);
      blockMaxWeight := if optionMaxWeight < 40000000 - 4000 then Arithmetic.Max(4000, optionMaxWeight)
          else 40000000 - 4000;
      blockMinFeeRate := minFeeRate;
      includeWitness := segwit;
      entries, inBlock := [], {};
      blockWeight, blockSigOpsCost, blockTx, fees := COINBASE_WEIGHT, COINBASE_SIGOPS, 0, 0;
    }

    predicate TestPackage(packageSize: int, packageSigOpsCost: int)
      reads this
    {
      && blockWeight + WITNESS_SCALE_FACTOR * packageSize < blockMaxWeight
      && blockSigOpsCost + packageSigOpsCost < MAX_BLOCK_SIGOPS_COST
    }

    predicate TestPackageTransactions(package: set<TxId>) {
      forall t :: t in package ==> Eligible(mempool, includeWitness, t)
    }

    method AddToBlock(t: TxId)
      requires Valid() && t !in inBlock && Eligible(mempool, includeWitness, t) && t in anc && anc[t] <= inBlock
      modifies this
      ensures Valid() && entries == old(entries) + [t] && inBlock == old(inBlock) + {t}
    {
      ValidBodyAppend(mempool, anc, includeWitness, entries, t);
      SumAdd(inBlock, mempool.Weight, t);
      SumAdd(inBlock, mempool.SigOps, t);
      SumAdd(inBlock, mempool.Fee, t);
      entries := entries + [t];
      blockWeight := blockWeight + mempool.mapTx[t].weight;
      blockTx := blockTx + 1;
      blockSigOpsCost := blockSigOpsCost + mempool.mapTx[t].sigOpCost;
      fees := fees + mempool.mapTx[t].fee;
      inBlock := inBlock + {t};
    }

    /** Add a tested package in sorted order, erasing its members from the side table. */
    method AddPackage(t: TxId, package: set<TxId>, mod0: ModifiedTxs) returns (mod: ModifiedTxs)
      requires Valid() && t in anc && package == anc[t] + {t} - inBlock && TestPackageTransactions(package)
      modifies this
      ensures Valid() && inBlock == old(inBlock) + package && old(entries) <= entries
      ensures blockWeight == old(blockWeight) + Sum(package, mempool.Weight)
      ensures blockSigOpsCost == old(blockSigOpsCost) + Sum(package, mempool.SigOps)
      ensures mod == mod0 - package
    {
      var sorted := SortForBlock(mempool, package);
      mod := mod0;
      var i := 0;
      while i < |sorted|
        invariant 0 <= i <= |sorted| && Valid() && old(entries) <= entries
        invariant inBlock == old(inBlock) + Elements(sorted[..i])
        invariant mod == mod0 - Elements(sorted[..i])
      {
        assert sorted[i] in Elements(sorted);
        SortedPackageIsTopological(mempool, anc, t, old(inBlock), sorted, i);
        ElementsPrefix(sorted, i);
        AddToBlock(sorted[i]);
        EraseOneMore(mod0, Elements(sorted[..i]), sorted[i]);
        mod := mod - {sorted[i]};
        i := i + 1;
      }
      assert sorted[..i] == sorted;
      SumDisjoint(old(inBlock), package, mempool.Weight);
      SumDisjoint(old(inBlock), package, mempool.SigOps);
    }

    ghost predicate AllConsidered(failed: set<TxId>, mod: ModifiedTxs, ahead: seq<TxId>)
      requires PoolReady()
      reads this
    {
      Considered(mempool, anc, B(), failed, mod, ahead)
    }

    /** src/miner.cpp:428-444: add the package of t and bring the side table up to date. */
    method AddSelected(t: TxId, package: set<TxId>, mod0: ModifiedTxs, ghost ded0: Links, ghost failed: set<TxId>,
                       ghost ahead: seq<TxId>)
      returns (mod: ModifiedTxs, ghost ded: Links)
      requires Valid() && t in anc && package == anc[t] + {t} - inBlock && TestPackageTransactions(package)
      requires TableCurrent(mempool, anc, inBlock, failed, mod0, ded0) && AllConsidered(failed, mod0, ahead)
      modifies this
      ensures Valid() && inBlock == old(inBlock) + package && old(entries) <= entries
      ensures blockWeight == old(blockWeight) + Sum(package, mempool.Weight)
      ensures blockSigOpsCost == old(blockSigOpsCost) + Sum(package, mempool.SigOps)
      ensures TableCurrent(mempool, anc, inBlock, failed, mod, ded) && AllConsidered(failed, mod, ahead)
      ensures TableDone(mempool, anc, package, package, mod0 - package, ded0 - package, mod, ded)
      ensures ahead != [] && ahead[0] in package ==> AllConsidered(failed, mod, ahead[1..])
    {
      ghost var b := B();
      AncestorsFirstIsClosed(anc, entries);
      TableWithout(mempool, anc, inBlock, failed, mod0, ded0, package);
      mod := AddPackage(t, package, mod0);
      mod, ded := UpdatePackagesForAdded(mempool, anc, package, mod, ded0 - package);
      TableAfterAdd(mempool, anc, old(inBlock), package, failed, mod0, ded0, mod, ded);
      ConsideredAfterAdd(mempool, anc, b, B(), failed, mod0, ahead, package, mod);
    }

    /** src/miner.cpp:348-385: the next entry of the score index, or the best of the side table if that ranks
        higher. The totals it is judged by cover what its package would still add to the block, and
        are exact unless it failed before. */
    method ChooseCandidate(mod: ModifiedTxs, ghost ded: Links, ghost failed: set<TxId>, mi: nat)
      returns (t: TxId, usingModified: bool, e: ModifiedEntry)
      requires Valid() && TableCurrent(mempool, anc, inBlock, failed, mod, ded)
      requires mi <= |mempool.byScore| && (mi < |mempool.byScore| || mod != map[])
      requires mi < |mempool.byScore| ==>
        mempool.byScore[mi] !in mod && mempool.byScore[mi] !in inBlock && mempool.byScore[mi] !in failed
      ensures t in anc && t !in inBlock && Leads(mempool, mod, mi, t, e)
      ensures if usingModified then t in mod && e == mod[t]
              else mi < |mempool.byScore| && t == mempool.byScore[mi] && e == PoolTotals(mempool.mapTx[t])
      ensures JudgedBy(mempool, anc, B(), failed, t, e, if usingModified then ded[t] else {})
      ensures e.size >= Sum(anc[t] + {t} - inBlock, mempool.Size)
      ensures e.sigOps >= Sum(anc[t] + {t} - inBlock, mempool.SigOps)
      ensures t !in failed ==> e.size == Sum(anc[t] + {t} - inBlock, mempool.Size)
      ensures t !in failed ==> e.sigOps == Sum(anc[t] + {t} - inBlock, mempool.SigOps)
    {
      TableSized(mempool, anc, inBlock, failed, mod, ded);
      usingModified := false;
      var best := 0;
      if mod != map[] { best := BestModified(mempool, mod); }
      if mi == |mempool.byScore| {
        t, usingModified := best, true;
      } else {
        t := mempool.byScore[mi];
        if mod != map[] && RanksBefore(mempool, best, mod[best], t, PoolTotals(mempool.mapTx[t])) {
          t, usingModified := best, true;
        }
      }
      e := if usingModified then mod[t] else PoolTotals(mempool.mapTx[t]);
      if usingModified {
        TableLeads(mempool, anc, mod, mi, t);
        DeductionsCover(mempool, anc, t, inBlock, e, ded[t]);
      } else {
        IndexLeads(mempool, anc, mod, mi, best);
        DeductionsCover(mempool, anc, t, inBlock, e, {});
      }
    }

    /** A package that passes TestPackage keeps the block under both limits. */
    lemma PackageFits(package: set<TxId>, e: ModifiedEntry)
      requires TestPackage(e.size, e.sigOps)
      requires Sum(package, mempool.Size) <= e.size && Sum(package, mempool.SigOps) <= e.sigOps
      ensures blockWeight + Sum(package, mempool.Weight) < blockMaxWeight
      ensures blockSigOpsCost + Sum(package, mempool.SigOps) < MAX_BLOCK_SIGOPS_COST
    {
      forall t | t in package ensures mempool.Weight(t) <= 4 * mempool.Size(t) { WeightWithinSize(mempool, t); }
      SumBound(package, mempool.Weight, mempool.Size, 4);
    }

    /** src/miner.cpp:414-420: the ancestors still to be added, and the transaction itself. */
    method OnlyUnconfirmed(t: TxId) returns (package: set<TxId>)
      requires PoolReady() && t in anc && t !in inBlock
      ensures package == anc[t] + {t} - inBlock
    {
      var ancestors := CalculateMemPoolAncestors(mempool, t);
      package := ancestors - inBlock + {t};
    }

    lemma TooBigStaysOut(failed: set<TxId>, mod: ModifiedTxs, ahead: seq<TxId>, t: TxId, e: ModifiedEntry,
                         gone: set<TxId>)
      requires PoolReady() && AllConsidered(failed, mod, ahead)
      requires t in mempool.mapTx && t in anc && t !in inBlock && !TestPackage(e.size, e.sigOps)
      requires JudgedBy(mempool, anc, B(), failed, t, e, gone)
      ensures StaysOut(failed, t)
    {
      if t !in failed {
        DeductionsCover(mempool, anc, t, inBlock, e, gone);
        FullHasNoRoom(mempool, anc, B(), t);
      }
    }

    lemma NotMinableStaysOut(failed: set<TxId>, t: TxId, package: set<TxId>)
      requires t in mempool.mapTx && t in anc && package <= anc[t] + {t} && !TestPackageTransactions(package)
      ensures StaysOut(failed, t)
    {
      var a :| a in package && !Eligible(mempool, includeWitness, a);
      assert Unminable(mempool, anc, B(), t);
    }

    /** Test the candidate's package and, if it passes, add it (src/miner.cpp:392-444). */
    method TryPackage(t: TxId, e: ModifiedEntry, ghost gone: set<TxId>, mod0: ModifiedTxs, ghost ded0: Links,
                      ghost failed: set<TxId>, ghost ahead: seq<TxId>)
      returns (outcome: Outcome, mod: ModifiedTxs, ghost ded: Links)
      requires Valid() && t in anc && t !in inBlock
      requires TableCurrent(mempool, anc, inBlock, failed, mod0, ded0) && AllConsidered(failed, mod0, ahead)
      requires JudgedBy(mempool, anc, B(), failed, t, e, gone)
      requires e.size >= Sum(anc[t] + {t} - inBlock, mempool.Size)
      requires e.sigOps >= Sum(anc[t] + {t} - inBlock, mempool.SigOps)
      modifies this
      ensures Valid() && old(entries) <= entries
      ensures outcome == Added <==>
        old(TestPackage(e.size, e.sigOps)) && TestPackageTransactions(anc[t] + {t} - old(inBlock))
      ensures outcome == DoesNotFit <==> !old(TestPackage(e.size, e.sigOps))
      ensures outcome != Added ==> unchanged(this) && mod == mod0 && ded == ded0 && StaysOut(failed, t)
      ensures outcome == Added ==>
        && inBlock == old(inBlock) + (anc[t] + {t})
        && blockWeight < blockMaxWeight && blockSigOpsCost < MAX_BLOCK_SIGOPS_COST
        && TableCurrent(mempool, anc, inBlock, failed, mod, ded) && AllConsidered(failed, mod, ahead)
        && (ahead != [] && ahead[0] == t ==> AllConsidered(failed, mod, ahead[1..]))
      ensures outcome == Added ==> var package := anc[t] + {t} - old(inBlock);
        TableDone(mempool, anc, package, package, mod0 - package, ded0 - package, mod, ded)
    {
      mod, ded := mod0, ded0;
      if !TestPackage(e.size, e.sigOps) {
        TooBigStaysOut(failed, mod, ahead, t, e, gone);
        return DoesNotFit, mod, ded;
      }
      var package := OnlyUnconfirmed(t);
      if !TestPackageTransactions(package) {
        NotMinableStaysOut(failed, t, package);
        return NotMinable, mod, ded;
      }
      PackageFits(package, e);
      mod, ded := AddSelected(t, package, mod, ded, failed, ahead);
      PackageJoins(old(inBlock), anc[t] + {t});
      outcome := Added;
    }

    /** The state of the selection loop fits the block. */
    ghost predicate SearchFits(s: Search, ded: Links)
      requires PoolReady()
      reads this
    {
      && s.mi <= |mempool.byScore|
      && TableCurrent(mempool, anc, inBlock, s.failed, s.mod, ded)
      && AllConsidered(s.failed, s.mod, mempool.byScore[s.mi..])
    }

    /** src/miner.cpp:342-346: pass an index entry that is stale, included or failed. */
    method SkipMapTxEntry(s: Search, ghost ded: Links) returns (s': Search)
      requires PoolReady() && SearchFits(s, ded) && s.mi < |mempool.byScore|
      ensures SearchFits(s', ded) && s' == s.(mi := s'.mi)
      ensures s'.mi == s.mi || s'.mi == s.mi + 1
      ensures s'.mi == s.mi ==>
        mempool.byScore[s.mi] !in s.mod && mempool.byScore[s.mi] !in inBlock && mempool.byScore[s.mi] !in s.failed
    {
      var next := mempool.byScore[s.mi];
      s' := s;
      if next in s.mod || next in inBlock || next in s.failed {
        ghost var ahead := mempool.byScore[s.mi..];
        ConsideredAfterSkip(mempool, anc, B(), s.failed, s.mod, ahead);
        assert ahead[1..] == mempool.byScore[s.mi + 1..];
        s' := s.(mi := s.mi + 1);
      }
    }

    /** src/miner.cpp:392-426: after a package is turned down, the loop state without the candidate. */
    method TurnDown(s: Search, ghost ded: Links, t: TxId, usingModified: bool) returns (s': Search, ghost ded': Links)
      requires PoolReady() && SearchFits(s, ded) && t in anc && StaysOut(s.failed, t)
      requires usingModified ==> t in s.mod
      requires !usingModified ==> s.mi < |mempool.byScore| && mempool.byScore[s.mi] == t
      ensures SearchFits(s', ded')
      ensures usingModified ==> s' == s.(mod := s.mod - {t}, failed := s.failed + {t})
      ensures !usingModified ==> s' == s.(mi := s.mi + 1)
    {
      ghost var ahead := mempool.byScore[s.mi..];
      if usingModified {
        ConsideredAfterFailure(mempool, anc, B(), s.failed, s.mod, ahead, t);
        TableAfterFailure(mempool, anc, inBlock, s.failed, s.mod, ded, t);
        s', ded' := s.(mod := s.mod - {t}, failed := s.failed + {t}), ded - {t};
      } else {
        ConsideredAfterSkip(mempool, anc, B(), s.failed, s.mod, ahead);
        assert ahead[1..] == mempool.byScore[s.mi + 1..];
        s', ded' := s.(mi := s.mi + 1), ded;
      }
    }

    /** x is still a candidate, and ranks after t by the totals it is judged by. */
    ghost predicate Outranked(failed: set<TxId>, t: TxId, e: ModifiedEntry, x: TxId)
      requires PoolReady() && t in anc && x in anc
      reads this
    {
      exists e', gone :: JudgedBy(mempool, anc, B(), failed, x, e', gone) && RanksBefore(mempool, t, e, x, e')
    }

    /** The best candidate left pays less than the least fee rate: every other transaction outside the
        block is ruled out or ranks after it. */
    ghost predicate TooCheap(failed: set<TxId>, t: TxId, e: ModifiedEntry, gone: set<TxId>)
      requires PoolReady()
      reads this
    {
      && t in anc && t !in inBlock && JudgedBy(mempool, anc, B(), failed, t, e, gone)
      && e.modFees < FeeFor(blockMinFeeRate, e.size)
      && (forall x :: x in anc && x !in inBlock && x != t ==> StaysOut(failed, x) || Outranked(failed, t, e, x))
    }

    /** Why selection may end early: nearly full, or only candidates at or below a too low fee rate. */
    ghost predicate MayStop(failed: set<TxId>)
      requires PoolReady()
      reads this
    {
      blockWeight > blockMaxWeight - 4000 || exists t, e, gone :: TooCheap(failed, t, e, gone)
    }

    lemma NothingLeft(s: Search, ded: Links)
      requires PoolReady() && SearchFits(s, ded) && s.mi == |mempool.byScore| && s.mod == map[]
      ensures forall t :: t in mempool.mapTx && t !in inBlock ==> StaysOut(s.failed, t)
    {
      assert mempool.byScore[s.mi..] == [];
    }

    lemma TableOutranked(failed: set<TxId>, mod: ModifiedTxs, ded: Links, mi: nat, t: TxId, e: ModifiedEntry, x: TxId)
      requires PoolReady() && TableCurrent(mempool, anc, inBlock, failed, mod, ded) && t in anc
      requires Leads(mempool, mod, mi, t, e) && x in mod && x != t
      ensures Outranked(failed, t, e, x)
    {
      TableJudges(mempool, anc, B(), failed, mod, ded, x);
      assert RanksBefore(mempool, t, e, x, mod[x]);
    }

    lemma IndexOutranked(failed: set<TxId>, mod: ModifiedTxs, ded: Links, mi: nat, t: TxId, e: ModifiedEntry, k: nat)
      requires PoolReady() && TableCurrent(mempool, anc, inBlock, failed, mod, ded) && t in anc
      requires Leads(mempool, mod, mi, t, e) && mi <= k < |mempool.byScore| && mempool.byScore[k] != t
      requires mempool.byScore[k] in anc && mempool.byScore[k] !in inBlock && mempool.byScore[k] !in mod
      ensures Outranked(failed, t, e, mempool.byScore[k])
    {
      var x := mempool.byScore[k];
      assert BeforeIndex(mempool, t, e, k);
      assert JudgedBy(mempool, anc, B(), failed, x, PoolTotals(mempool.mapTx[x]), {});
    }

    /** Whoever is left behind the best candidate is ruled out or outranked by it. */
    lemma BestLeft(s: Search, ded: Links, t: TxId, e: ModifiedEntry, x: TxId)
      requires PoolReady() && SearchFits(s, ded) && t in anc && Leads(mempool, s.mod, s.mi, t, e)
      requires x in anc && x !in inBlock && x != t
      ensures StaysOut(s.failed, x) || Outranked(s.failed, t, e, x)
    {
      var ahead := mempool.byScore[s.mi..];
      if x in s.mod {
        TableOutranked(s.failed, s.mod, ded, s.mi, t, e, x);
      } else if x in ahead {
        var k :| 0 <= k < |ahead| && ahead[k] == x;
        IndexOutranked(s.failed, s.mod, ded, s.mi, t, e, s.mi + k);
      }
    }

    lemma EntriesInPool()
      requires Valid()
      ensures inBlock <= mempool.mapTx.Keys
    {
      assert forall t :: t in inBlock ==> Eligible(mempool, includeWitness, t);
    }

    /** Progress of the loop: the block grows, or fewer candidates are left for it. */
    twostate predicate Progress(s: Search, s': Search)
      reads this
    {
      old(inBlock) < inBlock <= mempool.mapTx.Keys
      || (inBlock == old(inBlock) && (s.mi < s'.mi || (s.mi == s'.mi && s'.mod.Keys < s.mod.Keys)))
    }

    /** Turn a candidate down; after too many misfits in a row and close to full, stop
        (src/miner.cpp:392-426). */
    method TurnDownOrStop(s: Search, ghost ded: Links, t: TxId, usingModified: bool, tooBig: bool)
      returns (s': Search, ghost ded': Links, stop: bool)
      requires PoolReady() && SearchFits(s, ded) && t in anc && StaysOut(s.failed, t)
      requires usingModified ==> t in s.mod
      requires !usingModified ==> s.mi < |mempool.byScore| && mempool.byScore[s.mi] == t
      ensures SearchFits(s', ded') && (s.mi < s'.mi || (s.mi == s'.mi && s'.mod.Keys < s.mod.Keys))
      ensures s'.consecutiveFailed == s.consecutiveFailed + if tooBig then 1 else 0
      ensures stop <==> tooBig && s'.consecutiveFailed > MAX_CONSECUTIVE_FAILURES && blockWeight > blockMaxWeight - 4000
    {
      s', ded' := TurnDown(s, ded, t, usingModified);
      if tooBig {
        s' := s'.(consecutiveFailed := s.consecutiveFailed + 1);
      }
      stop := tooBig && s'.consecutiveFailed > MAX_CONSECUTIVE_FAILURES && blockWeight > blockMaxWeight - 4000;
    }

    lemma FitsAfterAdd(s: Search, s': Search, ded: Links, ahead: seq<TxId>, t: TxId)
      requires PoolReady() && s.mi <= |mempool.byScore| && ahead == mempool.byScore[s.mi..] && s'.failed == s.failed
      requires TableCurrent(mempool, anc, inBlock, s.failed, s'.mod, ded) && AllConsidered(s.failed, s'.mod, ahead)
      requires ahead != [] && ahead[0] == t ==> AllConsidered(s.failed, s'.mod, ahead[1..])
      requires s'.mi == s.mi || (s'.mi == s.mi + 1 <= |mempool.byScore| && mempool.byScore[s.mi] == t)
      ensures SearchFits(s', ded)
    {
      if s'.mi > s.mi { assert ahead[1..] == mempool.byScore[s.mi + 1..]; }
    }

    /** Add the candidate's package or turn it down; give up when close to full
        (src/miner.cpp:392-444). */
    method AddOrTurnDown(s: Search, ghost ded: Links, t: TxId, usingModified: bool, e: ModifiedEntry,
                         ghost gone: set<TxId>)
      returns (s': Search, ghost ded': Links, stop: bool)
      requires Valid() && SearchFits(s, ded) && t in anc && t !in inBlock
      requires usingModified ==> t in s.mod
      requires !usingModified ==> s.mi < |mempool.byScore| && mempool.byScore[s.mi] == t
      requires JudgedBy(mempool, anc, B(), s.failed, t, e, gone)
      requires e.size >= Sum(anc[t] + {t} - inBlock, mempool.Size)
      requires e.sigOps >= Sum(anc[t] + {t} - inBlock, mempool.SigOps)
      modifies this
      ensures Valid() && SearchFits(s', ded') && old(entries) <= entries && Progress(s, s')
      ensures blockWeight == old(blockWeight) || blockWeight < blockMaxWeight
      ensures blockSigOpsCost == old(blockSigOpsCost) || blockSigOpsCost < MAX_BLOCK_SIGOPS_COST
      ensures old(TestPackage(e.size, e.sigOps)) && TestPackageTransactions(anc[t] + {t} - old(inBlock)) <==>
        t in inBlock
      ensures stop ==> blockWeight > blockMaxWeight - 4000
    {
      ghost var ahead := mempool.byScore[s.mi..];
      var outcome, mod;
      outcome, mod, ded' := TryPackage(t, e, gone, s.mod, ded, s.failed, ahead);
      if outcome == Added {
        s' := Search(if usingModified then s.mi else s.mi + 1, mod, s.failed, 0, s.selected + 1);
        FitsAfterAdd(s, s', ded', ahead, t);
        stop := false;
        assert t in inBlock && t !in old(inBlock);
        EntriesInPool();
      } else {
        s', ded', stop := TurnDownOrStop(s, ded, t, usingModified, outcome == DoesNotFit);
      }
    }

    /** Evaluate the best candidate left (src/miner.cpp:348-444). The loop stops only when it pays too
        little, or close to a full block. */
    method EvaluateNext(s: Search, ghost ded: Links) returns (s': Search, ghost ded': Links, stop: bool)
      requires Valid() && SearchFits(s, ded) && (s.mi < |mempool.byScore| || s.mod != map[])
      requires s.mi < |mempool.byScore| ==>
        mempool.byScore[s.mi] !in s.mod && mempool.byScore[s.mi] !in inBlock && mempool.byScore[s.mi] !in s.failed
      modifies this
      ensures Valid() && SearchFits(s', ded') && old(entries) <= entries
      ensures blockWeight == old(blockWeight) || blockWeight < blockMaxWeight
      ensures blockSigOpsCost == old(blockSigOpsCost) || blockSigOpsCost < MAX_BLOCK_SIGOPS_COST
      ensures if stop then MayStop(s'.failed) else Progress(s, s')
    {
      var t, usingModified, e := ChooseCandidate(s.mod, ded, s.failed, s.mi);
      ghost var gone := if usingModified then ded[t] else {};
      if e.modFees < FeeFor(blockMinFeeRate, e.size) {
        forall x | x in anc && x !in inBlock && x != t ensures StaysOut(s.failed, x) || Outranked(s.failed, t, e, x) {
          BestLeft(s, ded, t, e, x);
        }
        assert TooCheap(s.failed, t, e, gone);
        s', ded', stop := s, ded, true;
      } else {
        s', ded', stop := AddOrTurnDown(s, ded, t, usingModified, e, gone);
      }
    }

    /** One round of the loop: pass a stale index entry, or evaluate a candidate. */
    method SelectNext(s: Search, ghost ded: Links) returns (s': Search, ghost ded': Links, stop: bool)
      requires Valid() && SearchFits(s, ded) && (s.mi < |mempool.byScore| || s.mod != map[])
      modifies this
      ensures Valid() && SearchFits(s', ded') && old(entries) <= entries
      ensures blockWeight == old(blockWeight) || blockWeight < blockMaxWeight
      ensures blockSigOpsCost == old(blockSigOpsCost) || blockSigOpsCost < MAX_BLOCK_SIGOPS_COST
      ensures if stop then MayStop(s'.failed) else Progress(s, s')
    {
      if s.mi < |mempool.byScore| {
        s' := SkipMapTxEntry(s, ded);
        ded', stop := ded, false;
        if s'.mi != s.mi { return; }
      }
      s', ded', stop := EvaluateNext(s, ded);
    }

    /** addPackageTxs. `exhausted` says that the loop ran until nothing was left to consider, and
        `failed` holds the transactions that were turned down from the side table. */
    method AddPackageTxs() returns (packagesSelected: nat, ghost exhausted: bool, ghost failed: set<TxId>)
      requires Valid()
      modifies this
      ensures Valid() && old(entries) <= entries
      ensures blockWeight == old(blockWeight) || blockWeight < blockMaxWeight
      ensures blockSigOpsCost == old(blockSigOpsCost) || blockSigOpsCost < MAX_BLOCK_SIGOPS_COST
      ensures exhausted ==> forall t :: t in mempool.mapTx && t !in inBlock ==> StaysOut(failed, t)
      ensures exhausted ==> forall t :: t in mempool.mapTx && t !in inBlock && NoSlackAbove(t) ==> IsFull(t)
      ensures !exhausted ==> MayStop(failed)
    {
      var stop := false;
      var mod: ModifiedTxs;
      ghost var ded: Links;
      mod, ded := InitialTable();
      var s := Search(0, mod, {}, 0, 0);
      while !stop && (s.mi < |mempool.byScore| || s.mod != map[])
        invariant Valid() && SearchFits(s, ded) && old(entries) <= entries
        invariant blockWeight == old(blockWeight) || blockWeight < blockMaxWeight
        invariant blockSigOpsCost == old(blockSigOpsCost) || blockSigOpsCost < MAX_BLOCK_SIGOPS_COST
        invariant stop ==> MayStop(s.failed)
        decreases !stop, mempool.mapTx.Keys - inBlock, |mempool.byScore| - s.mi, s.mod.Keys
      {
        s, ded, stop := SelectNext(s, ded);
      }
      packagesSelected, failed := s.selected, s.failed;
      exhausted := s.mi == |mempool.byScore| && s.mod == map[];
      if exhausted {
        NothingLeft(s, ded);
        forall t | t in mempool.mapTx && t !in inBlock && NoSlackAbove(t) ensures IsFull(t) {
          RuledOutWithoutSlack(mempool, anc, B(), failed, t);
        }
      }
    }

    /** src/miner.cpp:329: the side table for whatever is already in the block. */
    method InitialTable() returns (mod: ModifiedTxs, ghost ded: Links)
      requires Valid()
      ensures TableCurrent(mempool, anc, inBlock, {}, mod, ded)
      ensures AllConsidered({}, mod, mempool.byScore[0..])
    {
      AncestorsFirstIsClosed(anc, entries);
      mod, ded := UpdatePackagesForAdded(mempool, anc, inBlock, map[], map[]);
      forall t | t in mod ensures t !in inBlock && ded[t] == anc[t] * inBlock {}
      assert mempool.byScore[0..] == mempool.byScore;
    }
  }
}
