/** Two things the block assembler gets wrong on a pool of three transactions: a transaction that was
    turned down once can stay out although what is left of its package fits, and the package fee of a
    transaction with two prioritised ancestors in the block is off. */
module BlockAssemblerCases {
  import opened SetSums
  import opened Mempool
  import opened BlockAssembler

  const HEAVY: TxId := 1
  const COSTLY: TxId := 2
  const CHILD: TxId := 3

  /** A heavy parent, a parent whose many sigops make its virtual size exceed its weight, and a child
      of both that pays well. */
  function Case(): Pool {
    Pool(map[HEAVY := Entry(40000, 0, 1000000, 10, true, false, 1, 10000, 0, 1000010),
             COSTLY := Entry(400, 600, 3000, 20, true, false, 1, 3000, 600, 3020),
             CHILD := Entry(400, 0, 40000, 0, true, false, 3, 13100, 600, 1043030)],
         map[HEAVY := {}, COSTLY := {}, CHILD := {HEAVY, COSTLY}],
         map[HEAVY := {CHILD}, COSTLY := {CHILD}, CHILD := {}],
         [HEAVY, CHILD, COSTLY],
         20)
  }

  lemma CaseSizes()
    ensures Case().Size(HEAVY) == 10000 && Case().Size(COSTLY) == 3000 && Case().Size(CHILD) == 100
  {
  }

  lemma SumOne(f: TxId -> nat, a: TxId)
    ensures Sum({a}, f) == f(a)
  {
    SumSplit({a}, f, a);
    assert {a} - {a} == {};
  }

  lemma SumTwo(f: TxId -> nat, a: TxId, b: TxId)
    requires a != b
    ensures Sum({a, b}, f) == f(a) + f(b)
  {
    SumSplit({a, b}, f, a);
    assert {a, b} - {a} == {b};
    SumOne(f, b);
  }

  lemma SumThree(f: TxId -> nat, a: TxId, b: TxId, c: TxId)
    requires a != b && a != c && b != c
    ensures Sum({a, b, c}, f) == f(a) + f(b) + f(c)
  {
    SumSplit({a, b, c}, f, a);
    assert {a, b, c} - {a} == {b, c};
    SumTwo(f, b, c);
  }

  lemma DeltasOf(f: TxId -> int)
    ensures SumInt({HEAVY}, f) == f(HEAVY) && SumInt({COSTLY}, f) == f(COSTLY) && SumInt({CHILD}, f) == f(CHILD)
    ensures SumInt({HEAVY, COSTLY, CHILD}, f) == f(HEAVY) + f(COSTLY) + f(CHILD)
  {
    SumIntSplit({HEAVY}, f, HEAVY);
    SumIntSplit({COSTLY}, f, COSTLY);
    SumIntSplit({CHILD}, f, CHILD);
    assert {HEAVY} - {HEAVY} == {} && {COSTLY} - {COSTLY} == {} && {CHILD} - {CHILD} == {};
    SumIntSplit({HEAVY, COSTLY, CHILD}, f, HEAVY);
    assert {HEAVY, COSTLY, CHILD} - {HEAVY} == {COSTLY, CHILD};
    SumIntSplit({COSTLY, CHILD}, f, COSTLY);
    assert {COSTLY, CHILD} - {COSTLY} == {CHILD};
  }

  lemma RootReachesItself(a: TxId, t: TxId, n: nat)
    requires t in {HEAVY, COSTLY} && Case().Reaches(a, t, n)
    ensures n == 0 && a == t
  {
  }

  lemma CaseAncestorOf(a: TxId, t: TxId)
    ensures Case().AncestorOf(a, t) <==> t == CHILD && a in {HEAVY, COSTLY}
  {
    var m := Case();
    if m.AncestorOf(a, t) {
      var n :| n > 0 && m.Reaches(a, t, n);
      var b :| m.ParentOf(b, t) && m.Reaches(a, b, n - 1);
      RootReachesItself(a, b, n - 1);
    }
    if t == CHILD && a in {HEAVY, COSTLY} { ParentIsAncestor(m, a, t); }
  }

  lemma CaseAncestors()
    ensures Case().Ancestors(HEAVY) == {} && Case().Ancestors(COSTLY) == {}
    ensures Case().Ancestors(CHILD) == {HEAVY, COSTLY}
  {
    forall a, t ensures Case().AncestorOf(a, t) <==> t == CHILD && a in {HEAVY, COSTLY} {
      CaseAncestorOf(a, t);
    }
  }

  lemma RootTotals(t: TxId)
    requires t in {HEAVY, COSTLY}
    ensures Case().CachedTotals(t)
  {
    var m := Case();
    CaseAncestors();
    CaseSizes();
    assert m.Package(t) == {t};
    SumOne(m.Size, t);
    SumOne(m.SigOps, t);
    SumOne(m.Fee, t);
    DeltasOf(m.FeeDelta);
  }

  lemma ChildTotals()
    ensures Case().CachedTotals(CHILD)
  {
    var m := Case();
    CaseAncestors();
    CaseSizes();
    assert m.Package(CHILD) == {HEAVY, COSTLY, CHILD};
    SumThree(m.Size, HEAVY, COSTLY, CHILD);
    SumThree(m.SigOps, HEAVY, COSTLY, CHILD);
    SumThree(m.Fee, HEAVY, COSTLY, CHILD);
    DeltasOf(m.FeeDelta);
  }

  lemma CaseLinked()
    ensures Case().WellLinked()
  {
  }

  lemma CaseSorted()
    ensures SortedByScore(Case())
  {
    var m := Case();
    CaseSizes();
    assert RankFeeAndSize(m, HEAVY, PoolTotals(m.mapTx[HEAVY])) == (1000010, 10000);
    assert RankFeeAndSize(m, CHILD, PoolTotals(m.mapTx[CHILD])) == (1043030, 13100);
    assert RankFeeAndSize(m, COSTLY, PoolTotals(m.mapTx[COSTLY])) == (3020, 3000);
  }

  lemma CaseTotals(m: Pool)
    requires m == Case()
    ensures forall t {:trigger m.CachedTotals(t)} :: t in m.mapTx ==> m.CachedTotals(t)
  {
    forall t | t in m.mapTx ensures m.CachedTotals(t) {
      if t == CHILD { ChildTotals(); } else { RootTotals(t); }
    }
  }

  lemma CaseAcyclic(m: Pool)
    requires m == Case()
    ensures m.Acyclic() && (forall t :: t in m.mapTx <==> t in m.byScore)
    ensures forall t :: t in m.mapTx ==> m.mapTx[t].weight > 0
  {
    forall t | t in m.mapTx ensures !m.AncestorOf(t, t) {
      CaseAncestorOf(t, t);
    }
    assert m.byScore[0] == HEAVY && m.byScore[1] == CHILD && m.byScore[2] == COSTLY;
  }

  lemma CaseValid(m: Pool)
    requires m == Case()
    ensures m.Valid() && SortedByScore(m)
  {
    CaseLinked();
    CaseSorted();
    CaseTotals(m);
    CaseAcyclic(m);
  }

  // ----- a run that leaves out a transaction that fits ------------------------------------------

  const LIMIT := 56200
  const MIN_RATE := 1000

  ghost function CaseLinks(): Links { map[HEAVY := {}, COSTLY := {}, CHILD := {HEAVY, COSTLY}] }

  lemma LinksKnown(anc: Links)
    requires Case().IsClosure(anc)
    ensures anc == CaseLinks()
  {
    CaseAncestors();
    var m := Case();
    assert anc[HEAVY] == m.Ancestors(HEAVY) && anc[COSTLY] == m.Ancestors(COSTLY) && anc[CHILD] == m.Ancestors(CHILD);
  }

  /** The child's entry without one of its parents. */
  lemma ChildEntry(m: Pool, e: ModifiedEntry, parent: TxId)
    requires m == Case() && TracksEntry(m, CaseLinks(), CHILD, e, {parent}) && parent in {HEAVY, COSTLY}
    ensures parent == HEAVY ==> e == ModifiedEntry(3100, 43020, 600)
    ensures parent == COSTLY ==> e == ModifiedEntry(10100, 1040010, 0)
  {
    var first :| first in {parent} && FeesLess(m, CHILD, e, {parent}, first);
    CaseSizes();
    SumOne(m.Size, parent);
    SumOne(m.SigOps, parent);
    SumOne(m.Fee, parent);
  }

  /** Adding a parent puts the child into a table that did not hold it. */
  lemma ChildReenters(m: Pool, parent: TxId, mod: ModifiedTxs, ded: Links)
    requires m == Case() && parent in {HEAVY, COSTLY}
    requires TableDone(m, CaseLinks(), {parent}, {parent}, map[], map[], mod, ded)
    ensures mod.Keys == {CHILD} && TracksEntry(m, CaseLinks(), CHILD, mod[CHILD], {parent})
  {
    var anc := CaseLinks();
    assert CHILD in Stale(anc, {parent}, {parent});
    assert anc[HEAVY] == {} && anc[COSTLY] == {};
    assert Stale(anc, {parent}, {parent}) == {CHILD};
    assert ded[CHILD] == Deducted(map[], CHILD) + anc[CHILD] * {parent};
    assert ded[CHILD] == {parent};
    assert TracksEntry(m, anc, CHILD, mod[CHILD], ded[CHILD]);
  }

  /** The block after each addition, with the true totals of what is in it. */
  ghost predicate IsBody(m: Pool, b: Body, included: set<TxId>) {
    && b.segwit && b.maxWeight == LIMIT && b.inBlock == included
    && b.weight == COINBASE_WEIGHT + Sum(included, m.Weight) && b.sigOps == COINBASE_SIGOPS + Sum(included, m.SigOps)
  }

  lemma Bodies(m: Pool, b: Body, included: set<TxId>)
    requires m == Case() && IsBody(m, b, included)
    ensures included == {} ==> b.weight == 4000 && b.sigOps == 400
    ensures included == {HEAVY} ==> b.weight == 44000 && b.sigOps == 400
    ensures included == {HEAVY, COSTLY} ==> b.weight == 44400 && b.sigOps == 1000
  {
    SumOne(m.Weight, HEAVY);
    SumOne(m.SigOps, HEAVY);
    SumTwo(m.Weight, HEAVY, COSTLY);
    SumTwo(m.SigOps, HEAVY, COSTLY);
  }

  /** The heavy parent leads, fits and is added. The child, now in the side table, outranks the other
      parent and does not fit together with it: it is erased and noted as failed. The other parent fits
      and is added. */
  lemma ChildIsTurnedDown(m: Pool, anc: Links, b0: Body, b1: Body, mod1: ModifiedTxs, ded1: Links)
    requires m == Case() && m.IsClosure(anc) && IsBody(m, b0, {}) && IsBody(m, b1, {HEAVY})
    requires TableDone(m, anc, {HEAVY}, {HEAVY}, map[], map[], mod1, ded1)
    ensures m.byScore == [HEAVY, CHILD, COSTLY] && (forall t :: t in m.mapTx ==> Eligible(m, true, t))
    ensures Accepted(b0, PoolTotals(m.mapTx[HEAVY]))
    ensures mod1.Keys == {CHILD} && RanksBefore(m, CHILD, mod1[CHILD], COSTLY, PoolTotals(m.mapTx[COSTLY]))
    ensures PaysEnough(mod1[CHILD]) && !b1.Fits(mod1[CHILD].size, mod1[CHILD].sigOps)
    ensures Accepted(b1, PoolTotals(m.mapTx[COSTLY]))
  {
    CaseSizes();
    LinksKnown(anc);
    Bodies(m, b0, {});
    Bodies(m, b1, {HEAVY});
    ChildReenters(m, HEAVY, mod1, ded1);
    ChildEntry(m, mod1[CHILD], HEAVY);
  }

  /** Adding the other parent creates the child's entry anew from the pool's totals, with only that
      parent taken out. The child is turned down again and nothing is left to consider, although the
      child alone would fit. */
  lemma TurnedDownThoughItFits(m: Pool, anc: Links, b2: Body, mod1: ModifiedTxs, ded1: Links, mod2: ModifiedTxs,
                               ded2: Links)
    requires m == Case() && m.IsClosure(anc) && IsBody(m, b2, {HEAVY, COSTLY}) && mod1.Keys == ded1.Keys == {CHILD}
    requires TableDone(m, anc, {COSTLY}, {COSTLY}, mod1 - {CHILD}, ded1 - {CHILD}, mod2, ded2)
    ensures mod2.Keys == {CHILD} && PaysEnough(mod2[CHILD]) && !b2.Fits(mod2[CHILD].size, mod2[CHILD].sigOps)
    ensures CHILD in anc && !Full(m, anc, b2, CHILD) && m.Slack(HEAVY) == 0 && m.Slack(COSTLY) > 0
  {
    CaseSizes();
    LinksKnown(anc);
    Bodies(m, b2, {HEAVY, COSTLY});
    assert mod1 - {CHILD} == map[] && ded1 - {CHILD} == map[];
    ChildReenters(m, COSTLY, mod2, ded2);
    ChildEntry(m, mod2[CHILD], COSTLY);
    ChildAlone(m, anc);
  }

  /** The package passes the test on its fee, which comes first. */
  predicate PaysEnough(e: ModifiedEntry) { e.modFees >= FeeFor(MIN_RATE, e.size) }

  /** The package passes the test on its size and sigops too. */
  predicate Accepted(b: Body, e: ModifiedEntry) { PaysEnough(e) && b.Fits(e.size, e.sigOps) }

  lemma ChildAlone(m: Pool, anc: Links)
    requires m == Case() && anc == CaseLinks()
    ensures var rest := anc[CHILD] + {CHILD} - {HEAVY, COSTLY}; Sum(rest, m.Size) == 100 && Sum(rest, m.SigOps) == 0
  {
    assert anc[CHILD] + {CHILD} - {HEAVY, COSTLY} == {CHILD};
    CaseSizes();
    SumOne(m.Size, CHILD);
    SumOne(m.SigOps, CHILD);
  }

  // ----- a wrong package fee --------------------------------------------------------------------

  /** With both prioritised parents deducted one after the other, the child's package fee keeps the
      second parent's fee delta. */
  lemma WrongPackageFee(m: Pool, anc: Links, e1: ModifiedEntry, e2: ModifiedEntry)
    requires m == Case() && m.IsClosure(anc)
    requires OneLess(m, HEAVY, PoolTotals(m.mapTx[CHILD]), e1, true) && OneLess(m, COSTLY, e1, e2, false)
    ensures e2.modFees == m.mapTx[CHILD].ModifiedFee() + m.FeeDelta(COSTLY) && m.FeeDelta(COSTLY) != 0
    ensures CHILD in anc && !FeeRight(m, anc, CHILD, {HEAVY, COSTLY}, e2)
  {
    LinksKnown(anc);
    assert anc[CHILD] + {CHILD} - {HEAVY, COSTLY} == {CHILD};
    SumOne(m.Fee, CHILD);
    DeltasOf(m.FeeDelta);
  }
}
