/** The transaction pool as the block assembler sees it: a finite graph of parent links
    with cached ancestor totals, and the two graph walks of txmempool.cpp. */
module Mempool {
  import Arithmetic
  import opened SetSums

  type TxId = nat

  const WITNESS_SCALE_FACTOR := 4

  /** One pool entry. `isFinal` is the outcome of the lock-time test at the height and cutoff
      of the block being assembled; the `...WithAncestors` fields are cached by the pool. */
  datatype Entry = Entry(
    weight: nat, sigOpCost: nat, fee: nat, feeDelta: int,
    isFinal: bool, hasWitness: bool,
    countWithAncestors: nat, sizeWithAncestors: nat,
    sigOpCostWithAncestors: nat, modFeesWithAncestors: int)
  {
    function ModifiedFee(): int { fee + feeDelta }
  }

  datatype Pool = Pool(
    mapTx: map<TxId, Entry>,
    parents: map<TxId, set<TxId>>,
    children: map<TxId, set<TxId>>,
    byScore: seq<TxId>,
    bytesPerSigOp: nat)
  {
    /** Virtual size: weight or sigop cost, whichever is larger, in vbytes rounded up. */
    function Size(t: TxId): nat {
      if t in mapTx then
        (Arithmetic.Max(mapTx[t].weight, mapTx[t].sigOpCost * bytesPerSigOp)
         + WITNESS_SCALE_FACTOR - 1) / WITNESS_SCALE_FACTOR
      else 0
    }
    function Weight(t: TxId): nat { if t in mapTx then mapTx[t].weight else 0 }
    /** By how much four times the virtual size exceeds the weight. */
    function Slack(t: TxId): nat { WITNESS_SCALE_FACTOR * Size(t) - Weight(t) }
    function SigOps(t: TxId): nat { if t in mapTx then mapTx[t].sigOpCost else 0 }
    function Fee(t: TxId): nat { if t in mapTx then mapTx[t].fee else 0 }
    function FeeDelta(t: TxId): int { if t in mapTx then mapTx[t].feeDelta else 0 }

    ghost predicate WellLinked() {
      && parents.Keys == mapTx.Keys
      && children.Keys == mapTx.Keys
      && (forall t {:trigger parents[t]} :: t in mapTx ==> parents[t] <= mapTx.Keys)
      && (forall t {:trigger children[t]} :: t in mapTx ==> children[t] <= mapTx.Keys)
      && (forall t, p {:trigger p in parents[t]} {:trigger t in children[p]} ::
            t in mapTx && p in mapTx ==> (p in parents[t] <==> t in children[p]))
    }

    ghost predicate ParentOf(p: TxId, t: TxId) { t in parents && p in parents[t] }

    /** a is reached from t by following exactly n parent links. */
    ghost predicate Reaches(a: TxId, t: TxId, n: nat)
      decreases n
    {
      if n == 0 then a == t else exists b :: ParentOf(b, t) && Reaches(a, b, n - 1)
    }

    ghost predicate AncestorOf(a: TxId, t: TxId) { exists n :: n > 0 && Reaches(a, t, n) }

    ghost function Ancestors(t: TxId): set<TxId> { set a | a in mapTx && AncestorOf(a, t) }

    ghost predicate Acyclic() { forall t {:trigger AncestorOf(t, t)} :: t in mapTx ==> !AncestorOf(t, t) }

    /** The ancestor package of t: t together with everything it depends on. */
    ghost function Package(t: TxId): set<TxId> { Ancestors(t) + {t} }

    ghost predicate CachedTotals(t: TxId)
      requires t in mapTx
    {
      && mapTx[t].countWithAncestors == |Package(t)|
      && mapTx[t].sizeWithAncestors == Sum(Package(t), Size)
      && mapTx[t].sigOpCostWithAncestors == Sum(Package(t), SigOps)
      && mapTx[t].modFeesWithAncestors == Sum(Package(t), Fee) + SumInt(Package(t), FeeDelta)
    }

    /** anc lists the ancestors of every entry. */
    ghost predicate IsClosure(anc: map<TxId, set<TxId>>) {
      anc.Keys == mapTx.Keys && forall t {:trigger Ancestors(t)} :: t in mapTx ==> anc[t] == Ancestors(t)
    }

    /** What CTxMemPool keeps: symmetric links, no cycles, exact cached totals, and a score
        index that lists every entry. */
    ghost predicate Valid() {
      && WellLinked()
      && Acyclic()
      && (forall t {:trigger CachedTotals(t)} :: t in mapTx ==> CachedTotals(t))
      && (forall t {:trigger mapTx[t].weight} :: t in mapTx ==> mapTx[t].weight > 0)
      && (forall t :: t in mapTx <==> t in byScore)
    }
  }

  /** Four times the virtual size never falls below the weight. */
  lemma WeightWithinSize(m: Pool, t: TxId)
    ensures m.Weight(t) <= WITNESS_SCALE_FACTOR * m.Size(t)
    ensures t in m.mapTx && m.mapTx[t].weight > 0 ==> m.Size(t) > 0
  {
  }

  lemma ParentIsAncestor(m: Pool, p: TxId, t: TxId)
    requires m.ParentOf(p, t)
    ensures m.AncestorOf(p, t)
  {
    assert m.Reaches(p, p, 0);
    assert m.Reaches(p, t, 1);
  }

  lemma {:induction false} ReachesAppend(m: Pool, a: TxId, b: TxId, c: TxId, i: nat, j: nat)
    requires m.Reaches(a, b, i) && m.Reaches(b, c, j)
    ensures m.Reaches(a, c, i + j)
    decreases j
  {
    if j == 0 {
    } else {
      var d :| m.ParentOf(d, c) && m.Reaches(b, d, j - 1);
      ReachesAppend(m, a, b, d, i, j - 1);
    }
  }

  lemma AncestorTransitive(m: Pool, a: TxId, b: TxId, c: TxId)
    requires m.AncestorOf(a, b) && m.AncestorOf(b, c)
    ensures m.AncestorOf(a, c)
  {
    var i :| i > 0 && m.Reaches(a, b, i);
    var j :| j > 0 && m.Reaches(b, c, j);
    ReachesAppend(m, a, b, c, i, j);
  }

  /** A set that holds t's parents and is closed under parents holds every ancestor of t. */
  lemma {:induction false} ClosedHoldsAncestors(m: Pool, s: set<TxId>, a: TxId, t: TxId, n: nat)
    requires n > 0 && m.Reaches(a, t, n)
    requires forall p :: m.ParentOf(p, t) ==> p in s
    requires forall x, p :: x in s && m.ParentOf(p, x) ==> p in s
    ensures a in s
    decreases n
  {
    var b :| m.ParentOf(b, t) && m.Reaches(a, b, n - 1);
    if n > 1 { ClosedHoldsAncestors(m, s, a, b, n - 1); }
  }

  /** A set that holds t and is closed under children holds every descendant of t. */
  lemma {:induction false} ClosedHoldsDescendants(m: Pool, s: set<TxId>, t: TxId, d: TxId, n: nat)
    requires m.Reaches(t, d, n) && t in s
    requires forall x, c :: x in s && m.ParentOf(x, c) ==> c in s
    ensures d in s
    decreases n
  {
    if n == 0 {
    } else {
      var b :| m.ParentOf(b, d) && m.Reaches(t, b, n - 1);
      ClosedHoldsDescendants(m, s, t, b, n - 1);
    }
  }

  /** The walk of CalculateMemPoolAncestors with no limits, for an entry already in the pool. */
  method CalculateMemPoolAncestors(m: Pool, t: TxId) returns (setAncestors: set<TxId>)
    requires m.WellLinked() && t in m.mapTx
    ensures setAncestors == m.Ancestors(t)
  {
    setAncestors := {};
    var parentHashes := m.parents[t];
    forall p | p in parentHashes ensures p in m.Ancestors(t) { ParentIsAncestor(m, p, t); }
    while parentHashes != {}
      invariant setAncestors + parentHashes <= m.Ancestors(t)
      invariant setAncestors !! parentHashes
      invariant m.parents[t] <= setAncestors + parentHashes
      invariant forall a :: a in setAncestors ==> m.parents[a] <= setAncestors + parentHashes
      decreases m.mapTx.Keys - setAncestors
    {
      var stage :| stage in parentHashes;
      setAncestors := setAncestors + {stage};
      parentHashes := parentHashes - {stage};
      forall p | p in m.parents[stage] ensures p in m.Ancestors(t) {
        ParentIsAncestor(m, p, stage);
        AncestorTransitive(m, p, stage, t);
      }
      parentHashes := parentHashes + (m.parents[stage] - setAncestors);
    }
    forall a | a in m.Ancestors(t) ensures a in setAncestors {
      var n :| n > 0 && m.Reaches(a, t, n);
      ClosedHoldsAncestors(m, setAncestors, a, t, n);
    }
  }

  /** The walk of CalculateDescendants from an empty result: the entry and all that depend on it. */
  method CalculateDescendants(m: Pool, t: TxId) returns (setDescendants: set<TxId>)
    requires m.WellLinked() && t in m.mapTx
    ensures setDescendants == set d | d in m.mapTx && t in m.Package(d)
  {
    setDescendants := {};
    var stage := {t};
    ghost var target := set d | d in m.mapTx && t in m.Package(d);
    while stage != {}
      invariant setDescendants + stage <= target
      invariant setDescendants !! stage
      invariant t in setDescendants + stage
      invariant forall d :: d in setDescendants ==> m.children[d] <= setDescendants + stage
      decreases m.mapTx.Keys - setDescendants
    {
      var it :| it in stage;
      setDescendants := setDescendants + {it};
      stage := stage - {it};
      forall c | c in m.children[it] ensures c in target {
        ParentIsAncestor(m, it, c);
        if it != t { AncestorTransitive(m, t, it, c); }
      }
      stage := stage + (m.children[it] - setDescendants);
    }
    forall d | d in target ensures d in setDescendants {
      if d != t {
        var n :| n > 0 && m.Reaches(t, d, n);
        ClosedHoldsDescendants(m, setDescendants, t, d, n);
      }
    }
  }

  lemma AncestorsNest(m: Pool, a: TxId, t: TxId)
    requires m.AncestorOf(a, t)
    ensures m.Ancestors(a) <= m.Ancestors(t)
  {
    forall x | x in m.Ancestors(a) ensures x in m.Ancestors(t) { AncestorTransitive(m, x, a, t); }
  }

  /** An ancestor's own package is a proper part of the package, so its ancestor count is smaller:
      the fact that makes sorting by ancestor count a valid block order. */
  lemma AncestorPackageSmaller(m: Pool, a: TxId, t: TxId)
    requires m.Acyclic() && t in m.mapTx && a in m.Ancestors(t)
    ensures m.Package(a) <= m.Ancestors(t)
    ensures |m.Package(a)| < |m.Package(t)|
  {
    AncestorsNest(m, a, t);
    SubsetSize(m.Package(a), m.Ancestors(t));
  }

  /** What the assembler uses of a valid pool: ancestry is a strict partial order that the ancestor
      counts respect, and the cached totals of t are those of its package anc[t] + {t}. */
  ghost predicate Graded(m: Pool, anc: map<TxId, set<TxId>>) {
    anc.Keys == m.mapTx.Keys && StrictOrder(anc) && CountsGrow(m, anc) && TotalsExact(m, anc)
  }

  ghost predicate StrictOrder(anc: map<TxId, set<TxId>>) {
    forall t {:trigger anc[t]} :: t in anc ==> anc[t] <= anc.Keys && t !in anc[t]
  }

  ghost predicate CountsGrow(m: Pool, anc: map<TxId, set<TxId>>)
    requires anc.Keys == m.mapTx.Keys && StrictOrder(anc)
  {
    forall a, t {:trigger a in anc[t]} :: t in anc && a in anc[t] ==>
      anc[a] <= anc[t] && m.mapTx[a].countWithAncestors < m.mapTx[t].countWithAncestors
  }

  ghost predicate TotalsExact(m: Pool, anc: map<TxId, set<TxId>>)
    requires anc.Keys == m.mapTx.Keys
  {
    forall t {:trigger TotalsOf(m, anc, t)} :: t in anc ==> TotalsOf(m, anc, t)
  }

  ghost predicate TotalsOf(m: Pool, anc: map<TxId, set<TxId>>, t: TxId)
    requires t in m.mapTx && t in anc
  {
    && m.mapTx[t].sizeWithAncestors == Sum(anc[t] + {t}, m.Size)
    && m.mapTx[t].sigOpCostWithAncestors == Sum(anc[t] + {t}, m.SigOps)
    && m.mapTx[t].modFeesWithAncestors == Sum(anc[t] + {t}, m.Fee) + SumInt(anc[t] + {t}, m.FeeDelta)
    && m.Size(t) > 0
  }

  ghost function Closure(m: Pool): map<TxId, set<TxId>> { map t | t in m.mapTx :: m.Ancestors(t) }

  lemma ClosureStrict(m: Pool)
    requires m.Acyclic()
    ensures StrictOrder(Closure(m))
  {
    forall t | t in m.mapTx ensures t !in m.Ancestors(t) { assert !m.AncestorOf(t, t); }
  }

  lemma ClosureCounts(m: Pool)
    requires m.Valid() && StrictOrder(Closure(m))
    ensures CountsGrow(m, Closure(m))
  {
    var anc := Closure(m);
    forall t, a | t in anc && a in anc[t]
      ensures anc[a] <= anc[t] && m.mapTx[a].countWithAncestors < m.mapTx[t].countWithAncestors
    {
      AncestorPackageSmaller(m, a, t);
      assert m.CachedTotals(a) && m.CachedTotals(t);
    }
  }

  lemma ClosureTotals(m: Pool)
    requires m.Valid()
    ensures TotalsExact(m, Closure(m))
  {
    forall t | t in m.mapTx ensures TotalsOf(m, Closure(m), t) {
      assert m.CachedTotals(t);
      WeightWithinSize(m, t);
    }
  }

  /** Every valid pool is graded by its ancestor closure. */
  lemma ValidPoolIsGraded(m: Pool)
    requires m.Valid()
    ensures m.IsClosure(Closure(m)) && Graded(m, Closure(m))
  {
    ClosureStrict(m);
    ClosureCounts(m);
    ClosureTotals(m);
  }
}
