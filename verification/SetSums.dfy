/** Sums of natural-number attributes over finite sets, shared by the block assembler
    and the coin caches. */
module SetSums {

  ghost function Sum<T>(s: set<T>, f: T -> nat): nat
  {
    if s == {} then 0 else var x :| x in s; f(x) + Sum(s - {x}, f)
  }

  /** The choice made by Sum does not matter: any element can be split off. */
  lemma {:induction false} SumSplit<T>(s: set<T>, f: T -> nat, x: T)
    requires x in s
    ensures Sum(s, f) == f(x) + Sum(s - {x}, f)
    decreases s
  {
    var y :| y in s && Sum(s, f) == f(y) + Sum(s - {y}, f);
    if y != x {
      SumSplit(s - {y}, f, x);
      SumSplit(s - {x}, f, y);
      assert s - {y} - {x} == s - {x} - {y};
    }
  }

  lemma SumAdd<T>(s: set<T>, f: T -> nat, x: T)
    requires x !in s
    ensures Sum(s + {x}, f) == f(x) + Sum(s, f)
  {
    SumSplit(s + {x}, f, x);
    assert s + {x} - {x} == s;
  }

  lemma {:induction false} SumDisjoint<T>(a: set<T>, b: set<T>, f: T -> nat)
    requires a !! b
    ensures Sum(a + b, f) == Sum(a, f) + Sum(b, f)
    decreases a
  {
    if a == {} {
      assert a + b == b;
    } else {
      var x :| x in a;
      SumSplit(a, f, x);
      SumSplit(a + b, f, x);
      assert a + b - {x} == (a - {x}) + b;
      SumDisjoint(a - {x}, b, f);
    }
  }

  lemma SumSubset<T>(a: set<T>, b: set<T>, f: T -> nat)
    requires a <= b
    ensures Sum(b, f) == Sum(a, f) + Sum(b - a, f)
  {
    assert a + (b - a) == b;
    SumDisjoint(a, b - a, f);
  }

  /** A pointwise bound with a constant factor carries over to the sums. */
  lemma {:induction false} SumBound<T>(s: set<T>, f: T -> nat, g: T -> nat, k: nat)
    requires forall x :: x in s ==> f(x) <= k * g(x)
    ensures Sum(s, f) <= k * Sum(s, g)
    decreases s
  {
    if s == {} {
    } else {
      var x :| x in s;
      SumSplit(s, f, x);
      SumSplit(s, g, x);
      SumBound(s - {x}, f, g, k);
      calc {
        Sum(s, f);
        f(x) + Sum(s - {x}, f);
      <= k * g(x) + k * Sum(s - {x}, g);
        k * (g(x) + Sum(s - {x}, g));
      }
    }
  }

  lemma {:induction false} SumSame<T>(s: set<T>, f: T -> nat, g: T -> nat)
    requires forall x :: x in s ==> f(x) == g(x)
    ensures Sum(s, f) == Sum(s, g)
    decreases s
  {
    if s == {} {
    } else {
      var x :| x in s;
      SumSplit(s, f, x);
      SumSplit(s, g, x);
      SumSame(s - {x}, f, g);
    }
  }

  lemma {:induction false} SumZero<T>(s: set<T>, f: T -> nat)
    requires forall x :: x in s ==> f(x) == 0
    ensures Sum(s, f) == 0
    decreases s
  {
    if s == {} {
    } else {
      var x :| x in s;
      SumSplit(s, f, x);
      SumZero(s - {x}, f);
    }
  }

  ghost function SumInt<T>(s: set<T>, f: T -> int): int
  {
    if s == {} then 0 else var x :| x in s; f(x) + SumInt(s - {x}, f)
  }

  lemma {:induction false} SumIntSplit<T>(s: set<T>, f: T -> int, x: T)
    requires x in s
    ensures SumInt(s, f) == f(x) + SumInt(s - {x}, f)
    decreases s
  {
    var y :| y in s && SumInt(s, f) == f(y) + SumInt(s - {y}, f);
    if y != x {
      SumIntSplit(s - {y}, f, x);
      SumIntSplit(s - {x}, f, y);
      assert s - {y} - {x} == s - {x} - {y};
    }
  }

  lemma {:induction false} SumIntSubset<T>(a: set<T>, b: set<T>, f: T -> int)
    requires a <= b
    ensures SumInt(b, f) == SumInt(a, f) + SumInt(b - a, f)
    decreases a
  {
    if a == {} {
      assert b - a == b;
    } else {
      var x :| x in a;
      SumIntSplit(a, f, x);
      SumIntSplit(b, f, x);
      assert (b - {x}) - (a - {x}) == b - a;
      SumIntSubset(a - {x}, b - {x}, f);
    }
  }

  lemma {:induction false} SumIntConstant<T>(s: set<T>, f: T -> int, c: int)
    requires forall x :: x in s ==> f(x) == c
    ensures SumInt(s, f) == |s| * c
    decreases s
  {
    if s == {} {
      assert |s| == 0;
    } else {
      var x :| x in s;
      SumIntSplit(s, f, x);
      SumIntConstant(s - {x}, f, c);
      assert |s - {x}| == |s| - 1;
      assert (|s| - 1) * c + c == |s| * c;
    }
  }

  lemma SizeWith<T>(a: set<T>, x: T)
    ensures |a + {x}| == |a| + (if x in a then 0 else 1)
  {
    assert x in a ==> a + {x} == a;
  }

  lemma SizeWithout<T>(a: set<T>, x: T)
    ensures |a - {x}| == |a| - (if x in a then 1 else 0)
  {
    assert x !in a ==> a - {x} == a;
  }

  ghost function Elements<T>(s: seq<T>): set<T> { set x | x in s }

  lemma ElementsAppend<T>(s: seq<T>, x: T)
    ensures Elements(s + [x]) == Elements(s) + {x}
  {
    assert (s + [x])[|s|] == x;
    forall y | y in s ensures y in s + [x] {}
  }

  lemma {:induction false} ElementsSize<T>(s: seq<T>)
    ensures |Elements(s)| <= |s|
  {
    if s == [] {
    } else {
      var n := |s| - 1;
      ElementsSize(s[..n]);
      assert s == s[..n] + [s[n]];
      ElementsAppend(s[..n], s[n]);
    }
  }

  ghost function Below(n: nat): (r: set<int>)
    ensures |r| == n && forall i :: i in r <==> 0 <= i < n
  {
    if n == 0 then {} else Below(n - 1) + {n - 1}
  }

  lemma {:induction false} FullSubset<T>(a: set<T>, b: set<T>)
    requires a <= b && |a| == |b|
    ensures a == b
    decreases b
  {
    if b == {} {
    } else {
      var x :| x in b;
      if x in a {
        FullSubset(a - {x}, b - {x});
        assert b == (b - {x}) + {x} && a == (a - {x}) + {x};
      } else {
        SubsetSize(a, b - {x});
      }
    }
  }

  lemma {:induction false} SubsetSize<T>(a: set<T>, b: set<T>)
    requires a <= b
    ensures |a| <= |b|
    decreases b
  {
    if a == {} {
    } else {
      var x :| x in a;
      SubsetSize(a - {x}, b - {x});
    }
  }
}
