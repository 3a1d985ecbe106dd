/** The Merkle root of consensus/merkle.cpp, computed level by level in place, and what its mutation
    flag is for: an unmutated list is determined by its root. */
module Merkle {

  /** 256-bit hashes as numbers; 0 is the null hash. */
  type Hash = nat

  const NULL_HASH: Hash := 0

  /** The double-SHA256 of two concatenated hashes; injective where collision freedom is used. */
  type NodeHash = (Hash, Hash) -> Hash

  ghost predicate Injective(H: NodeHash) { forall a, b, c, d :: NoCollision(H, a, b, c, d) }

  predicate NoCollision(H: NodeHash, a: Hash, b: Hash, c: Hash, d: Hash) { H(a, b) == H(c, d) ==> a == c && b == d }

  /** The hash that the 2i-th one is paired with: the last hash of an odd level is paired with itself. */
  function Partner(level: seq<Hash>, i: nat): Hash
    requires 2 * i < |level|
  {
    if 2 * i + 1 < |level| then level[2 * i + 1] else level[2 * i]
  }

  function ParentHash(H: NodeHash, level: seq<Hash>, i: nat): Hash
    requires 2 * i < |level|
  {
    H(level[2 * i], Partner(level, i))
  }

  function LevelAbove(H: NodeHash, level: seq<Hash>): (r: seq<Hash>)
    ensures |r| == (|level| + 1) / 2
    ensures forall i :: 0 <= i < |r| ==> r[i] == ParentHash(H, level, i)
  {
    seq((|level| + 1) / 2, i requires 0 <= i < (|level| + 1) / 2 => ParentHash(H, level, i))
  }

  function Root(H: NodeHash, level: seq<Hash>): Hash
    decreases |level|
  {
    if level == [] then NULL_HASH else if |level| == 1 then level[0] else Root(H, LevelAbove(H, level))
  }

  /** Two hashes that are paired with each other are equal. */
  ghost predicate HasTwins(level: seq<Hash>) {
    exists i :: Twins(level, i)
  }

  predicate Twins(level: seq<Hash>, i: int) { 0 <= i && 2 * i + 1 < |level| && level[2 * i] == level[2 * i + 1] }

  /** Some level on the way to the root has twins. */
  ghost predicate Mutated(H: NodeHash, level: seq<Hash>)
    decreases |level|
  {
    |level| > 1 && (HasTwins(level) || Mutated(H, LevelAbove(H, level)))
  }

  /** ComputeMerkleRoot, overwriting each level with the one above. */
  method ComputeMerkleRoot(H: NodeHash, leaves: seq<Hash>) returns (root: Hash, mutated: bool)
    ensures root == Root(H, leaves)
    ensures mutated <==> Mutated(H, leaves)
  {
    var hashes := leaves;
    mutated := false;
    while |hashes| > 1
      invariant Root(H, leaves) == Root(H, hashes)
      invariant mutated || Mutated(H, hashes) <==> Mutated(H, leaves)
      decreases |hashes|
    {
      var twins := FindTwins(hashes);
      mutated := mutated || twins;
      hashes := ReplaceLevel(H, hashes);
    }
    root := if |hashes| == 0 then NULL_HASH else hashes[0];
  }

  method FindTwins(hashes: seq<Hash>) returns (found: bool)
    ensures found <==> HasTwins(hashes)
  {
    found := false;
    var pos := 0;
    while pos + 1 < |hashes|
      invariant pos >= 0 && pos % 2 == 0
      invariant found <==> exists i :: Twins(hashes, i) && 2 * i < pos
    {
      assert hashes[pos] == hashes[pos + 1] ==> Twins(hashes, pos / 2);
      if hashes[pos] == hashes[pos + 1] { found := true; }
      pos := pos + 2;
    }
  }

  /** Pads an odd level with its last hash, hashes pairs into the front of the list, and cuts it in half. */
  method ReplaceLevel(H: NodeHash, level: seq<Hash>) returns (hashes: seq<Hash>)
    requires |level| > 1
    ensures hashes == LevelAbove(H, level)
  {
    hashes := level;
    if |hashes| % 2 == 1 { hashes := hashes + [hashes[|hashes| - 1]]; }
    ghost var padded := hashes;
    var i := 0;
    while i < |hashes| / 2
      invariant |hashes| == |padded| && i <= |hashes| / 2
      invariant forall k :: 0 <= k < i ==> hashes[k] == H(padded[2 * k], padded[2 * k + 1])
      invariant forall k :: i <= k < |padded| ==> hashes[k] == padded[k]
    {
      hashes := hashes[i := H(hashes[2 * i], hashes[2 * i + 1])];
      i := i + 1;
    }
    hashes := hashes[..|hashes| / 2];
  }

  // ----- an unmutated list is determined by its root --------------------------------------------

  /** No transaction id is itself the hash of a pair. */
  ghost predicate Leaves(H: NodeHash, level: seq<Hash>) {
    forall i, a, b {:trigger level[i], H(a, b)} :: 0 <= i < |level| ==> level[i] != H(a, b)
  }

  /** x is a leaf hash combined k times: it has a preimage, along left edges, exactly k times. */
  ghost predicate Depth(H: NodeHash, x: Hash, k: nat)
    decreases k
  {
    if k == 0 then forall a, b :: x != H(a, b)
    else exists a, b :: x == H(a, b) && Depth(H, a, k - 1)
  }

  lemma {:induction false} DepthUnique(H: NodeHash, x: Hash, j: nat, k: nat)
    requires Injective(H) && Depth(H, x, j) && Depth(H, x, k)
    ensures j == k
    decreases j
  {
    if j > 0 && k > 0 {
      var a, b :| x == H(a, b) && Depth(H, a, j - 1);
      var c, d :| x == H(c, d) && Depth(H, c, k - 1);
      assert NoCollision(H, a, b, c, d);
      DepthUnique(H, a, j - 1, k - 1);
    }
  }

  ghost predicate AllDepth(H: NodeHash, level: seq<Hash>, k: nat) {
    forall i :: 0 <= i < |level| ==> Depth(H, level[i], k)
  }

  lemma DepthAbove(H: NodeHash, level: seq<Hash>, k: nat)
    requires AllDepth(H, level, k)
    ensures AllDepth(H, LevelAbove(H, level), k + 1)
  {
    forall i | 0 <= i < |LevelAbove(H, level)| ensures Depth(H, LevelAbove(H, level)[i], k + 1) {
      assert Depth(H, level[2 * i], k);
    }
  }

  /** How many levels lie above this one. */
  function Height(n: nat): nat {
    if n <= 1 then 0 else 1 + Height((n + 1) / 2)
  }

  lemma {:induction false} RootDepth(H: NodeHash, level: seq<Hash>, k: nat)
    requires level != [] && AllDepth(H, level, k)
    ensures Depth(H, Root(H, level), k + Height(|level|))
    decreases |level|
  {
    if |level| > 1 {
      DepthAbove(H, level, k);
      RootDepth(H, LevelAbove(H, level), k + 1);
    }
  }

  /** Without twins, a level is determined by the one above it. */
  lemma LevelDetermined(H: NodeHash, s: seq<Hash>, t: seq<Hash>)
    requires Injective(H) && !HasTwins(s) && !HasTwins(t)
    requires LevelAbove(H, s) == LevelAbove(H, t)
    ensures s == t
  {
    var above := LevelAbove(H, s);
    forall i | 0 <= i < |above| ensures SamePair(s, t, i) {
      assert ParentHash(H, s, i) == above[i] == ParentHash(H, t, i);
      assert NoCollision(H, s[2 * i], Partner(s, i), t[2 * i], Partner(t, i));
      assert !Twins(s, i) && !Twins(t, i);
    }
    assert |above| > 0 ==> SamePair(s, t, |above| - 1);
    forall k | 0 <= k < |s| ensures s[k] == t[k] {
      assert SamePair(s, t, k / 2);
    }
  }

  predicate SamePair(s: seq<Hash>, t: seq<Hash>, i: nat) {
    && 2 * i < |s| && 2 * i < |t| && s[2 * i] == t[2 * i]
    && (2 * i + 1 < |s| <==> 2 * i + 1 < |t|)
    && (2 * i + 1 < |s| ==> s[2 * i + 1] == t[2 * i + 1])
  }

  lemma {:induction false} SameHeightDetermined(H: NodeHash, s: seq<Hash>, t: seq<Hash>)
    requires Injective(H) && s != [] && t != [] && Height(|s|) == Height(|t|)
    requires !Mutated(H, s) && !Mutated(H, t) && Root(H, s) == Root(H, t)
    ensures s == t
    decreases |s|
  {
    if |s| > 1 {
      SameHeightDetermined(H, LevelAbove(H, s), LevelAbove(H, t));
      LevelDetermined(H, s, t);
    }
  }

  /** What the mutation check is for: two transaction lists that it passes and that have the same root
      are the same list, as long as pairs do not collide and no transaction id is the hash of a pair. */
  lemma RootDeterminesLeaves(H: NodeHash, s: seq<Hash>, t: seq<Hash>)
    requires Injective(H) && s != [] && t != [] && Leaves(H, s) && Leaves(H, t)
    requires !Mutated(H, s) && !Mutated(H, t) && Root(H, s) == Root(H, t)
    ensures s == t
  {
    assert AllDepth(H, s, 0) && AllDepth(H, t, 0);
    RootDepth(H, s, 0);
    RootDepth(H, t, 0);
    DepthUnique(H, Root(H, s), Height(|s|), Height(|t|));
    SameHeightDetermined(H, s, t);
  }

  ghost predicate Distinct(level: seq<Hash>) { forall i, j :: 0 <= i < j < |level| ==> level[i] != level[j] }

  /** A list of distinct ids is never flagged. */
  lemma {:induction false} DistinctUnmutated(H: NodeHash, level: seq<Hash>)
    requires Injective(H) && Distinct(level)
    ensures !Mutated(H, level)
    decreases |level|
  {
    if |level| > 1 {
      var above := LevelAbove(H, level);
      forall i, j | 0 <= i < j < |above| ensures above[i] != above[j] {
        assert above[i] == ParentHash(H, level, i) && above[j] == ParentHash(H, level, j);
        assert NoCollision(H, level[2 * i], Partner(level, i), level[2 * j], Partner(level, j));
      }
      DistinctUnmutated(H, above);
    }
  }

  /** The flag is needed: repeating the last hash of a list of odd length keeps the root, and is flagged. */
  lemma RepeatedTail(H: NodeHash, s: seq<Hash>)
    requires |s| > 1 && |s| % 2 == 1
    ensures Root(H, s + [s[|s| - 1]]) == Root(H, s)
    ensures Mutated(H, s + [s[|s| - 1]])
  {
    var t := s + [s[|s| - 1]];
    assert Twins(t, |s| / 2);
    assert LevelAbove(H, t) == LevelAbove(H, s);
  }
}
