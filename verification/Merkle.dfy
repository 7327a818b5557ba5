/** Bitcoin-style Merkle roots, and exactly what a root commits to.

    The pair hash is a parameter: `h(l, r)` stands for SHA3-256(l || r). Every
    binding result assumes only that no two DIFFERENT pairs among the finitely
    many that the two computations hash collide, and that no such hash is also a
    leaf: a breach of either is a concrete collision. */
module Merkle {
  import opened Words
  import opened Sorting

  type PairHash = (Digest, Digest) -> Digest

  /** One level up: neighbours combined, an odd last one with itself. */
  function NextLevel<T>(combine: (T, T) -> T, level: seq<T>): (next: seq<T>)
    ensures |next| == (|level| + 1) / 2
    ensures forall i :: 0 <= i < |next| ==> next[i] == combine(level[2 * i], level[PartnerOf(i, |level|)])
  {
    seq((|level| + 1) / 2, i requires 0 <= i < (|level| + 1) / 2 => combine(level[2 * i], level[PartnerOf(i, |level|)]))
  }

  /** Position of the right half of pair i on a level of n nodes. */
  function PartnerOf(i: nat, n: nat): (j: nat)
    requires 2 * i < n
    ensures j < n
  {
    if 2 * i + 1 < n then 2 * i + 1 else 2 * i
  }

  function Root<T>(combine: (T, T) -> T, level: seq<T>): T
    requires level != []
    decreases |level|
  {
    if |level| == 1 then level[0] else Root(combine, NextLevel(combine, level))
  }

  function MerkleRoot(h: PairHash, ids: seq<Digest>): Digest {
    if ids == [] then ZERO else Root(h, ids)
  }

  method MerkleRootOf(h: PairHash, ids: seq<Digest>) returns (root: Digest)
    ensures root == MerkleRoot(h, ids)
  {
    if ids == [] {
      return ZERO;
    }
    var level := ids;
    while |level| > 1
      invariant level != [] && Root(h, level) == Root(h, ids)
      decreases |level|
    {
      ghost var above := NextLevel(h, level);
      ghost var before := level;
      if |level| % 2 == 1 {
        level := level + [level[|level| - 1]];
      }
      var next: seq<Digest> := [];
      var i := 0;
      while i < |level| / 2
        invariant 0 <= i <= |level| / 2 && next == above[..i]
      {
        assert level[2 * i] == before[2 * i] && level[2 * i + 1] == before[PartnerOf(i, |before|)];
        next := next + [h(level[2 * i], level[2 * i + 1])];
        i := i + 1;
      }
      assert next == above;
      level := next;
    }
    return level[0];
  }

  // ----- the tree behind a root -----

  datatype Tree = Leaf(id: Digest) | Node(left: Tree, right: Tree)

  function Join(l: Tree, r: Tree): Tree { Node(l, r) }

  function Value(h: PairHash, t: Tree): Digest {
    match t case Leaf(id) => id case Node(l, r) => h(Value(h, l), Value(h, r))
  }

  function Height(t: Tree): nat {
    match t case Leaf(_) => 0 case Node(l, _) => 1 + Height(l)
  }

  function LeavesOf(ids: seq<Digest>): (ts: seq<Tree>)
    ensures |ts| == |ids|
  {
    seq(|ids|, i requires 0 <= i < |ids| => Leaf(ids[i]))
  }

  ghost function TreeOf(ids: seq<Digest>): Tree
    requires ids != []
  {
    Root(Join, LeavesOf(ids))
  }

  /** The pairs hashed in evaluating a tree. */
  function Pairs(h: PairHash, t: Tree): set<(Digest, Digest)> {
    match t
    case Leaf(_) => {}
    case Node(l, r) => Pairs(h, l) + Pairs(h, r) + {(Value(h, l), Value(h, r))}
  }

  function Leaves(t: Tree): set<Digest> {
    match t case Leaf(id) => {id} case Node(l, r) => Leaves(l) + Leaves(r)
  }

  /** No two of these pairs collide, and none hashes to one of these leaves. */
  ghost predicate NoCollision(h: PairHash, pairs: set<(Digest, Digest)>, leaves: set<Digest>) {
    && (forall p, q :: p in pairs && q in pairs && h(p.0, p.1) == h(q.0, q.1) ==> p == q)
    && (forall p :: p in pairs ==> h(p.0, p.1) !in leaves)
  }

  /** Without a collision, a value determines the whole tree above its leaves. */
  lemma {:induction false} ValueDeterminesTree(h: PairHash, s: Tree, t: Tree)
    requires NoCollision(h, Pairs(h, s) + Pairs(h, t), Leaves(s) + Leaves(t))
    ensures Value(h, s) == Value(h, t) <==> s == t
    decreases s
  {
    match (s, t) {
      case (Leaf(_), Leaf(_)) =>
      case (Leaf(a), Node(l, r)) =>
        assert (Value(h, l), Value(h, r)) in Pairs(h, t) && a in Leaves(s);
      case (Node(l, r), Leaf(b)) =>
        assert (Value(h, l), Value(h, r)) in Pairs(h, s) && b in Leaves(t);
      case (Node(a, b), Node(c, d)) =>
        assert (Value(h, a), Value(h, b)) in Pairs(h, s) && (Value(h, c), Value(h, d)) in Pairs(h, t);
        ValueDeterminesTree(h, a, c);
        ValueDeterminesTree(h, b, d);
    }
  }

  ghost predicate Evaluates(h: PairHash, ts: seq<Tree>, level: seq<Digest>) {
    |ts| == |level| && forall i :: 0 <= i < |ts| ==> Value(h, ts[i]) == level[i]
  }

  lemma {:induction false} RootEvaluates(h: PairHash, ts: seq<Tree>, level: seq<Digest>)
    requires Evaluates(h, ts, level) && ts != []
    ensures Value(h, Root(Join, ts)) == Root(h, level)
    decreases |ts|
  {
    if |ts| > 1 {
      RootEvaluates(h, NextLevel(Join, ts), NextLevel(h, level));
    }
  }

  lemma {:induction false} RootLeaves(ts: seq<Tree>, ids: set<Digest>)
    requires ts != [] && forall i :: 0 <= i < |ts| ==> Leaves(ts[i]) <= ids
    ensures Leaves(Root(Join, ts)) <= ids
    decreases |ts|
  {
    if |ts| > 1 {
      RootLeaves(NextLevel(Join, ts), ids);
    }
  }

  // ----- equal trees come from equal lists of distinct leaves -----

  ghost predicate Uniform(ts: seq<Tree>, n: nat) {
    forall i :: 0 <= i < |ts| ==> Height(ts[i]) == n
  }

  lemma NextLevelIsUniform(ts: seq<Tree>, n: nat)
    requires Uniform(ts, n)
    ensures Uniform(NextLevel(Join, ts), n + 1)
  {
  }

  lemma {:induction false} RootHeight(ts: seq<Tree>, n: nat)
    requires ts != [] && Uniform(ts, n)
    ensures |ts| == 1 ==> Height(Root(Join, ts)) == n
    ensures |ts| > 1 ==> Height(Root(Join, ts)) > n
    decreases |ts|
  {
    if |ts| > 1 {
      NextLevelIsUniform(ts, n);
      RootHeight(NextLevel(Join, ts), n + 1);
    }
  }

  lemma NextLevelIsDistinct(ts: seq<Tree>)
    requires !HasDuplicate(ts)
    ensures !HasDuplicate(NextLevel(Join, ts))
  {
    var next := NextLevel(Join, ts);
    forall i, j | 0 <= i < j < |next| ensures next[i] != next[j] {
      assert ts[2 * i] != ts[2 * j];
    }
  }

  lemma SamePair(a: seq<Tree>, b: seq<Tree>, i: nat)
    requires NextLevel(Join, a) == NextLevel(Join, b) && i < |NextLevel(Join, a)|
    ensures a[2 * i] == b[2 * i] && a[PartnerOf(i, |a|)] == b[PartnerOf(i, |b|)]
  {
    assert NextLevel(Join, a)[i] == Join(a[2 * i], a[PartnerOf(i, |a|)]);
    assert NextLevel(Join, b)[i] == Join(b[2 * i], b[PartnerOf(i, |b|)]);
  }

  lemma LongerListRepeats(a: seq<Tree>, b: seq<Tree>)
    requires NextLevel(Join, a) == NextLevel(Join, b) && |a| > |b|
    ensures HasDuplicate(a)
  {
    var i := |NextLevel(Join, a)| - 1;
    SamePair(a, b, i);
    assert a[2 * i] == a[2 * i + 1];
  }

  /** Equal levels above distinct lists come from the same list: had one been
      the other with its last node repeated, it would hold a duplicate. */
  lemma NextLevelInjective(a: seq<Tree>, b: seq<Tree>)
    requires !HasDuplicate(a) && !HasDuplicate(b) && NextLevel(Join, a) == NextLevel(Join, b)
    ensures a == b
  {
    if |a| > |b| { LongerListRepeats(a, b); }
    if |b| > |a| { LongerListRepeats(b, a); }
    forall i | 0 <= i < |NextLevel(Join, a)|
      ensures a[2 * i] == b[2 * i] && a[PartnerOf(i, |a|)] == b[PartnerOf(i, |b|)]
    {
      SamePair(a, b, i);
    }
    forall k | 0 <= k < |a| ensures a[k] == b[k] {
      assert k == 2 * (k / 2) || k == PartnerOf(k / 2, |a|);
    }
  }

  lemma {:induction false} RootDeterminesForest(a: seq<Tree>, b: seq<Tree>, n: nat)
    requires a != [] && b != [] && Uniform(a, n) && Uniform(b, n)
    requires !HasDuplicate(a) && !HasDuplicate(b) && Root(Join, a) == Root(Join, b)
    ensures a == b
    decreases |a|
  {
    RootHeight(a, n);
    RootHeight(b, n);
    if |a| > 1 {
      NextLevelIsUniform(a, n);
      NextLevelIsUniform(b, n);
      NextLevelIsDistinct(a);
      NextLevelIsDistinct(b);
      RootDeterminesForest(NextLevel(Join, a), NextLevel(Join, b), n + 1);
      NextLevelInjective(a, b);
    }
  }

  // ----- what the root commits to -----

  ghost function AllPairs(h: PairHash, ids: seq<Digest>): set<(Digest, Digest)> {
    if ids == [] then {} else Pairs(h, TreeOf(ids))
  }

  /** The hash assumptions for comparing the roots of two lists. */
  ghost predicate Sound(h: PairHash, xs: seq<Digest>, ys: seq<Digest>) {
    NoCollision(h, AllPairs(h, xs) + AllPairs(h, ys), (set x | x in xs + ys) + {ZERO})
    && ZERO !in xs + ys
  }

  lemma TreeFacts(h: PairHash, ids: seq<Digest>)
    requires ids != []
    ensures Value(h, TreeOf(ids)) == MerkleRoot(h, ids)
    ensures Leaves(TreeOf(ids)) <= set x | x in ids
  {
    RootEvaluates(h, LeavesOf(ids), ids);
    RootLeaves(LeavesOf(ids), set x | x in ids);
  }

  lemma RootIsNotZero(h: PairHash, ids: seq<Digest>)
    requires ids != [] && Sound(h, ids, [])
    ensures MerkleRoot(h, ids) != ZERO
  {
    TreeFacts(h, ids);
    match TreeOf(ids) {
      case Leaf(id) =>
        assert id in Leaves(TreeOf(ids));
      case Node(l, r) =>
        assert (Value(h, l), Value(h, r)) in AllPairs(h, ids) + AllPairs(h, []);
    }
  }

  /** Two duplicate-free lists of any lengths with one root are the same list. */
  lemma RootDeterminesList(h: PairHash, xs: seq<Digest>, ys: seq<Digest>)
    requires !HasDuplicate(xs) && !HasDuplicate(ys) && Sound(h, xs, ys)
    requires MerkleRoot(h, xs) == MerkleRoot(h, ys)
    ensures xs == ys
  {
    if xs == [] || ys == [] {
      if xs != [] { RootIsNotZero(h, xs); }
      if ys != [] { RootIsNotZero(h, ys); }
    } else {
      TreeFacts(h, xs);
      TreeFacts(h, ys);
      ValueDeterminesTree(h, TreeOf(xs), TreeOf(ys));
      RootDeterminesForest(LeavesOf(xs), LeavesOf(ys), 0);
      forall i | 0 <= i < |xs| ensures xs[i] == ys[i] {
        assert LeavesOf(xs)[i] == LeavesOf(ys)[i];
      }
    }
  }

  /** Why duplicates must be rejected: for every hash, a list of odd length and
      the same list with its last entry repeated share a root. */
  lemma RepeatedLastKeepsRoot(h: PairHash, ids: seq<Digest>)
    requires |ids| > 1 && |ids| % 2 == 1
    ensures MerkleRoot(h, ids + [ids[|ids| - 1]]) == MerkleRoot(h, ids)
  {
    var longer := ids + [ids[|ids| - 1]];
    assert NextLevel(h, longer) == NextLevel(h, ids);
  }
}
