/** The tree of accepted block headers: parent links, paths and ancestry. */
module BlockTree {
  import opened Words

  datatype ChainEntry = ChainEntry(hash: Digest, parentHash: Digest, height: U64, slot: U64, producer: Digest)

  type Entries = map<Digest, ChainEntry>

  const GENESIS := ChainEntry(ZERO, ZERO, 0, 0, ZERO)

  /** What header validation establishes about a block and its parent. */
  predicate Linked(es: Entries, e: ChainEntry) {
    && e.parentHash in es
    && e.height == es[e.parentHash].height + 1
    && e.slot > es[e.parentHash].slot
  }

  predicate Placed(es: Entries, h: Digest)
    requires h in es
  {
    es[h].hash == h && (h != ZERO ==> Linked(es, es[h]))
  }

  ghost predicate WellFormed(es: Entries) {
    && ZERO in es && es[ZERO] == GENESIS
    && forall h {:trigger Placed(es, h)} :: h in es ==> Placed(es, h)
  }

  /** The entries from genesis down to block `h`. */
  ghost function Path(es: Entries, h: Digest): (p: seq<ChainEntry>)
    requires WellFormed(es) && h in es
    ensures |p| == es[h].height + 1
    ensures p[0] == GENESIS && p[|p| - 1] == es[h]
    decreases es[h].height
  {
    assert Placed(es, h);
    if h == ZERO then [GENESIS] else Path(es, es[h].parentHash) + [es[h]]
  }

  /** `n` steps along parent links; genesis is its own parent. */
  ghost function Climb(es: Entries, h: Digest, n: nat): (r: Digest)
    requires WellFormed(es) && h in es
    ensures r in es
    decreases n
  {
    assert Placed(es, h);
    if n == 0 then h else Climb(es, es[h].parentHash, n - 1)
  }

  /** Ancestry is the reflexive, transitive closure of the parent link. */
  ghost predicate Ancestor(es: Entries, a: Digest, d: Digest)
    requires WellFormed(es) && d in es
  {
    exists n: nat :: Climb(es, d, n) == a
  }

  /** The prefix of a path that ends at an entry is that entry's own path. */
  lemma {:induction false} PathPrefix(es: Entries, d: Digest, i: nat)
    requires WellFormed(es) && d in es && i < |Path(es, d)|
    ensures Path(es, d)[i].height == i && Path(es, d)[i].hash in es && es[Path(es, d)[i].hash] == Path(es, d)[i]
    ensures Path(es, Path(es, d)[i].hash) == Path(es, d)[..i + 1]
    decreases es[d].height
  {
    assert Placed(es, d);
    var p := Path(es, d);
    if i == |p| - 1 {
      assert p[..i + 1] == p;
    } else {
      var q := Path(es, es[d].parentHash);
      PathPrefix(es, es[d].parentHash, i);
      assert p[..i + 1] == q[..i + 1];
    }
  }

  lemma {:induction false} ClimbIsPathEntry(es: Entries, d: Digest, n: nat)
    requires WellFormed(es) && d in es
    ensures Climb(es, d, n) == Path(es, d)[Max(0, es[d].height - n)].hash
    decreases n
  {
    assert Placed(es, d);
    if n > 0 {
      ClimbIsPathEntry(es, es[d].parentHash, n - 1);
    }
  }

  /** Ancestry is the prefix order on paths. */
  lemma AncestorIffPrefix(es: Entries, a: Digest, d: Digest)
    requires WellFormed(es) && d in es
    ensures Ancestor(es, a, d) <==> a in es && Path(es, a) <= Path(es, d)
  {
    if Ancestor(es, a, d) {
      var n: nat :| Climb(es, d, n) == a;
      ClimbIsPathEntry(es, d, n);
      PathPrefix(es, d, Max(0, es[d].height - n));
    }
    if a in es && Path(es, a) <= Path(es, d) {
      var i := es[a].height;
      assert Path(es, d)[i] == es[a];
      assert Placed(es, a);
      ClimbIsPathEntry(es, d, es[d].height - i);
    }
  }

  /** A path no longer than an ancestor's own path is that path. */
  lemma PrefixAtSameHeight(es: Entries, a: Digest, d: Digest)
    requires WellFormed(es) && a in es && d in es && es[d].height <= es[a].height
    requires Path(es, a) <= Path(es, d)
    ensures a == d
  {
    assert Placed(es, a) && Placed(es, d);
    assert Path(es, d)[es[a].height] == es[a];
  }

  /** `fs` holds every block of `es`, each with the path it had. */
  ghost predicate Extends(es: Entries, fs: Entries) {
    && WellFormed(es) && WellFormed(fs) && es.Keys <= fs.Keys
    && forall h {:trigger Path(fs, h)} :: h in es ==> Path(fs, h) == Path(es, h)
  }

  lemma ExtendsTransitive(es: Entries, fs: Entries, gs: Entries)
    requires Extends(es, fs) && Extends(fs, gs)
    ensures Extends(es, gs)
  {
    forall h | h in es ensures Path(gs, h) == Path(es, h) {
      assert h in fs;
      assert Path(gs, h) == Path(fs, h);
    }
  }

  lemma InsertKeepsWellFormed(es: Entries, e: ChainEntry)
    requires WellFormed(es) && Linked(es, e) && e.hash !in es
    ensures WellFormed(es[e.hash := e])
  {
    var fs := es[e.hash := e];
    forall h | h in fs ensures Placed(fs, h) {
      if h != e.hash { assert Placed(es, h); }
    }
  }

  /** Inserting a linked block keeps the tree and leaves every old path alone. */
  lemma InsertKeepsTree(es: Entries, e: ChainEntry)
    requires WellFormed(es) && Linked(es, e) && e.hash !in es
    ensures Extends(es, es[e.hash := e])
    ensures Path(es[e.hash := e], e.hash) == Path(es, e.parentHash) + [e]
  {
    var fs := es[e.hash := e];
    InsertKeepsWellFormed(es, e);
    forall h | h in es ensures Path(fs, h) == Path(es, h) {
      PathUnchanged(es, fs, h);
    }
  }

  lemma {:induction false} PathUnchanged(es: Entries, fs: Entries, h: Digest)
    requires WellFormed(es) && WellFormed(fs) && h in es
    requires forall g :: g in es ==> g in fs && fs[g] == es[g]
    ensures Path(fs, h) == Path(es, h)
    decreases es[h].height
  {
    assert Placed(es, h);
    if h != ZERO {
      PathUnchanged(es, fs, es[h].parentHash);
    }
  }

  /** Along a path heights count up from zero and slots strictly ascend. */
  lemma {:induction false} PathAscends(es: Entries, d: Digest, i: nat, j: nat)
    requires WellFormed(es) && d in es && i < j < |Path(es, d)|
    ensures Path(es, d)[i].height == i && Path(es, d)[j].height == j
    ensures Path(es, d)[i].slot < Path(es, d)[j].slot
    decreases es[d].height
  {
    assert Placed(es, d);
    var p := Path(es, d);
    PathPrefix(es, d, i);
    PathPrefix(es, d, j);
    var q := Path(es, es[d].parentHash);
    if j < |q| {
      PathAscends(es, es[d].parentHash, i, j);
    } else if i < |q| - 1 {
      PathAscends(es, es[d].parentHash, i, |q| - 1);
    }
  }

  /** Two paths that agree at one height agree below it as well. */
  lemma PathsAgreeBelow(es: Entries, a: Digest, b: Digest, i: nat, j: nat)
    requires WellFormed(es) && a in es && b in es
    requires i <= j < |Path(es, a)| && j < |Path(es, b)|
    requires Path(es, a)[j].hash == Path(es, b)[j].hash
    ensures Path(es, a)[i] == Path(es, b)[i]
  {
    PathPrefix(es, a, j);
    PathPrefix(es, b, j);
    assert Path(es, a)[i] == Path(es, a)[..j + 1][i];
  }

  /** A path visits distinct blocks, so it is no longer than the tree is large. */
  lemma PathFits(es: Entries, h: Digest)
    requires WellFormed(es) && h in es
    ensures |Path(es, h)| <= |es|
  {
    var seen := PathHashes(es, h, |Path(es, h)|);
    assert seen <= es.Keys;
    SubsetSize(seen, es.Keys);
  }

  lemma {:induction false} PathHashes(es: Entries, h: Digest, n: nat) returns (seen: set<Digest>)
    requires WellFormed(es) && h in es && n <= |Path(es, h)|
    ensures |seen| == n && forall g :: g in seen ==> g in es && es[g].height < n
  {
    if n == 0 {
      seen := {};
    } else {
      var rest := PathHashes(es, h, n - 1);
      PathPrefix(es, h, n - 1);
      seen := rest + {Path(es, h)[n - 1].hash};
    }
  }

  lemma SubsetSize<T>(a: set<T>, b: set<T>)
    requires a <= b
    ensures |a| <= |b|
  {
    assert b == a + (b - a);
  }
}
