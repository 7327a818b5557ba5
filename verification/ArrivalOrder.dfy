/** Which block trees leave the choice of a node to the order in which blocks arrive. */
module ArrivalOrder {
  import opened Words
  import opened BlockTree
  import opened ForkChoice
  import opened MaxvalidBg
  import opened Agreement

  // ----- trees and orders -----

  /** `e` is a block of the tree other than genesis. */
  ghost predicate BlockOf(es: Entries, e: ChainEntry) {
    e.hash != ZERO && e.hash in es && es[e.hash] == e
  }

  ghost predicate ParentSeen(xs: seq<ChainEntry>, i: nat)
    requires i < |xs|
  {
    xs[i].parentHash == ZERO || exists j :: 0 <= j < i && xs[j].hash == xs[i].parentHash
  }

  /** Blocks of the tree, each after its parent; a block may come more than once. */
  ghost predicate ParentFirst(es: Entries, xs: seq<ChainEntry>) {
    && (forall i :: 0 <= i < |xs| ==> BlockOf(es, xs[i]))
    && (forall i :: 0 <= i < |xs| ==> ParentSeen(xs, i))
  }

  /** A parent-first order of all the blocks of the tree. */
  ghost predicate Order(es: Entries, xs: seq<ChainEntry>) {
    && ParentFirst(es, xs)
    && (forall h :: h in es && h != ZERO ==> es[h] in xs)
  }

  ghost predicate SubTree(es: Entries, fs: Entries) {
    && WellFormed(es) && WellFormed(fs)
    && forall h :: h in es ==> h in fs && fs[h] == es[h]
  }

  lemma RunIsSubTree(es: Entries, k: U64, xs: seq<ChainEntry>)
    requires WellFormed(es) && forall i :: 0 <= i < |xs| ==> BlockOf(es, xs[i])
    ensures SubTree(Run(k, xs).entries, es)
  {
    var c := Run(k, xs);
    RunHoldsOnlyOffered(k, xs);
    forall h | h in c.entries ensures h in es && es[h] == c.entries[h] {
      assert Placed(c.entries, h);
      if h != ZERO { assert c.entries[h] in xs; }
    }
  }

  // ----- common prefixes of a tree -----

  ghost function Common(es: Entries, a: Digest, b: Digest): (n: nat)
    requires WellFormed(es) && a in es && b in es
    ensures 0 < n <= es[a].height + 1 && n <= es[b].height + 1
  {
    CommonPrefixLen(Path(es, a), Path(es, b))
  }

  /** Up to the fork the paths are equal, past it they hold different blocks. */
  lemma CommonIsExact(es: Entries, a: Digest, b: Digest, i: nat)
    requires WellFormed(es) && a in es && b in es && i <= es[a].height && i <= es[b].height
    ensures i < Common(es, a, b) <==> Path(es, a)[i] == Path(es, b)[i]
  {
    var p, q, c := Path(es, a), Path(es, b), Common(es, a, b);
    if i < c {
      PathPrefix(es, a, i);
      PathPrefix(es, b, i);
    } else if p[i] == q[i] {
      PathsAgreeBelow(es, a, b, c, i);
    }
  }

  // ----- when a block can be refused -----

  /** Block `x` is more than k blocks past its fork with `e`, which is not its ancestor. */
  ghost predicate Outruns(es: Entries, k: U64, x: Digest, e: Digest)
    requires WellFormed(es) && x in es && e in es
  {
    Common(es, x, e) <= es[e].height && es[x].height >= Common(es, x, e) + k
  }

  /** While `e` is not held, it is not on the path of the tip. */
  lemma NotOnTipPath(es: Entries, c: Chain, e: ChainEntry)
    requires Inv(c) && SubTree(c.entries, es) && BlockOf(es, e) && e.hash !in c.entries
    ensures c.tip in es && Common(es, c.tip, e.hash) <= e.height
  {
    if Common(es, c.tip, e.hash) > e.height {
      CommonIsExact(es, c.tip, e.hash, e.height);
      PathUnchanged(c.entries, es, c.tip);
      PathPrefix(c.entries, c.tip, e.height);
      assert false;
    }
  }

  lemma SharedPrefix(es: Entries, a: Digest, b: Digest, n: nat)
    requires WellFormed(es) && a in es && b in es && n <= Common(es, a, b)
    ensures Path(es, a)[..n] == Path(es, b)[..n]
  {
    forall i | 0 <= i < n ensures Path(es, a)[i] == Path(es, b)[i] {
      CommonIsExact(es, a, b, i);
    }
  }

  lemma UnreachedFinalIsPastFork(es: Entries, c: Chain, e: ChainEntry)
    requires Inv(c) && SubTree(c.entries, es) && BlockOf(es, e) && e.parentHash in c.entries
    requires e.hash !in c.entries && !Ancestor(c.entries, c.finalHash, e.parentHash)
    ensures c.tip in es && Common(es, c.tip, e.hash) <= c.finalHeight
  {
    NotOnTipPath(es, c, e);
    var f := c.finalHeight;
    if f < Common(es, c.tip, e.hash) {
      assert Placed(es, e.hash);
      PathUnchanged(c.entries, es, e.parentHash);
      PathUnchanged(c.entries, es, c.tip);
      SharedPrefix(es, c.tip, e.hash, f + 1);
      FinalIsAncestorOfTip(c);
      assert Path(c.entries, c.finalHash) <= Path(c.entries, e.parentHash);
      AncestorIffPrefix(c.entries, c.finalHash, e.parentHash);
      assert false;
    }
  }

  /** A block whose parent is held is refused only because the tip outruns it. */
  lemma RefusedOnlyWhenOutrun(es: Entries, c: Chain, e: ChainEntry)
    requires Inv(c) && SubTree(c.entries, es) && BlockOf(es, e) && e.parentHash in c.entries
    requires e.hash !in Offer(c, e).entries
    ensures c.tip in es && Outruns(es, c.k, c.tip, e.hash)
  {
    assert Placed(es, e.hash) && Linked(c.entries, e);
    assert Rejection(c, e).Some? && e.hash !in c.entries;
    UnreachedFinalIsPastFork(es, c, e);
    NotOnTipPath(es, c, e);
  }

  /** No block of the tree outruns `e`. */
  ghost predicate Safe(es: Entries, k: U64, e: Digest)
    requires WellFormed(es) && e in es
  {
    forall x :: x in es ==> !Outruns(es, k, x, e)
  }

  /** No block of this list outruns `e`. */
  ghost predicate SafeAmong(es: Entries, k: U64, xs: seq<ChainEntry>, e: Digest)
    requires WellFormed(es) && e in es
  {
    forall x {:trigger Outruns(es, k, x, e)} :: x in es && (x == ZERO || es[x] in xs) ==> !Outruns(es, k, x, e)
  }

  /** Whatever outruns a block outruns its children. */
  lemma ChildIsOutrun(es: Entries, k: U64, x: Digest, e: Digest)
    requires WellFormed(es) && x in es && e in es && e != ZERO && es[e].parentHash in es
    requires Outruns(es, k, x, es[e].parentHash)
    ensures Outruns(es, k, x, e)
  {
    assert Placed(es, e);
    var p := es[e].parentHash;
    var n := Common(es, x, p);
    CommonIsExact(es, x, p, n);
    CommonIsExact(es, x, e, n);
  }

  lemma ParentIsSafe(es: Entries, k: U64, xs: seq<ChainEntry>, e: Digest)
    requires WellFormed(es) && e in es && e != ZERO && SafeAmong(es, k, xs, e)
    ensures es[e].parentHash in es && SafeAmong(es, k, xs, es[e].parentHash)
  {
    assert Placed(es, e);
    forall x | x in es && (x == ZERO || es[x] in xs) ensures !Outruns(es, k, x, es[e].parentHash) {
      if Outruns(es, k, x, es[e].parentHash) { ChildIsOutrun(es, k, x, e); }
    }
  }

  lemma FrontIsParentFirst(es: Entries, xs: seq<ChainEntry>)
    requires ParentFirst(es, xs) && xs != []
    ensures ParentFirst(es, xs[..|xs| - 1])
  {
    var front := xs[..|xs| - 1];
    forall i | 0 <= i < |front| ensures BlockOf(es, front[i]) && ParentSeen(front, i) {
      assert BlockOf(es, xs[i]) && ParentSeen(xs, i);
    }
  }

  lemma SafeStepIsKept(es: Entries, c: Chain, e: ChainEntry)
    requires Inv(c) && SubTree(c.entries, es) && BlockOf(es, e) && e.parentHash in c.entries
    requires c.tip in es && !Outruns(es, c.k, c.tip, e.hash)
    ensures e.hash in Offer(c, e).entries
  {
    if e.hash !in Offer(c, e).entries {
      RefusedOnlyWhenOutrun(es, c, e);
      assert false;
    }
  }

  /** A block that none of the offered ones outruns is held as soon as it has been offered. */
  lemma {:induction false} SafeAmongIsKept(es: Entries, k: U64, xs: seq<ChainEntry>, e: ChainEntry)
    requires WellFormed(es) && ParentFirst(es, xs) && e in xs && BlockOf(es, e) && SafeAmong(es, k, xs, e.hash)
    ensures e.hash in Run(k, xs).entries
    decreases |xs|
  {
    var n := |xs| - 1;
    var front := xs[..n];
    FrontIsParentFirst(es, xs);
    if e in front {
      SafeAmongIsKept(es, k, front, e);
      StepExtendsFinal(Run(k, front), xs[n]);
    } else {
      assert e == xs[n] && ParentSeen(xs, n);
      RunIsSubTree(es, k, front);
      if e.parentHash != ZERO {
        var j :| 0 <= j < n && xs[j].hash == e.parentHash;
        assert BlockOf(es, xs[j]) && front[j] == xs[j];
        ParentIsSafe(es, k, xs, e.hash);
        SafeAmongIsKept(es, k, front, xs[j]);
      }
      RunHoldsOnlyOffered(k, front);
      SafeStepIsKept(es, Run(k, front), e);
    }
  }

  lemma SafeIsKept(es: Entries, k: U64, xs: seq<ChainEntry>, e: ChainEntry)
    requires WellFormed(es) && ParentFirst(es, xs) && e in xs && BlockOf(es, e) && Safe(es, k, e.hash)
    ensures e.hash in Run(k, xs).entries
  {
    SafeAmongIsKept(es, k, xs, e);
  }

  // ----- a tree without deep forks -----

  /** Both blocks are more than k blocks past the last one they have in common. */
  ghost predicate DeepFork(es: Entries, k: U64, a: Digest, b: Digest)
    requires WellFormed(es) && a in es && b in es
  {
    var fork := Common(es, a, b) - 1;
    es[a].height > fork + k && es[b].height > fork + k
  }

  ghost predicate NoDeepFork(es: Entries, k: U64)
    requires WellFormed(es)
  {
    forall a, b :: a in es && b in es ==> !DeepFork(es, k, a, b)
  }

  ghost predicate IsBest(es: Entries, t: Digest) {
    t in es && forall h :: h in es ==> AtLeastAsGood(es, t, h)
  }

  lemma {:induction false} BestAmong(es: Entries, keys: set<Digest>) returns (t: Digest)
    requires keys != {} && keys <= es.Keys
    ensures t in keys && forall h :: h in keys ==> AtLeastAsGood(es, t, h)
    decreases keys
  {
    var x :| x in keys;
    if keys == {x} {
      t := x;
    } else {
      t := BestAmong(es, keys - {x});
      if !AtLeastAsGood(es, t, x) { t := x; }
      assert forall h :: h in keys ==> h == x || h in keys - {x};
    }
  }

  /** The best block of a tree without deep forks is outrun by none. */
  lemma BestIsSafe(es: Entries, k: U64, t: Digest)
    requires WellFormed(es) && IsBest(es, t) && NoDeepFork(es, k)
    ensures Safe(es, k, t)
  {
    forall x | x in es ensures !Outruns(es, k, x, t) {
      assert AtLeastAsGood(es, t, x) && !DeepFork(es, k, x, t);
    }
  }

  ghost predicate SameChoice(c: Chain, d: Chain) {
    c.tip == d.tip && c.finalHash == d.finalHash && c.finalHeight == d.finalHeight
  }

  /** Without a deep fork every order ends on the best block of the tree. */
  lemma TipIsTreeBest(es: Entries, k: U64, xs: seq<ChainEntry>, t: Digest)
    requires WellFormed(es) && Order(es, xs) && NoDeepFork(es, k) && IsBest(es, t)
    ensures Run(k, xs).tip == t && Path(Run(k, xs).entries, t) == Path(es, t)
  {
    var c := Run(k, xs);
    RunIsSubTree(es, k, xs);
    if t != ZERO {
      assert Placed(es, t);
      BestIsSafe(es, k, t);
      SafeIsKept(es, k, xs, es[t]);
    }
    assert AtLeastAsGood(es, t, c.tip) && AtLeastAsGood(c.entries, c.tip, t);
    PathUnchanged(c.entries, es, t);
  }

  lemma SameTipPathSameChoice(c: Chain, d: Chain)
    requires Inv(c) && Inv(d) && c.k == d.k && c.tip == d.tip
    requires Path(c.entries, c.tip) == Path(d.entries, d.tip)
    ensures SameChoice(c, d)
  {
  }

  lemma NoDeepForkMeansAgreement(es: Entries, k: U64, xs: seq<ChainEntry>, ys: seq<ChainEntry>)
    requires WellFormed(es) && Order(es, xs) && Order(es, ys) && NoDeepFork(es, k)
    ensures SameChoice(Run(k, xs), Run(k, ys))
  {
    var t := BestAmong(es, es.Keys);
    TipIsTreeBest(es, k, xs, t);
    TipIsTreeBest(es, k, ys, t);
    SameTipPathSameChoice(Run(k, xs), Run(k, ys));
  }

  // ----- a deep fork splits two nodes -----

  /** The blocks from the first one after genesis to `a`. */
  ghost function Way(es: Entries, a: Digest): seq<ChainEntry>
    requires WellFormed(es) && a in es
  {
    Path(es, a)[1..]
  }

  lemma WayIsBranch(es: Entries, a: Digest)
    requires WellFormed(es) && a in es
    ensures Branch(Way(es, a)) && ParentFirst(es, Way(es, a))
  {
    var p, bs := Path(es, a), Way(es, a);
    forall i | 0 <= i < |bs| ensures Sits(bs, i) && BlockOf(es, bs[i]) && ParentSeen(bs, i) {
      WaySits(es, a, i);
      if i > 0 { assert bs[i - 1].hash == bs[i].parentHash; }
    }
  }

  lemma WaySits(es: Entries, a: Digest, i: nat)
    requires WellFormed(es) && a in es && i < |Way(es, a)|
    ensures BlockOf(es, Way(es, a)[i]) && Sits(Way(es, a), i)
  {
    var p, bs := Path(es, a), Way(es, a);
    PathPrefix(es, a, i);
    PathPrefix(es, a, i + 1);
    var e := bs[i];
    assert Placed(es, e.hash) && e.height == i + 1;
    assert Path(es, e.hash) == Path(es, e.parentHash) + [e];
    assert Path(es, e.parentHash) == p[..i + 2][..i + 1] == p[..i + 1];
    assert es[e.parentHash] == p[i] && Placed(es, e.parentHash);
    forall j | 0 <= j < i ensures bs[j].hash != e.hash {
      PathPrefix(es, a, j + 1);
    }
  }

  ghost function Hashes(xs: seq<ChainEntry>): set<Digest> { set e | e in xs :: e.hash }

  lemma LowestMissing(es: Entries, missing: set<Digest>) returns (h: Digest)
    requires missing != {} && missing <= es.Keys
    ensures h in missing && forall g :: g in missing ==> es[h].height <= es[g].height
    decreases missing
  {
    var x :| x in missing;
    if missing == {x} {
      h := x;
    } else {
      h := LowestMissing(es, missing - {x});
      if es[x].height < es[h].height { h := x; }
      assert forall g :: g in missing ==> g == x || g in missing - {x};
    }
  }

  lemma HashesAppend(xs: seq<ChainEntry>, e: ChainEntry)
    ensures Hashes(xs + [e]) == Hashes(xs) + {e.hash}
  {
    assert forall x :: x in xs + [e] <==> x in xs || x == e;
  }

  lemma HeldByHash(es: Entries, xs: seq<ChainEntry>, h: Digest)
    requires ParentFirst(es, xs) && h in Hashes(xs)
    ensures h in es && es[h] in xs
  {
    var e :| e in xs && e.hash == h;
    var i :| 0 <= i < |xs| && xs[i] == e;
    assert BlockOf(es, xs[i]);
  }

  lemma AppendKeepsParentFirst(es: Entries, xs: seq<ChainEntry>, h: Digest)
    requires WellFormed(es) && ParentFirst(es, xs) && h in es && h != ZERO
    requires forall g :: g in es && g != ZERO && g !in Hashes(xs) ==> es[h].height <= es[g].height
    ensures ParentFirst(es, xs + [es[h]])
  {
    var e, ys := es[h], xs + [es[h]];
    assert Placed(es, h) && Placed(es, e.parentHash);
    if e.parentHash != ZERO {
      HeldByHash(es, xs, e.parentHash);
      var j :| 0 <= j < |xs| && xs[j] == es[e.parentHash];
      assert ys[j].hash == e.parentHash;
    }
    forall i | 0 <= i < |ys| ensures BlockOf(es, ys[i]) && ParentSeen(ys, i) {
      if i < |xs| { SeenStays(xs, e, i); }
    }
  }

  lemma SeenStays(xs: seq<ChainEntry>, e: ChainEntry, i: nat)
    requires i < |xs| && ParentSeen(xs, i)
    ensures ParentSeen(xs + [e], i)
  {
    var ys := xs + [e];
    if xs[i].parentHash != ZERO {
      var j :| 0 <= j < i && xs[j].hash == xs[i].parentHash;
      assert ys[j].hash == ys[i].parentHash;
    }
  }

  ghost function Missing(es: Entries, xs: seq<ChainEntry>): set<Digest> { es.Keys - {ZERO} - Hashes(xs) }

  lemma OfferLowestMissing(es: Entries, xs: seq<ChainEntry>) returns (e: ChainEntry)
    requires WellFormed(es) && ParentFirst(es, xs) && Missing(es, xs) != {}
    ensures ParentFirst(es, xs + [e])
    ensures e.hash in Missing(es, xs) && Missing(es, xs + [e]) == Missing(es, xs) - {e.hash}
  {
    var h := LowestMissing(es, Missing(es, xs));
    e := es[h];
    assert Placed(es, h);
    AppendKeepsParentFirst(es, xs, h);
    HashesAppend(xs, e);
  }

  lemma NothingMissing(es: Entries, xs: seq<ChainEntry>)
    requires ParentFirst(es, xs) && Missing(es, xs) == {}
    ensures Order(es, xs)
  {
    forall h | h in es && h != ZERO ensures es[h] in xs {
      assert h !in Missing(es, xs);
      HeldByHash(es, xs, h);
    }
  }

  /** Any parent-first start extends to an order of the whole tree. */
  lemma {:induction false} Complete(es: Entries, xs: seq<ChainEntry>) returns (more: seq<ChainEntry>)
    requires WellFormed(es) && ParentFirst(es, xs)
    ensures Order(es, xs + more)
    decreases Missing(es, xs)
  {
    if Missing(es, xs) == {} {
      more := [];
      assert xs + more == xs;
      NothingMissing(es, xs);
    } else {
      var e := OfferLowestMissing(es, xs);
      var rest := Complete(es, xs + [e]);
      more := [e] + rest;
      assert xs + more == xs + [e] + rest;
    }
  }

  /** An order that starts with the way to a block finalizes that way. */
  lemma FirstWayIsFinal(es: Entries, k: U64, a: Digest, i: nat) returns (xs: seq<ChainEntry>)
    requires WellFormed(es) && a in es && i + k < es[a].height
    ensures Order(es, xs)
    ensures var c := Run(k, xs);
            c.tip in es && i < es[c.tip].height && Path(es, c.tip)[i + 1] == Path(es, a)[i + 1]
  {
    WayIsBranch(es, a);
    var more := Complete(es, Way(es, a));
    xs := Way(es, a) + more;
    DeepBranchIsFinal(k, Way(es, a), more, i);
    RunIsSubTree(es, k, xs);
    var c := Run(k, xs);
    PathUnchanged(c.entries, es, c.tip);
  }

  lemma DeepForkSplits(es: Entries, k: U64, a: Digest, b: Digest) returns (xs: seq<ChainEntry>, ys: seq<ChainEntry>)
    requires WellFormed(es) && a in es && b in es && DeepFork(es, k, a, b)
    ensures Order(es, xs) && Order(es, ys) && Run(k, xs).tip != Run(k, ys).tip
  {
    var fork := Common(es, a, b) - 1;
    xs := FirstWayIsFinal(es, k, a, fork);
    ys := FirstWayIsFinal(es, k, b, fork);
    CommonIsExact(es, a, b, fork + 1);
  }

  lemma FinalOfWay(es: Entries, k: U64, x: Digest)
    requires WellFormed(es) && x in es && SubTree(Run(k, Way(es, x)).entries, es)
    ensures var c := Run(k, Way(es, x));
            && HoldsOnly(c, Way(es, x)) && c.finalHash in c.entries
            && Path(c.entries, c.finalHash) == Path(es, x)[..Max(0, es[x].height - k) + 1]
  {
    WayIsBranch(es, x);
    BranchIsAdopted(k, Way(es, x));
    var c := Run(k, Way(es, x));
    assert Path(c.entries, c.tip) == Path(es, x);
    FinalIsAncestorOfTip(c);
  }

  lemma FinalShutsOut(es: Entries, k: U64, x: Digest, e: Digest, final: seq<ChainEntry>)
    requires WellFormed(es) && x in es && e in es && Outruns(es, k, x, e)
    requires final == Path(es, x)[..Max(0, es[x].height - k) + 1]
    ensures !(final <= Path(es, e))
  {
    var n := Common(es, x, e);
    CommonIsExact(es, x, e, n);
    assert final[n] == Path(es, x)[n];
  }

  /** Offered after the way to a block that outruns it, a block is refused for good. */
  lemma OutrunIsRefused(es: Entries, k: U64, x: Digest, e: Digest, more: seq<ChainEntry>)
    requires WellFormed(es) && x in es && e in es && Outruns(es, k, x, e)
    requires ParentFirst(es, Way(es, x) + more)
    ensures e !in Run(k, Way(es, x) + more).entries
  {
    var way, blocks := Way(es, x), Way(es, x) + more;
    assert blocks[..|way|] == way;
    WayIsBranch(es, x);
    RunIsSubTree(es, k, way);
    RunIsSubTree(es, k, blocks);
    FinalOfWay(es, k, x);
    LaterBlocksDescend(k, blocks, |way|);
    var c, d := Run(k, way), Run(k, blocks);
    FinalShutsOut(es, k, x, e, Path(c.entries, c.finalHash));
    if e in d.entries {
      assert Descends(c, d.entries, e);
      PathUnchanged(d.entries, es, e);
      if e in c.entries { OnlyTheWay(es, x, c, e); }
      assert false;
    }
  }

  lemma OnlyTheWay(es: Entries, x: Digest, c: Chain, e: Digest)
    requires WellFormed(es) && x in es && e in es && Inv(c) && HoldsOnly(c, Way(es, x)) && e in c.entries
    requires SubTree(c.entries, es)
    ensures Common(es, x, e) > es[e].height
  {
    if e != ZERO {
      assert c.entries[e] in Way(es, x);
      var i :| 0 <= i < |Way(es, x)| && Way(es, x)[i] == es[e];
      PathPrefix(es, x, i + 1);
      assert Placed(es, e);
      CommonIsExact(es, x, e, i + 1);
    }
  }

  // ----- the exact conditions -----

  ghost predicate AlwaysKept(es: Entries, k: U64, e: Digest) {
    forall xs :: Order(es, xs) ==> e in Run(k, xs).entries
  }

  /** A block of a tree is held after every parent-first order if and only if no block is more
      than k blocks past its fork with it. */
  lemma AlwaysKeptExactly(es: Entries, k: U64, e: Digest)
    requires WellFormed(es) && e in es
    ensures AlwaysKept(es, k, e) <==> Safe(es, k, e)
  {
    if Safe(es, k, e) {
      forall xs | Order(es, xs) ensures e in Run(k, xs).entries {
        assert Placed(es, e);
        if e != ZERO { SafeIsKept(es, k, xs, es[e]); }
      }
    } else {
      var x :| x in es && Outruns(es, k, x, e);
      WayIsBranch(es, x);
      var more := Complete(es, Way(es, x));
      assert Order(es, Way(es, x) + more);
      OutrunIsRefused(es, k, x, e, more);
    }
  }

  ghost predicate OrdersAgree(es: Entries, k: U64) {
    forall xs, ys :: Order(es, xs) && Order(es, ys) ==> SameChoice(Run(k, xs), Run(k, ys))
  }

  /** All parent-first orders of a tree lead to the same tip and the same finalized block if and
      only if no two of its blocks are both more than k blocks past their fork. */
  lemma OrdersAgreeExactly(es: Entries, k: U64)
    requires WellFormed(es)
    ensures OrdersAgree(es, k) <==> NoDeepFork(es, k)
  {
    if NoDeepFork(es, k) {
      forall xs, ys | Order(es, xs) && Order(es, ys) ensures SameChoice(Run(k, xs), Run(k, ys)) {
        NoDeepForkMeansAgreement(es, k, xs, ys);
      }
    } else {
      var a, b :| a in es && b in es && DeepFork(es, k, a, b);
      var xs, ys := DeepForkSplits(es, k, a, b);
    }
  }

  lemma SafeTreeIsKept(es: Entries, k: U64, xs: seq<ChainEntry>, e: ChainEntry)
    requires WellFormed(es) && Order(es, xs) && e in xs && forall h :: h in es ==> Safe(es, k, h)
    ensures Keeps(Run(k, xs), e)
  {
    var i :| 0 <= i < |xs| && xs[i] == e;
    assert BlockOf(es, xs[i]);
    SafeIsKept(es, k, xs, e);
    RunIsSubTree(es, k, xs);
  }

  lemma OrdersOfferTheSame(es: Entries, xs: seq<ChainEntry>, ys: seq<ChainEntry>, e: ChainEntry)
    requires Order(es, xs) && Order(es, ys) && e in xs
    ensures e in ys
  {
    var i :| 0 <= i < |xs| && xs[i] == e;
    assert BlockOf(es, xs[i]);
  }

  /** In a tree where no block outruns another, all orders agree on the proven offenders too. */
  lemma SafeTreeSameOffenders(es: Entries, k: U64, xs: seq<ChainEntry>, ys: seq<ChainEntry>)
    requires WellFormed(es) && Order(es, xs) && Order(es, ys) && forall h :: h in es ==> Safe(es, k, h)
    ensures SameChoice(Run(k, xs), Run(k, ys))
    ensures Run(k, xs).equivocations.Keys == Run(k, ys).equivocations.Keys
  {
    forall e | e in xs ensures e in ys && Keeps(Run(k, xs), e) && Keeps(Run(k, ys), e) {
      OrdersOfferTheSame(es, xs, ys, e);
      SafeTreeIsKept(es, k, xs, e);
      SafeTreeIsKept(es, k, ys, e);
    }
    forall e | e in ys ensures e in xs { OrdersOfferTheSame(es, ys, xs, e); }
    SameOffersSameChoice(k, xs, ys);
  }
}
