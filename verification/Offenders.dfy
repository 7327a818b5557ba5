/** Which block trees leave the proven offenders to the order in which blocks arrive. */
module Offenders {
  import opened Words
  import opened BlockTree
  import opened ForkChoice
  import opened MaxvalidBg
  import opened Agreement
  import opened ArrivalOrder

  // ----- what is not held is outrun by the tip -----

  /** A later tip on the finalized path of an outrunning one outruns as well. */
  lemma OutrunPersists(es: Entries, k: U64, x: Digest, y: Digest, e: Digest)
    requires WellFormed(es) && x in es && y in es && e in es
    requires Outruns(es, k, x, e) && es[y].height >= es[x].height
    requires Path(es, x)[..Max(0, es[x].height - k) + 1] <= Path(es, y)
    ensures Outruns(es, k, y, e)
  {
    var n := Common(es, x, e);
    assert Path(es, x)[..Max(0, es[x].height - k) + 1][n] == Path(es, x)[n];
    CommonIsExact(es, x, e, n);
    CommonIsExact(es, y, e, n);
  }

  /** The tip of a later state is no lower and keeps the finalized path. */
  lemma GrowthMovesTip(c: Chain, d: Chain)
    requires Inv(c) && Inv(d) && FinalGrows(c, d)
    ensures c.tip in d.entries && d.entries[d.tip].height >= c.entries[c.tip].height
    ensures Path(c.entries, c.tip)[..Max(0, c.entries[c.tip].height - c.k) + 1] <= Path(d.entries, d.tip)
  {
    FinalIsAncestorOfTip(c);
    FinalIsAncestorOfTip(d);
    assert AtLeastAsGood(d.entries, d.tip, c.tip);
    assert |Path(d.entries, c.tip)| == |Path(c.entries, c.tip)|;
  }

  lemma StillOutrun(es: Entries, c: Chain, d: Chain, e: Digest)
    requires Inv(c) && Inv(d) && d.k == c.k && FinalGrows(c, d)
    requires SubTree(c.entries, es) && SubTree(d.entries, es)
    requires c.tip in es && e in es && Outruns(es, c.k, c.tip, e)
    ensures d.tip in es && Outruns(es, d.k, d.tip, e)
  {
    GrowthMovesTip(c, d);
    PathUnchanged(c.entries, es, c.tip);
    PathUnchanged(d.entries, es, d.tip);
    OutrunPersists(es, c.k, c.tip, d.tip, e);
  }

  lemma RefusalChangesNothing(c: Chain, e: ChainEntry)
    requires Inv(c) && e.hash !in Offer(c, e).entries
    ensures Offer(c, e) == c
  {
  }

  lemma NowOutrun(es: Entries, c: Chain, e: ChainEntry)
    requires Inv(c) && SubTree(c.entries, es) && BlockOf(es, e) && e.hash !in Offer(c, e).entries
    requires c.tip in es && e.parentHash in es
    requires e.parentHash in c.entries || Outruns(es, c.k, c.tip, e.parentHash)
    ensures Outruns(es, c.k, c.tip, e.hash) && Offer(c, e) == c
  {
    RefusalChangesNothing(c, e);
    if e.parentHash in c.entries {
      RefusedOnlyWhenOutrun(es, c, e);
    } else {
      ChildIsOutrun(es, c.k, c.tip, e.hash);
    }
  }

  lemma PrefixIsSubTree(es: Entries, k: U64, xs: seq<ChainEntry>)
    requires WellFormed(es) && ParentFirst(es, xs) && xs != []
    ensures ParentFirst(es, xs[..|xs| - 1])
    ensures SubTree(Run(k, xs[..|xs| - 1]).entries, es) && SubTree(Run(k, xs).entries, es)
  {
    FrontIsParentFirst(es, xs);
    RunIsSubTree(es, k, xs);
    RunIsSubTree(es, k, xs[..|xs| - 1]);
  }

  /** After any parent-first run, every offered block that is not held is outrun by the tip. */
  lemma {:induction false} UnheldIsOutrun(es: Entries, k: U64, xs: seq<ChainEntry>, e: ChainEntry)
    requires WellFormed(es) && ParentFirst(es, xs) && e in xs && BlockOf(es, e) && e.hash !in Run(k, xs).entries
    ensures Run(k, xs).tip in es && Outruns(es, k, Run(k, xs).tip, e.hash)
    decreases |xs|
  {
    var n := |xs| - 1;
    var front := xs[..n];
    PrefixIsSubTree(es, k, xs);
    var c := Run(k, front);
    assert c.tip in c.entries;
    StepExtendsFinal(c, xs[n]);
    if e in front {
      UnheldIsOutrun(es, k, front, e);
      StillOutrun(es, c, Run(k, xs), e.hash);
    } else {
      assert e == xs[n] && ParentSeen(xs, n) && Placed(es, e.hash);
      if e.parentHash !in c.entries {
        var j :| 0 <= j < n && xs[j].hash == e.parentHash;
        assert BlockOf(es, xs[j]) && front[j] == xs[j];
        UnheldIsOutrun(es, k, front, xs[j]);
      }
      NowOutrun(es, c, e);
    }
  }

  // ----- two held blocks never make a deep fork -----

  /** What lies k blocks below a held block is final. */
  ghost predicate DeepIsFinal(c: Chain, a: Digest)
    requires WellFormed(c.entries) && a in c.entries && c.finalHash in c.entries
  {
    Path(c.entries, a)[..Max(0, c.entries[a].height - c.k) + 1] <= Path(c.entries, c.finalHash)
  }

  ghost predicate AllDeepFinal(c: Chain)
    requires WellFormed(c.entries) && c.finalHash in c.entries
  {
    forall a {:trigger DeepIsFinal(c, a)} :: a in c.entries ==> DeepIsFinal(c, a)
  }

  lemma OldDeepStaysFinal(c: Chain, d: Chain, a: Digest)
    requires WellFormed(c.entries) && FinalGrows(c, d) && d.k == c.k && a in c.entries && DeepIsFinal(c, a)
    ensures DeepIsFinal(d, a)
  {
    assert Path(d.entries, a) == Path(c.entries, a);
  }

  lemma CutIsPrefix<T>(p: seq<T>, q: seq<T>, r: seq<T>, n: nat)
    requires n <= |p| && p <= q && p <= r
    ensures q[..n] <= r
  {
    assert q[..n] == p[..n];
  }

  lemma NewDeepIsFinal(c: Chain, d: Chain, a: Digest)
    requires Inv(c) && Inv(d) && d.k == c.k && FinalGrows(c, d) && a in d.entries
    requires d.tip == a || (c.entries[c.tip].height >= d.entries[a].height
                            && Path(c.entries, c.finalHash) <= Path(d.entries, a))
    ensures DeepIsFinal(d, a)
  {
    FinalIsAncestorOfTip(d);
    if d.tip != a {
      FinalIsAncestorOfTip(c);
      CutIsPrefix(Path(c.entries, c.finalHash), Path(d.entries, a), Path(d.entries, d.finalHash),
                  Max(0, d.entries[a].height - d.k) + 1);
    }
  }

  lemma AcceptedDeepIsFinal(c: Chain, e: ChainEntry)
    requires Inv(c) && Validated(c, e) && Rejection(c, e).None?
    ensures var d := Offer(c, e);
            Inv(d) && d.entries == c.entries[e.hash := e] && d.finalHash in d.entries && DeepIsFinal(d, e.hash)
  {
    AcceptedDescendsFromFinal(c, e);
    StepExtendsFinal(c, e);
    assert Offer(c, e).tip == if BecomesTip(c, e) then e.hash else c.tip;
    NewDeepIsFinal(c, Offer(c, e), e.hash);
  }

  lemma StepKeepsDeepFinal(c: Chain, e: ChainEntry)
    requires Inv(c) && c.finalHash in c.entries && AllDeepFinal(c)
    ensures Offer(c, e).finalHash in Offer(c, e).entries && AllDeepFinal(Offer(c, e))
  {
    var d := Offer(c, e);
    StepExtendsFinal(c, e);
    if Validated(c, e) && Rejection(c, e).None? {
      AcceptedDeepIsFinal(c, e);
      forall a | a in d.entries ensures DeepIsFinal(d, a) {
        if a != e.hash {
          assert DeepIsFinal(c, a);
          OldDeepStaysFinal(c, d, a);
        }
      }
    }
  }

  lemma {:induction false} HeldDeepIsFinal(k: U64, blocks: seq<ChainEntry>)
    ensures Run(k, blocks).finalHash in Run(k, blocks).entries && AllDeepFinal(Run(k, blocks))
  {
    if blocks == [] {
      FinalIsAncestorOfTip(Run(k, blocks));
      assert DeepIsFinal(Run(k, blocks), ZERO);
    } else {
      HeldDeepIsFinal(k, blocks[..|blocks| - 1]);
      StepKeepsDeepFinal(Run(k, blocks[..|blocks| - 1]), blocks[|blocks| - 1]);
    }
  }

  lemma DeepOnPath(es: Entries, k: U64, a: Digest, path: seq<ChainEntry>, n: nat)
    requires WellFormed(es) && a in es && n + k <= es[a].height
    requires Path(es, a)[..Max(0, es[a].height - k) + 1] <= path
    ensures n < |path| && path[n] == Path(es, a)[n]
  {
  }

  /** Two blocks whose deep ancestors lie on one path are not a deep fork. */
  lemma OnePathNoDeepFork(es: Entries, k: U64, a: Digest, b: Digest, path: seq<ChainEntry>)
    requires WellFormed(es) && a in es && b in es
    requires Path(es, a)[..Max(0, es[a].height - k) + 1] <= path
    requires Path(es, b)[..Max(0, es[b].height - k) + 1] <= path
    ensures !DeepFork(es, k, a, b)
  {
    if DeepFork(es, k, a, b) {
      var n := Common(es, a, b);
      DeepOnPath(es, k, a, path, n);
      DeepOnPath(es, k, b, path, n);
      CommonIsExact(es, a, b, n);
      assert false;
    }
  }

  lemma HeldIsDeepFinal(k: U64, xs: seq<ChainEntry>, a: Digest)
    requires a in Run(k, xs).entries
    ensures Run(k, xs).finalHash in Run(k, xs).entries && DeepIsFinal(Run(k, xs), a)
  {
    HeldDeepIsFinal(k, xs);
  }

  lemma HeldDeepInTree(es: Entries, c: Chain, a: Digest)
    requires SubTree(c.entries, es) && a in c.entries && c.finalHash in c.entries && DeepIsFinal(c, a)
    ensures a in es && Path(es, a)[..Max(0, es[a].height - c.k) + 1] <= Path(c.entries, c.finalHash)
  {
    PathUnchanged(c.entries, es, a);
  }

  lemma HeldPairIsShallow(es: Entries, k: U64, xs: seq<ChainEntry>, a: Digest, b: Digest)
    requires WellFormed(es) && ParentFirst(es, xs) && a in Run(k, xs).entries && b in Run(k, xs).entries
    ensures a in es && b in es && !DeepFork(es, k, a, b)
  {
    var c := Run(k, xs);
    RunIsSubTree(es, k, xs);
    HeldIsDeepFinal(k, xs, a);
    HeldIsDeepFinal(k, xs, b);
    HeldDeepInTree(es, c, a);
    HeldDeepInTree(es, c, b);
    OnePathNoDeepFork(es, k, a, b, Path(c.entries, c.finalHash));
  }

  // ----- two blocks without a deep fork can be held together -----

  lemma AncestorDoesNotOutrun(es: Entries, k: U64, x: Digest, e: Digest)
    requires WellFormed(es) && x in es && e in es && Path(es, x) <= Path(es, e)
    ensures !Outruns(es, k, x, e)
  {
    CommonIsExact(es, x, e, es[x].height);
  }

  lemma ConcatIsParentFirst(es: Entries, xs: seq<ChainEntry>, ys: seq<ChainEntry>)
    requires ParentFirst(es, xs) && ParentFirst(es, ys)
    ensures ParentFirst(es, xs + ys)
  {
    var zs := xs + ys;
    forall i | 0 <= i < |zs| ensures BlockOf(es, zs[i]) && ParentSeen(zs, i) {
      if i < |xs| {
        assert BlockOf(es, xs[i]) && ParentSeen(xs, i);
        if xs[i].parentHash != ZERO {
          var j :| 0 <= j < i && xs[j].hash == xs[i].parentHash;
          assert zs[j].hash == zs[i].parentHash;
        }
      } else {
        var m := i - |xs|;
        assert BlockOf(es, ys[m]) && ParentSeen(ys, m);
        if ys[m].parentHash != ZERO {
          var j :| 0 <= j < m && ys[j].hash == ys[m].parentHash;
          assert zs[|xs| + j].hash == zs[i].parentHash;
        }
      }
    }
  }

  lemma OnWay(es: Entries, a: Digest, x: Digest)
    requires WellFormed(es) && a in es && x in es && x != ZERO && es[x] in Way(es, a)
    ensures Path(es, x) <= Path(es, a)
  {
    var i :| 0 <= i < |Way(es, a)| && Way(es, a)[i] == es[x];
    PathPrefix(es, a, i + 1);
    assert Placed(es, x);
  }

  /** Nothing on the way to a block at most k past the fork outruns the other one. */
  lemma WayDoesNotOutrun(es: Entries, k: U64, a: Digest, b: Digest, x: Digest)
    requires WellFormed(es) && a in es && b in es && x in es
    requires es[a].height < Common(es, a, b) + k && Path(es, x) <= Path(es, a)
    ensures !Outruns(es, k, x, b)
  {
    var n := Min(es[x].height + 1, Common(es, a, b));
    CommonIsExact(es, a, b, n - 1);
    CommonIsExact(es, x, b, n - 1);
  }

  lemma SafeAmongWays(es: Entries, k: U64, a: Digest, b: Digest)
    requires WellFormed(es) && a in es && b in es && es[a].height < Common(es, a, b) + k
    ensures SafeAmong(es, k, Way(es, a) + Way(es, b), b)
  {
    forall x | x in es && (x == ZERO || es[x] in Way(es, a) + Way(es, b)) ensures !Outruns(es, k, x, b) {
      if x == ZERO {
        AncestorDoesNotOutrun(es, k, x, b);
      } else if es[x] in Way(es, a) {
        OnWay(es, a, x);
        WayDoesNotOutrun(es, k, a, b, x);
      } else {
        OnWay(es, b, x);
        AncestorDoesNotOutrun(es, k, x, b);
      }
    }
  }

  lemma WayIsHeld(es: Entries, k: U64, a: Digest, more: seq<ChainEntry>)
    requires WellFormed(es) && a in es
    ensures a in Run(k, Way(es, a) + more).entries
  {
    var way := Way(es, a);
    WayIsBranch(es, a);
    BranchIsAdopted(k, way);
    assert (way + more)[..|way|] == way;
    FinalityIsMonotone(k, way + more, |way|);
    assert Placed(es, a);
    if way != [] { assert way[|way| - 1] == es[a]; }
  }

  lemma HeldStaysHeld(k: U64, xs: seq<ChainEntry>, more: seq<ChainEntry>, h: Digest)
    requires h in Run(k, xs).entries
    ensures h in Run(k, xs + more).entries
  {
    assert (xs + more)[..|xs|] == xs;
    FinalityIsMonotone(k, xs + more, |xs|);
  }

  lemma WaysAreParentFirst(es: Entries, a: Digest, b: Digest)
    requires WellFormed(es) && a in es && b in es
    ensures ParentFirst(es, Way(es, a) + Way(es, b))
  {
    WayIsBranch(es, a);
    WayIsBranch(es, b);
    ConcatIsParentFirst(es, Way(es, a), Way(es, b));
  }

  lemma WaysContain(es: Entries, a: Digest, b: Digest)
    requires WellFormed(es) && a in es && b in es && b != ZERO
    ensures BlockOf(es, es[b]) && es[b].hash == b && es[b] in Way(es, a) + Way(es, b)
  {
    BlockOnOwnWay(es, b);
    var i :| 0 <= i < |Way(es, b)| && Way(es, b)[i] == es[b];
    assert (Way(es, a) + Way(es, b))[|Way(es, a)| + i] == es[b];
    assert Placed(es, b);
  }

  lemma SecondWayIsHeld(es: Entries, k: U64, a: Digest, b: Digest, ways: seq<ChainEntry>)
    requires WellFormed(es) && a in es && b in es && b != ZERO && es[a].height < Common(es, a, b) + k
    requires ways == Way(es, a) + Way(es, b) && ParentFirst(es, ways) && SafeAmong(es, k, ways, b)
    ensures b in Run(k, ways).entries
  {
    WaysContain(es, a, b);
    SafeAmongIsKept(es, k, ways, es[b]);
  }

  lemma WaysHoldBoth(es: Entries, k: U64, a: Digest, b: Digest)
    requires WellFormed(es) && a in es && b in es && es[a].height < Common(es, a, b) + k
    ensures var c := Run(k, Way(es, a) + Way(es, b)); a in c.entries && b in c.entries
  {
    WayIsHeld(es, k, a, Way(es, b));
    if b != ZERO {
      WaysAreParentFirst(es, a, b);
      SafeAmongWays(es, k, a, b);
      SecondWayIsHeld(es, k, a, b, Way(es, a) + Way(es, b));
    }
  }

  lemma LowerWayFirst(es: Entries, k: U64, a: Digest, b: Digest) returns (xs: seq<ChainEntry>)
    requires WellFormed(es) && a in es && b in es && es[a].height < Common(es, a, b) + k
    ensures Order(es, xs) && a in Run(k, xs).entries && b in Run(k, xs).entries
  {
    WaysAreParentFirst(es, a, b);
    WaysHoldBoth(es, k, a, b);
    var ways := Way(es, a) + Way(es, b);
    var more := Complete(es, ways);
    xs := ways + more;
    HeldStaysHeld(k, ways, more, a);
    HeldStaysHeld(k, ways, more, b);
  }

  lemma BlockOnOwnWay(es: Entries, b: Digest)
    requires WellFormed(es) && b in es && b != ZERO
    ensures es[b] in Way(es, b) && BlockOf(es, es[b])
  {
    assert Placed(es, b);
    assert Way(es, b)[|Way(es, b)| - 1] == es[b];
  }

  lemma ShallowPairIsHeld(es: Entries, k: U64, a: Digest, b: Digest) returns (xs: seq<ChainEntry>)
    requires WellFormed(es) && a in es && b in es && !DeepFork(es, k, a, b)
    ensures Order(es, xs) && a in Run(k, xs).entries && b in Run(k, xs).entries
  {
    if es[a].height < Common(es, a, b) + k {
      xs := LowerWayFirst(es, k, a, b);
    } else {
      CommonPrefixSymmetric(Path(es, a), Path(es, b));
      xs := LowerWayFirst(es, k, b, a);
    }
  }

  // ----- when an offender is proven -----

  /** Two blocks of the tree by one producer in one slot. */
  ghost predicate Twins(es: Entries, key: SlotKey, a: Digest, b: Digest) {
    a in es && b in es && SamePair(es, a, b) && KeyOf(es[a]) == key
  }

  lemma ProvenWhenTwinsHeld(es: Entries, k: U64, xs: seq<ChainEntry>, key: SlotKey, a: Digest, b: Digest)
    requires WellFormed(es) && ParentFirst(es, xs) && Twins(es, key, a, b)
    requires a in Run(k, xs).entries && b in Run(k, xs).entries
    ensures key in Run(k, xs).equivocations
  {
    RunIsSubTree(es, k, xs);
    RunKeepsEvidence(k, xs);
    assert SamePair(Run(k, xs).entries, a, b);
  }

  lemma ProofHasTwins(es: Entries, k: U64, xs: seq<ChainEntry>, key: SlotKey) returns (a: Digest, b: Digest)
    requires WellFormed(es) && ParentFirst(es, xs) && key in Run(k, xs).equivocations
    ensures Twins(es, key, a, b) && a in Run(k, xs).entries && b in Run(k, xs).entries
  {
    var c := Run(k, xs);
    RunIsSubTree(es, k, xs);
    RunKeepsEvidence(k, xs);
    assert ProofIsSound(c, key, c.equivocations[key]);
    a, b := c.equivocations[key].first, c.equivocations[key].second;
  }

  ghost predicate SometimesProven(es: Entries, k: U64, key: SlotKey) {
    exists xs :: Order(es, xs) && key in Run(k, xs).equivocations
  }

  /** Some pair of twins is not a deep fork. */
  ghost predicate Provable(es: Entries, k: U64, key: SlotKey)
    requires WellFormed(es)
  {
    exists a, b :: Twins(es, key, a, b) && !DeepFork(es, k, a, b)
  }

  /** Some parent-first order of the tree proves an offender if and only if two of its twin blocks
      are not both more than k blocks past their fork. */
  lemma SometimesProvenExactly(es: Entries, k: U64, key: SlotKey)
    requires WellFormed(es)
    ensures SometimesProven(es, k, key) <==> Provable(es, k, key)
  {
    if SometimesProven(es, k, key) {
      var xs :| Order(es, xs) && key in Run(k, xs).equivocations;
      var a, b := ProofHasTwins(es, k, xs, key);
      HeldPairIsShallow(es, k, xs, a, b);
    }
    if Provable(es, k, key) {
      var a, b :| Twins(es, key, a, b) && !DeepFork(es, k, a, b);
      var xs := ShallowPairIsHeld(es, k, a, b);
      ProvenWhenTwinsHeld(es, k, xs, key, a, b);
    }
  }

  ghost predicate AlwaysProven(es: Entries, k: U64, key: SlotKey) {
    forall xs :: Order(es, xs) ==> key in Run(k, xs).equivocations
  }

  /** Some pair of twins is not outrun by x. */
  ghost predicate TwinsSurvive(es: Entries, k: U64, key: SlotKey, x: Digest)
    requires WellFormed(es) && x in es
  {
    exists a, b :: Twins(es, key, a, b) && !Outruns(es, k, x, a) && !Outruns(es, k, x, b)
  }

  /** Whatever block comes out ahead, a pair of twins survives it. */
  ghost predicate Unavoidable(es: Entries, k: U64, key: SlotKey)
    requires WellFormed(es)
  {
    forall x {:trigger TwinsSurvive(es, k, key, x)} :: x in es ==> TwinsSurvive(es, k, key, x)
  }

  lemma SurvivorIsHeld(es: Entries, k: U64, xs: seq<ChainEntry>, a: Digest)
    requires WellFormed(es) && Order(es, xs) && a in es && a != ZERO
    requires Run(k, xs).tip in es && !Outruns(es, k, Run(k, xs).tip, a)
    ensures a in Run(k, xs).entries
  {
    assert Placed(es, a) && es[a] in xs;
    if a !in Run(k, xs).entries {
      UnheldIsOutrun(es, k, xs, es[a]);
      assert false;
    }
  }

  lemma SurvivorsAreProven(es: Entries, k: U64, key: SlotKey, xs: seq<ChainEntry>)
    requires WellFormed(es) && Order(es, xs) && Run(k, xs).tip in es && TwinsSurvive(es, k, key, Run(k, xs).tip)
    ensures key in Run(k, xs).equivocations
  {
    var t := Run(k, xs).tip;
    var a, b :| Twins(es, key, a, b) && !Outruns(es, k, t, a) && !Outruns(es, k, t, b);
    SurvivorIsHeld(es, k, xs, a);
    SurvivorIsHeld(es, k, xs, b);
    ProvenWhenTwinsHeld(es, k, xs, key, a, b);
  }

  lemma UnavoidableIsProven(es: Entries, k: U64, key: SlotKey, xs: seq<ChainEntry>)
    requires WellFormed(es) && Order(es, xs) && Unavoidable(es, k, key)
    ensures key in Run(k, xs).equivocations
  {
    RunIsSubTree(es, k, xs);
    assert Run(k, xs).tip in Run(k, xs).entries;
    SurvivorsAreProven(es, k, key, xs);
  }

  /** An order that starts with a block no pair of twins survives does not prove the offender. */
  lemma AvoidProof(es: Entries, k: U64, key: SlotKey, x: Digest) returns (xs: seq<ChainEntry>)
    requires WellFormed(es) && x in es && !TwinsSurvive(es, k, key, x)
    ensures Order(es, xs) && key !in Run(k, xs).equivocations
  {
    WayIsBranch(es, x);
    var more := Complete(es, Way(es, x));
    xs := Way(es, x) + more;
    if key in Run(k, xs).equivocations {
      var a, b := ProofHasTwins(es, k, xs, key);
      if Outruns(es, k, x, a) { OutrunIsRefused(es, k, x, a, more); }
      if Outruns(es, k, x, b) { OutrunIsRefused(es, k, x, b, more); }
      assert false;
    }
  }

  /** Every parent-first order proves an offender if and only if, for every block of the tree, two
      of the offender's twin blocks are not outrun by it. */
  lemma AlwaysProvenExactly(es: Entries, k: U64, key: SlotKey)
    requires WellFormed(es)
    ensures AlwaysProven(es, k, key) <==> Unavoidable(es, k, key)
  {
    if Unavoidable(es, k, key) {
      forall xs | Order(es, xs) ensures key in Run(k, xs).equivocations {
        UnavoidableIsProven(es, k, key, xs);
      }
    } else {
      var x :| x in es && !TwinsSurvive(es, k, key, x);
      var xs := AvoidProof(es, k, key, x);
    }
  }

  ghost predicate OffendersAgree(es: Entries, k: U64) {
    forall xs, ys :: Order(es, xs) && Order(es, ys)
      ==> Run(k, xs).equivocations.Keys == Run(k, ys).equivocations.Keys
  }

  lemma AgreementIsAllOrNone(es: Entries, k: U64, key: SlotKey)
    requires WellFormed(es) && OffendersAgree(es, k) && SometimesProven(es, k, key)
    ensures AlwaysProven(es, k, key)
  {
    var xs :| Order(es, xs) && key in Run(k, xs).equivocations;
    forall ys | Order(es, ys) ensures key in Run(k, ys).equivocations {
      assert key in Run(k, xs).equivocations.Keys;
    }
  }

  /** No offender can be both proven and avoided. */
  ghost predicate AllOrNone(es: Entries, k: U64)
    requires WellFormed(es)
  {
    forall key {:trigger Provable(es, k, key)} :: Provable(es, k, key) ==> Unavoidable(es, k, key)
  }

  /** All parent-first orders of a tree prove the same offenders if and only if every offender that
      can be proven at all cannot be avoided. */
  lemma OffendersAgreeExactly(es: Entries, k: U64)
    requires WellFormed(es)
    ensures OffendersAgree(es, k) <==> AllOrNone(es, k)
  {
    if OffendersAgree(es, k) {
      forall key | Provable(es, k, key) ensures Unavoidable(es, k, key) {
        SometimesProvenExactly(es, k, key);
        AgreementIsAllOrNone(es, k, key);
        AlwaysProvenExactly(es, k, key);
      }
    }
    if AllOrNone(es, k) {
      forall xs, ys | Order(es, xs) && Order(es, ys)
        ensures Run(k, xs).equivocations.Keys == Run(k, ys).equivocations.Keys
      {
        OffendersIncluded(es, k, xs, ys);
        OffendersIncluded(es, k, ys, xs);
      }
    }
  }

  lemma OffendersIncluded(es: Entries, k: U64, xs: seq<ChainEntry>, ys: seq<ChainEntry>)
    requires WellFormed(es) && Order(es, xs) && Order(es, ys)
    requires AllOrNone(es, k)
    ensures Run(k, xs).equivocations.Keys <= Run(k, ys).equivocations.Keys
  {
    forall key | key in Run(k, xs).equivocations ensures key in Run(k, ys).equivocations {
      SometimesProvenExactly(es, k, key);
      UnavoidableIsProven(es, k, key, ys);
    }
  }
}
