/** Agreement between nodes: what the arrival order of blocks can and cannot change. */
module Agreement {
  import opened Words
  import opened BlockTree
  import opened ForkChoice

  // ----- the same accepted blocks -----

  lemma SameEntriesSameChoice(c: Chain, d: Chain)
    requires Inv(c) && Inv(d) && c.k == d.k && c.entries == d.entries
    ensures c.tip == d.tip && c.finalHash == d.finalHash && c.finalHeight == d.finalHeight
  {
    assert AtLeastAsGood(c.entries, c.tip, d.tip);
    assert AtLeastAsGood(d.entries, d.tip, c.tip);
  }

  lemma SameEntriesSameOffenders(c: Chain, d: Chain)
    requires EvidenceIsExact(c) && EvidenceIsExact(d) && c.entries == d.entries
    ensures c.equivocations.Keys <= d.equivocations.Keys
  {
    forall key | key in c.equivocations ensures key in d.equivocations {
      assert ProofIsSound(c, key, c.equivocations[key]);
    }
  }

  /** Tip, finalized block and the set of proven offenders are functions of the
      accepted blocks alone: arrival order leaves no trace in them. */
  lemma SameBlocksSameChoice(k: U64, xs: seq<ChainEntry>, ys: seq<ChainEntry>)
    requires Run(k, xs).entries == Run(k, ys).entries
    ensures var c, d := Run(k, xs), Run(k, ys);
            && c.tip == d.tip && c.finalHash == d.finalHash && c.finalHeight == d.finalHeight
            && c.equivocations.Keys == d.equivocations.Keys
  {
    var c, d := Run(k, xs), Run(k, ys);
    SameEntriesSameChoice(c, d);
    RunKeepsEvidence(k, xs);
    RunKeepsEvidence(k, ys);
    SameEntriesSameOffenders(c, d);
    SameEntriesSameOffenders(d, c);
  }

  // ----- the same offered blocks -----

  ghost predicate Keeps(c: Chain, e: ChainEntry) { e.hash in c.entries && c.entries[e.hash] == e }

  ghost predicate HoldsOnly(c: Chain, blocks: seq<ChainEntry>) {
    forall h :: h in c.entries && h != ZERO ==> c.entries[h] in blocks
  }

  lemma {:induction false} RunHoldsOnlyOffered(k: U64, blocks: seq<ChainEntry>)
    ensures HoldsOnly(Run(k, blocks), blocks)
  {
    if blocks != [] {
      RunHoldsOnlyOffered(k, blocks[..|blocks| - 1]);
    }
  }

  lemma KeptBlocksAreHeld(k: U64, xs: seq<ChainEntry>, ys: seq<ChainEntry>)
    requires forall e :: e in xs ==> e in ys && Keeps(Run(k, ys), e)
    ensures var c, d := Run(k, xs), Run(k, ys);
            forall h :: h in c.entries ==> h in d.entries && d.entries[h] == c.entries[h]
  {
    var c, d := Run(k, xs), Run(k, ys);
    RunHoldsOnlyOffered(k, xs);
    forall h | h in c.entries ensures h in d.entries && d.entries[h] == c.entries[h] {
      assert Placed(c.entries, h);
      if h != ZERO { assert Keeps(d, c.entries[h]); }
    }
  }

  /** Two nodes offered the same blocks, in any orders and any number of times, that both
      kept all of them make the same choice. */
  lemma SameOffersSameChoice(k: U64, xs: seq<ChainEntry>, ys: seq<ChainEntry>)
    requires forall e :: e in xs <==> e in ys
    requires forall e :: e in xs ==> Keeps(Run(k, xs), e) && Keeps(Run(k, ys), e)
    ensures var c, d := Run(k, xs), Run(k, ys);
            && c.tip == d.tip && c.finalHash == d.finalHash && c.finalHeight == d.finalHeight
            && c.equivocations.Keys == d.equivocations.Keys
  {
    KeptBlocksAreHeld(k, xs, ys);
    KeptBlocksAreHeld(k, ys, xs);
    assert Run(k, xs).entries == Run(k, ys).entries;
    SameBlocksSameChoice(k, xs, ys);
  }

  /** A chain of valid blocks growing from genesis. */
  ghost predicate Branch(bs: seq<ChainEntry>) {
    forall i :: 0 <= i < |bs| ==> Sits(bs, i)
  }

  ghost predicate Sits(bs: seq<ChainEntry>, i: nat)
    requires i < |bs|
  {
    var parent := if i == 0 then GENESIS else bs[i - 1];
    && bs[i].hash != ZERO && (forall j :: 0 <= j < i ==> bs[j].hash != bs[i].hash)
    && bs[i].parentHash == parent.hash && bs[i].height == i + 1 && bs[i].slot > parent.slot
  }

  ghost predicate Climbed(c: Chain, bs: seq<ChainEntry>) {
    && Inv(c) && HoldsOnly(c, bs)
    && c.tip == (if bs == [] then GENESIS else bs[|bs| - 1]).hash
    && Path(c.entries, c.tip) == [GENESIS] + bs
  }

  lemma NextIsAccepted(c: Chain, bs: seq<ChainEntry>, e: ChainEntry)
    requires Climbed(c, bs) && Sits(bs + [e], |bs|)
    ensures Validated(c, e) && Linked(c.entries, e) && Rejection(c, e).None? && BecomesTip(c, e)
  {
    var es := c.entries;
    assert es[c.tip] == ([GENESIS] + bs)[|bs|];
    forall j | 0 <= j < |bs| ensures bs[j].hash != e.hash {
      assert (bs + [e])[j] == bs[j];
    }
    forall h | h in es ensures h != e.hash {
      assert Placed(es, h) && (h != ZERO ==> es[h] in bs);
    }
    FinalIsAncestorOfTip(c);
    AncestorIffPrefix(es, c.finalHash, e.parentHash);
  }

  lemma NextIsClimbed(c: Chain, bs: seq<ChainEntry>, e: ChainEntry)
    requires Climbed(c, bs) && Sits(bs + [e], |bs|)
    ensures Climbed(Offer(c, e), bs + [e])
  {
    NextIsAccepted(c, bs, e);
    InsertKeepsTree(c.entries, e);
    var d := Offer(c, e);
    assert d.entries == c.entries[e.hash := e] && d.tip == e.hash;
    assert Path(d.entries, d.tip) == [GENESIS] + (bs + [e]);
  }

  lemma FrontIsBranch(bs: seq<ChainEntry>)
    requires Branch(bs) && bs != []
    ensures var n := |bs| - 1; Branch(bs[..n]) && bs == bs[..n] + [bs[n]] && Sits(bs[..n] + [bs[n]], n)
  {
    var n := |bs| - 1;
    assert bs == bs[..n] + [bs[n]] && Sits(bs, n);
    forall i | 0 <= i < n ensures Sits(bs[..n], i) { assert Sits(bs, i); }
  }

  /** Offered alone, a branch of any length is kept whole and its top becomes the tip. */
  lemma {:induction false} BranchIsAdopted(k: U64, bs: seq<ChainEntry>)
    requires Branch(bs)
    ensures Climbed(Run(k, bs), bs)
  {
    if bs == [] {
      assert Path(Run(k, bs).entries, ZERO) == [GENESIS] + bs;
    } else {
      var n := |bs| - 1;
      FrontIsBranch(bs);
      BranchIsAdopted(k, bs[..n]);
      NextIsClimbed(Run(k, bs[..n]), bs[..n], bs[n]);
    }
  }

  /** The finalized block at a height. */
  ghost function FinalBlock(c: Chain, height: nat): ChainEntry
    requires Inv(c) && height <= c.finalHeight
  {
    Path(c.entries, c.tip)[height]
  }

  lemma FinalBlockStays(c: Chain, d: Chain, i: nat)
    requires Inv(c) && Inv(d) && FinalGrows(c, d) && i <= c.finalHeight
    ensures i <= d.finalHeight && FinalBlock(d, i) == FinalBlock(c, i)
  {
    FinalIsAncestorOfTip(c);
    FinalIsAncestorOfTip(d);
    assert Path(c.entries, c.finalHash)[i] == FinalBlock(c, i);
    assert Path(d.entries, d.finalHash)[i] == FinalBlock(d, i);
  }

  /** A branch finalizes all but its last k blocks for good, whatever is offered after it. */
  lemma DeepBranchIsFinal(k: U64, bs: seq<ChainEntry>, more: seq<ChainEntry>, i: nat)
    requires Branch(bs) && i + k < |bs|
    ensures var c := Run(k, bs + more); c.finalHeight > i && FinalBlock(c, i + 1) == bs[i]
  {
    assert (bs + more)[..|bs|] == bs;
    BranchIsAdopted(k, bs);
    FinalityIsMonotone(k, bs + more, |bs|);
    FinalBlockStays(Run(k, bs), Run(k, bs + more), i + 1);
  }

  /** Of two branches of any lengths that part after f common blocks, both more than k blocks
      past the fork, whichever is offered first is finalized there for good: whatever else the
      two nodes are offered, the other branch included, their finalized chains differ. */
  lemma FirstDeepBranchWins(k: U64, f: nat, xs: seq<ChainEntry>, ys: seq<ChainEntry>,
                            us: seq<ChainEntry>, vs: seq<ChainEntry>)
    requires Branch(xs) && Branch(ys) && f + k < |xs| && f + k < |ys| && xs[f] != ys[f]
    ensures var c, d := Run(k, xs + us), Run(k, ys + vs);
            c.finalHeight > f && d.finalHeight > f && FinalBlock(c, f + 1) != FinalBlock(d, f + 1)
  {
    DeepBranchIsFinal(k, xs, us, f);
    DeepBranchIsFinal(k, ys, vs, f);
  }
}
