/** Genesis maxvalid-bg chain selection, when it can thrash, and its agreement
    with the fork choice that `add_block` applies incrementally. */
module MaxvalidBg {
  import opened Words
  import opened BlockTree
  import opened ForkChoice

  datatype ChainPreference = KeepLocal | AdoptCandidate

  function CommonPrefixLen(a: seq<ChainEntry>, b: seq<ChainEntry>): (n: nat)
    ensures n <= |a| && n <= |b|
    ensures forall i :: 0 <= i < n ==> a[i].hash == b[i].hash
    ensures n < |a| && n < |b| ==> a[n].hash != b[n].hash
  {
    if a != [] && b != [] && a[0].hash == b[0].hash then 1 + CommonPrefixLen(a[1..], b[1..]) else 0
  }

  /** Number of entries whose slot lies in (lo, hi]. */
  function Density(chain: seq<ChainEntry>, lo: U64, hi: U64): (n: nat)
    ensures n <= |chain|
  {
    if chain == [] then 0
    else (if lo < chain[0].slot <= hi then 1 else 0) + Density(chain[1..], lo, hi)
  }

  /** The positions from `from` on whose slot lies in (lo, hi]. */
  ghost function InWindow(chain: seq<ChainEntry>, from: nat, lo: int, hi: int): set<nat> {
    set i: nat | from <= i < |chain| && lo < chain[i].slot <= hi
  }

  /** Density counts them. */
  lemma {:induction false} DensityCounts(chain: seq<ChainEntry>, from: nat, lo: U64, hi: U64)
    requires from <= |chain|
    ensures Density(chain[from..], lo, hi) == |InWindow(chain, from, lo, hi)|
    decreases |chain| - from
  {
    if from == |chain| {
      assert InWindow(chain, from, lo, hi) == {};
    } else {
      DensityCounts(chain, from + 1, lo, hi);
      assert chain[from..][1..] == chain[from + 1..];
      var later := InWindow(chain, from + 1, lo, hi);
      assert InWindow(chain, from, lo, hi) == if lo < chain[from].slot <= hi then later + {from} else later;
    }
  }

  function LongerChain(local: seq<ChainEntry>, candidate: seq<ChainEntry>): ChainPreference {
    if |candidate| > |local| then AdoptCandidate
    else if |candidate| < |local| then KeepLocal
    else if |candidate| > 0 && candidate[|candidate| - 1].hash < local[|local| - 1].hash then AdoptCandidate
    else KeepLocal
  }

  function MaxvalidBg(local: seq<ChainEntry>, candidate: seq<ChainEntry>, k: U64, s: U64): ChainPreference {
    var common := CommonPrefixLen(local, candidate);
    if common == 0 then KeepLocal
    else if |local| - common <= k then LongerChain(local, candidate)
    else
      var forkSlot := local[common - 1].slot;
      var windowEnd := SatAdd64(forkSlot, s);
      if Density(candidate[common..], forkSlot, windowEnd) > Density(local[common..], forkSlot, windowEnd)
      then AdoptCandidate else KeepLocal
  }

  // ----- when two nodes would swap chains -----

  lemma {:induction false} CommonPrefixSymmetric(a: seq<ChainEntry>, b: seq<ChainEntry>)
    ensures CommonPrefixLen(a, b) == CommonPrefixLen(b, a)
  {
    if a != [] && b != [] {
      CommonPrefixSymmetric(a[1..], b[1..]);
    }
  }

  /** How many blocks a chain has after the fork, within `s` slots of it. */
  ghost function ForkDensity(chain: seq<ChainEntry>, common: nat, forkSlot: U64, s: U64): nat {
    |InWindow(chain, common, forkSlot, Min(forkSlot + s, U64_MAX))|
  }

  lemma DensityIsForkDensity(chain: seq<ChainEntry>, common: nat, forkSlot: U64, s: U64)
    requires common <= |chain|
    ensures Density(chain[common..], forkSlot, SatAdd64(forkSlot, s)) == ForkDensity(chain, common, forkSlot, s)
  {
    DensityCounts(chain, common, forkSlot, SatAdd64(forkSlot, s));
  }

  /** The candidate is adopted exactly when the chains share a block and, on a fork at most k
      deep, it is longer or as long with the lower tip hash, and on a deeper one it has more
      blocks within s slots after the fork. */
  lemma MaxvalidBgExactly(local: seq<ChainEntry>, candidate: seq<ChainEntry>, k: U64, s: U64)
    ensures var c := CommonPrefixLen(local, candidate);
            MaxvalidBg(local, candidate, k, s).AdoptCandidate?
            <==> c > 0
                 && if |local| - c <= k
                    then |candidate| > |local|
                         || (|candidate| == |local|
                             && candidate[|candidate| - 1].hash < local[|local| - 1].hash)
                    else ForkDensity(candidate, c, local[c - 1].slot, s) > ForkDensity(local, c, local[c - 1].slot, s)
  {
    var c := CommonPrefixLen(local, candidate);
    if c > 0 {
      DensityIsForkDensity(candidate, c, local[c - 1].slot, s);
      DensityIsForkDensity(local, c, local[c - 1].slot, s);
    }
  }

  /** Two nodes prefer each other's chain exactly when one side of the fork is
      at most `k` long, the other longer, and the short side is denser. */
  lemma {:induction false} MutualAdoptionExactly(a: seq<ChainEntry>, b: seq<ChainEntry>, k: U64, s: U64)
    requires forall i, j :: 0 <= i < |a| && 0 <= j < |b| && a[i].hash == b[j].hash ==> a[i] == b[j]
    ensures (MaxvalidBg(a, b, k, s).AdoptCandidate? && MaxvalidBg(b, a, k, s).AdoptCandidate?)
            <==> var c := CommonPrefixLen(a, b);
                 c > 0
                 && ((|a| - c <= k < |b| - c
                      && ForkDensity(a, c, a[c - 1].slot, s) > ForkDensity(b, c, a[c - 1].slot, s))
                     || (|b| - c <= k < |a| - c
                         && ForkDensity(b, c, a[c - 1].slot, s) > ForkDensity(a, c, a[c - 1].slot, s)))
  {
    CommonPrefixSymmetric(a, b);
    var c := CommonPrefixLen(a, b);
    if c > 0 { assert a[c - 1] == b[c - 1]; }
    MaxvalidBgExactly(a, b, k, s);
    MaxvalidBgExactly(b, a, k, s);
  }

  /** With k = 1 and s = 10, one block at slot 5 against two blocks at slots 20
      and 30: each side adopts the other. */
  lemma MutualAdoptionHappens()
    ensures exists a, b :: MaxvalidBg(a, b, 1, 10).AdoptCandidate? && MaxvalidBg(b, a, 1, 10).AdoptCandidate?
  {
    var x, y, z := ChainEntry(1, 0, 1, 5, 0), ChainEntry(2, 0, 1, 20, 0), ChainEntry(3, 2, 2, 30, 0);
    var a, b := [GENESIS, x], [GENESIS, y, z];
    assert a[1..] == [x] && b[1..] == [y, z] && b[1..][1..] == [z];
    assert Density([z], 0, 10) == 0;
    assert Density(b[1..], 0, 10) == 0;
    assert Density(a[1..], 0, 10) == 1;
    assert MaxvalidBg(a, b, 1, 10).AdoptCandidate?;
    assert MaxvalidBg(b, a, 1, 10).AdoptCandidate?;
  }

  // ----- add_block is maxvalid-bg -----

  /** Finality keeps every fork that can be offered at most `k` blocks deep. */
  lemma ForkIsShallow(c: Chain, p: seq<ChainEntry>)
    requires Inv(c) && c.finalHash in c.entries && Path(c.entries, c.finalHash) <= p
    ensures var local := Path(c.entries, c.tip);
            var common := CommonPrefixLen(local, p);
            common > 0 && |local| - common <= c.k
  {
    FinalIsAncestorOfTip(c);
    var local, final := Path(c.entries, c.tip), Path(c.entries, c.finalHash);
    assert forall i :: 0 <= i <= c.finalHeight ==> local[i] == final[i] == p[i];
    assert CommonPrefixLen(local, p) > c.finalHeight;
  }

  lemma LongerChainIsTipRule(c: Chain, e: ChainEntry, candidate: seq<ChainEntry>)
    requires Inv(c) && |candidate| == e.height + 1 && candidate[e.height] == e && e.hash !in c.entries
    ensures BecomesTip(c, e) <==> LongerChain(Path(c.entries, c.tip), candidate).AdoptCandidate?
  {
    assert Placed(c.entries, c.tip);
  }

  lemma ShallowForkTakesLonger(local: seq<ChainEntry>, candidate: seq<ChainEntry>, k: U64, s: U64)
    requires var common := CommonPrefixLen(local, candidate); common > 0 && |local| - common <= k
    ensures MaxvalidBg(local, candidate, k, s) == LongerChain(local, candidate)
  {
  }

  /** For every accepted block and every window, the incremental rule switches
      exactly when maxvalid-bg prefers the new block's chain to the local one. */
  lemma AddBlockIsMaxvalidBg(c: Chain, e: ChainEntry, s: U64)
    requires Inv(c) && Validated(c, e) && AddBlock(c, e).0.Ok?
    ensures e.hash in AddBlock(c, e).1.entries && WellFormed(AddBlock(c, e).1.entries)
    ensures AddBlock(c, e).0 == Ok(true) <==>
            MaxvalidBg(Path(c.entries, c.tip), Path(AddBlock(c, e).1.entries, e.hash), c.k, s).AdoptCandidate?
  {
    AcceptedDescendsFromFinal(c, e);
    var es := c.entries[e.hash := e];
    assert AddBlock(c, e).1.entries == es;
    var candidate := Path(es, e.hash);
    ForkIsShallow(c, candidate);
    ShallowForkTakesLonger(Path(c.entries, c.tip), candidate, c.k, s);
    LongerChainIsTipRule(c, e, candidate);
  }
}
