/** Epoch stake snapshots: exact totals, and the leader thresholds they imply. */
module Stake {
  import opened Words
  import opened ModArith
  import opened Sorting
  import opened MapSums
  import opened Leader

  type PoolId = Digest

  datatype StakePool = StakePool(id: PoolId, pledge: U64, active: bool)
  datatype Delegation = Delegation(pool: PoolId, amount: U64)
  datatype StakeDistribution = StakeDistribution(epoch: U64, poolStakes: map<PoolId, U64>, totalStake: U64)
  datatype StakeError = Overflow

  // ----- StakeDistribution::new -----

  type Entry = (PoolId, U64)

  /** Everything listed for one pool, and for all pools. */
  function ListedFor(entries: seq<Entry>, p: PoolId): nat {
    if entries == [] then 0
    else ListedFor(entries[..|entries| - 1], p)
         + (if entries[|entries| - 1].0 == p then entries[|entries| - 1].1 else 0)
  }

  function Listed(entries: seq<Entry>): nat {
    if entries == [] then 0 else Listed(entries[..|entries| - 1]) + entries[|entries| - 1].1
  }

  lemma {:induction false} ListedForAtMost(entries: seq<Entry>, p: PoolId)
    ensures ListedFor(entries, p) <= Listed(entries)
  {
    if entries != [] { ListedForAtMost(entries[..|entries| - 1], p); }
  }

  lemma {:induction false} ListedGrows(entries: seq<Entry>, n: nat)
    requires n <= |entries|
    ensures Listed(entries[..n]) <= Listed(entries)
  {
    if n == |entries| {
      assert entries[..n] == entries;
    } else {
      var front := entries[..|entries| - 1];
      ListedGrows(front, n);
      assert front[..n] == entries[..n];
    }
  }

  /** Both are sums: of none zero, of one entry its amount, of two lists the sum of theirs. */
  lemma {:induction false} ListedIsSum(a: seq<Entry>, b: seq<Entry>, e: Entry, p: PoolId)
    ensures Listed([]) == 0 && Listed([e]) == e.1 && Listed(a + b) == Listed(a) + Listed(b)
    ensures ListedFor([], p) == 0 && ListedFor([e], p) == (if e.0 == p then e.1 else 0)
    ensures ListedFor(a + b, p) == ListedFor(a, p) + ListedFor(b, p)
    decreases |b|
  {
    assert [e][..0] == [];
    if b == [] {
      assert a + b == a;
    } else {
      ListedIsSum(a, b[..|b| - 1], e, p);
      assert (a + b)[..|a + b| - 1] == a + b[..|b| - 1];
    }
  }

  /** The map holds exactly the listed amounts of the pools that have any. */
  ghost predicate Holds(stakes: map<PoolId, U64>, entries: seq<Entry>) {
    forall p :: (p in stakes <==> ListedFor(entries, p) > 0) && (p in stakes ==> stakes[p] == ListedFor(entries, p))
  }

  /** Succeeds exactly when the grand total fits 64 bits; the saturating additions
      inside then never saturate. */
  method NewDistribution(epoch: U64, entries: seq<Entry>) returns (r: Result<StakeDistribution, StakeError>)
    ensures Listed(entries) > U64_MAX ==> r == Err(Overflow)
    ensures Listed(entries) <= U64_MAX ==>
              r.Ok? && r.value.epoch == epoch && r.value.totalStake == Listed(entries)
              && Holds(r.value.poolStakes, entries) && SumValues(r.value.poolStakes) == r.value.totalStake
  {
    var poolStakes: map<PoolId, U64> := map[];
    var total: U64 := 0;
    for i := 0 to |entries|
      invariant total == Listed(entries[..i]) == SumValues(poolStakes)
      invariant Holds(poolStakes, entries[..i])
    {
      var (pid, val) := entries[i];
      ghost var front := entries[..i];
      assert entries[..i + 1][..i] == front;
      ListedGrows(entries, i + 1);
      if val == 0 {
        continue;
      }
      ghost var before := poolStakes;
      ListedForAtMost(front, pid);
      ListedForAtMost(entries[..i + 1], pid);
      if total + val > U64_MAX {
        return Err(Overflow);
      }
      var updated: U64 := if pid in poolStakes then SatAdd64(poolStakes[pid], val) else val;
      SumUpdate(before, pid, updated);
      poolStakes := poolStakes[pid := updated];
      total := total + val;
    }
    assert entries[..|entries|] == entries;
    return Ok(StakeDistribution(epoch, poolStakes, total));
  }

  /** What `NewDistribution` guarantees of every distribution it returns. */
  ghost predicate Consistent(d: StakeDistribution) {
    SumValues(d.poolStakes) == d.totalStake
  }

  function PoolStake(d: StakeDistribution, p: PoolId): U64 {
    if p in d.poolStakes then d.poolStakes[p] else 0
  }

  function RelativeStake(d: StakeDistribution, p: PoolId): (U64, U64) {
    var s := PoolStake(d, p);
    if d.totalStake == 0 || s == 0 then (0, 1) else (s, d.totalStake)
  }

  /** A relative stake is the pool's part of the total, and meets the precondition of the
      leader check. */
  lemma RelativeStakeIsAPart(d: StakeDistribution, p: PoolId)
    requires Consistent(d)
    ensures var (num, den) := RelativeStake(d, p);
            && num <= den && den > 0
            && (if p in d.poolStakes && d.poolStakes[p] > 0 then num == d.poolStakes[p] && den == d.totalStake
                else num == 0 && den == 1)
  {
    if p in d.poolStakes { SumDominates(d.poolStakes, p); }
  }

  // ----- all thresholds together -----

  ghost function Thresholds(stakes: map<PoolId, U64>, total: U64): map<PoolId, int>
    requires total > 0
  {
    map p | p in stakes :: Threshold(stakes[p], total)
  }

  ghost predicate AtMost(t: int, s: int, l: int, total: int) { t * total <= s * l }

  lemma AtMostSum(t: int, s: int, x: int, y: int, l: int, total: int)
    requires AtMost(t, s, l, total) && AtMost(x, y, l, total)
    ensures AtMost(t + x, s + y, l, total)
  {
    DistributeLeft(total, t, x);
    DistributeLeft(l, s, y);
  }

  lemma ThresholdScaled(stake: U64, total: U64)
    requires stake <= total && total > 0
    ensures Threshold(stake, total) * total <= stake * LN_ONE_MINUS_F_MAG
  {
    ThresholdAtMostExponent(stake, total);
    FloorBounds(stake * LN_ONE_MINUS_F_MAG, total);
    MulMono(total, Threshold(stake, total), Exponent(stake, total));
  }

  /** A pointwise bound t * total <= s * l carries over to the sums. */
  lemma {:induction false} ScaledSums(ts: map<PoolId, int>, ss: map<PoolId, int>, l: int, total: int)
    requires ts.Keys == ss.Keys && forall p :: p in ts ==> AtMost(ts[p], ss[p], l, total)
    ensures AtMost(SumValues(ts), SumValues(ss), l, total)
    decreases |ts|
  {
    if ts.Keys == {} {
      assert ts == map[] && ss == map[];
      assert AtMost(0, 0, l, total);
    } else {
      var p :| p in ts.Keys;
      SumWithout(ts, p);
      SumWithout(ss, p);
      var us, vs := ts - {p}, ss - {p};
      forall q | q in us ensures AtMost(us[q], vs[q], l, total) { assert us[q] == ts[q] && vs[q] == ss[q]; }
      ScaledSums(us, vs, l, total);
      AtMostSum(ts[p], ss[p], SumValues(us), SumValues(vs), l, total);
    }
  }

  /** However the stake is split, all pools' thresholds together stay within the
      single constant |ln(1 - f)|. */
  lemma ThresholdsFitTheCoefficient(d: StakeDistribution)
    requires Consistent(d) && d.totalStake > 0
    ensures SumValues(Thresholds(d.poolStakes, d.totalStake)) <= LN_ONE_MINUS_F_MAG
  {
    var l, t := LN_ONE_MINUS_F_MAG, d.totalStake;
    var ts := Thresholds(d.poolStakes, t);
    forall p | p in ts ensures AtMost(ts[p], d.poolStakes[p], l, t) {
      SumDominates(d.poolStakes, p);
      ThresholdScaled(d.poolStakes[p], t);
    }
    ScaledSums(ts, d.poolStakes, l, t);
    if SumValues(ts) > l { MulMono(t, l + 1, SumValues(ts)); }
  }

  // ----- StakeDistribution::snapshot -----

  function Pledged(pools: seq<StakePool>, p: PoolId): nat {
    if pools == [] then 0
    else
      var last := pools[|pools| - 1];
      Pledged(pools[..|pools| - 1], p) + (if last.active && last.id == p then last.pledge else 0)
  }

  function ActiveIds(pools: seq<StakePool>): set<PoolId> {
    set i | 0 <= i < |pools| && pools[i].active :: pools[i].id
  }

  function Delegated(ds: seq<Delegation>, p: PoolId): nat {
    if ds == [] then 0
    else
      var last := ds[|ds| - 1];
      Delegated(ds[..|ds| - 1], p) + (if last.pool == p then last.amount else 0)
  }

  /** Both are sums over the list: a pledge counts for its own pool while that is active, a
      delegation for the pool it names. */
  lemma {:induction false} PledgedIsSum(a: seq<StakePool>, b: seq<StakePool>, pool: StakePool, p: PoolId)
    ensures Pledged([], p) == 0 && Pledged([pool], p) == (if pool.active && pool.id == p then pool.pledge else 0)
    ensures Pledged(a + b, p) == Pledged(a, p) + Pledged(b, p)
    decreases |b|
  {
    assert [pool][..0] == [];
    if b == [] {
      assert a + b == a;
    } else {
      PledgedIsSum(a, b[..|b| - 1], pool, p);
      assert (a + b)[..|a + b| - 1] == a + b[..|b| - 1];
    }
  }

  lemma {:induction false} DelegatedIsSum(a: seq<Delegation>, b: seq<Delegation>, d: Delegation, p: PoolId)
    ensures Delegated([], p) == 0 && Delegated([d], p) == (if d.pool == p then d.amount else 0)
    ensures Delegated(a + b, p) == Delegated(a, p) + Delegated(b, p)
    decreases |b|
  {
    assert [d][..0] == [];
    if b == [] {
      assert a + b == a;
    } else {
      DelegatedIsSum(a, b[..|b| - 1], d, p);
      assert (a + b)[..|a + b| - 1] == a + b[..|b| - 1];
    }
  }

  /** The stake a pool would have in unbounded arithmetic. */
  function ExactStake(pools: seq<StakePool>, ds: seq<Delegation>, p: PoolId): nat {
    Pledged(pools, p) + Delegated(ds, p)
  }

  /** Per active pool, the exact stake cut off at 64 bits. */
  ghost function SaturatedStakes(pools: seq<StakePool>, ds: seq<Delegation>): map<PoolId, U64> {
    map p | p in ActiveIds(pools) :: Min(U64_MAX, ExactStake(pools, ds, p))
  }

  lemma ActiveIdsExtend(pools: seq<StakePool>)
    requires pools != []
    ensures var last := pools[|pools| - 1];
            ActiveIds(pools) == ActiveIds(pools[..|pools| - 1]) + (if last.active then {last.id} else {})
  {
    var n := |pools| - 1;
    var front := pools[..n];
    forall p | p in ActiveIds(front) ensures p in ActiveIds(pools) {
      var i :| 0 <= i < |front| && front[i].active && front[i].id == p;
      assert pools[i] == front[i];
    }
    forall p | p in ActiveIds(pools) && !(pools[n].active && pools[n].id == p) ensures p in ActiveIds(front) {
      var i :| 0 <= i < |pools| && pools[i].active && pools[i].id == p;
      assert front[i] == pools[i];
    }
    if pools[n].active { assert pools[n].id in ActiveIds(pools); }
  }

  lemma {:induction false} PledgeNeedsActive(pools: seq<StakePool>, p: PoolId)
    requires Pledged(pools, p) > 0
    ensures p in ActiveIds(pools)
  {
    ActiveIdsExtend(pools);
    if Pledged(pools[..|pools| - 1], p) > 0 { PledgeNeedsActive(pools[..|pools| - 1], p); }
  }

  function AddStake(stakes: map<PoolId, U64>, p: PoolId, amount: U64): map<PoolId, U64> {
    stakes[p := if p in stakes then SatAdd64(stakes[p], amount) else amount]
  }

  lemma PledgedAppend(front: seq<StakePool>, pool: StakePool, p: PoolId)
    ensures Pledged(front + [pool], p) == Pledged(front, p) + (if pool.active && pool.id == p then pool.pledge else 0)
  {
    assert (front + [pool])[..|front|] == front;
  }

  lemma ActiveIdsAppend(front: seq<StakePool>, pool: StakePool)
    ensures ActiveIds(front + [pool]) == ActiveIds(front) + (if pool.active then {pool.id} else {})
  {
    assert (front + [pool])[..|front|] == front;
    ActiveIdsExtend(front + [pool]);
  }

  lemma InactivePledge(front: seq<StakePool>, pool: StakePool)
    requires !pool.active
    ensures SaturatedStakes(front + [pool], []) == SaturatedStakes(front, [])
  {
    ActiveIdsAppend(front, pool);
    forall p ensures Pledged(front + [pool], p) == Pledged(front, p) { PledgedAppend(front, pool, p); }
  }

  lemma ActivePledge(front: seq<StakePool>, pool: StakePool)
    requires pool.active
    ensures SaturatedStakes(front + [pool], []) == AddStake(SaturatedStakes(front, []), pool.id, pool.pledge)
  {
    var was, now := SaturatedStakes(front, []), SaturatedStakes(front + [pool], []);
    ActiveIdsAppend(front, pool);
    if pool.id !in was && Pledged(front, pool.id) > 0 { PledgeNeedsActive(front, pool.id); }
    PledgedAppend(front, pool, pool.id);
    assert now[pool.id] == AddStake(was, pool.id, pool.pledge)[pool.id];
    forall p | p in was && p != pool.id ensures now[p] == was[p] { PledgedAppend(front, pool, p); }
  }

  lemma PledgeStep(front: seq<StakePool>, pool: StakePool)
    ensures SaturatedStakes(front + [pool], [])
            == if pool.active then AddStake(SaturatedStakes(front, []), pool.id, pool.pledge)
               else SaturatedStakes(front, [])
  {
    if pool.active { ActivePledge(front, pool); } else { InactivePledge(front, pool); }
  }

  method CollectPledges(pools: seq<StakePool>) returns (stakes: map<PoolId, U64>)
    ensures stakes == SaturatedStakes(pools, [])
  {
    stakes := map[];
    assert SaturatedStakes(pools[..0], []) == map[];
    for i := 0 to |pools|
      invariant stakes == SaturatedStakes(pools[..i], [])
    {
      PledgeStep(pools[..i], pools[i]);
      assert pools[..i + 1] == pools[..i] + [pools[i]];
      if pools[i].active {
        stakes := AddStake(stakes, pools[i].id, pools[i].pledge);
      }
    }
    assert pools[..|pools|] == pools;
  }

  lemma DelegationStep(pools: seq<StakePool>, front: seq<Delegation>, d: Delegation)
    ensures SaturatedStakes(pools, front + [d])
            == if d.pool in ActiveIds(pools) then AddStake(SaturatedStakes(pools, front), d.pool, d.amount)
               else SaturatedStakes(pools, front)
  {
    assert (front + [d])[..|front|] == front;
    assert forall p :: Delegated(front + [d], p) == Delegated(front, p) + (if d.pool == p then d.amount else 0);
  }

  method CollectStakes(pools: seq<StakePool>, ds: seq<Delegation>) returns (stakes: map<PoolId, U64>)
    ensures stakes == SaturatedStakes(pools, ds)
  {
    stakes := CollectPledges(pools);
    var activePools := ActiveIds(pools);
    assert ds[..0] == [];
    for i := 0 to |ds|
      invariant stakes == SaturatedStakes(pools, ds[..i])
    {
      var d := ds[i];
      DelegationStep(pools, ds[..i], d);
      assert ds[..i + 1] == ds[..i] + [d];
      if d.pool in activePools {
        stakes := AddStake(stakes, d.pool, d.amount);
      }
    }
    assert ds[..|ds|] == ds;
  }

  lemma {:induction false} ListedAppend(entries: seq<Entry>, e: Entry, p: PoolId)
    ensures ListedFor(entries + [e], p) == ListedFor(entries, p) + (if e.0 == p then e.1 else 0)
    ensures Listed(entries + [e]) == Listed(entries) + e.1
  {
    assert (entries + [e])[..|entries|] == entries;
  }

  /** `entries` lists the part of `stakes` outside `rest`. */
  ghost predicate Lists(entries: seq<Entry>, stakes: map<PoolId, U64>, rest: map<PoolId, U64>) {
    && Listed(entries) + SumValues(rest) == SumValues(stakes)
    && forall p :: ListedFor(entries, p) == if p in stakes && p !in rest then stakes[p] else 0
  }

  lemma ListsStep(entries: seq<Entry>, stakes: map<PoolId, U64>, rest: map<PoolId, U64>, p: PoolId)
    requires Lists(entries, stakes, rest) && p in rest && p in stakes && rest[p] == stakes[p]
    ensures Lists(entries + [(p, rest[p])], stakes, rest - {p})
  {
    SumWithout(rest, p);
    forall q ensures ListedFor(entries + [(p, rest[p])], q) == ListedFor(entries, q) + (if p == q then rest[p] else 0) {
      ListedAppend(entries, (p, rest[p]), q);
    }
    ListedAppend(entries, (p, rest[p]), p);
  }

  /** The map as a list, in key order. */
  method EntriesOf(stakes: map<PoolId, U64>) returns (entries: seq<Entry>)
    ensures Listed(entries) == SumValues(stakes)
    ensures forall p :: ListedFor(entries, p) == if p in stakes then stakes[p] else 0
  {
    var le := (a: PoolId, b: PoolId) => a <= b;
    entries := [];
    var rest := stakes;
    assert forall p :: ListedFor([], p) == 0;
    while rest != map[]
      invariant forall p :: p in rest ==> p in stakes && rest[p] == stakes[p]
      invariant Lists(entries, stakes, rest)
      decreases |rest|
    {
      assert rest.Keys != {};
      LeastExists(rest.Keys, le);
      var p :| IsLeast(p, rest.Keys, le);
      ListsStep(entries, stakes, rest, p);
      entries := entries + [(p, rest[p])];
      rest := rest - {p};
    }
  }

  /** The epoch snapshot: fails exactly when the per-pool stakes, each cut off at 64
      bits, sum past 64 bits. */
  method Snapshot(epoch: U64, pools: seq<StakePool>, ds: seq<Delegation>) returns (r: Result<StakeDistribution, StakeError>)
    ensures r.Err? <==> SumValues(SaturatedStakes(pools, ds)) > U64_MAX
    ensures r.Ok? ==> Consistent(r.value) && r.value.totalStake == SumValues(SaturatedStakes(pools, ds))
                      && r.value.epoch == epoch
                      && (forall p :: p in r.value.poolStakes <==> p in ActiveIds(pools) && ExactStake(pools, ds, p) > 0)
                      && forall p :: PoolStake(r.value, p)
                                     == if p in ActiveIds(pools) then Min(U64_MAX, ExactStake(pools, ds, p)) else 0
  {
    var stakes := CollectStakes(pools, ds);
    var entries := EntriesOf(stakes);
    r := NewDistribution(epoch, entries);
  }

  /** A snapshot whose total is below the 64-bit maximum has cut nothing off. */
  lemma SnapshotIsExact(pools: seq<StakePool>, ds: seq<Delegation>, p: PoolId)
    requires SumValues(SaturatedStakes(pools, ds)) < U64_MAX && p in ActiveIds(pools)
    ensures SaturatedStakes(pools, ds)[p] == ExactStake(pools, ds, p)
  {
    SumDominates(SaturatedStakes(pools, ds), p);
  }
}
