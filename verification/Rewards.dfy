/** Block subsidies, the supply cap, and the split of a block's reward
    (crates/qv-consensus/src/rewards.rs). */
module Rewards {
  import opened Words
  import opened ModArith

  // ----- subsidy and emission -----

  datatype Monetary = Monetary(initialReward: U64, halvingInterval: U64, totalSupply: U64)

  /** The parameter check refuses a zero interval (crates/qv-core/src/params.rs:248). */
  predicate Halving(m: Monetary) { m.halvingInterval > 0 }

  function BlockSubsidy(height: U64, m: Monetary): (r: U64)
    requires Halving(m)
  {
    var halvings := height / m.halvingInterval;
    if halvings >= 64 then 0 else Shifted(m.initialReward, halvings)
  }

  /** `reward >> k` */
  function Shifted(reward: U64, k: nat): (r: U64)
    ensures r <= reward && (k == 0 ==> r == reward)
  {
    assert 0 <= reward / Pow2(k) <= reward by { QuotientAtMost(reward, Pow2(k)); }
    reward / Pow2(k)
  }

  lemma DivTwice(a: nat, b: nat)
    requires b > 0
    ensures a / (2 * b) == a / b / 2
  {
    var h, r := a / b, a / b % 2;
    FloorBounds(a, b);
    MulAssoc(2, b, h / 2);
    assert a == 2 * b * (h / 2) + (r * b + (a - h * b)) by { SplitHalf(b, h); }
    QuotientIs(a, 2 * b, h / 2, r * b + (a - h * b));
  }

  lemma SplitHalf(b: nat, h: nat)
    ensures h * b == 2 * b * (h / 2) + (h % 2) * b
  {
    assert h == 2 * (h / 2) + h % 2;
    DistributeLeft(b, 2 * (h / 2), h % 2);
  }

  lemma Pow2Byte(n: nat)
    ensures Pow2(n + 8) == 256 * Pow2(n)
  {
    assert Pow2(n + 4) == 16 * Pow2(n) by { assert Pow2(n + 2) == 4 * Pow2(n); }
    assert Pow2(n + 8) == 16 * Pow2(n + 4) by { assert Pow2(n + 6) == 4 * Pow2(n + 4); }
  }

  lemma Pow2Large(k: nat)
    requires k >= 64
    ensures Pow2(k) > U64_MAX
  {
    Pow2Byte(k - 8); Pow2Byte(k - 16); Pow2Byte(k - 24); Pow2Byte(k - 32);
    Pow2Byte(k - 40); Pow2Byte(k - 48); Pow2Byte(k - 56); Pow2Byte(k - 64);
  }

  /** One more right shift halves; after 64 nothing is left. */
  lemma ShiftStep(reward: U64, k: nat)
    ensures Shifted(reward, k + 1) == Shifted(reward, k) / 2
    ensures k >= 64 ==> Shifted(reward, k) == 0
  {
    DivTwice(reward, Pow2(k));
    if k >= 64 {
      Pow2Large(k);
      QuotientIs(reward, Pow2(k), 0, reward);
    }
  }

  lemma {:induction false} ShiftsOnlyShrink(reward: U64, j: nat, k: nat)
    requires j <= k
    ensures Shifted(reward, k) <= Shifted(reward, j)
    decreases k
  {
    if j < k {
      ShiftsOnlyShrink(reward, j, k - 1);
      ShiftStep(reward, k - 1);
    }
  }

  /** What the schedule grants to heights 0 .. n-1, before any cap. */
  ghost function Granted(n: nat, m: Monetary): nat
    requires Halving(m) && n <= TWO64
  {
    if n == 0 then 0 else Granted(n - 1, m) + BlockSubsidy(n - 1, m)
  }

  /** Within the k-th interval every block is granted the k times halved reward. */
  lemma {:induction false} IntervalGrants(from: nat, blocks: nat, k: nat, m: Monetary)
    requires Halving(m) && from == m.halvingInterval * k
    requires blocks <= m.halvingInterval && from + blocks <= TWO64
    ensures Granted(from + blocks, m) == Granted(from, m) + blocks * Shifted(m.initialReward, k)
  {
    if blocks > 0 {
      IntervalGrants(from, blocks - 1, k, m);
      var reward := Shifted(m.initialReward, k);
      QuotientIs(from + blocks - 1, m.halvingInterval, k, blocks - 1);
      ShiftStep(m.initialReward, k);
      assert BlockSubsidy(from + blocks - 1, m) == reward;
      assert blocks * reward == (blocks - 1) * reward + reward;
    }
  }

  /** Once the halved reward is zero, later blocks are granted nothing. */
  lemma {:induction false} NothingAfter(from: nat, n: nat, k: nat, m: Monetary)
    requires Halving(m) && from == m.halvingInterval * k && from <= n <= TWO64
    requires Shifted(m.initialReward, k) == 0
    ensures Granted(n, m) == Granted(from, m)
    decreases n
  {
    if from < n {
      NothingAfter(from, n - 1, k, m);
      var h := (n - 1) / m.halvingInterval;
      HalvingsReached(n - 1, m.halvingInterval, k);
      ShiftsOnlyShrink(m.initialReward, k, h);
    }
  }

  lemma HalvingsReached(height: nat, interval: nat, k: nat)
    requires interval > 0 && interval * k <= height
    ensures k <= height / interval
  {
    DivMono(k * interval, height, interval);
    MultipleQuotient(interval, k);
  }

  lemma {:induction false} GrantsAddUp(n: nat, k: nat, m: Monetary)
    requires Halving(m) && n <= k <= TWO64
    ensures Granted(n, m) <= Granted(k, m)
    decreases k
  {
    if n < k { GrantsAddUp(n, k - 1, m); }
  }

  /** The emission through `height`: the granted subsidies, stopped at the cap.
      The block count `height + 1` saturates, so the very last height is not counted. */
  ghost function Emission(height: U64, m: Monetary): (r: nat)
    requires Halving(m)
    ensures r <= m.totalSupply
  {
    Min(Granted(Min(height + 1, U64_MAX), m), m.totalSupply)
  }

  /** Saturating at every step is the same as saturating once at the end. */
  lemma IntervalPaid(from: nat, blocks: U64, k: nat, m: Monetary)
    requires Halving(m) && from == m.halvingInterval * k
    requires blocks <= m.halvingInterval && from + blocks <= TWO64
    ensures SatAdd64(Min(Granted(from, m), U64_MAX), SatMul64(blocks, Shifted(m.initialReward, k)))
            == Min(Granted(from + blocks, m), U64_MAX)
  {
    var reward := Shifted(m.initialReward, k);
    IntervalGrants(from, blocks, k, m);
    MulBounds(blocks, reward, blocks, reward);
  }

  /** Without a halving interval, which validation refuses, the loop finds no blocks to pay. */
  method CumulativeEmission(height: U64, m: Monetary) returns (emitted: U64)
    ensures Halving(m) ==> emitted == Emission(height, m)
    ensures !Halving(m) ==> emitted == 0
  {
    var interval := m.halvingInterval;
    var total: U64 := 0;
    var reward := m.initialReward;
    var remaining := SatAdd64(height, 1);
    ghost var blocks, k: nat, done := Min(height + 1, U64_MAX), 0, 0;
    while true
      invariant remaining == blocks - done && remaining > 0
      invariant done == interval * k && reward == Shifted(m.initialReward, k)
      invariant if Halving(m) then total == Min(Granted(done, m), U64_MAX) else total == 0
      decreases reward
    {
      if reward == 0 {
        if Halving(m) { NothingAfter(done, blocks, k, m); }
        break;
      }
      var atThisRate := Min(remaining, interval);
      if Halving(m) { IntervalPaid(done, atThisRate, k, m); }
      total := SatAdd64(total, SatMul64(atThisRate, reward));
      remaining := SatSub64(remaining, atThisRate);
      if remaining == 0 { break; }
      ShiftStep(m.initialReward, k);
      DistributeLeft(interval, k, 1);
      reward := reward / 2;
      done, k := done + interval, k + 1;
    }
    emitted := Min(total, m.totalSupply);
  }

  // ----- no run mints past the cap -----

  ghost function CappedSubsidy(height: U64, m: Monetary): (r: nat)
    requires Halving(m)
  {
    var before := if height == 0 then 0 else Emission(height - 1, m);
    Min(BlockSubsidy(height, m), m.totalSupply - before)
  }

  /** What a chain mints that pays every block of heights 0 .. n-1 its capped subsidy. */
  ghost function Minted(n: nat, m: Monetary): nat
    requires Halving(m) && n <= TWO64
  {
    if n == 0 then 0 else Minted(n - 1, m) + CappedSubsidy(n - 1, m)
  }

  /** Every run mints exactly the granted subsidies cut off at the supply cap, at every height. */
  lemma {:induction false} MintedIsCapped(n: nat, m: Monetary)
    requires Halving(m) && n <= TWO64
    ensures Minted(n, m) == Min(Granted(n, m), m.totalSupply)
  {
    if n > 0 { MintedIsCapped(n - 1, m); }
  }

  /** The emission check agrees with what was minted; at the last 64-bit height it
      misses exactly that block's subsidy. */
  lemma EmissionIsMinted(height: U64, m: Monetary)
    requires Halving(m)
    ensures Minted(height + 1, m) <= m.totalSupply
    ensures height < U64_MAX ==> Emission(height, m) == Minted(height + 1, m)
    ensures height == U64_MAX ==> Emission(height, m) + CappedSubsidy(height, m) == Minted(height + 1, m)
  {
    MintedIsCapped(height + 1, m);
    if height == U64_MAX { MintedIsCapped(height, m); }
  }

  /** The emission check against the supply. */
  ghost predicate Exhausted(height: U64, m: Monetary)
    requires Halving(m)
  {
    Emission(height, m) >= m.totalSupply
  }

  /** Exhaustion is final: from then on no block mints anything. */
  lemma ExhaustionIsFinal(height: U64, later: U64, m: Monetary)
    requires Halving(m) && Exhausted(height, m) && height < later
    ensures CappedSubsidy(later, m) == 0 && Exhausted(later, m)
  {
    GrantsAddUp(height + 1, later, m);
    GrantsAddUp(later, Min(later + 1, U64_MAX), m);
  }

  method TotalBlockReward(height: U64, fees: U64, m: Monetary) returns (reward: U64)
    requires Halving(m)
    ensures reward == Min(Minted(height + 1, m) - Minted(height, m) + fees, U64_MAX)
  {
    var raw := BlockSubsidy(height, m);
    var before: U64 := 0;
    if height != 0 { before := CumulativeEmission(SatSub64(height, 1), m); }
    var room := SatSub64(m.totalSupply, before);
    var capped: U64 := Min(raw, room);
    reward := SatAdd64(capped, fees);
  }

  // ----- the split between operator and delegators -----

  /** The fields of a stake pool that the split reads. */
  datatype Terms = Terms(marginNum: U32, marginDen: U32, fixedCost: U64)
  datatype Delegated = Delegated(delegator: Digest, stake: U64)
  datatype RewardShare = RewardShare(recipient: Digest, amount: U64)

  ghost function StakeSum(ds: seq<Delegated>): nat {
    if ds == [] then 0 else StakeSum(ds[..|ds| - 1]) + ds[|ds| - 1].stake
  }

  ghost function ShareSum(shares: seq<RewardShare>): nat {
    if shares == [] then 0 else ShareSum(shares[..|shares| - 1]) + shares[|shares| - 1].amount
  }

  predicate MarginInRange(t: Terms) { t.marginDen == 0 || t.marginNum <= t.marginDen }

  /** What is left after the fixed cost, and the operator's margin of it. */
  function AfterCost(total: U64, t: Terms): U64 { total - Min(t.fixedCost, total) }

  function Portion(amount: nat, num: nat, den: nat): (r: nat)
    requires den > 0
    ensures num <= den ==> r <= amount
    ensures r * den <= amount * num < r * den + den
  {
    var r := amount * num / den;
    PortionBounds(amount, num, den, r);
    r
  }

  lemma PortionBounds(amount: nat, num: nat, den: nat, r: int)
    requires den > 0 && r == amount * num / den
    ensures 0 <= r && r * den <= amount * num < r * den + den
    ensures num <= den ==> r <= amount
  {
    MulBounds(amount, num, amount, Max(num, den));
    FloorBounds(amount * num, den);
    if num <= den { DivMono(amount * num, amount * den, den); MultipleQuotient(den, amount); }
    DivMono(0, amount * num, den);
  }

  ghost function Margin(total: U64, t: Terms): nat {
    if t.marginDen == 0 then 0 else Portion(AfterCost(total, t), t.marginNum, t.marginDen)
  }

  method ScaledDown(amount: U64, num: U64, den: U64) returns (r: U64)
    requires den > 0
    ensures r == Min(Portion(amount, num, den), U64_MAX)
  {
    MulBounds(amount, num, U64_MAX, U64_MAX);
    var product: U128 := amount * num;
    QuotientAtMost(product, den);
    r := Min(product / den, U64_MAX);
  }

  /** What the delegators divide, and the total they divide it by. */
  ghost function DelegatorPool(total: U64, t: Terms): U64 { Max(AfterCost(total, t) - Margin(total, t), 0) }

  ghost function Weight(ds: seq<Delegated>): U64 { Min(StakeSum(ds), U64_MAX) }

  ghost predicate SharesFor(pool: U64, weight: U64, ds: seq<Delegated>, shares: seq<RewardShare>) {
    && weight > 0 && |shares| == |ds|
    && forall i :: 0 <= i < |ds| ==> ShareFor(pool, weight, ds[i], shares[i])
  }

  ghost predicate ShareFor(pool: U64, weight: U64, d: Delegated, share: RewardShare)
    requires weight > 0
  {
    share.recipient == d.delegator && share.amount == Portion(pool, d.stake, weight)
  }

  /** The split of a block's reward: shares in the delegators' order, all else to the operator. */
  ghost predicate Split(total: U64, t: Terms, ds: seq<Delegated>, operator: U64, shares: seq<RewardShare>) {
    var pool, weight := DelegatorPool(total, t), Weight(ds);
    && (if pool > 0 && weight > 0 then SharesFor(pool, weight, ds, shares) else shares == [])
    && operator == Min(total - AfterCost(total, t) + Margin(total, t) + Max(pool - ShareSum(shares), 0), U64_MAX)
  }

  /** The shares in plain arithmetic: one per delegator, in order, each the floor of its stake's
      part of the pool, by the total of the stakes cut off at 64 bits. */
  ghost predicate FlooredShares(pool: int, ds: seq<Delegated>, shares: seq<RewardShare>) {
    && |shares| == |ds|
    && forall i :: 0 <= i < |ds| ==> FlooredShare(pool, Min(StakeSum(ds), U64_MAX), ds[i], shares[i])
  }

  ghost predicate FlooredShare(pool: int, weight: int, d: Delegated, share: RewardShare) {
    share.recipient == d.delegator && share.amount * weight <= pool * d.stake < share.amount * weight + weight
  }

  /** The split in plain arithmetic: the operator's cost, the floor of its margin on the rest,
      the floored shares of what that leaves, and to the operator all that is not shared. */
  lemma SplitInNumbers(total: U64, t: Terms, ds: seq<Delegated>, operator: U64, shares: seq<RewardShare>)
    returns (margin: nat, pool: nat)
    requires Split(total, t, ds, operator, shares)
    ensures var cost := Min(t.fixedCost, total);
            && (t.marginDen == 0 ==> margin == 0)
            && (t.marginDen > 0 ==>
                  margin * t.marginDen <= (total - cost) * t.marginNum < margin * t.marginDen + t.marginDen)
            && pool == Max(total - cost - margin, 0)
            && (if pool > 0 && StakeSum(ds) > 0 then FlooredShares(pool, ds, shares) else shares == [])
            && operator == Min(cost + margin + Max(pool - ShareSum(shares), 0), U64_MAX)
  {
    margin, pool := Margin(total, t), DelegatorPool(total, t);
    if pool > 0 && StakeSum(ds) > 0 {
      forall i | 0 <= i < |ds| ensures FlooredShare(pool, Weight(ds), ds[i], shares[i]) {
        assert ShareFor(pool, Weight(ds), ds[i], shares[i]);
      }
    }
  }

  /** Both are sums over the list. */
  lemma {:induction false} SumsAddUp(a: seq<Delegated>, b: seq<Delegated>, d: Delegated)
    ensures StakeSum([]) == 0 && StakeSum([d]) == d.stake && StakeSum(a + b) == StakeSum(a) + StakeSum(b)
    decreases |b|
  {
    assert [d][..0] == [];
    if b == [] {
      assert a + b == a;
    } else {
      SumsAddUp(a, b[..|b| - 1], d);
      assert (a + b)[..|a + b| - 1] == a + b[..|b| - 1];
    }
  }

  lemma {:induction false} SharesAddUp(a: seq<RewardShare>, b: seq<RewardShare>, r: RewardShare)
    ensures ShareSum([]) == 0 && ShareSum([r]) == r.amount && ShareSum(a + b) == ShareSum(a) + ShareSum(b)
    decreases |b|
  {
    assert [r][..0] == [];
    if b == [] {
      assert a + b == a;
    } else {
      SharesAddUp(a, b[..|b| - 1], r);
      assert (a + b)[..|a + b| - 1] == a + b[..|b| - 1];
    }
  }

  method TotalDelegated(ds: seq<Delegated>) returns (weight: U64)
    ensures weight == Weight(ds)
  {
    weight := 0;
    for i := 0 to |ds|
      invariant weight == Weight(ds[..i])
    {
      assert ds[..i + 1][..i] == ds[..i];
      weight := SatAdd64(weight, ds[i].stake);
    }
    assert ds[..|ds|] == ds;
  }

  method PayShares(pool: U64, ds: seq<Delegated>, weight: U64) returns (shares: seq<RewardShare>, distributed: U64)
    requires weight == Weight(ds) && weight > 0
    ensures SharesFor(pool, weight, ds, shares)
    ensures distributed == Min(ShareSum(shares), U64_MAX)
  {
    shares, distributed := [], 0;
    for i := 0 to |ds|
      invariant |shares| == i && forall j :: 0 <= j < i ==> ShareFor(pool, weight, ds[j], shares[j])
      invariant distributed == Min(ShareSum(shares), U64_MAX)
    {
      StakeWithinSum(ds, i);
      var share := ScaledDown(pool, ds[i].stake, weight);
      distributed := SatAdd64(distributed, share);
      assert (shares + [RewardShare(ds[i].delegator, share)])[..i] == shares;
      shares := shares + [RewardShare(ds[i].delegator, share)];
    }
  }

  /** The operator's fixed cost and margin, and what they leave to the delegators. */
  method OperatorPart(total: U64, t: Terms) returns (operatorTotal: U64, pool: U64)
    ensures operatorTotal == Min(total - AfterCost(total, t) + Margin(total, t), U64_MAX)
    ensures pool == DelegatorPool(total, t)
  {
    var cost: U64 := Min(t.fixedCost, total);
    var afterCost := SatSub64(total, cost);
    var margin: U64 := 0;
    if t.marginDen > 0 { margin := ScaledDown(afterCost, t.marginNum, t.marginDen); }
    operatorTotal := SatAdd64(cost, margin);
    pool := SatSub64(afterCost, margin);
  }

  method DistributeReward(total: U64, t: Terms, ds: seq<Delegated>) returns (operator: U64, shares: seq<RewardShare>)
    ensures Split(total, t, ds, operator, shares)
  {
    if total == 0 { return 0, []; }
    var operatorTotal, pool := OperatorPart(total, t);
    var weight := TotalDelegated(ds);
    shares := [];
    var distributed: U64 := 0;
    if weight > 0 && pool > 0 { shares, distributed := PayShares(pool, ds, weight); }
    var dust := SatSub64(pool, distributed);
    operator := SatAdd64(operatorTotal, dust);
  }

  lemma {:induction false} StakeWithinSum(ds: seq<Delegated>, i: nat)
    requires i < |ds|
    ensures ds[i].stake <= Weight(ds)
  {
    if i < |ds| - 1 { StakeWithinSum(ds[..|ds| - 1], i); }
  }

  /** What flooring the shares cuts off, in units of 1 / weight. */
  ghost function Dust(pool: U64, weight: U64, ds: seq<Delegated>): nat
    requires weight > 0
  {
    if ds == [] then 0
    else Dust(pool, weight, ds[..|ds| - 1]) + Remainder(pool, ds[|ds| - 1].stake, weight)
  }

  ghost function Remainder(pool: nat, stake: nat, weight: nat): (r: nat)
    requires weight > 0
    ensures r < weight
  {
    (pool * stake) % weight
  }

  lemma PortionAndRemainder(pool: nat, stake: nat, weight: nat)
    requires weight > 0
    ensures pool * stake == weight * Portion(pool, stake, weight) + Remainder(pool, stake, weight)
  {
  }

  ghost predicate Divided(pool: nat, weight: nat, stakes: nat, paid: nat, dust: nat, n: nat) {
    pool * stakes == weight * paid + dust && dust <= n * (weight - 1)
  }

  /** The shares and the dust are all there is to divide. */
  lemma {:induction false} SharesAndDust(pool: U64, weight: U64, ds: seq<Delegated>, shares: seq<RewardShare>)
    requires SharesFor(pool, weight, ds, shares)
    ensures Divided(pool, weight, StakeSum(ds), ShareSum(shares), Dust(pool, weight, ds), |ds|)
  {
    if ds != [] {
      var n := |ds| - 1;
      assert ShareFor(pool, weight, ds[n], shares[n]);
      forall i | 0 <= i < n ensures ShareFor(pool, weight, ds[..n][i], shares[..n][i]) {
        assert ShareFor(pool, weight, ds[i], shares[i]);
      }
      SharesAndDust(pool, weight, ds[..n], shares[..n]);
      DividedStep(pool, weight, StakeSum(ds[..n]), ShareSum(shares[..n]), Dust(pool, weight, ds[..n]), n, ds[n].stake);
    }
  }

  lemma DividedStep(pool: nat, weight: nat, stakes: nat, paid: nat, dust: nat, n: nat, stake: nat)
    requires weight > 0 && Divided(pool, weight, stakes, paid, dust, n)
    ensures Divided(pool, weight, stakes + stake, paid + Portion(pool, stake, weight),
                    dust + Remainder(pool, stake, weight), n + 1)
  {
    PortionAndRemainder(pool, stake, weight);
    DistributeLeft(weight, paid, Portion(pool, stake, weight));
    DistributeLeft(pool, stakes, stake);
    DistributeLeft(weight - 1, n, 1);
  }

  lemma Distribute(s: int, t: int, u: int)
    ensures s * (t - u) == s * t - s * u
  {
  }

  /** How the amount paid compares with the pool, from stakes, weight and dust. */
  lemma PaidAgainstPool(pool: nat, weight: nat, stakes: nat, paid: nat, dust: nat, n: nat)
    requires weight > 0 && Divided(pool, weight, stakes, paid, dust, n)
    ensures weight * (paid - pool) == pool * (stakes - weight) - dust
    ensures paid <= pool <==> pool * (stakes - weight) <= dust
    ensures stakes == weight && n > 0 ==> pool < paid + n
  {
    Distribute(weight, paid, pool);
    Distribute(pool, stakes, weight);
    if paid <= pool { MulMono(weight, paid - pool, 0); } else { MulMono(weight, 1, paid - pool); }
    if stakes == weight && n > 0 && pool >= paid + n {
      MulMono(weight, n, pool - paid);
      Distribute(n, weight, 1);
    }
  }

  /** With a margin in range the operator is paid at least its fixed cost, and the whole
      payout exceeds the reward by exactly what the shares exceed the delegators' pool. */
  lemma {:induction false} PayoutExcess(total: U64, t: Terms, ds: seq<Delegated>, operator: U64, shares: seq<RewardShare>)
    requires Split(total, t, ds, operator, shares) && MarginInRange(t)
    ensures operator >= Min(t.fixedCost, total)
    ensures operator + ShareSum(shares) == total + Max(ShareSum(shares) - DelegatorPool(total, t), 0)
  {
  }

  /** By how much the stakes past 64 bits, weighted with the pool, exceed the dust. */
  ghost function Overhang(pool: U64, ds: seq<Delegated>): int
    requires Weight(ds) > 0
  {
    pool * (StakeSum(ds) - Weight(ds)) - Dust(pool, Weight(ds), ds)
  }

  lemma {:induction false} ShareSurplus(total: U64, t: Terms, ds: seq<Delegated>, operator: U64, shares: seq<RewardShare>)
    requires Split(total, t, ds, operator, shares) && StakeSum(ds) > 0
    ensures var pool := DelegatorPool(total, t);
            && Weight(ds) > 0
            && (ShareSum(shares) <= pool <==> Overhang(pool, ds) <= 0)
            && (shares != [] ==> Weight(ds) * (ShareSum(shares) - pool) == Overhang(pool, ds))
  {
    var pool, weight := DelegatorPool(total, t), Weight(ds);
    if pool > 0 {
      SharesAndDust(pool, weight, ds, shares);
      PaidAgainstPool(pool, weight, StakeSum(ds), ShareSum(shares), Dust(pool, weight, ds), |ds|);
    }
  }

  /** Exactly when a reward is paid out in full and no more, in terms of the inputs: with a margin
      in range, when there is no stake or the stakes past 64 bits weigh no more than the dust;
      with a margin above one, when its surplus rounds to nothing or the sum saturates. */
  lemma {:induction false} PayoutExactly(total: U64, t: Terms, ds: seq<Delegated>, operator: U64, shares: seq<RewardShare>)
    requires Split(total, t, ds, operator, shares)
    ensures operator + ShareSum(shares) == total
            <==> if MarginInRange(t) then StakeSum(ds) == 0 || Overhang(DelegatorPool(total, t), ds) <= 0
                 else AfterCost(total, t) * (t.marginNum - t.marginDen) < t.marginDen || total == U64_MAX
  {
    if MarginInRange(t) {
      PayoutExcess(total, t, ds, operator, shares);
      if StakeSum(ds) > 0 { ShareSurplus(total, t, ds, operator, shares); }
    } else {
      MarginAboveOne(total, t, ds, operator, shares);
    }
  }

  /** While the stakes fit 64 bits that is always so, and the rounding dust the operator keeps
      is less than one unit for each delegator. */
  lemma {:induction false} PayoutIsExact(total: U64, t: Terms, ds: seq<Delegated>, operator: U64, shares: seq<RewardShare>)
    requires Split(total, t, ds, operator, shares) && MarginInRange(t) && StakeSum(ds) <= U64_MAX
    ensures operator + ShareSum(shares) == total
    ensures shares != [] ==>
              0 <= operator - Min(t.fixedCost, total) - Margin(total, t) < |ds|
  {
    PayoutExactly(total, t, ds, operator, shares);
    var pool, weight := DelegatorPool(total, t), Weight(ds);
    if shares != [] {
      SharesAndDust(pool, weight, ds, shares);
      PaidAgainstPool(pool, weight, weight, ShareSum(shares), Dust(pool, weight, ds), |ds|);
    }
  }

  lemma MarginBounds(kept: int, margin: int, n: int, amount: nat, num: nat, den: nat)
    requires margin <= kept < margin + n && margin * den <= amount * num < margin * den + den && den > 0
    ensures (kept - n + 1) * den <= amount * num < (kept + 1) * den
  {
    MulMono(den, kept - n + 1, margin);
    MulMono(den, margin + 1, kept + 1);
    DistributeLeft(den, margin, 1);
  }

  /** What the operator keeps beyond its cost is its margin of the rest: not a unit less, and
      less than one unit more for each delegator. */
  lemma {:induction false} OperatorKeepsMargin(total: U64, t: Terms, ds: seq<Delegated>, operator: U64, shares: seq<RewardShare>)
    requires Split(total, t, ds, operator, shares) && MarginInRange(t) && StakeSum(ds) <= U64_MAX
    requires t.marginDen > 0 && shares != []
    ensures var cost := Min(t.fixedCost, total);
            (operator - cost - |ds| + 1) * t.marginDen <= (total - cost) * t.marginNum < (operator - cost + 1) * t.marginDen
  {
    var cost := Min(t.fixedCost, total);
    PayoutIsExact(total, t, ds, operator, shares);
    MarginBounds(operator - cost, Margin(total, t), |ds|, total - cost, t.marginNum, t.marginDen);
  }

  /** Stakes far enough past 64 bits always overpay: no dust can make up for them. */
  lemma {:induction false} FarPastOverpays(total: U64, t: Terms, ds: seq<Delegated>, operator: U64, shares: seq<RewardShare>)
    requires Split(total, t, ds, operator, shares) && MarginInRange(t) && StakeSum(ds) > U64_MAX
    requires DelegatorPool(total, t) * (StakeSum(ds) - U64_MAX) > |ds| * (U64_MAX - 1)
    ensures operator + ShareSum(shares) > total
  {
    PayoutExcess(total, t, ds, operator, shares);
    ShareSurplus(total, t, ds, operator, shares);
    var pool := DelegatorPool(total, t);
    MulMono(|ds|, 0, U64_MAX - 1);
    if pool > 0 { SharesAndDust(pool, U64_MAX, ds, shares); }
  }

  /** Beyond 64 bits the stake total saturates and the delegators are paid more than there is. */
  lemma {:induction false} SaturatedStakesOverpay(operator: U64, shares: seq<RewardShare>)
    requires Split(10, Terms(0, 1, 0), [Delegated(1, U64_MAX), Delegated(2, U64_MAX)], operator, shares)
    ensures operator == 0 && ShareSum(shares) == 20
  {
    var t, ds := Terms(0, 1, 0), [Delegated(1, U64_MAX), Delegated(2, U64_MAX)];
    assert ds[..1] == [ds[0]] && StakeSum(ds[..1]) == U64_MAX;
    assert DelegatorPool(10, t) == 10 && Weight(ds) == U64_MAX;
    assert ShareFor(10, U64_MAX, ds[0], shares[0]) && ShareFor(10, U64_MAX, ds[1], shares[1]);
    assert shares[..1] == [shares[0]] && ShareSum(shares[..1]) == 10;
  }

  /** A margin above one, which pool validation refuses (crates/qv-consensus/src/stake.rs:104-112),
      conserves the reward exactly when it rounds down to the whole remainder or the sum saturates. */
  lemma {:induction false} MarginAboveOne(total: U64, t: Terms, ds: seq<Delegated>, operator: U64, shares: seq<RewardShare>)
    requires Split(total, t, ds, operator, shares) && !MarginInRange(t)
    ensures shares == []
    ensures operator == total
            <==> AfterCost(total, t) * (t.marginNum - t.marginDen) < t.marginDen || total == U64_MAX
  {
    MarginExcess(AfterCost(total, t), t.marginNum, t.marginDen, Margin(total, t));
  }

  lemma MarginExcess(amount: nat, num: nat, den: nat, margin: nat)
    requires num > den > 0 && margin == Portion(amount, num, den)
    ensures amount <= margin
    ensures amount == margin <==> amount * (num - den) < den
  {
    var extra := amount * (num - den);
    DistributeLeft(amount, num - den, den);
    MulMono(amount, 0, num - den);
    assert amount * num == extra + amount * den;
    if margin >= amount + 1 { MulMono(den, amount + 1, margin); }
    if margin + 1 <= amount { MulMono(den, margin + 1, amount); }
  }
}
