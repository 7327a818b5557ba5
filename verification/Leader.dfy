/** The deterministic Praos leader check: a nine-term alternating series in
    2^64-scaled integers, its error against the exact series, and monotonicity. */
module Leader {
  import opened Words
  import opened ModArith

  const SCALE: U128 := TWO64
  const LN_ONE_MINUS_F_MAG: U128 := 946_194_274_264_587_207
  const EXP_TERMS: nat := 9
  const VRF_TAIL: nat := 0x1_0000_0000_0000_0000_0000_0000_0000_0000_0000_0000_0000_0000

  // ----- the integer series -----

  /** The k-th term as the loop computes it: one floor per multiplication. */
  function Term(m: nat, k: nat): nat {
    if k == 0 then SCALE else (Term(m, k - 1) * m / SCALE) / k
  }

  /** The alternating sum of the first k + 1 terms. */
  function Series(m: nat, k: nat): int {
    if k == 0 then SCALE
    else if k % 2 == 1 then Series(m, k - 1) - Term(m, k)
    else Series(m, k - 1) + Term(m, k)
  }

  lemma DivBounds(x: nat, k: nat)
    requires k > 0
    ensures var q := x / SCALE / k; q * (SCALE * k) <= x < q * (SCALE * k) + SCALE * k
  {
    var y := x / SCALE;
    var q := y / k;
    assert q * k <= y < q * k + k;
    MulAssoc(q, k, SCALE);
  }

  lemma NineteenthPart(part: nat, t: nat, l: nat, s: nat)
    requires part * s <= t * l && 19 * l <= s && s > 0
    ensures 19 * part <= t
  {
    MulMono(t, 19 * l, s);
    assert t * (19 * l) == 19 * (t * l);
    assert (19 * part) * s == 19 * (part * s);
    if 19 * part > t { MulMono(s, t + 1, 19 * part); }
  }

  lemma FlooredPart(t: nat, m: nat, k: nat, q: nat)
    requires m <= LN_ONE_MINUS_F_MAG && k > 0 && q == t * m / SCALE / k
    ensures 19 * (q * k) <= t
  {
    DivBounds(t * m, k);
    MulMono(t, m, LN_ONE_MINUS_F_MAG);
    assert q * (SCALE * k) == (q * k) * SCALE;
    NineteenthPart(q * k, t, LN_ONE_MINUS_F_MAG, SCALE);
  }

  /** Up to the largest exponent, each term is at most 1/(19k) of the one before. */
  lemma TermShrinks(m: nat, k: nat)
    requires m <= LN_ONE_MINUS_F_MAG && k > 0
    ensures 19 * k * Term(m, k) <= Term(m, k - 1)
  {
    FlooredPart(Term(m, k - 1), m, k, Term(m, k));
    Regroup(k, Term(m, k));
  }

  lemma Regroup(k: nat, q: nat)
    ensures 19 * k * q == 19 * (q * k)
  {
  }

  lemma SmallPart(q: nat, k: nat, t: nat)
    requires k > 0 && 19 * k * q <= t
    ensures q <= t
  {
    MulMono(q, 1, 19 * k);
  }

  lemma TermDecreases(m: nat, k: nat)
    requires m <= LN_ONE_MINUS_F_MAG && k > 0
    ensures Term(m, k) <= Term(m, k - 1)
  {
    TermShrinks(m, k);
    SmallPart(Term(m, k), k, Term(m, k - 1));
  }

  lemma {:induction false} TermsBounded(m: nat, k: nat)
    requires m <= LN_ONE_MINUS_F_MAG
    ensures Term(m, k) <= SCALE && (k > 0 ==> Term(m, k) <= Term(m, k - 1))
  {
    if k > 0 {
      TermsBounded(m, k - 1);
      TermDecreases(m, k);
    }
  }

  lemma FirstTerm(m: nat)
    ensures Term(m, 1) == m && Series(m, 1) == SCALE - m
  {
    assert SCALE * m / SCALE == m;
  }

  /** `series` is a partial sum ending in `term`, within its bracket. */
  ghost predicate Bracketed(m: int, k: int, term: int, series: int) {
    && SCALE - m <= series <= SCALE
    && (k % 2 == 0 ==> SCALE - m + term <= series)
    && (k % 2 == 1 ==> series <= SCALE - term)
  }

  lemma BracketStep(m: int, k: int, before: int, term: int, sum: int, next: int)
    requires Bracketed(m, k - 1, before, sum) && 0 <= term <= before
    requires next == if k % 2 == 1 then sum - term else sum + term
    ensures Bracketed(m, k, term, next)
  {
  }

  /** Partial sums bracket the series: after an odd term from below, after an even
      one from above, and always within [2^64 - m, 2^64]. */
  lemma {:induction false} SeriesBracketed(m: nat, k: nat)
    requires m <= LN_ONE_MINUS_F_MAG && k > 0
    ensures Bracketed(m, k, Term(m, k), Series(m, k))
  {
    if k == 1 {
      FirstTerm(m);
    } else {
      SeriesBracketed(m, k - 1);
      TermDecreases(m, k);
      BracketStep(m, k, Term(m, k - 1), Term(m, k), Series(m, k - 1), Series(m, k));
    }
  }

  // ----- the code's own arithmetic, saturating at 128 bits -----

  /** term * m / 2^64 / k */
  function NextTerm(term: U128, m: U128, k: nat): U128
    requires k > 0
  {
    QuotientAtMost(SatMul128(term, m), SCALE);
    QuotientAtMost(SatMul128(term, m) / SCALE, k);
    SatMul128(term, m) / SCALE / k
  }

  /** The k-th term and the k-th partial sum. */
  datatype Sum = Sum(term: U128, acc: U128)

  function AddTo(s: Sum, k: nat, next: U128): Sum {
    Sum(next, if k % 2 == 1 then SatSub128(s.acc, next) else SatAdd128(s.acc, next))
  }

  function SatSum(m: U128, k: nat): Sum {
    if k == 0 then Sum(SCALE, SCALE)
    else
      var before := SatSum(m, k - 1);
      AddTo(before, k, NextTerm(before.term, m, k))
  }

  /** Up to the largest exponent no operation saturates. */
  lemma {:induction false} NothingSaturates(m: U128, k: nat)
    requires m <= LN_ONE_MINUS_F_MAG
    ensures SatSum(m, k).term == Term(m, k) && SatSum(m, k).acc == Series(m, k)
  {
    if k > 0 {
      NothingSaturates(m, k - 1);
      TermsBounded(m, k - 1);
      TermsBounded(m, k);
      SeriesBracketed(m, k);
      MulBounds(Term(m, k - 1), m, SCALE, LN_ONE_MINUS_F_MAG);
    }
  }

  /** After k rounds the loop holds the k-th term and the k-th partial sum. */
  predicate Summed(m: U128, k: nat, term: U128, acc: U128) { Sum(term, acc) == SatSum(m, k) }

  lemma NextSum(m: U128, k: nat, before: Sum)
    requires k > 0 && before == SatSum(m, k - 1)
    ensures AddTo(before, k, NextTerm(before.term, m, k)) == SatSum(m, k)
  {
  }

  /** One round of the loop. */
  method AddTerm(m: U128, k: nat, subtract: bool, term: U128, acc: U128) returns (next: U128, sum: U128)
    requires k > 0 && Summed(m, k - 1, term, acc) && subtract == (k % 2 == 1)
    ensures Summed(m, k, next, sum)
  {
    NextSum(m, k, Sum(term, acc));
    next := NextTerm(term, m, k);
    if subtract {
      sum := SatSub128(acc, next);
    } else {
      sum := SatAdd128(acc, next);
    }
  }

  method SumTerms(m: U128, terms: nat) returns (acc: U128)
    ensures acc == SatSum(m, terms).acc
  {
    var term: U128 := SCALE;
    acc := SCALE;
    var subtract := true;
    for k := 0 to terms
      invariant subtract == (k % 2 == 0) && Summed(m, k, term, acc)
    {
      term, acc := AddTerm(m, k + 1, subtract, term, acc);
      subtract := !subtract;
    }
  }

  method ExpNegFixed(m: U128) returns (acc: U128)
    ensures acc == SatSum(m, EXP_TERMS).acc
    ensures m <= LN_ONE_MINUS_F_MAG ==> acc == Series(m, EXP_TERMS)
  {
    acc := SumTerms(m, EXP_TERMS);
    if m <= LN_ONE_MINUS_F_MAG { NothingSaturates(m, EXP_TERMS); }
  }

  /** The scaled exponent the code feeds to the series. */
  function Exponent(stakeNum: U64, stakeDen: U64): nat
    requires stakeDen > 0
  {
    stakeNum * LN_ONE_MINUS_F_MAG / stakeDen
  }

  function Threshold(stakeNum: U64, stakeDen: U64): int
    requires stakeDen > 0
  {
    SCALE - Series(Exponent(stakeNum, stakeDen), EXP_TERMS)
  }

  lemma ExponentBounded(stakeNum: U64, stakeDen: U64)
    requires stakeNum <= stakeDen && stakeDen > 0
    ensures Exponent(stakeNum, stakeDen) <= LN_ONE_MINUS_F_MAG
  {
    MulBounds(stakeNum, LN_ONE_MINUS_F_MAG, stakeDen, LN_ONE_MINUS_F_MAG);
    DivMono(stakeNum * LN_ONE_MINUS_F_MAG, stakeDen * LN_ONE_MINUS_F_MAG, stakeDen);
    MultipleQuotient(stakeDen, LN_ONE_MINUS_F_MAG);
  }

  lemma StakeProductFits(stakeNum: U64)
    ensures 0 <= stakeNum * LN_ONE_MINUS_F_MAG <= U128_MAX
  {
    MulBounds(stakeNum, LN_ONE_MINUS_F_MAG, U64_MAX, LN_ONE_MINUS_F_MAG);
  }

  /** The threshold on every input; an empty total reads as exponent zero. */
  function FixedThreshold(stakeNum: U64, stakeDen: U64): U128 {
    SatSub128(SCALE, SatSum(FixedExponent(stakeNum, stakeDen), EXP_TERMS).acc)
  }

  function FixedExponent(stakeNum: U64, stakeDen: U64): U128 {
    StakeProductFits(stakeNum);
    if stakeDen == 0 then 0
    else QuotientAtMost(stakeNum * LN_ONE_MINUS_F_MAG, stakeDen); stakeNum * LN_ONE_MINUS_F_MAG / stakeDen
  }

  /** No saturating operation fires when the stake is a part of the total. */
  lemma FixedThresholdIsExact(stakeNum: U64, stakeDen: U64)
    ensures 0 < stakeDen && stakeNum <= stakeDen ==> FixedThreshold(stakeNum, stakeDen) == Threshold(stakeNum, stakeDen)
    ensures stakeNum == 0 || stakeDen == 0 ==> FixedThreshold(stakeNum, stakeDen) == 0
  {
    if stakeNum == 0 || stakeDen == 0 {
      if stakeDen > 0 { QuotientIs(0, stakeDen, 0, 0); }
      NothingSaturates(0, EXP_TERMS);
      ZeroSeries(EXP_TERMS);
    }
    if 0 < stakeDen && stakeNum <= stakeDen {
      var m := Exponent(stakeNum, stakeDen);
      ExponentBounded(stakeNum, stakeDen);
      NothingSaturates(m, EXP_TERMS);
      SeriesBracketed(m, EXP_TERMS);
    }
  }

  method LeaderThresholdFixed(stakeNum: U64, stakeDen: U64) returns (r: U128)
    ensures r == FixedThreshold(stakeNum, stakeDen) && r <= SCALE
    ensures 0 < stakeDen && stakeNum <= stakeDen ==> r == Threshold(stakeNum, stakeDen)
    ensures stakeNum == 0 || stakeDen == 0 ==> r == 0
  {
    StakeProductFits(stakeNum);
    var product := SatMul128(stakeNum, LN_ONE_MINUS_F_MAG);
    if stakeDen > 0 { QuotientAtMost(product, stakeDen); }
    var m: U128 := if stakeDen == 0 then 0 else product / stakeDen;
    var e := ExpNegFixed(m);
    r := SatSub128(SCALE, e);
    FixedThresholdIsExact(stakeNum, stakeDen);
  }

  lemma {:induction false} ZeroSeries(k: nat)
    ensures (k > 0 ==> Term(0, k) == 0) && Series(0, k) == SCALE
  {
    if k > 0 { ZeroSeries(k - 1); }
  }

  /** The top 64 bits of the 32-byte VRF output: v/2^64 is the output/2^256 cut off. */
  function LeaderVrfValue(output: Digest): (v: U64)
    ensures v * TWO256 <= output * SCALE < (v + 1) * TWO256
  {
    FloorBounds(output, VRF_TAIL);
    output / VRF_TAIL
  }

  /** Whether a pool leads the slot that produced the VRF output. */
  method IsSlotLeader(stakeNum: U64, stakeDen: U64, output: Digest) returns (r: bool)
    ensures r <==> Elected(stakeNum, stakeDen, LeaderVrfValue(output))
    ensures stakeNum == 0 || stakeDen == 0 ==> !r
    ensures 0 < stakeNum <= stakeDen ==> (r <==> output < Threshold(stakeNum, stakeDen) * VRF_TAIL)
  {
    if stakeNum == 0 || stakeDen == 0 {
      return false;
    }
    var threshold := LeaderThresholdFixed(stakeNum, stakeDen);
    BelowThreshold(output, threshold);
    return LeaderVrfValue(output) < threshold;
  }

  /** The top bits are below a threshold exactly when the output is below its multiple. */
  lemma BelowThreshold(output: Digest, threshold: int)
    ensures LeaderVrfValue(output) < threshold <==> output < threshold * VRF_TAIL
  {
    var v := LeaderVrfValue(output);
    if v < threshold { MulMono(VRF_TAIL, v + 1, threshold); } else { MulMono(VRF_TAIL, threshold, v); }
  }

  predicate Elected(stakeNum: U64, stakeDen: U64, vrfValue: U64) {
    stakeNum > 0 && stakeDen > 0 && vrfValue < FixedThreshold(stakeNum, stakeDen)
  }

  lemma ElectedExactly(stakeNum: U64, stakeDen: U64, vrfValue: U64)
    requires stakeNum <= stakeDen
    ensures Elected(stakeNum, stakeDen, vrfValue) <==> stakeNum > 0 && vrfValue < Threshold(stakeNum, stakeDen)
  {
    FixedThresholdIsExact(stakeNum, stakeDen);
  }

  /** 1 - exp(-x) is at most x: the threshold never exceeds the exponent. */
  lemma ThresholdAtMostExponent(stakeNum: U64, stakeDen: U64)
    requires stakeNum <= stakeDen && stakeDen > 0
    ensures 0 <= Threshold(stakeNum, stakeDen) <= Exponent(stakeNum, stakeDen) <= LN_ONE_MINUS_F_MAG
  {
    ExponentBounded(stakeNum, stakeDen);
    SeriesBracketed(Exponent(stakeNum, stakeDen), EXP_TERMS);
  }

  // ----- the exact series over the reals -----

  /** The factor from one term of the exponential series to the next. */
  ghost function Factor(m: real, k: nat): real
    requires k > 0
  {
    m / (SCALE * k) as real
  }

  /** 2^64 * x^k / k! for x = m / 2^64. */
  ghost function ExactTerm(m: real, k: nat): real {
    if k == 0 then SCALE as real else ExactTerm(m, k - 1) * Factor(m, k)
  }

  /** 2^64 times the degree-k Taylor polynomial of exp(-m / 2^64). */
  ghost function ExactSeries(m: real, k: nat): real {
    if k == 0 then SCALE as real
    else if k % 2 == 1 then ExactSeries(m, k - 1) - ExactTerm(m, k)
    else ExactSeries(m, k - 1) + ExactTerm(m, k)
  }

  lemma RealMulMono(a: real, x: real, y: real)
    requires 0.0 <= a && x <= y
    ensures a * x <= a * y
  {
  }

  lemma RealCancel(d: real, x: real, y: real)
    requires d > 0.0
    ensures x * d <= y * d ==> x <= y
    ensures x * d < y * d ==> x < y
  {
    if x > y { RealMulMono(d, y, x); }
    if x == y { assert x * d == y * d; }
  }

  lemma FactorBounds(m: real, k: nat)
    requires k > 0 && 0.0 <= m <= LN_ONE_MINUS_F_MAG as real
    ensures Factor(m, k) * (SCALE * k) as real == m
    ensures 0.0 <= Factor(m, k) <= 1.0 / 19.0 && (k > 1 ==> Factor(m, k) <= 1.0 / 38.0)
  {
    var d, u := (SCALE * k) as real, Factor(m, k);
    assert d >= SCALE as real && (k > 1 ==> d >= 2.0 * SCALE as real);
    assert u * d == m;
    RealCancel(d, 0.0, u);
    RealCancel(d, u, 1.0 / 19.0);
    RealCancel(d, u, 1.0 / 38.0);
  }

  /** A real whose product with d lies between those of q and q + 1. */
  lemma RealFloor(v: real, x: int, d: int, q: int)
    requires d > 0 && v * d as real == x as real && q * d <= x < q * d + d
    ensures q as real <= v < q as real + 1.0
  {
    assert (q * d) as real == q as real * d as real;
    assert ((q + 1) * d) as real == (q + 1) as real * d as real && (q + 1) * d == q * d + d;
    RealCancel(d as real, q as real, v);
    RealCancel(d as real, v, (q + 1) as real);
  }

  lemma RealAssoc(a: real, b: real, c: real)
    ensures (a * b) * c == a * (b * c)
  {
  }

  /** The floored product and the exact one differ by less than one. */
  lemma FlooredProduct(t: nat, m: nat, k: nat)
    requires k > 0 && m <= LN_ONE_MINUS_F_MAG
    ensures var q := t * m / SCALE / k;
            q as real <= t as real * Factor(m as real, k) < q as real + 1.0
  {
    var u := Factor(m as real, k);
    DivBounds(t * m, k);
    FactorBounds(m as real, k);
    RealAssoc(t as real, u, (SCALE * k) as real);
    RealFloor(t as real * u, t * m, SCALE * k, t * m / SCALE / k);
  }

  /** Carrying an error of at most 1.1 through one floored step keeps it so. */
  lemma FloorStep(t: nat, e: real, m: nat, k: nat)
    requires 0 < k && m <= LN_ONE_MINUS_F_MAG && t as real <= e <= t as real + 1.1
    ensures var q := t * m / SCALE / k;
            q as real <= e * Factor(m as real, k) <= q as real + 1.1
  {
    FlooredProduct(t, m, k);
    FactorBounds(m as real, k);
    var u, d := Factor(m as real, k), e - t as real;
    assert e * u == t as real * u + d * u;
    RealMulMono(d, 0.0, u);
    RealMulMono(d, u, 1.0 / 19.0);
  }

  lemma FirstExactTerm(m: real)
    requires 0.0 <= m <= LN_ONE_MINUS_F_MAG as real
    ensures ExactTerm(m, 1) == m && ExactSeries(m, 1) == SCALE as real - m
  {
    FactorBounds(m, 1);
    assert ExactTerm(m, 0) == SCALE as real && ExactSeries(m, 0) == SCALE as real;
  }

  lemma NextExactTerm(m: real, k: nat, t: real, u: real)
    requires k > 0 && t == ExactTerm(m, k - 1) && u == Factor(m, k)
    ensures ExactTerm(m, k) == t * u
  {
  }

  lemma NextFlooredTerm(m: nat, k: nat, t: nat)
    requires k > 0 && t == Term(m, k - 1)
    ensures Term(m, k) == t * m / SCALE / k
  {
  }

  lemma {:induction false} TermError(m: nat, k: nat)
    requires m <= LN_ONE_MINUS_F_MAG
    ensures Term(m, k) as real <= ExactTerm(m as real, k) <= Term(m, k) as real + 1.1
    ensures k <= 1 ==> ExactTerm(m as real, k) == Term(m, k) as real
  {
    if k == 1 {
      FirstTerm(m);
      FirstExactTerm(m as real);
    } else if k > 1 {
      TermError(m, k - 1);
      LaterTermError(m, k, Term(m, k - 1), ExactTerm(m as real, k - 1));
    }
  }

  lemma LaterTermError(m: nat, k: nat, t: nat, e: real)
    requires m <= LN_ONE_MINUS_F_MAG && k > 1 && t == Term(m, k - 1) && e == ExactTerm(m as real, k - 1)
    requires t as real <= e <= t as real + 1.1
    ensures Term(m, k) as real <= ExactTerm(m as real, k) <= Term(m, k) as real + 1.1
  {
    FloorStep(t, e, m, k);
    NextExactTerm(m as real, k, e, Factor(m as real, k));
    NextFlooredTerm(m, k, t);
  }

  ghost function Multiple(n: nat, e: real): real { if n == 0 then 0.0 else Multiple(n - 1, e) + e }

  /** Even terms push the exact series up, odd terms from the third on down. */
  lemma {:induction false} SeriesError(m: nat, k: nat)
    requires m <= LN_ONE_MINUS_F_MAG
    ensures Series(m, k) as real - Multiple(if k == 0 then 0 else (k - 1) / 2, 1.1)
            <= ExactSeries(m as real, k)
            <= Series(m, k) as real + Multiple(k / 2, 1.1)
  {
    if k > 0 {
      SeriesError(m, k - 1);
      TermError(m, k);
    }
  }

  /** At degree nine, four odd and four even terms carry an error. */
  lemma FullError(m: nat)
    requires m <= LN_ONE_MINUS_F_MAG
    ensures Series(m, EXP_TERMS) as real - 4.4 <= ExactSeries(m as real, EXP_TERMS) <= Series(m, EXP_TERMS) as real + 4.4
  {
    SeriesError(m, EXP_TERMS);
    assert Multiple(2, 1.1) == 2.2 && Multiple(4, 1.1) == 4.4;
  }

  lemma GrowthOf(d: real, e: real, s: real, t: real, u: real, v: real, delta: real, scale: real)
    requires d == s * u && e == t * v
    requires 0.0 <= s <= scale / 19.0 && 0.0 <= t - s <= delta
    requires 0.0 <= u <= v <= 1.0 / 38.0 && (v - u) * scale <= delta / 2.0
    ensures 0.0 <= d <= scale / 19.0 && 0.0 <= e - d <= delta / 19.0
  {
    TermGrowthStep(s, t, u, v, delta, scale);
  }

  lemma LaterTermGrowth(m: real, n: real, k: nat, s: real, t: real)
    requires 0.0 <= m <= n <= LN_ONE_MINUS_F_MAG as real && k > 1
    requires s == ExactTerm(m, k - 1) && t == ExactTerm(n, k - 1)
    requires 0.0 <= s <= SCALE as real / 19.0 && 0.0 <= t - s <= n - m
    ensures 0.0 <= ExactTerm(m, k) <= SCALE as real / 19.0
    ensures 0.0 <= ExactTerm(n, k) - ExactTerm(m, k) <= (n - m) / 19.0
  {
    FactorGrowth(m, n, k);
    FactorBounds(m, k);
    FactorBounds(n, k);
    var u, v := Factor(m, k), Factor(n, k);
    NextExactTerm(m, k, s, u);
    NextExactTerm(n, k, t, v);
    GrowthOf(ExactTerm(m, k), ExactTerm(n, k), s, t, u, v, n - m, SCALE as real);
  }

  /** How the exact terms move when the exponent grows. */
  lemma {:induction false} TermGrowth(m: real, n: real, k: nat)
    requires 0.0 <= m <= n <= LN_ONE_MINUS_F_MAG as real && k > 0
    ensures 0.0 <= ExactTerm(m, k) <= SCALE as real / 19.0
    ensures 0.0 <= ExactTerm(n, k) - ExactTerm(m, k) <= n - m
    ensures k > 1 ==> ExactTerm(n, k) - ExactTerm(m, k) <= (n - m) / 19.0
  {
    if k == 1 {
      FirstExactTerm(m);
      FirstExactTerm(n);
    } else {
      TermGrowth(m, n, k - 1);
      LaterTermGrowth(m, n, k, ExactTerm(m, k - 1), ExactTerm(n, k - 1));
    }
  }

  lemma FactorGrowth(m: real, n: real, k: nat)
    requires 0.0 <= m <= n <= LN_ONE_MINUS_F_MAG as real && k > 1
    ensures Factor(m, k) <= Factor(n, k)
    ensures 0.0 <= (Factor(n, k) - Factor(m, k)) * SCALE as real <= (n - m) / 2.0
  {
    FactorBounds(m, k);
    FactorBounds(n, k);
    ScaledDifference(Factor(m, k), Factor(n, k), (SCALE * k) as real, SCALE as real, m, n);
  }

  lemma ScaledDifference(u: real, v: real, d: real, scale: real, m: real, n: real)
    requires u * d == m && v * d == n && m <= n && d >= 2.0 * scale > 0.0
    ensures u <= v && 0.0 <= (v - u) * scale <= (n - m) / 2.0
  {
    var w := v - u;
    assert w * d == n - m;
    RealCancel(d, 0.0, w);
    RealMulMono(w, 0.0, scale);
    RealMulMono(w, 2.0 * scale, d);
    assert w * (2.0 * scale) == 2.0 * (w * scale);
  }

  lemma ProductAtMost(s: real, u: real)
    requires 0.0 <= s && 0.0 <= u <= 1.0
    ensures 0.0 <= s * u <= s
  {
    RealMulMono(s, u, 1.0);
  }

  lemma SplitDifference(s: real, t: real, u: real, v: real)
    ensures t * v - s * u == (t - s) * v + (v - u) * s
  {
  }

  lemma SmallFactor(r: real, v: real, delta: real)
    requires 0.0 <= r <= delta && 0.0 <= v <= 1.0 / 38.0
    ensures 0.0 <= r * v <= delta / 38.0
  {
    RealMulMono(r, 0.0, v);
    RealMulMono(r, v, 1.0 / 38.0);
  }

  lemma NineteenParts(w: real, part: real)
    ensures w * (19.0 * part) == 19.0 * (w * part)
  {
  }

  lemma SmallPartWeight(w: real, s: real, part: real, delta: real)
    requires 0.0 <= w && 0.0 <= s <= part && 19.0 * (w * part) <= delta / 2.0
    ensures 0.0 <= w * s <= delta / 38.0
  {
    RealMulMono(w, 0.0, s);
    RealMulMono(w, s, part);
  }

  lemma SmallWeight(w: real, s: real, scale: real, delta: real)
    requires 0.0 <= w && w * scale <= delta / 2.0 && 0.0 <= s <= scale / 19.0
    ensures 0.0 <= w * s <= delta / 38.0
  {
    var part := scale / 19.0;
    NineteenParts(w, part);
    assert 19.0 * part == scale;
    SmallPartWeight(w, s, part, delta);
  }

  lemma TermGrowthStep(s: real, t: real, u: real, v: real, delta: real, scale: real)
    requires 0.0 <= s <= scale / 19.0 && 0.0 <= t - s <= delta
    requires 0.0 <= u <= v <= 1.0 / 38.0 && (v - u) * scale <= delta / 2.0
    ensures 0.0 <= s * u <= scale / 19.0
    ensures 0.0 <= t * v - s * u <= delta / 19.0
  {
    ProductAtMost(s, u);
    SplitDifference(s, t, u, v);
    SmallFactor(t - s, v, delta);
    SmallWeight(v - u, s, scale, delta);
  }

  /** Raising the exponent by d lowers the exact series by d, give or take d/19 for
      each later term. */
  lemma {:induction false} SeriesDrop(m: real, n: real, k: nat)
    requires 0.0 <= m <= n <= LN_ONE_MINUS_F_MAG as real && k > 0
    ensures var d := n - m;
            d - Multiple(k / 2, d / 19.0) <= ExactSeries(m, k) - ExactSeries(n, k)
            <= d + Multiple((k - 1) / 2, d / 19.0)
  {
    TermGrowth(m, n, k);
    if k == 1 {
      FirstExactTerm(m);
      FirstExactTerm(n);
    } else {
      SeriesDrop(m, n, k - 1);
    }
  }

  lemma FourTimes(e: real)
    ensures Multiple(4, e) == 4.0 * e
  {
    assert Multiple(1, e) == e;
    assert Multiple(2, e) == Multiple(1, e) + e;
    assert Multiple(3, e) == Multiple(2, e) + e;
    assert Multiple(4, e) == Multiple(3, e) + e;
  }

  /** The drop at degree nine. */
  lemma FullDrop(m: real, n: real)
    requires 0.0 <= m <= n <= LN_ONE_MINUS_F_MAG as real
    ensures var d := n - m;
            d - 4.0 * (d / 19.0) <= ExactSeries(m, EXP_TERMS) - ExactSeries(n, EXP_TERMS) <= d + 4.0 * (d / 19.0)
  {
    SeriesDrop(m, n, EXP_TERMS);
    var e := (n - m) / 19.0;
    FourTimes(e);
  }

  // ----- the main results -----

  /** The threshold is within 5 units of 2^64 (1 - the exact degree-9 series) at the
      exponent the code uses, and within 6 at the exact relative stake. */
  lemma ThresholdError(stakeNum: U64, stakeDen: U64)
    requires stakeNum <= stakeDen && stakeDen > 0
    ensures var exact := SCALE as real - ExactSeries(Exponent(stakeNum, stakeDen) as real, EXP_TERMS);
            -5.0 < Threshold(stakeNum, stakeDen) as real - exact < 5.0
    ensures var exact := SCALE as real
                         - ExactSeries((stakeNum * LN_ONE_MINUS_F_MAG) as real / stakeDen as real, EXP_TERMS);
            -6.0 < Threshold(stakeNum, stakeDen) as real - exact < 5.0
  {
    var m := Exponent(stakeNum, stakeDen);
    var r := (stakeNum * LN_ONE_MINUS_F_MAG) as real / stakeDen as real;
    ExponentBounded(stakeNum, stakeDen);
    FullError(m);
    ExponentFloor(stakeNum, stakeDen);
    FullDrop(m as real, r);
  }

  lemma RealPart(num: nat, den: nat, bound: nat, r: real)
    requires num <= den && den > 0 && r * den as real == (num * bound) as real
    ensures r <= bound as real
  {
    MulMono(bound, num, den);
    assert bound as real * den as real == (bound * den) as real;
    RealCancel(den as real, r, bound as real);
  }

  lemma ExponentFloor(stakeNum: U64, stakeDen: U64)
    requires stakeNum <= stakeDen && stakeDen > 0
    ensures var r := (stakeNum * LN_ONE_MINUS_F_MAG) as real / stakeDen as real;
            0.0 <= r - Exponent(stakeNum, stakeDen) as real < 1.0 && r <= LN_ONE_MINUS_F_MAG as real
  {
    var x: int := stakeNum * LN_ONE_MINUS_F_MAG;
    var d, r := stakeDen as real, x as real / stakeDen as real;
    FloorBounds(x, stakeDen);
    assert r * d == x as real;
    RealFloor(r, x, stakeDen, x / stakeDen);
    RealPart(stakeNum, stakeDen, LN_ONE_MINUS_F_MAG, r);
  }

  /** Twelve units of exponent outweigh every rounding error. */
  lemma FartherExponentFallsFarther(m: nat, n: nat)
    requires m + 12 <= n <= LN_ONE_MINUS_F_MAG
    ensures Series(n, EXP_TERMS) < Series(m, EXP_TERMS)
  {
    FullError(m);
    FullError(n);
    FullDrop(m as real, n as real);
  }

  // Below twelve units the terms themselves decide: each even one rises by at most one.

  lemma QuotientRises(x: nat, y: nat, d: nat, c: nat)
    requires d > 0 && x <= y <= x + c * d
    ensures x / d <= y / d <= x / d + c
  {
    var e, f := x / d, y / d;
    FloorBounds(x, d);
    FloorBounds(y, d);
    DivMono(x, y, d);
    DistributeLeft(d, e, c + 1);
    DistributeLeft(d, c, 1);
    MulCancelLt(d, f, e + c + 1);
  }

  lemma LaterTermIsSmall(m: nat, k: nat)
    requires m <= LN_ONE_MINUS_F_MAG && k > 1
    ensures 38 * Term(m, k) <= LN_ONE_MINUS_F_MAG
    decreases k
  {
    if k == 2 {
      FirstTerm(m);
      TermShrinks(m, 2);
    } else {
      LaterTermIsSmall(m, k - 1);
      TermDecreases(m, k);
    }
  }

  /** How far a product can rise when its factors rise by c and g. */
  lemma ProductRises(t: nat, u: nat, m: nat, n: nat, c: nat, g: nat)
    requires t <= u <= t + c && m <= n <= m + g
    ensures t * m <= u * n <= t * m + g * t + c * m + c * g
  {
    MulBounds(t, m, u, n);
    MulBounds(u, n, t + c, m + g);
    assert (t + c) * (m + g) == t * m + g * t + c * m + c * g;
  }

  lemma SquareTermRises(m: nat, n: nat)
    requires m <= n <= m + 11 && n <= LN_ONE_MINUS_F_MAG
    ensures m * m / SCALE / 2 <= n * n / SCALE / 2 <= m * m / SCALE / 2 + 1
  {
    ProductRises(m, n, m, n, 11, 11);
    QuotientRises(m * m, n * n, SCALE, 2);
    QuotientRises(m * m / SCALE, n * n / SCALE, 2, 1);
  }

  lemma NextTermRises(t: nat, u: nat, m: nat, n: nat, k: nat)
    requires m <= n <= m + 11 && n <= LN_ONE_MINUS_F_MAG && t <= u <= t + 1 && 38 * t <= LN_ONE_MINUS_F_MAG && k > 0
    ensures t * m / SCALE / k <= u * n / SCALE / k <= t * m / SCALE / k + 1
  {
    ProductRises(t, u, m, n, 1, 11);
    QuotientRises(t * m, u * n, SCALE, 1);
    MulMono(1, 1, k);
    QuotientRises(t * m / SCALE, u * n / SCALE, k, 1);
  }

  lemma {:induction false} TermRises(m: nat, n: nat, k: nat)
    requires m <= n <= m + 11 && n <= LN_ONE_MINUS_F_MAG && k > 1
    ensures Term(m, k) <= Term(n, k) <= Term(m, k) + 1
    decreases k
  {
    if k == 2 {
      FirstTerm(m);
      FirstTerm(n);
      SquareTermRises(m, n);
    } else {
      TermRises(m, n, k - 1);
      LaterTermIsSmall(m, k - 1);
      NextTermRises(Term(m, k - 1), Term(n, k - 1), m, n, k);
    }
  }

  /** Four even terms can give back one unit each of what the first term takes. */
  lemma SeriesFalls(m: nat, n: nat)
    requires m <= n <= m + 11 && n <= LN_ONE_MINUS_F_MAG
    ensures Series(n, EXP_TERMS) <= Series(m, EXP_TERMS) + 4 - (n - m)
  {
    FirstTerm(m);
    FirstTerm(n);
    TermRises(m, n, 2); TermRises(m, n, 3); TermRises(m, n, 4); TermRises(m, n, 5);
    TermRises(m, n, 6); TermRises(m, n, 7); TermRises(m, n, 8); TermRises(m, n, 9);
    SumOfNine(m);
    SumOfNine(n);
  }

  lemma SumOfNine(m: nat)
    ensures Series(m, 9) == Series(m, 1) + Term(m, 2) - Term(m, 3) + Term(m, 4) - Term(m, 5)
                            + Term(m, 6) - Term(m, 7) + Term(m, 8) - Term(m, 9)
  {
    assert Series(m, 3) == Series(m, 1) + Term(m, 2) - Term(m, 3);
    assert Series(m, 5) == Series(m, 3) + Term(m, 4) - Term(m, 5);
    assert Series(m, 7) == Series(m, 5) + Term(m, 6) - Term(m, 7);
  }

  /** A step of four units never raises the series, a step of five lowers it. */
  lemma SeriesDoesNotRise(m: nat, n: nat)
    requires m + 4 <= n <= LN_ONE_MINUS_F_MAG
    ensures Series(n, EXP_TERMS) <= Series(m, EXP_TERMS)
    ensures n >= m + 5 ==> Series(n, EXP_TERMS) < Series(m, EXP_TERMS)
  {
    if n <= m + 11 {
      SeriesFalls(m, n);
    } else {
      FartherExponentFallsFarther(m, n);
    }
  }

  lemma QuotientGrows(x: nat, y: nat, d: nat, c: nat)
    requires d > 0 && y - x >= c * d
    ensures x / d + c <= y / d
  {
    var e, f := x / d, y / d;
    FloorBounds(x, d);
    FloorBounds(y, d);
    DistributeLeft(d, e, c);
    DistributeLeft(d, f, 1);
    MulCancelLt(d, e + c, f + 1);
  }

  lemma ExponentGrows(a: U64, b: U64, stakeDen: U64, c: nat)
    requires a < b && 0 < stakeDen && c * stakeDen <= LN_ONE_MINUS_F_MAG
    ensures Exponent(a, stakeDen) + c <= Exponent(b, stakeDen)
  {
    ProductGap(a, b, LN_ONE_MINUS_F_MAG);
    QuotientGrows(a * LN_ONE_MINUS_F_MAG, b * LN_ONE_MINUS_F_MAG, stakeDen, c);
  }

  lemma ProductGap(a: nat, b: nat, l: nat)
    requires a < b
    ensures 0 <= a * l && b * l - a * l >= l
  {
    MulMono(l, 1, b - a);
    MulMono(l, 0, a);
  }

  /** For every total stake up to LN_ONE_MINUS_F_MAG / 4 (about 2.3 * 10^17, a hundred times
      the total supply) a pool elected with less stake stays elected with more, and up to
      LN_ONE_MINUS_F_MAG / 5 more stake strictly raises the threshold. */
  lemma MoreStakeStaysElected(a: U64, b: U64, stakeDen: U64, vrfValue: U64)
    requires a < b <= stakeDen && 4 * stakeDen <= LN_ONE_MINUS_F_MAG
    ensures Threshold(a, stakeDen) <= Threshold(b, stakeDen)
    ensures 5 * stakeDen <= LN_ONE_MINUS_F_MAG ==> Threshold(a, stakeDen) < Threshold(b, stakeDen)
    ensures Elected(a, stakeDen, vrfValue) ==> Elected(b, stakeDen, vrfValue)
  {
    ExponentBounded(b, stakeDen);
    ExponentGrows(a, b, stakeDen, 4);
    if 5 * stakeDen <= LN_ONE_MINUS_F_MAG { ExponentGrows(a, b, stakeDen, 5); }
    SeriesDoesNotRise(Exponent(a, stakeDen), Exponent(b, stakeDen));
    ElectedExactly(a, stakeDen, vrfValue);
    ElectedExactly(b, stakeDen, vrfValue);
  }

  // ----- the rounding error is real, the truncation error is below one -----

  lemma TermBetween(m: real, k: nat, lo: real, hi: real, lower: real, upper: real)
    requires k > 0 && 0.0 <= m <= LN_ONE_MINUS_F_MAG as real && lo <= ExactTerm(m, k - 1) <= hi
    requires lower * (SCALE * k) as real <= lo * m && hi * m <= upper * (SCALE * k) as real
    ensures lower <= ExactTerm(m, k) <= upper
  {
    var d, t, e := (SCALE * k) as real, ExactTerm(m, k - 1), ExactTerm(m, k);
    FactorBounds(m, k);
    RealAssoc(t, Factor(m, k), d);
    assert e * d == t * m;
    ScaledBetween(e, d, t, m, lo, hi, lower, upper);
  }

  lemma ScaledBetween(e: real, d: real, t: real, m: real, lo: real, hi: real, lower: real, upper: real)
    requires d > 0.0 && m >= 0.0 && e * d == t * m && lo <= t <= hi
    requires lower * d <= lo * m && hi * m <= upper * d
    ensures lower <= e <= upper
  {
    RealMulMono(m, lo, t);
    RealMulMono(m, t, hi);
    RealCancel(d, lower, e);
    RealCancel(d, e, upper);
  }

  lemma SeriesAtMiss()
    ensures Series(620_414_505_474_374_389, EXP_TERMS) == 17_836_646_699_505_747_581
  {
    var m := 620_414_505_474_374_389;
    FirstTerm(m);
    assert Term(m, 2) == 10_433_119_174_445_405 && Series(m, 2) == 17_836_762_687_409_622_632;
    assert Term(m, 3) == 116_964_786_980_012 && Series(m, 3) == 17_836_645_722_622_642_620;
    assert Term(m, 4) == 983_461_501_148 && Series(m, 4) == 17_836_646_706_084_143_768;
    assert Term(m, 5) == 6_615_300_547 && Series(m, 5) == 17_836_646_699_468_843_221;
    assert Term(m, 6) == 37_081_778 && Series(m, 6) == 17_836_646_699_505_924_999;
    assert Term(m, 7) == 178_165 && Series(m, 7) == 17_836_646_699_505_746_834;
    assert Term(m, 8) == 749 && Series(m, 8) == 17_836_646_699_505_747_583;
    assert Term(m, 9) == 2 && Series(m, 9) == 17_836_646_699_505_747_581;
  }

  lemma LowTermsAtMiss(m: real)
    requires m == 620414505474374389.0
    ensures 10433119174445405.0017 <= ExactTerm(m, 2) <= 10433119174445405.0018
    ensures 116964786980012.8976 <= ExactTerm(m, 3) <= 116964786980012.8977
    ensures 983461501148.3628 <= ExactTerm(m, 4) <= 983461501148.3629
    ensures 6615300547.8906 <= ExactTerm(m, 5) <= 6615300547.8907
  {
    FirstExactTerm(m);
    TermBetween(m, 2, 620414505474374389.0, 620414505474374389.0, 10433119174445405.0017, 10433119174445405.0018);
    TermBetween(m, 3, 10433119174445405.0017, 10433119174445405.0018, 116964786980012.8976, 116964786980012.8977);
    TermBetween(m, 4, 116964786980012.8976, 116964786980012.8977, 983461501148.3628, 983461501148.3629);
    TermBetween(m, 5, 983461501148.3628, 983461501148.3629, 6615300547.8906, 6615300547.8907);
  }

  lemma HighTermsAtMiss(m: real)
    requires m == 620414505474374389.0
    ensures 37081778.0596 <= ExactTerm(m, 6) <= 37081778.0597
    ensures 178165.9594 <= ExactTerm(m, 7) <= 178165.9595
    ensures 749.0261 <= ExactTerm(m, 8) <= 749.0262
    ensures 2.7990 <= ExactTerm(m, 9) <= 2.7991
  {
    LowTermsAtMiss(m);
    TermBetween(m, 6, 6615300547.8906, 6615300547.8907, 37081778.0596, 37081778.0597);
    TermBetween(m, 7, 37081778.0596, 37081778.0597, 178165.9594, 178165.9595);
    TermBetween(m, 8, 178165.9594, 178165.9595, 749.0261, 749.0262);
    TermBetween(m, 9, 749.0261, 749.0262, 2.7990, 2.7991);
  }

  /** The nine floors can add up: here the threshold falls more than three units short of the
      exact degree-nine value. */
  lemma ThresholdMissesByThree()
    ensures var a := 620_414_505_474_374_389;
            var exact := SCALE as real - ExactSeries((a as int) as real, EXP_TERMS);
            Exponent(a, LN_ONE_MINUS_F_MAG) == a
            && Threshold(a, LN_ONE_MINUS_F_MAG) as real < exact - 3.0
  {
    var a := 620_414_505_474_374_389;
    var m := a as real;
    MultipleQuotient(LN_ONE_MINUS_F_MAG, a);
    SeriesAtMiss();
    FirstExactTerm(m);
    LowTermsAtMiss(m);
    HighTermsAtMiss(m);
    SeriesOfNine(m);
  }

  lemma SeriesOfNine(m: real)
    ensures ExactSeries(m, 9) == ExactSeries(m, 1) + ExactTerm(m, 2) - ExactTerm(m, 3) + ExactTerm(m, 4)
              - ExactTerm(m, 5) + ExactTerm(m, 6) - ExactTerm(m, 7) + ExactTerm(m, 8) - ExactTerm(m, 9)
  {
    assert ExactSeries(m, 3) == ExactSeries(m, 1) + ExactTerm(m, 2) - ExactTerm(m, 3);
    assert ExactSeries(m, 5) == ExactSeries(m, 3) + ExactTerm(m, 4) - ExactTerm(m, 5);
    assert ExactSeries(m, 7) == ExactSeries(m, 5) + ExactTerm(m, 6) - ExactTerm(m, 7);
  }

  lemma ShrunkProduct(t: real, u: real, e: real, m: real, k: real, scale: real)
    requires t >= 0.0 && u >= 0.0 && e == t * u && u * (scale * k) == m && 19.0 * m <= scale && scale > 0.0
    ensures 0.0 <= e && 19.0 * k * e <= t
  {
    RealMulMono(t, 0.0, u);
    RealAssoc(t, u, scale * k);
    RealMulMono(t, 19.0 * m, scale);
    ShrinkStep(t, e, m, k, scale);
  }

  lemma ExactTermShrinks(m: real, k: nat)
    requires k > 0 && 0.0 <= m <= LN_ONE_MINUS_F_MAG as real && ExactTerm(m, k - 1) >= 0.0
    ensures 0.0 <= ExactTerm(m, k) && (19 * k) as real * ExactTerm(m, k) <= ExactTerm(m, k - 1)
  {
    var t, u := ExactTerm(m, k - 1), Factor(m, k);
    FactorBounds(m, k);
    NextExactTerm(m, k, t, u);
    assert (SCALE * k) as real == SCALE as real * k as real && (19 * k) as real == 19.0 * k as real;
    ShrunkProduct(t, u, ExactTerm(m, k), m, k as real, SCALE as real);
  }

  lemma ShrinkStep(t: real, e: real, m: real, k: real, scale: real)
    requires scale > 0.0 && e * (scale * k) == t * m && t * (19.0 * m) <= t * scale
    ensures 19.0 * k * e <= t
  {
    assert 19.0 * k * e * scale == 19.0 * (e * (scale * k));
    assert t * (19.0 * m) == 19.0 * (t * m);
    RealCancel(scale, 19.0 * k * e, t);
  }

  lemma {:induction false} ExactTermsNonNegative(m: real, k: nat)
    requires 0.0 <= m <= LN_ONE_MINUS_F_MAG as real
    ensures ExactTerm(m, k) >= 0.0
  {
    if k > 0 {
      ExactTermsNonNegative(m, k - 1);
      ExactTermShrinks(m, k);
    }
  }

  lemma TenthTermBelowOne(m: real)
    requires 0.0 <= m <= LN_ONE_MINUS_F_MAG as real
    ensures 0.0 <= ExactTerm(m, 10) < 1.0
  {
    ExactTermShrinks(m, 1); ExactTermShrinks(m, 2); ExactTermShrinks(m, 3); ExactTermShrinks(m, 4);
    ExactTermShrinks(m, 5); ExactTermShrinks(m, 6); ExactTermShrinks(m, 7); ExactTermShrinks(m, 8);
    ExactTermShrinks(m, 9); ExactTermShrinks(m, 10);
  }

  lemma ExactTermDecreases(m: real, k: nat)
    requires k > 0 && 0.0 <= m <= LN_ONE_MINUS_F_MAG as real
    ensures 0.0 <= ExactTerm(m, k) <= ExactTerm(m, k - 1)
  {
    ExactTermsNonNegative(m, k - 1);
    ExactTermShrinks(m, k);
    RealMulMono(ExactTerm(m, k), 1.0, (19 * k) as real);
  }

  /** A partial sum `s` past the ninth, `t`: between it and the tenth. */
  ghost predicate InTail(odd: bool, s: real, t: real, tenth: real, last: real, next: real) {
    if odd then t <= s <= t + tenth - next else t + last <= s <= t + tenth
  }

  lemma TailStep(odd: bool, before: real, s: real, t: real, tenth: real, last: real, next: real, after: real)
    requires InTail(!odd, before, t, tenth, last, next) && after <= next <= last
    requires s == if odd then before - next else before + next
    ensures InTail(odd, s, t, tenth, next, after)
  {
  }

  lemma {:induction false} TailBracketed(m: real, k: nat)
    requires 0.0 <= m <= LN_ONE_MINUS_F_MAG as real && k >= 9
    ensures InTail(k % 2 == 1, ExactSeries(m, k), ExactSeries(m, 9), ExactTerm(m, 10), ExactTerm(m, k), ExactTerm(m, k + 1))
  {
    if k > 9 {
      TailBracketed(m, k - 1);
      ExactTermDecreases(m, k);
      ExactTermDecreases(m, k + 1);
      TailStep(k % 2 == 1, ExactSeries(m, k - 1), ExactSeries(m, k), ExactSeries(m, 9), ExactTerm(m, 10),
               ExactTerm(m, k - 1), ExactTerm(m, k), ExactTerm(m, k + 1));
    }
  }

  /** Stopping after nine terms costs less than one unit against every longer sum, and so
      against the exponential they converge to. */
  lemma TruncationBelowOne(m: real, k: nat)
    requires 0.0 <= m <= LN_ONE_MINUS_F_MAG as real && k >= EXP_TERMS
    ensures 0.0 <= ExactSeries(m, k) - ExactSeries(m, EXP_TERMS) < 1.0
  {
    TailBracketed(m, k);
    TenthTermBelowOne(m);
    ExactTermsNonNegative(m, k);
    ExactTermsNonNegative(m, k + 1);
  }

  /** The threshold against every exact sum of nine or more terms, at the exponent the code
      uses and at the exact relative stake. */
  lemma ThresholdNearExponential(stakeNum: U64, stakeDen: U64, k: nat)
    requires stakeNum <= stakeDen && stakeDen > 0 && k >= EXP_TERMS
    ensures var exact := SCALE as real - ExactSeries(Exponent(stakeNum, stakeDen) as real, k);
            -5.0 < Threshold(stakeNum, stakeDen) as real - exact < 6.0
    ensures var exact := SCALE as real - ExactSeries((stakeNum * LN_ONE_MINUS_F_MAG) as real / stakeDen as real, k);
            -6.0 < Threshold(stakeNum, stakeDen) as real - exact < 6.0
  {
    ThresholdError(stakeNum, stakeDen);
    ExponentBounded(stakeNum, stakeDen);
    ExponentFloor(stakeNum, stakeDen);
    TruncationBelowOne(Exponent(stakeNum, stakeDen) as real, k);
    TruncationBelowOne((stakeNum * LN_ONE_MINUS_F_MAG) as real / stakeDen as real, k);
  }

  // ----- the bound on the total is needed -----

  lemma SeriesBeforeDip()
    ensures Series(547_865_998_394_254_217, EXP_TERMS) == 17_906_933_901_885_165_511
  {
    var m := 547_865_998_394_254_217;
    FirstTerm(m);
    assert Term(m, 2) == 8_135_775_912_463_580 && Series(m, 2) == 17_907_013_851_227_760_979;
    assert Term(m, 3) == 80_543_843_314_267 && Series(m, 3) == 17_906_933_307_384_446_712;
    assert Term(m, 4) == 598_035_525_341 && Series(m, 4) == 17_906_933_905_419_972_053;
    assert Term(m, 5) == 3_552_316_103 && Series(m, 5) == 17_906_933_901_867_655_950;
    assert Term(m, 6) == 17_583_890 && Series(m, 6) == 17_906_933_901_885_239_840;
    assert Term(m, 7) == 74_605 && Series(m, 7) == 17_906_933_901_885_165_235;
    assert Term(m, 8) == 276 && Series(m, 8) == 17_906_933_901_885_165_511;
    assert Term(m, 9) == 0 && Series(m, 9) == 17_906_933_901_885_165_511;
  }

  lemma SeriesAfterDip()
    ensures Series(547_865_998_394_254_218, EXP_TERMS) == 17_906_933_901_885_165_512
  {
    var m := 547_865_998_394_254_218;
    FirstTerm(m);
    assert Term(m, 2) == 8_135_775_912_463_581 && Series(m, 2) == 17_907_013_851_227_760_979;
    assert Term(m, 3) == 80_543_843_314_267 && Series(m, 3) == 17_906_933_307_384_446_712;
    assert Term(m, 4) == 598_035_525_342 && Series(m, 4) == 17_906_933_905_419_972_054;
    assert Term(m, 5) == 3_552_316_103 && Series(m, 5) == 17_906_933_901_867_655_951;
    assert Term(m, 6) == 17_583_890 && Series(m, 6) == 17_906_933_901_885_239_841;
    assert Term(m, 7) == 74_605 && Series(m, 7) == 17_906_933_901_885_165_236;
    assert Term(m, 8) == 276 && Series(m, 8) == 17_906_933_901_885_165_512;
    assert Term(m, 9) == 0 && Series(m, 9) == 17_906_933_901_885_165_512;
  }

  /** One more unit of stake raises the exponent by at most one once the total is this large. */
  lemma SmallSteps(a: U64, stakeDen: U64)
    requires LN_ONE_MINUS_F_MAG <= stakeDen && a < stakeDen
    ensures Exponent(a, stakeDen) <= Exponent(a + 1, stakeDen) <= Exponent(a, stakeDen) + 1
  {
    DistributeLeft(LN_ONE_MINUS_F_MAG, a, 1);
    MulMono(LN_ONE_MINUS_F_MAG, 0, a);
    QuotientRises(a * LN_ONE_MINUS_F_MAG, (a + 1) * LN_ONE_MINUS_F_MAG, stakeDen, 1);
  }

  /** So the exponents of the stakes pass through every value below the largest. */
  lemma {:induction false} ExponentPasses(m: nat, b: U64, stakeDen: U64) returns (a: U64)
    requires LN_ONE_MINUS_F_MAG <= stakeDen && b <= stakeDen && m < Exponent(b, stakeDen)
    ensures a < b && Exponent(a, stakeDen) == m && Exponent(a + 1, stakeDen) == m + 1
    decreases b
  {
    if b == 0 {
      QuotientIs(0, stakeDen, 0, 0);
      assert false;
    }
    SmallSteps(b - 1, stakeDen);
    if m < Exponent(b - 1, stakeDen) {
      a := ExponentPasses(m, b - 1, stakeDen);
    } else {
      a := b - 1;
    }
  }

  /** For every total from LN_ONE_MINUS_F_MAG up there is a pool that one more unit of stake
      costs a slot. */
  lemma MoreStakeCanLoseASlot(stakeDen: U64)
    requires LN_ONE_MINUS_F_MAG <= stakeDen
    ensures exists a: U64, vrfValue: U64 ::
              a < stakeDen && Elected(a, stakeDen, vrfValue) && !Elected(a + 1, stakeDen, vrfValue)
  {
    MultipleQuotient(stakeDen, LN_ONE_MINUS_F_MAG);
    var a := ExponentPasses(547_865_998_394_254_217, stakeDen, stakeDen);
    var vrf: U64 := 539_810_171_824_386_104;
    SeriesBeforeDip();
    SeriesAfterDip();
    if a == 0 {
      QuotientIs(0, stakeDen, 0, 0);
      assert false;
    }
    ElectedExactly(a, stakeDen, vrf);
    ElectedExactly(a + 1, stakeDen, vrf);
    assert Elected(a, stakeDen, vrf) && !Elected(a + 1, stakeDen, vrf);
  }

  // ----- the coefficient is |ln(1 - 1/20)| -----

  lemma SeriesAtFullStake()
    ensures Series(LN_ONE_MINUS_F_MAG, EXP_TERMS) == 17_524_406_870_024_074_035
  {
    var m := LN_ONE_MINUS_F_MAG;
    FirstTerm(m);
    assert Term(m, 2) == 24_266_710_728_834_100 && Series(m, 2) == 17_524_816_510_173_798_509;
    assert Term(m, 3) == 414_906_512_410_539 && Series(m, 3) == 17_524_401_603_661_387_970;
    assert Term(m, 4) == 5_320_480_471_096 && Series(m, 4) == 17_524_406_924_141_859_066;
    assert Term(m, 5) == 54_580_994_217 && Series(m, 5) == 17_524_406_869_560_864_849;
    assert Term(m, 6) == 466_606_500 && Series(m, 6) == 17_524_406_870_027_471_349;
    assert Term(m, 7) == 3_419_112 && Series(m, 7) == 17_524_406_870_024_052_237;
    assert Term(m, 8) == 21_922 && Series(m, 8) == 17_524_406_870_024_074_159;
    assert Term(m, 9) == 124 && Series(m, 9) == 17_524_406_870_024_074_035;
  }

  lemma LowTermsAtFullStake(m: real)
    requires m == 946194274264587207.0
    ensures 24266710728834100.5466 <= ExactTerm(m, 2) <= 24266710728834100.5467
    ensures 414906512410539.4945 <= ExactTerm(m, 3) <= 414906512410539.4946
    ensures 5320480471096.4227 <= ExactTerm(m, 4) <= 5320480471096.4228
    ensures 54580994217.4324 <= ExactTerm(m, 5) <= 54580994217.4325
  {
    FirstExactTerm(m);
    TermBetween(m, 2, 946194274264587207.0, 946194274264587207.0, 24266710728834100.5466, 24266710728834100.5467);
    TermBetween(m, 3, 24266710728834100.5466, 24266710728834100.5467, 414906512410539.4945, 414906512410539.4946);
    TermBetween(m, 4, 414906512410539.4945, 414906512410539.4946, 5320480471096.4227, 5320480471096.4228);
    TermBetween(m, 5, 5320480471096.4227, 5320480471096.4228, 54580994217.4324, 54580994217.4325);
  }

  lemma HighTermsAtFullStake(m: real)
    requires m == 946194274264587207.0
    ensures 466606500.7266 <= ExactTerm(m, 6) <= 466606500.7267
    ensures 3419112.0864 <= ExactTerm(m, 7) <= 3419112.0865
    ensures 21922.1903 <= ExactTerm(m, 8) <= 21922.1904
    ensures 124.9401 <= ExactTerm(m, 9) <= 124.9402
  {
    LowTermsAtFullStake(m);
    TermBetween(m, 6, 54580994217.4324, 54580994217.4325, 466606500.7266, 466606500.7267);
    TermBetween(m, 7, 466606500.7266, 466606500.7267, 3419112.0864, 3419112.0865);
    TermBetween(m, 8, 3419112.0864, 3419112.0865, 21922.1903, 21922.1904);
    TermBetween(m, 9, 21922.1903, 21922.1904, 124.9401, 124.9402);
  }

  /** At the coefficient every exact sum of nine or more terms is within two units of
      19/20 of 2^64: the coefficient is the logarithm of 1 - 1/20. */
  lemma CoefficientIsTheLogarithm(k: nat)
    requires k >= EXP_TERMS
    ensures -40.0 < 20.0 * ExactSeries(LN_ONE_MINUS_F_MAG as real, k) - 19.0 * SCALE as real < 40.0
  {
    var m := LN_ONE_MINUS_F_MAG as real;
    FirstExactTerm(m);
    LowTermsAtFullStake(m);
    HighTermsAtFullStake(m);
    SeriesOfNine(m);
    TruncationBelowOne(m, k);
  }

  /** A pool with all the stake has the threshold 2^64/20, rounded up: it is elected exactly
      when twenty times its VRF value is below 2^64. */
  lemma FullStakeIsOneInTwenty(stake: U64, vrfValue: U64)
    requires stake > 0
    ensures 0 <= 20 * Threshold(stake, stake) - SCALE < 20
    ensures Elected(stake, stake, vrfValue) <==> 20 * vrfValue < SCALE
  {
    MultipleQuotient(stake, LN_ONE_MINUS_F_MAG);
    SeriesAtFullStake();
    ElectedExactly(stake, stake, vrfValue);
  }
}
