/** Shamir secret sharing over GF(2^256 - 189): splitting by Horner evaluation,
    reconstruction by Lagrange interpolation at zero. */
module Shamir {
  import opened Words
  import opened ModArith
  import opened Field
  import opened FieldPow
  import opened Interpolation
  import opened Sorting

  datatype ShamirShare = ShamirShare(index: U32, value: Digest)

  datatype ShamirError = InvalidThreshold | TotalTooLarge | InsufficientShares | DuplicateIndex | ZeroIndex

  // ----- splitting -----

  /** Coefficient i of the sharing polynomial; `derive` is SHA3-256 of secret and i. */
  ghost function Coefficients(derive: (Digest, U32) -> Digest, secret: Digest, threshold: U32): (c: seq<int>)
    requires threshold > 0
    ensures |c| == threshold && c[0] == secret % P
    ensures forall i :: 0 <= i < |c| ==> 0 <= c[i] < P
  {
    seq(threshold, i requires 0 <= i < threshold => if i == 0 then secret % P else derive(secret, i) % P)
  }

  lemma HornerStep(e: int, x: int, c: int, product: int, sum: int)
    requires product == ((e % P) * x) % P && sum == (product + c) % P
    ensures sum == (c + x * e) % P
  {
    CongMod(e, P);
    CongRefl(x, P);
    CongMul(e % P, e, x, x, P);
    CongMod((e % P) * x, P);
    CongTrans(product, (e % P) * x, e * x, P);
    CongRefl(c, P);
    CongAdd(product, e * x, c, c, P);
    CongMod(product + c, P);
    CongTrans(sum, product + c, e * x + c, P);
    ResidueUnique(sum, c + x * e, P);
  }

  /** The residue of the polynomial's value. */
  method PolyEval(coeffs: seq<Digest>, x: Digest) returns (result: Digest)
    requires forall i :: 0 <= i < |coeffs| ==> coeffs[i] < P
    ensures result == Eval(coeffs, x) % P
  {
    result := 0;
    assert Eval(coeffs[|coeffs|..], x) == 0;
    for i := |coeffs| downto 0
      invariant result == Eval(coeffs[i..], x) % P
    {
      ghost var e := Eval(coeffs[i + 1..], x);
      assert coeffs[i..][1..] == coeffs[i + 1..];
      var product := Mul(result, x);
      result := Field.Add(product, coeffs[i]);
      HornerStep(e, x, coeffs[i], product, result);
    }
    assert coeffs[0..] == coeffs;
  }

  /** `share` is a point of the polynomial. */
  ghost predicate OnPolynomial(share: ShamirShare, coeffs: seq<int>) {
    share.value == Eval(coeffs, share.index) % P
  }

  /** The share at point x, and the shares at 1 to `total`. */
  ghost function Share(derive: (Digest, U32) -> Digest, secret: Digest, threshold: U32, x: U32): ShamirShare
    requires threshold > 0
  {
    ShamirShare(x, Eval(Coefficients(derive, secret, threshold), x) % P)
  }

  ghost function Shares(derive: (Digest, U32) -> Digest, secret: Digest, threshold: U32, total: nat): (s: seq<ShamirShare>)
    requires threshold > 0 && total <= U32_MAX
    ensures |s| == total
  {
    seq(total, i requires 0 <= i < total => Share(derive, secret, threshold, i + 1))
  }

  method SplitSecret(derive: (Digest, U32) -> Digest, secret: Digest, threshold: U32, total: U32)
    returns (r: Result<seq<ShamirShare>, ShamirError>)
    ensures threshold == 0 || threshold > total ==> r == Err(InvalidThreshold)
    ensures 0 < threshold <= total && total > 255 ==> r == Err(TotalTooLarge)
    ensures 0 < threshold <= total <= 255 ==> r == Ok(Shares(derive, secret, threshold, total))
  {
    if threshold == 0 || threshold > total {
      return Err(InvalidThreshold);
    }
    if total > 255 {
      return Err(TotalTooLarge);
    }
    var a0 := ReduceBytes(secret);
    var coefficients: seq<Digest> := [a0];
    for i := 1 to threshold
      invariant coefficients == Coefficients(derive, secret, threshold)[..i]
    {
      var coeff := ReduceBytes(derive(secret, i));
      coefficients := coefficients + [coeff];
    }
    assert coefficients == Coefficients(derive, secret, threshold);
    var shares: seq<ShamirShare> := [];
    for n := 0 to total
      invariant shares == Shares(derive, secret, threshold, n)
    {
      var y := PolyEval(coefficients, n + 1);
      shares := shares + [ShamirShare(n + 1, y)];
    }
    return Ok(shares);
  }

  // ----- reconstruction -----

  function Indices(shares: seq<ShamirShare>): (xs: seq<U32>)
    ensures |xs| == |shares|
  {
    seq(|shares|, i requires 0 <= i < |shares| => shares[i].index)
  }

  /** The Lagrange basis polynomial of point i, at zero. */
  ghost function Basis(xs: seq<int>, i: nat): int
    requires i < |xs|
  {
    Differences(0, xs, i) * Pow(Differences(xs[i], xs, i) % P, P - 2)
  }

  ghost function LagrangeAtZero(shares: seq<ShamirShare>, n: nat): int
    requires n <= |shares|
  {
    if n == 0 then 0
    else LagrangeAtZero(shares, n - 1) + shares[n - 1].value * Basis(Indices(shares), n - 1)
  }

  ghost function Reconstructed(shares: seq<ShamirShare>, threshold: U32): Result<Digest, ShamirError> {
    if |shares| % (U32_MAX + 1) < threshold then Err(InsufficientShares)
    else
      assert |shares| >= threshold;
      var used := shares[..threshold];
      if HasDuplicate(Indices(used)) then Err(DuplicateIndex)
      else if 0 in Indices(used) then Err(ZeroIndex)
      else Ok(LagrangeAtZero(used, threshold) % P)
  }

  /** Multiplying two residues keeps them congruent to the exact products. */
  lemma ResidueProduct(a: int, x: int, b: int, y: int, r: int)
    requires Cong(a, x, P) && Cong(b, y, P) && r == (a * b) % P
    ensures Cong(r, x * y, P) && 0 <= r < P
  {
    CongMul(a, x, b, y, P);
    CongMod(a * b, P);
    CongTrans(r, a * b, x * y, P);
  }

  lemma ResidueSum(a: int, x: int, b: int, y: int, r: int)
    requires Cong(a, x, P) && Cong(b, y, P) && r == (a + b) % P
    ensures Cong(r, x + y, P)
  {
    CongAdd(a, x, b, y, P);
    CongMod(a + b, P);
    CongTrans(r, a + b, x + y, P);
  }

  method BasisAtZero(used: seq<ShamirShare>, i: nat) returns (basis: Digest)
    requires i < |used|
    ensures Cong(basis, Basis(Indices(used), i), P) && basis < P
  {
    ghost var xs := Indices(used);
    var xi: Digest := used[i].index;
    var numerator: Digest := 1;
    var denominator: Digest := 1;
    CongRefl(1, P);
    for j := 0 to |used|
      invariant numerator < P && denominator < P
      invariant Cong(numerator, Differences(0, xs[..j], i), P)
      invariant Cong(denominator, Differences(xi, xs[..j], i), P)
    {
      assert xs[..j + 1][..j] == xs[..j];
      if i != j {
        var xj: Digest := used[j].index;
        var negXj := Field.Sub(0, xj);
        CongMod(0 - xj, P);
        ghost var before := numerator;
        numerator := Mul(numerator, negXj);
        ResidueProduct(before, Differences(0, xs[..j], i), negXj, 0 - xj, numerator);
        var diff := Field.Sub(xi, xj);
        CongMod(xi - xj, P);
        before := denominator;
        denominator := Mul(denominator, diff);
        ResidueProduct(before, Differences(xi, xs[..j], i), diff, xi - xj, denominator);
      }
    }
    assert xs[..|used|] == xs;
    ResidueUnique(denominator, Differences(xi, xs, i), P);
    var inverse := Inv(denominator);
    CongMod(Pow(denominator, P - 2), P);
    basis := Mul(numerator, inverse);
    ResidueProduct(numerator, Differences(0, xs, i), inverse, Pow(denominator, P - 2), basis);
  }

  method ReconstructSecret(shares: seq<ShamirShare>, threshold: U32) returns (r: Result<Digest, ShamirError>)
    ensures r == Reconstructed(shares, threshold)
  {
    if |shares| % (U32_MAX + 1) < threshold {
      return Err(InsufficientShares);
    }
    var used := shares[..threshold];
    var le := (a: U32, b: U32) => a <= b;
    var indices := Sort(Indices(used), le);
    SortedNeighbours(Indices(used), le);
    if HasAdjacentPair(indices) {
      return Err(DuplicateIndex);
    }
    FirstIsZero(Indices(used), le);
    if |indices| > 0 && indices[0] == 0 {
      return Err(ZeroIndex);
    }
    var result: Digest := 0;
    CongRefl(0, P);
    for i := 0 to threshold
      invariant result < P && Cong(result, LagrangeAtZero(used, i), P)
    {
      var basis := BasisAtZero(used, i);
      var term := Mul(used[i].value, basis);
      CongRefl(used[i].value, P);
      ResidueProduct(used[i].value, used[i].value, basis, Basis(Indices(used), i), term);
      ghost var before := result;
      result := Field.Add(result, term);
      ResidueSum(before, LagrangeAtZero(used, i), term, used[i].value * Basis(Indices(used), i), result);
    }
    ResidueUnique(result, LagrangeAtZero(used, threshold), P);
    return Ok(result);
  }

  /** The head of the sorted indices is zero exactly when zero occurs. */
  lemma FirstIsZero(xs: seq<U32>, le: (U32, U32) -> bool)
    requires TotalOrder(le) && forall a: U32, b: U32 :: le(a, b) <==> a <= b
    ensures |Sort(xs, le)| > 0 && Sort(xs, le)[0] == 0 <==> 0 in xs
  {
    SortSorts(xs, le);
    var s := Sort(xs, le);
    if 0 in xs {
      assert 0 in multiset(xs);
      HeadIsLeast(s, 0, le);
    }
    if |s| > 0 && s[0] == 0 {
      assert 0 in multiset(s);
    }
  }

  // ----- reconstruction undoes splitting -----

  ghost predicate GoodPoints(xs: seq<U32>) {
    (forall i :: 0 <= i < |xs| ==> xs[i] != 0) && (forall i, j :: 0 <= i < j < |xs| ==> xs[i] != xs[j])
  }

  lemma SmallIsNotDivisible(d: int)
    requires 0 < d < P || -P < d < 0
    ensures !Divides(P, d)
  {
  }

  lemma DifferenceIsUnit(xs: seq<U32>, i: nat)
    requires IsPrime(P) && GoodPoints(xs) && i < |xs|
    ensures !Divides(P, Differences(xs[i], xs, i))
  {
    forall j | 0 <= j < |xs| && j != i ensures !Divides(P, xs[i] as int - xs[j]) {
      SmallIsNotDivisible(xs[i] as int - xs[j]);
    }
    DifferencesNonzero(xs[i], xs, i, P);
  }

  lemma ResidueInverse(d: int)
    requires IsPrime(P) && !Divides(P, d)
    ensures Cong(Pow(d % P, P - 2) * d, 1, P)
  {
    FermatInverse(d % P, P);
    var v := Pow(d % P, P - 2);
    CongMod(d, P);
    CongSym(d % P, d, P);
    CongRefl(v, P);
    CongMul(v, v, d, d % P, P);
    assert v * (d % P) == (d % P) * v;
    CongTrans(v * d, (d % P) * v, 1, P);
  }

  /** The weight of share i once zero is added to the points. */
  ghost function ExtendedWeight(xs: seq<U32>, i: nat): int
    requires i < |xs|
  {
    Pow(Differences(xs[i], xs, i) % P, P - 2) * Pow(xs[i], P - 2)
  }

  ghost function ExtendedWeights(xs: seq<U32>): (ws: seq<int>)
    ensures |ws| == |xs| + 1
  {
    seq(|xs|, i requires 0 <= i < |xs| => ExtendedWeight(xs, i)) + [Pow(Differences(0, xs, -1) % P, P - 2)]
  }

  /** (v * u) inverts d * x when v inverts d and u inverts x. */
  lemma InverseProduct(v: int, d: int, u: int, x: int)
    requires Cong(v * d, 1, P) && Cong(u * x, 1, P)
    ensures Cong((v * u) * (d * x), 1, P)
  {
    CongMul(v * d, 1, u * x, 1, P);
    Rearrange(v, u, d, x);
  }

  lemma ZeroIsUnit(xs: seq<U32>)
    requires IsPrime(P) && GoodPoints(xs)
    ensures !Divides(P, Differences(0, xs, -1))
  {
    forall j | 0 <= j < |xs| ensures !Divides(P, 0 - xs[j] as int) {
      SmallIsNotDivisible(0 - xs[j] as int);
    }
    DifferencesNonzero(0, xs, -1, P);
  }

  lemma ShareWeightInverts(xs: seq<U32>, i: nat)
    requires IsPrime(P) && GoodPoints(xs) && i < |xs|
    ensures Cong(ExtendedWeight(xs, i) * (Differences(xs[i], xs, i) * xs[i]), 1, P)
  {
    DifferenceIsUnit(xs, i);
    ResidueInverse(Differences(xs[i], xs, i));
    PointInverse(xs, i);
    InverseProduct(Pow(Differences(xs[i], xs, i) % P, P - 2), Differences(xs[i], xs, i), Pow(xs[i], P - 2), xs[i]);
  }

  lemma PointInverse(xs: seq<U32>, i: nat)
    requires IsPrime(P) && GoodPoints(xs) && i < |xs|
    ensures Cong(Pow(xs[i], P - 2) * xs[i], 1, P)
  {
    SmallIsNotDivisible(xs[i]);
    ResidueInverse(xs[i]);
  }

  lemma ExtendedWeightsInvert(xs: seq<U32>)
    requires IsPrime(P) && GoodPoints(xs)
    ensures Weights(ExtendedWeights(xs), xs + [0], P)
  {
    var n := |xs|;
    var ps: seq<int> := xs + [0];
    var ws := ExtendedWeights(xs);
    assert ps[..n] == xs;
    forall i | 0 <= i <= n ensures Cong(ws[i] * Differences(ps[i], ps, i), 1, P) {
      if i < n {
        ShareWeightInverts(xs, i);
        assert Differences(ps[i], ps, i) == Differences(xs[i], xs, i) * (xs[i] - 0);
      } else {
        ZeroIsUnit(xs);
        ResidueInverse(Differences(0, xs, -1));
        DifferencesPastEnd(0, xs, n);
        assert Differences(ps[i], ps, i) == Differences(0, xs, n) * 1;
      }
    }
  }

  lemma Regroup(num: int, x: int, v: int, u: int, f: int)
    ensures (num * (0 - x)) * ((v * u) * f) == -((num * v) * ((u * x) * f))
  {
    var w := u * f;
    MulAssoc(v, u, f);
    assert (u * x) * f == x * w;
    Rearrange(num, x, v, w);
    assert (num * (0 - x)) * (v * w) == -((num * x) * (v * w));
  }

  /** One Lagrange term cancels one extended-weight term, modulo p. */
  lemma TermsCancel(num: int, x: int, u: int, v: int, f: int, y: int)
    requires Cong(u * x, 1, P) && Cong(y, f, P)
    ensures Cong((num * (0 - x)) * ((v * u) * f) + y * (num * v), 0, P)
  {
    CongRefl(f, P);
    CongMul(u * x, 1, f, f, P);
    CongSym((u * x) * f, 1 * f, P);
    CongTrans(y, f, (u * x) * f, P);
    Regroup(num, x, v, u, f);
    DifferenceVanishes((num * (0 - x)) * ((v * u) * f), y, num * v, (u * x) * f);
  }

  lemma DifferenceVanishes(a: int, y: int, b: int, w: int)
    requires a == -(b * w) && Cong(y, w, P)
    ensures Cong(a + y * b, 0, P)
  {
    DividesMul(P, y - w, b);
    assert (y - w) * b == a + y * b;
  }

  ghost predicate Inverts(u: int, x: int) { Cong(u * x, 1, P) }

  ghost predicate Cancels(a: int, x: int, b: int) { Cong(a * x + b, 0, P) }

  /** The extended weighted sum over the first k shares alone. */
  ghost function ShareSum(xs: seq<U32>, c: seq<int>, k: nat): int
    requires k <= |xs|
  {
    WeightedSum(ExtendedWeights(xs)[..k], xs[..k], c)
  }

  /** Share by share, the Lagrange sum is minus the weighted sum, times the
      product of the differences at zero. */
  lemma {:induction false} LagrangeIsWeightedSum(shares: seq<ShamirShare>, c: seq<int>, k: nat)
    requires IsPrime(P) && k <= |shares| && GoodPoints(Indices(shares))
    requires forall i :: 0 <= i < |shares| ==> OnPolynomial(shares[i], c)
    ensures var xs := Indices(shares);
            Cancels(Differences(0, xs, -1), ShareSum(xs, c, k), LagrangeAtZero(shares, k))
    decreases k
  {
    var xs := Indices(shares);
    var ws := ExtendedWeights(xs);
    var N := Differences(0, xs, -1);
    if k == 0 {
      assert WeightedSum(ws[..0], xs[..0], c) == 0;
      assert N * 0 == 0;
    } else {
      var i := k - 1;
      LagrangeIsWeightedSum(shares, c, i);
      assert ws[..k][..i] == ws[..i] && xs[..k][..i] == xs[..i];
      FullProduct(0, xs, i);
      PointInverse(xs, i);
      CongMod(Eval(c, xs[i]), P);
      assert OnPolynomial(shares[i], c);
      var f, y := Eval(c, xs[i]), shares[i].value;
      TermsCancel(Differences(0, xs, i), xs[i], Pow(xs[i], P - 2), Pow(Differences(xs[i], xs, i) % P, P - 2), f, y);
      var s := WeightedSum(ws[..i], xs[..i], c);
      CongAdd(N * s + LagrangeAtZero(shares, i), 0, N * (ws[i] * f) + y * Basis(xs, i), 0, P);
      DistributeLeft(N, s, ws[i] * f);
    }
  }

  /** If N*t is 1, N*(W + t*f) is 0 and N*W + L is 0, then L is f. */
  lemma SolveForConstant(N: int, t: int, W: int, f: int, L: int)
    requires Inverts(t, N) && Cancels(t, f, W) && Cancels(N, W, L)
    ensures Cong(L, f, P)
  {
    DividesMul(P, t * f + W, N);
    DividesSum(P, N * W + L, N * (t * f + W));
    DividesMul(P, t * N - 1, f);
    assert N * (t * f + W) == N * W + N * (t * f);
    assert (t * N - 1) * f == N * (t * f) - f;
    DividesSum(P, L - N * (t * f), N * (t * f) - f);
  }

  ghost function ZeroWeight(xs: seq<U32>): int { Pow(Differences(0, xs, -1) % P, P - 2) }

  lemma ZeroHasInverse(xs: seq<U32>)
    requires IsPrime(P) && GoodPoints(xs)
    ensures Inverts(ZeroWeight(xs), Differences(0, xs, -1))
  {
    ZeroIsUnit(xs);
    ResidueInverse(Differences(0, xs, -1));
  }

  /** Over the shares and zero together, the weighted sum vanishes. */
  lemma ExtendedSumVanishes(xs: seq<U32>, c: seq<int>)
    requires IsPrime(P) && 0 < |c| <= |xs| && GoodPoints(xs)
    ensures Cancels(ZeroWeight(xs), c[0], ShareSum(xs, c, |xs|))
  {
    var n := |xs|;
    var ws := ExtendedWeights(xs);
    var ps: seq<int> := xs + [0];
    ExtendedWeightsInvert(xs);
    LowDegreeVanishes(ws, ps, c, P);
    assert ps[..n] == xs == xs[..n];
    assert Eval(c, 0) == c[0];
  }

  /** Any enough points of a polynomial, in any order, give its constant term. */
  lemma LagrangeRecovers(shares: seq<ShamirShare>, c: seq<int>)
    requires IsPrime(P) && 0 < |c| <= |shares| && GoodPoints(Indices(shares))
    requires forall i :: 0 <= i < |shares| ==> OnPolynomial(shares[i], c)
    ensures Cong(LagrangeAtZero(shares, |shares|), c[0], P)
  {
    var xs := Indices(shares);
    ExtendedSumVanishes(xs, c);
    LagrangeIsWeightedSum(shares, c, |shares|);
    ZeroHasInverse(xs);
    SolveForConstant(Differences(0, xs, -1), ZeroWeight(xs), ShareSum(xs, c, |xs|), c[0], LagrangeAtZero(shares, |shares|));
  }

  lemma CongResidue(a: int, s: int)
    requires Cong(a, s % P, P)
    ensures a % P == s % P
  {
    CongSym(a, s % P, P);
    ResidueUnique(s % P, a, P);
  }

  lemma DistinctIndices(picked: seq<ShamirShare>, n: nat)
    requires n <= |picked|
    requires forall i, j :: 0 <= i < j < |picked| ==> picked[i].index != picked[j].index
    ensures !HasDuplicate(Indices(picked[..n]))
  {
  }

  /** Whatever the secret, the threshold and the number of shares, every choice
      of at least `threshold` shares with distinct indices, in any order,
      reconstructs the secret modulo p. */
  lemma ReconstructUndoesSplit(derive: (Digest, U32) -> Digest, secret: Digest, threshold: U32, total: U32,
                               picked: seq<ShamirShare>)
    requires IsPrime(P) && 1 <= threshold <= total <= 255
    requires threshold <= |picked| <= U32_MAX
    requires forall i :: 0 <= i < |picked| ==> picked[i] in Shares(derive, secret, threshold, total)
    requires forall i, j :: 0 <= i < j < |picked| ==> picked[i].index != picked[j].index
    ensures Reconstructed(picked, threshold) == Ok(secret % P)
  {
    var used := picked[..threshold];
    DistinctIndices(picked, threshold);
    forall i | 0 <= i < |used|
      ensures OnPolynomial(used[i], Coefficients(derive, secret, threshold)) && used[i].index != 0
    {
      assert picked[i] in Shares(derive, secret, threshold, total);
    }
    UsedSharesRecover(derive, secret, threshold, used);
  }

  lemma UsedSharesRecover(derive: (Digest, U32) -> Digest, secret: Digest, threshold: U32, used: seq<ShamirShare>)
    requires IsPrime(P) && 1 <= threshold == |used|
    requires forall i :: 0 <= i < |used| ==>
               OnPolynomial(used[i], Coefficients(derive, secret, threshold)) && used[i].index != 0
    requires !HasDuplicate(Indices(used))
    ensures 0 !in Indices(used) && LagrangeAtZero(used, threshold) % P == secret % P
  {
    LagrangeRecovers(used, Coefficients(derive, secret, threshold));
    CongResidue(LagrangeAtZero(used, threshold), secret);
  }

  // ----- what the shares say and what they hide -----

  /** secret + derive(secret, 1) * x + derive(secret, 2) * x^2 + ..., n terms. */
  ghost function PowerSum(derive: (Digest, U32) -> Digest, secret: Digest, n: nat, x: int): int
    requires n <= U32_MAX
  {
    if n == 0 then 0
    else PowerSum(derive, secret, n - 1, x) + (if n == 1 then secret else derive(secret, n - 1)) * Pow(x, n - 1)
  }

  lemma {:induction false} PrefixIsPowerSum(derive: (Digest, U32) -> Digest, secret: Digest, threshold: U32, n: nat, x: int)
    requires 0 < threshold && n <= threshold
    ensures Cong(Eval(Coefficients(derive, secret, threshold)[..n], x), PowerSum(derive, secret, n, x), P)
  {
    var c := Coefficients(derive, secret, threshold);
    if n == 0 {
      CongRefl(0, P);
    } else {
      PrefixIsPowerSum(derive, secret, threshold, n - 1, x);
      assert c[..n][..n - 1] == c[..n - 1];
      EvalLast(c[..n], x);
      var a: int := if n == 1 then secret else derive(secret, n - 1);
      var power := Pow(x, n - 1);
      CongMod(a, P);
      CongRefl(power, P);
      CongMul(c[n - 1], a, power, power, P);
      CongAdd(Eval(c[..n - 1], x), PowerSum(derive, secret, n - 1, x), c[n - 1] * power, a * power, P);
    }
  }

  /** Each share is the sum of the secret and its derived coefficients, power by power. */
  lemma ShareIsPowerSum(derive: (Digest, U32) -> Digest, secret: Digest, threshold: U32, x: U32)
    requires threshold > 0
    ensures Share(derive, secret, threshold, x).index == x
    ensures Share(derive, secret, threshold, x).value == PowerSum(derive, secret, threshold, x) % P
  {
    var c := Coefficients(derive, secret, threshold);
    assert c[..threshold] == c;
    PrefixIsPowerSum(derive, secret, threshold, threshold, x);
    CongMod(Eval(c, x), P);
    CongTrans(Eval(c, x) % P, Eval(c, x), PowerSum(derive, secret, threshold, x), P);
    ResidueUnique(Eval(c, x) % P, PowerSum(derive, secret, threshold, x), P);
  }

  lemma GoodPointsApart(xs: seq<U32>, ps: seq<int>)
    requires GoodPoints(xs) && (ps == xs || ps == [0] + xs)
    ensures Apart(ps, P)
  {
    forall i, j | 0 <= i < |ps| && 0 <= j < |ps| && i != j ensures !Divides(P, ps[i] - ps[j]) {
      SmallIsNotDivisible(ps[i] - ps[j]);
    }
  }

  /** The derivation whose coefficients are the residues of c. */
  ghost function DerivationOf(c: seq<int>): (Digest, U32) -> Digest {
    (s: Digest, i: U32) => if i < |c| then c[i] % P else 0
  }

  lemma DerivedAgrees(c: seq<int>, secret: Digest, threshold: U32, x: int)
    requires 0 < |c| <= threshold && Cong(c[0], secret, P)
    ensures Cong(Eval(Coefficients(DerivationOf(c), secret, threshold), x), Eval(c, x), P)
  {
    var full := c + Zeros(threshold - |c|);
    var d := Coefficients(DerivationOf(c), secret, threshold);
    forall i | 0 <= i < threshold ensures Cong(d[i], full[i], P) {
      CongMod(full[i], P);
      if i == 0 {
        CongSym(c[0], secret, P);
        CongMod(secret, P);
        CongTrans(d[0], secret, c[0], P);
      } else {
        assert d[i] == (if i < |c| then c[i] % P else 0) % P;
      }
    }
    EvalCong(d, full, x, P);
    EvalPadded(c, threshold - |c|, x);
  }

  /** Fewer than `threshold` shares say nothing: whatever the secret, the points
      and the residues, some derivation makes those residues the shares. */
  lemma FewSharesSayNothing(secret: Digest, threshold: U32, xs: seq<U32>, ys: seq<Digest>)
    returns (derive: (Digest, U32) -> Digest)
    requires IsPrime(P) && GoodPoints(xs) && |xs| == |ys| < threshold
    requires forall i :: 0 <= i < |ys| ==> ys[i] < P
    ensures forall i :: 0 <= i < |xs| ==> Share(derive, secret, threshold, xs[i]) == ShamirShare(xs[i], ys[i])
  {
    var ps: seq<int> := [0] + xs;
    var vs: seq<int> := [secret] + ys;
    GoodPointsApart(xs, ps);
    var c := Interpolate(ps, vs, P);
    assert Passes(c, ps[0], vs[0], P) && Eval(c, 0) == c[0];
    derive := DerivationOf(c);
    forall i | 0 <= i < |xs| ensures Share(derive, secret, threshold, xs[i]) == ShamirShare(xs[i], ys[i]) {
      assert Passes(c, ps[i + 1], vs[i + 1], P);
      DerivedAgrees(c, secret, threshold, xs[i]);
      var e := Eval(Coefficients(derive, secret, threshold), xs[i]);
      CongTrans(e, Eval(c, xs[i]), ys[i], P);
      CongSym(e, ys[i], P);
      ResidueUnique(ys[i], e, P);
    }
  }

  /** As many equal shares as coefficients, or one fewer of one secret, and the
      derived coefficients are equal. */
  lemma EqualSharesEqualCoefficients(derive1: (Digest, U32) -> Digest, secret1: Digest,
                                     derive2: (Digest, U32) -> Digest, secret2: Digest, threshold: U32, xs: seq<U32>)
    requires IsPrime(P) && GoodPoints(xs) && 0 < threshold
    requires |xs| >= threshold || (|xs| == threshold - 1 && secret1 % P == secret2 % P)
    requires forall i :: 0 <= i < |xs| ==>
               Share(derive1, secret1, threshold, xs[i]) == Share(derive2, secret2, threshold, xs[i])
    ensures Coefficients(derive1, secret1, threshold) == Coefficients(derive2, secret2, threshold)
  {
    var c, d := Coefficients(derive1, secret1, threshold), Coefficients(derive2, secret2, threshold);
    var ps: seq<int> := if |xs| >= threshold then xs else [0] + xs;
    GoodPointsApart(xs, ps);
    forall i | 0 <= i < |ps| ensures Cong(Eval(c, ps[i]), Eval(d, ps[i]), P) {
      if |xs| < threshold && i == 0 {
        assert Eval(c, 0) == c[0] && Eval(d, 0) == d[0];
        CongRefl(c[0], P);
      } else {
        var x := if |xs| >= threshold then xs[i] else xs[i - 1];
        assert Share(derive1, secret1, threshold, x) == Share(derive2, secret2, threshold, x);
        EqualResidues(Eval(c, x), Eval(d, x));
      }
    }
    ValuesDetermineCoefficients(c, d, ps, P);
    forall i | 0 <= i < threshold ensures c[i] == d[i] {
      SameResidue(c[i], d[i]);
    }
  }

  lemma EqualResidues(a: int, b: int)
    requires a % P == b % P
    ensures Cong(a, b, P)
  {
    CongMod(a, P);
    CongMod(b, P);
    CongSym(a % P, a, P);
    CongTrans(a, a % P, b, P);
  }

  lemma SameResidue(a: int, b: int)
    requires 0 <= a < P && 0 <= b < P && Cong(a, b, P)
    ensures a == b
  {
    ResidueUnique(a, b, P);
    CongRefl(b, P);
    ResidueUnique(b, b, P);
  }

  /** The shares of two splits are equal exactly when the secrets and every
      derived coefficient agree modulo p. */
  lemma SharesEqualExactly(derive1: (Digest, U32) -> Digest, secret1: Digest,
                           derive2: (Digest, U32) -> Digest, secret2: Digest, threshold: U32, total: U32)
    requires IsPrime(P) && 1 <= threshold <= total <= 255
    ensures Shares(derive1, secret1, threshold, total) == Shares(derive2, secret2, threshold, total)
            <==> secret1 % P == secret2 % P
                 && forall i: U32 :: 1 <= i < threshold ==> derive1(secret1, i) % P == derive2(secret2, i) % P
  {
    var c, d := Coefficients(derive1, secret1, threshold), Coefficients(derive2, secret2, threshold);
    var s, t := Shares(derive1, secret1, threshold, total), Shares(derive2, secret2, threshold, total);
    if s == t {
      var xs := Indices(s);
      forall i | 0 <= i < total
        ensures Share(derive1, secret1, threshold, xs[i]) == Share(derive2, secret2, threshold, xs[i])
      {
        assert s[i] == t[i];
      }
      EqualSharesEqualCoefficients(derive1, secret1, derive2, secret2, threshold, xs);
      CoefficientsEqualExactly(derive1, secret1, derive2, secret2, threshold);
    }
    if secret1 % P == secret2 % P
       && forall i: U32 :: 1 <= i < threshold ==> derive1(secret1, i) % P == derive2(secret2, i) % P {
      CoefficientsEqualExactly(derive1, secret1, derive2, secret2, threshold);
      assert s == t;
    }
  }

  lemma CoefficientsEqualExactly(derive1: (Digest, U32) -> Digest, secret1: Digest,
                                 derive2: (Digest, U32) -> Digest, secret2: Digest, threshold: U32)
    requires 1 <= threshold
    ensures Coefficients(derive1, secret1, threshold) == Coefficients(derive2, secret2, threshold)
            <==> secret1 % P == secret2 % P
                 && forall i: U32 :: 1 <= i < threshold ==> derive1(secret1, i) % P == derive2(secret2, i) % P
  {
    var c, d := Coefficients(derive1, secret1, threshold), Coefficients(derive2, secret2, threshold);
    if c == d {
      forall i: U32 | 1 <= i < threshold ensures derive1(secret1, i) % P == derive2(secret2, i) % P {
        assert c[i] == d[i];
      }
      assert c[0] == d[0];
    }
  }

  /** Given the secret and threshold - 1 shares, the derived coefficients are
      fixed modulo p: each secret explains them in exactly one way. */
  lemma OneExplanationPerSecret(derive1: (Digest, U32) -> Digest, derive2: (Digest, U32) -> Digest,
                                secret: Digest, threshold: U32, xs: seq<U32>)
    requires IsPrime(P) && GoodPoints(xs) && |xs| + 1 == threshold
    requires forall i :: 0 <= i < |xs| ==>
               Share(derive1, secret, threshold, xs[i]) == Share(derive2, secret, threshold, xs[i])
    ensures forall i: U32 :: 1 <= i < threshold ==> derive1(secret, i) % P == derive2(secret, i) % P
  {
    EqualSharesEqualCoefficients(derive1, secret, derive2, secret, threshold, xs);
    CoefficientsEqualExactly(derive1, secret, derive2, secret, threshold);
  }

  /** Which error comes back, from the shares alone: too few after the count is
      cut to 32 bits, then a repeated index among those used, then a zero. */
  lemma ReconstructErrorsExactly(shares: seq<ShamirShare>, threshold: U32)
    ensures var r := Reconstructed(shares, threshold);
            var enough := |shares| % (U32_MAX + 1) >= threshold;
            var repeated := exists i, j :: 0 <= i < j < threshold && j < |shares| && shares[i].index == shares[j].index;
            var zero := exists i :: 0 <= i < threshold && i < |shares| && shares[i].index == 0;
            && (r == Err(InsufficientShares) <==> !enough)
            && (r == Err(DuplicateIndex) <==> enough && repeated)
            && (r == Err(ZeroIndex) <==> enough && !repeated && zero)
            && (r.Ok? <==> enough && !repeated && !zero)
  {
    if |shares| % (U32_MAX + 1) >= threshold {
      var used := shares[..threshold];
      forall i | 0 <= i < threshold ensures Indices(used)[i] == shares[i].index {
      }

    }
  }
}
