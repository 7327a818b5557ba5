/** Polynomial interpolation modulo p, over weights that invert the products of
    differences: every sum below is an exact integer identity up to the final
    congruences. */
module Interpolation {
  import opened Words
  import opened ModArith

  /** c[0] + c[1]*x + c[2]*x^2 + ... */
  function Eval(c: seq<int>, x: int): int {
    if c == [] then 0 else c[0] + x * Eval(c[1..], x)
  }

  /** The product of x - xs[j] over every j other than i. */
  function Differences(x: int, xs: seq<int>, i: int): int {
    if xs == [] then 1
    else Differences(x, xs[..|xs| - 1], i) * (if i == |xs| - 1 then 1 else x - xs[|xs| - 1])
  }

  function WeightedSum(ws: seq<int>, xs: seq<int>, c: seq<int>): int
    requires |ws| == |xs|
  {
    if xs == [] then 0
    else WeightedSum(ws[..|ws| - 1], xs[..|xs| - 1], c) + ws[|ws| - 1] * Eval(c, xs[|xs| - 1])
  }

  /** Each weight inverts the product of differences at its own point. */
  ghost predicate Weights(ws: seq<int>, xs: seq<int>, p: int) {
    && p > 0 && |ws| == |xs|
    && forall i :: 0 <= i < |xs| ==> Cong(ws[i] * Differences(xs[i], xs, i), 1, p)
  }

  /** The weights after the point z is removed. */
  function Scale(ws: seq<int>, xs: seq<int>, z: int): (r: seq<int>)
    requires |ws| == |xs|
    ensures |r| == |ws|
  {
    seq(|ws|, i requires 0 <= i < |ws| => ws[i] * (xs[i] - z))
  }

  // ----- exact identities -----

  lemma ScaleFront(ws: seq<int>, xs: seq<int>, z: int)
    requires |ws| == |xs| > 0
    ensures Scale(ws, xs, z)[..|ws| - 1] == Scale(ws[..|ws| - 1], xs[..|xs| - 1], z)
  {
  }

  lemma SplitTerm(s: int, r: int, u: int, w: int, x: int, z: int, c0: int, e: int)
    ensures (c0 * s + r + z * u) + w * (c0 + x * e) == c0 * (s + w * 1) + (r + (w * (x - z)) * e) + z * (u + w * e)
  {
    assert w * (c0 + x * e) == c0 * w + w * (x * e);
    assert x * e == (x - z) * e + z * e;
    assert w * ((x - z) * e + z * e) == w * ((x - z) * e) + w * (z * e);
    assert w * ((x - z) * e) == (w * (x - z)) * e && w * (z * e) == z * (w * e);
    assert c0 * (s + w * 1) == c0 * s + c0 * w && z * (u + w * e) == z * u + z * (w * e);
  }

  /** c = c0 + x*g, and x = (x - z) + z. */
  lemma {:induction false} SplitSum(ws: seq<int>, xs: seq<int>, c: seq<int>, z: int)
    requires |ws| == |xs| && c != []
    ensures WeightedSum(ws, xs, c)
            == c[0] * WeightedSum(ws, xs, [1]) + WeightedSum(Scale(ws, xs, z), xs, c[1..]) + z * WeightedSum(ws, xs, c[1..])
  {
    if xs != [] {
      var n := |xs| - 1;
      SplitSum(ws[..n], xs[..n], c, z);
      ScaleFront(ws, xs, z);
      assert Eval([1], xs[n]) == 1;
      SplitTerm(WeightedSum(ws[..n], xs[..n], [1]), WeightedSum(Scale(ws[..n], xs[..n], z), xs[..n], c[1..]),
                WeightedSum(ws[..n], xs[..n], c[1..]), ws[n], xs[n], z, c[0], Eval(c[1..], xs[n]));
    }
  }

  lemma {:induction false} ScaleDifference(ws: seq<int>, xs: seq<int>, a: int, z: int)
    requires |ws| == |xs|
    ensures (a - z) * WeightedSum(ws, xs, [1])
            == WeightedSum(Scale(ws, xs, z), xs, [1]) - WeightedSum(Scale(ws, xs, a), xs, [1])
  {
    if xs != [] {
      var n := |xs| - 1;
      ScaleDifference(ws[..n], xs[..n], a, z);
      ScaleFront(ws, xs, z);
      ScaleFront(ws, xs, a);
      var w, s := ws[n], WeightedSum(ws[..n], xs[..n], [1]);
      assert Eval([1], xs[n]) == 1;
      assert w * (xs[n] - z) - w * (xs[n] - a) == (a - z) * w;
      assert (a - z) * (s + w) == (a - z) * s + (a - z) * w;
    }
  }

  lemma {:induction false} SumFromFront(ws: seq<int>, xs: seq<int>, c: seq<int>)
    requires |ws| == |xs| > 0
    ensures WeightedSum(ws, xs, c) == ws[0] * Eval(c, xs[0]) + WeightedSum(ws[1..], xs[1..], c)
  {
    var n := |xs| - 1;
    if n == 0 {
      assert ws[..0] == [] && xs[..0] == [] && ws[1..] == [] && xs[1..] == [];
    } else {
      SumFromFront(ws[..n], xs[..n], c);
      assert ws[..n][1..] == ws[1..][..n - 1] && xs[..n][1..] == xs[1..][..n - 1];
    }
  }

  lemma {:induction false} DifferencesFromFront(x: int, xs: seq<int>, i: nat)
    requires xs != []
    ensures Differences(x, xs, i) == (if i == 0 then 1 else x - xs[0]) * Differences(x, xs[1..], i - 1)
  {
    var n := |xs| - 1;
    if n == 0 {
      assert xs[..0] == [] && xs[1..] == [];
      assert Differences(x, xs[..0], i) == 1 && Differences(x, xs[1..], i - 1) == 1;
    } else {
      DifferencesFromFront(x, xs[..n], i);
      assert xs[..n][1..] == xs[1..][..n - 1];
      var h, d := if i == 0 then 1 else x - xs[0], Differences(x, xs[1..][..n - 1], i - 1);
      var t := if i == n then 1 else x - xs[n];
      assert (h * d) * t == h * (d * t);
    }
  }

  // ----- removing a point from a weighted set -----

  lemma DropLast(ws: seq<int>, xs: seq<int>, p: int)
    requires Weights(ws, xs, p) && xs != []
    ensures Weights(Scale(ws, xs, xs[|xs| - 1])[..|xs| - 1], xs[..|xs| - 1], p)
  {
    var n := |xs| - 1;
    var vs := Scale(ws, xs, xs[n]);
    forall i | 0 <= i < n ensures Cong(vs[..n][i] * Differences(xs[..n][i], xs[..n], i), 1, p) {
      var d := Differences(xs[i], xs[..n], i);
      assert Differences(xs[i], xs, i) == d * (xs[i] - xs[n]);
      assert (ws[i] * (xs[i] - xs[n])) * d == ws[i] * (d * (xs[i] - xs[n]));
    }
  }

  lemma DropFirst(ws: seq<int>, xs: seq<int>, p: int)
    requires Weights(ws, xs, p) && xs != []
    ensures Weights(Scale(ws, xs, xs[0])[1..], xs[1..], p)
  {
    var vs := Scale(ws, xs, xs[0]);
    forall i | 0 <= i < |xs| - 1 ensures Cong(vs[1..][i] * Differences(xs[1..][i], xs[1..], i), 1, p) {
      DifferencesFromFront(xs[i + 1], xs, i + 1);
      MulAssoc(ws[i + 1], xs[i + 1] - xs[0], Differences(xs[i + 1], xs[1..], i));
      assert Cong(ws[i + 1] * Differences(xs[i + 1], xs, i + 1), 1, p);
    }
  }

  lemma SumOfScaledLast(ws: seq<int>, xs: seq<int>, c: seq<int>)
    requires |ws| == |xs| > 0
    ensures var n := |xs| - 1;
            WeightedSum(Scale(ws, xs, xs[n]), xs, c) == WeightedSum(Scale(ws, xs, xs[n])[..n], xs[..n], c)
  {
  }

  lemma SumOfScaledFirst(ws: seq<int>, xs: seq<int>, c: seq<int>)
    requires |ws| == |xs| > 0
    ensures WeightedSum(Scale(ws, xs, xs[0]), xs, c) == WeightedSum(Scale(ws, xs, xs[0])[1..], xs[1..], c)
  {
    SumFromFront(Scale(ws, xs, xs[0]), xs, c);
  }

  // ----- the interpolation identities -----

  /** If w*d*e is 1 and e*s is 0, then s is 0. */
  lemma CancelUnit(w: int, d: int, e: int, s: int, p: int)
    requires Cong(w * (d * e), 1, p) && Cong(e * s, 0, p)
    ensures Cong(s, 0, p)
  {
    CongRefl(s, p);
    CongMul(w * (d * e), 1, s, s, p);
    CongRefl(w * d, p);
    CongMul(w * d, w * d, e * s, 0, p);
    assert (w * (d * e)) * s == (w * d) * (e * s);
    CongSym((w * (d * e)) * s, s, p);
    CongTrans(s, (w * d) * (e * s), 0, p);
  }

  /** Two shorter sums that agree cancel the sum over all the points. */
  lemma SumCancels(ws: seq<int>, xs: seq<int>, one: int, p: int)
    requires Weights(ws, xs, p) && |xs| > 1
    requires Cong(WeightedSum(Scale(ws, xs, xs[|xs| - 1]), xs, [1]), one, p)
    requires Cong(WeightedSum(Scale(ws, xs, xs[0]), xs, [1]), one, p)
    ensures Cong(WeightedSum(ws, xs, [1]), 0, p)
  {
    var n, a, z := |xs| - 1, xs[0], xs[|xs| - 1];
    ScaleDifference(ws, xs, a, z);
    CongAdd(WeightedSum(Scale(ws, xs, z), xs, [1]), one, WeightedSum(Scale(ws, xs, a), xs, [1]), one, p);
    assert Cong(ws[0] * Differences(a, xs, 0), 1, p);
    CancelUnit(ws[0], Differences(a, xs[..n], 0), a - z, WeightedSum(ws, xs, [1]), p);
  }

  lemma SinglePointSum(ws: seq<int>, xs: seq<int>, p: int)
    requires Weights(ws, xs, p) && |xs| == 1
    ensures Cong(WeightedSum(ws, xs, [1]), 1, p)
  {
    assert Cong(ws[0] * Differences(xs[0], xs, 0), 1, p);
    assert xs[..0] == [] && ws[..0] == [];
    assert WeightedSum(ws, xs, [1]) == ws[0] * Eval([1], xs[0]) == ws[0];
    assert Differences(xs[0], xs, 0) == 1;
  }

  /** The weights of two or more points sum to zero. */
  lemma {:induction false} WeightsSum(ws: seq<int>, xs: seq<int>, p: int)
    requires Weights(ws, xs, p) && xs != []
    ensures Cong(WeightedSum(ws, xs, [1]), if |xs| == 1 then 1 else 0, p)
    decreases |xs|
  {
    var n := |xs| - 1;
    if n == 0 {
      SinglePointSum(ws, xs, p);
    } else {
      DropLast(ws, xs, p);
      DropFirst(ws, xs, p);
      WeightsSum(Scale(ws, xs, xs[n])[..n], xs[..n], p);
      WeightsSum(Scale(ws, xs, xs[0])[1..], xs[1..], p);
      SumOfScaledLast(ws, xs, [1]);
      SumOfScaledFirst(ws, xs, [1]);
      SumCancels(ws, xs, if n == 1 then 1 else 0, p);
    }
  }

  /** Weighted sums of a polynomial with fewer coefficients than points vanish. */
  lemma {:induction false} LowDegreeVanishes(ws: seq<int>, xs: seq<int>, c: seq<int>, p: int)
    requires Weights(ws, xs, p) && |c| < |xs|
    ensures Cong(WeightedSum(ws, xs, c), 0, p)
    decreases |c|
  {
    var n := |xs| - 1;
    if c == [] {
      ZeroPolynomial(ws, xs);
    } else {
      var z := xs[n];
      SplitSum(ws, xs, c, z);
      WeightsSum(ws, xs, p);
      DropLast(ws, xs, p);
      LowDegreeVanishes(Scale(ws, xs, z)[..n], xs[..n], c[1..], p);
      SumOfScaledLast(ws, xs, c[1..]);
      LowDegreeVanishes(ws, xs, c[1..], p);
      var s, t, u := WeightedSum(ws, xs, [1]), WeightedSum(Scale(ws, xs, z), xs, c[1..]), WeightedSum(ws, xs, c[1..]);
      DividesMul(p, s, c[0]);
      DividesMul(p, u, z);
      DividesSum(p, c[0] * s, t);
      DividesSum(p, c[0] * s + t, z * u);
    }
  }

  lemma {:induction false} ZeroPolynomial(ws: seq<int>, xs: seq<int>)
    requires |ws| == |xs|
    ensures WeightedSum(ws, xs, []) == 0
  {
    if xs != [] { ZeroPolynomial(ws[..|ws| - 1], xs[..|xs| - 1]); }
  }

  lemma {:induction false} DifferencesNonzero(x: int, xs: seq<int>, i: int, p: int)
    requires IsPrime(p) && forall j :: 0 <= j < |xs| && j != i ==> !Divides(p, x - xs[j])
    ensures !Divides(p, Differences(x, xs, i))
  {
    if xs != [] {
      var n := |xs| - 1;
      DifferencesNonzero(x, xs[..n], i, p);
      if Divides(p, Differences(x, xs, i)) {
        Euclid(p, Differences(x, xs[..n], i), if i == n then 1 else x - xs[n]);
      }
    }
  }

  // ----- a polynomial through any points -----

  lemma {:induction false} DifferencesPastEnd(x: int, xs: seq<int>, i: nat)
    requires i >= |xs|
    ensures Differences(x, xs, -1) == Differences(x, xs, i)
  {
    if xs != [] { DifferencesPastEnd(x, xs[..|xs| - 1], i); }
  }

  lemma {:induction false} FullProduct(x: int, xs: seq<int>, i: nat)
    requires i < |xs|
    ensures Differences(x, xs, -1) == Differences(x, xs, i) * (x - xs[i])
  {
    var n := |xs| - 1;
    if i == n {
      DifferencesPastEnd(x, xs[..n], n);
    } else {
      FullProduct(x, xs[..n], i);
      var d, e, f := Differences(x, xs[..n], i), x - xs[i], x - xs[n];
      assert (d * e) * f == (d * f) * e;
    }
  }

  /** a + k * b, coefficient by coefficient. */
  function Combine(a: seq<int>, k: int, b: seq<int>): (r: seq<int>)
    requires |a| == |b|
    ensures |r| == |a|
  {
    seq(|a|, i requires 0 <= i < |a| => a[i] + k * b[i])
  }

  lemma CombineTerm(a: int, k: int, b: int, x: int, e: int, f: int)
    ensures (a + k * b) + x * (e + k * f) == (a + x * e) + k * (b + x * f)
  {
    assert x * (k * f) == k * (x * f);
    DistributeLeft(x, e, k * f);
    DistributeLeft(k, b, x * f);
  }

  lemma {:induction false} EvalCombine(a: seq<int>, k: int, b: seq<int>, x: int)
    requires |a| == |b|
    ensures Eval(Combine(a, k, b), x) == Eval(a, x) + k * Eval(b, x)
  {
    if a == [] {
      assert Combine(a, k, b) == [] && k * 0 == 0;
    } else {
      EvalCombine(a[1..], k, b[1..], x);
      assert Combine(a, k, b)[1..] == Combine(a[1..], k, b[1..]);
      CombineTerm(a[0], k, b[0], x, Eval(a[1..], x), Eval(b[1..], x));
    }
  }

  function Zeros(n: nat): (r: seq<int>)
    ensures |r| == n
  {
    seq(n, _ => 0)
  }

  lemma {:induction false} EvalPadded(c: seq<int>, n: nat, x: int)
    ensures Eval(c + Zeros(n), x) == Eval(c, x)
    decreases |c|, n
  {
    if c != [] {
      EvalPadded(c[1..], n, x);
      assert (c + Zeros(n))[1..] == c[1..] + Zeros(n);
    } else if n > 0 {
      EvalPadded([], n - 1, x);
      assert ([] + Zeros(n))[1..] == [] + Zeros(n - 1);
      assert x * 0 == 0;
    } else {
      assert [] + Zeros(0) == [];
    }
  }

  lemma {:induction false} EvalLast(c: seq<int>, x: int)
    requires c != []
    ensures Eval(c, x) == Eval(c[..|c| - 1], x) + c[|c| - 1] * Pow(x, |c| - 1)
  {
    var n := |c| - 1;
    if n == 0 {
      assert c[1..] == [] && c[..0] == [] && x * 0 == 0;
    } else {
      EvalLast(c[1..], x);
      assert c[1..][..n - 1] == c[..n][1..];
      MoveFactor(x, Eval(c[..n][1..], x), c[n], Pow(x, n - 1));
    }
  }

  lemma MoveFactor(x: int, e: int, a: int, power: int)
    ensures x * (e + a * power) == x * e + a * (x * power)
  {
    DistributeLeft(x, e, a * power);
    assert x * (a * power) == a * (x * power);
  }

  /** The coefficients of the product of x - xs[j]. */
  function Product(xs: seq<int>): (c: seq<int>)
    ensures |c| == |xs| + 1
  {
    if xs == [] then [1]
    else
      var d := Product(xs[..|xs| - 1]);
      Combine([0] + d, -xs[|xs| - 1], d + Zeros(1))
  }

  lemma {:induction false} EvalProduct(xs: seq<int>, x: int)
    ensures Eval(Product(xs), x) == Differences(x, xs, -1)
  {
    if xs == [] {
      assert Eval([1], x) == 1;
    } else {
      var z := xs[|xs| - 1];
      var d := Product(xs[..|xs| - 1]);
      EvalProduct(xs[..|xs| - 1], x);
      EvalCombine([0] + d, -z, d + Zeros(1), x);
      EvalPadded(d, 1, x);
      assert ([0] + d)[1..] == d;
      FactorOut(x, z, Eval(d, x));
    }
  }

  lemma FactorOut(x: int, z: int, e: int)
    ensures (0 + x * e) + (-z) * e == e * (x - z)
  {
  }

  /** No two of the points are congruent. */
  ghost predicate Apart(xs: seq<int>, p: int) {
    forall i, j :: 0 <= i < |xs| && 0 <= j < |xs| && i != j ==> !Divides(p, xs[i] - xs[j])
  }

  ghost predicate Passes(c: seq<int>, x: int, y: int, p: int) { Cong(Eval(c, x), y, p) }

  /** The correction that takes the value e to y. */
  lemma Correction(e: int, y: int, d: int, p: int) returns (k: int)
    requires IsPrime(p) && !Divides(p, d)
    ensures Cong(e + k * d, y, p)
  {
    var u := Pow(d % p, p - 2);
    CongMod(d, p);
    FermatInverse(d % p, p);
    CongSym(d % p, d, p);
    CongRefl(u, p);
    CongMul(d, d % p, u, u, p);
    CongTrans(d * u, (d % p) * u, 1, p);
    k := (y - e) * u;
    CongRefl(y - e, p);
    CongMul(y - e, y - e, d * u, 1, p);
    assert (y - e) * (d * u) == k * d;
    CongRefl(e, p);
    CongAdd(e, e, k * d, (y - e) * 1, p);
  }

  /** d corrected by a multiple of the product over `front`. */
  function Corrected(d: seq<int>, k: int, front: seq<int>): (c: seq<int>)
    requires |d| == |front|
    ensures |c| == |d| + 1
  {
    Combine(d + Zeros(1), k, Product(front))
  }

  lemma EvalCorrected(d: seq<int>, k: int, front: seq<int>, x: int)
    requires |d| == |front|
    ensures Eval(Corrected(d, k, front), x) == Eval(d, x) + k * Differences(x, front, -1)
  {
    EvalCombine(d + Zeros(1), k, Product(front), x);
    EvalPadded(d, 1, x);
    EvalProduct(front, x);
  }

  /** The correction changes nothing at the points of `front`. */
  lemma CorrectedKeeps(d: seq<int>, k: int, front: seq<int>, i: nat)
    requires |d| == |front| && i < |front|
    ensures Eval(Corrected(d, k, front), front[i]) == Eval(d, front[i])
  {
    EvalCorrected(d, k, front, front[i]);
    FullProduct(front[i], front, i);
    assert Differences(front[i], front, i) * 0 == 0 && k * 0 == 0;
  }

  /** Through any points that are pairwise apart passes a polynomial with as
      many coefficients as there are points. */
  lemma {:induction false} Interpolate(xs: seq<int>, ys: seq<int>, p: int) returns (c: seq<int>)
    requires IsPrime(p) && |xs| == |ys| && Apart(xs, p)
    ensures |c| == |xs| && forall i :: 0 <= i < |xs| ==> Passes(c, xs[i], ys[i], p)
  {
    if xs == [] {
      c := [];
    } else {
      var n := |xs| - 1;
      var front := xs[..n];
      assert Apart(front, p);
      var d := Interpolate(front, ys[..n], p);
      DifferencesNonzero(xs[n], front, -1, p);
      var k := Correction(Eval(d, xs[n]), ys[n], Differences(xs[n], front, -1), p);
      c := Corrected(d, k, front);
      EvalCorrected(d, k, front, xs[n]);
      forall i | 0 <= i < n ensures Passes(c, xs[i], ys[i], p) {
        CorrectedKeeps(d, k, front, i);
        assert Passes(d, front[i], ys[..n][i], p);
      }
    }
  }

  // ----- few enough coefficients are determined by the values -----

  /** The quotient of c by x - z. */
  function Deflate(c: seq<int>, z: int): (q: seq<int>)
    requires c != []
    ensures |q| == |c| - 1
  {
    if |c| == 1 then [] else [Eval(c[1..], z)] + Deflate(c[1..], z)
  }

  lemma DeflateStep(c0: int, x: int, z: int, ex: int, ez: int, q: int)
    requires ex == ez + (x - z) * q
    ensures c0 + x * ex == (c0 + z * ez) + (x - z) * (ez + x * q)
  {
    assert (x - z) * (ez + x * q) == x * ez - z * ez + x * ((x - z) * q);
    DistributeLeft(x, ez, (x - z) * q);
  }

  lemma {:induction false} DeflateDivides(c: seq<int>, z: int, x: int)
    requires c != []
    ensures Eval(c, x) == Eval(c, z) + (x - z) * Eval(Deflate(c, z), x)
  {
    if |c| == 1 {
      assert c[1..] == [];
    } else {
      DeflateDivides(c[1..], z, x);
      assert Deflate(c, z)[1..] == Deflate(c[1..], z);
      DeflateStep(c[0], x, z, Eval(c[1..], x), Eval(c[1..], z), Eval(Deflate(c[1..], z), x));
    }
  }

  ghost predicate AllZero(c: seq<int>, p: int) { forall i :: 0 <= i < |c| ==> Divides(p, c[i]) }

  lemma {:induction false} DeflatedZero(c: seq<int>, z: int, p: int)
    requires p > 0 && c != [] && AllZero(Deflate(c, z), p) && Divides(p, Eval(c, z))
    ensures AllZero(c, p)
  {
    if |c| == 1 {
      assert c[1..] == [] && Eval(c, z) == c[0] + z * 0;
    } else {
      var e := Eval(c[1..], z);
      assert Deflate(c, z)[0] == e;
      assert Deflate(c, z)[1..] == Deflate(c[1..], z);
      DeflatedZero(c[1..], z, p);
      DividesMul(p, e, z);
      DividesSum(p, Eval(c, z), z * e);
      assert forall i :: 0 < i < |c| ==> c[i] == c[1..][i - 1];
    }
  }

  /** A polynomial that vanishes at as many points as it has coefficients is zero. */
  lemma {:induction false} ManyRootsMeanZero(c: seq<int>, xs: seq<int>, p: int)
    requires IsPrime(p) && |c| <= |xs| && Apart(xs, p)
    requires forall i :: 0 <= i < |xs| ==> Divides(p, Eval(c, xs[i]))
    ensures AllZero(c, p)
    decreases |c|
  {
    if c != [] {
      var n := |xs| - 1;
      var z, q := xs[n], Deflate(c, xs[n]);
      forall i | 0 <= i < n ensures Divides(p, Eval(q, xs[..n][i])) {
        DeflateDivides(c, z, xs[i]);
        DividesSum(p, Eval(c, xs[i]), Eval(c, z));
        Euclid(p, xs[i] - z, Eval(q, xs[i]));
      }
      ManyRootsMeanZero(q, xs[..n], p);
      DeflatedZero(c, z, p);
    }
  }

  /** Equal values at enough points mean equal coefficients modulo p. */
  lemma ValuesDetermineCoefficients(c: seq<int>, d: seq<int>, xs: seq<int>, p: int)
    requires IsPrime(p) && |c| == |d| <= |xs| && Apart(xs, p)
    requires forall i :: 0 <= i < |xs| ==> Cong(Eval(c, xs[i]), Eval(d, xs[i]), p)
    ensures forall i :: 0 <= i < |c| ==> Cong(c[i], d[i], p)
  {
    var e := Combine(c, -1, d);
    forall i | 0 <= i < |xs| ensures Divides(p, Eval(e, xs[i])) {
      EvalCombine(c, -1, d, xs[i]);
      assert Cong(Eval(c, xs[i]), Eval(d, xs[i]), p);
    }
    ManyRootsMeanZero(e, xs, p);
    forall i | 0 <= i < |c| ensures Cong(c[i], d[i], p) {
      assert Divides(p, e[i]) && e[i] == c[i] - d[i];
    }
  }

  lemma {:induction false} EvalCong(c: seq<int>, d: seq<int>, x: int, p: int)
    requires p > 0 && |c| == |d| && forall i :: 0 <= i < |c| ==> Cong(c[i], d[i], p)
    ensures Cong(Eval(c, x), Eval(d, x), p)
  {
    if c == [] {
      CongRefl(0, p);
    } else {
      EvalCong(c[1..], d[1..], x, p);
      CongRefl(x, p);
      CongMul(x, x, Eval(c[1..], x), Eval(d[1..], x), p);
      CongAdd(c[0], d[0], x * Eval(c[1..], x), x * Eval(d[1..], x), p);
    }
  }
}
