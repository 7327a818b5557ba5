/** Divisibility, congruence, Euclid's lemma and Fermat's little theorem. */
module ModArith {
  import opened Words

  predicate Divides(d: int, n: int) { d != 0 && n % d == 0 }

  ghost predicate IsPrime(p: int) { p > 1 && forall d :: 1 < d < p ==> !Divides(d, p) }

  ghost predicate Cong(a: int, b: int, p: int) { p > 0 && Divides(p, a - b) }

  lemma MultipleBound(p: int, k: int)
    requires p > 0
    ensures k >= 1 ==> p * k >= p
    ensures k <= -1 ==> p * k <= -p
  {
  }

  lemma FloorBounds(x: int, d: int)
    requires d > 0
    ensures (x / d) * d <= x < (x / d) * d + d
  {
  }

  lemma MulMono(p: int, x: int, y: int)
    requires 0 <= p && x <= y
    ensures p * x <= p * y
  {
    assert p * (y - x) >= 0;
  }

  lemma Rearrange(x: int, u: int, y: int, v: int)
    ensures (x * u) * (y * v) == (x * y) * (u * v)
  {
    assert x * (u * (y * v)) == x * (y * (u * v)) by {
      assert u * (y * v) == y * (u * v);
    }
  }

  lemma DistributeLeft(s: int, t: int, u: int)
    ensures s * (t + u) == s * t + s * u
    ensures (t + u) * s == t * s + u * s
  {
  }

  lemma MulBounds(a: int, b: int, c: int, d: int)
    requires 0 <= a <= c && 0 <= b <= d
    ensures 0 <= a * b <= c * d
  {
    MulMono(a, 0, b);
    MulMono(a, b, d);
    MulMono(d, a, c);
  }

  lemma MulCancelLt(w: int, x: int, y: int)
    requires w > 0 && x * w < y * w
    ensures x < y
  {
    if x >= y { MulMono(w, y, x); }
  }

  lemma SmallMultiple(p: int, k: int)
    requires p > 0 && -p < p * k < p
    ensures k == 0
  {
    MultipleBound(p, k);
  }

  lemma DivMono(x: int, y: int, d: int)
    requires d > 0 && x <= y
    ensures x / d <= y / d
  {
    FloorBounds(x, d);
    FloorBounds(y, d);
    if x / d >= y / d + 1 { MulMono(d, y / d + 1, x / d); }
  }

  lemma QuotientAtMost(x: nat, d: nat)
    requires d > 0
    ensures 0 <= x / d <= x
  {
    FloorBounds(x, d);
    MulMono(x / d, 1, d);
  }

  lemma MultipleQuotient(d: int, q: int)
    requires d > 0
    ensures d * q / d == q
  {
    FloorBounds(d * q, d);
    SmallMultiple(d, q - d * q / d);
  }

  lemma QuotientIs(a: int, b: int, q: int, r: int)
    requires a == b * q + r && 0 <= r < b
    ensures a / b == q
  {
    FloorBounds(a, b);
    DistributeLeft(b, q, -(a / b));
    SmallMultiple(b, q - a / b);
  }

  lemma DivDiv(a: nat, b: nat, c: nat)
    requires b > 0 && c > 0
    ensures b * c > 0 && a / (b * c) == a / b / c
  {
    var x := a / b;
    var y := x / c;
    MulMono(b, 1, c);
    FloorBounds(a, b);
    FloorBounds(x, c);
    MulMono(b, x - y * c, c - 1);
    MulMono(b, 0, x - y * c);
    DistributeLeft(b, c, -1);
    DistributeLeft(b, x, -(y * c));
    assert b * (y * c) == (b * c) * y;
    QuotientIs(a, b * c, y, b * (x - y * c) + (a - x * b));
  }

  lemma MultipleIsDivisible(p: int, k: int)
    requires p > 0
    ensures Divides(p, p * k)
  {
    var q, r := (p * k) / p, (p * k) % p;
    assert p * (k - q) == p * k - p * q == r;
    SmallMultiple(p, k - q);
  }

  lemma Quotient(p: int, n: int) returns (k: int)
    requires p > 0 && Divides(p, n)
    ensures n == p * k
  {
    k := n / p;
  }

  lemma DividesSum(p: int, a: int, b: int)
    requires p > 0 && Divides(p, a) && Divides(p, b)
    ensures Divides(p, a + b) && Divides(p, a - b)
  {
    var j := Quotient(p, a);
    var k := Quotient(p, b);
    assert a + b == p * (j + k) && a - b == p * (j - k);
    MultipleIsDivisible(p, j + k);
    MultipleIsDivisible(p, j - k);
  }

  lemma DividesMul(p: int, a: int, c: int)
    requires p > 0 && Divides(p, a)
    ensures Divides(p, a * c) && Divides(p, c * a)
  {
    var k := Quotient(p, a);
    assert a * c == p * (k * c);
    MultipleIsDivisible(p, k * c);
  }

  lemma CongRefl(a: int, p: int)
    requires p > 0
    ensures Cong(a, a, p)
  {
  }

  lemma CongSym(a: int, b: int, p: int)
    requires Cong(a, b, p)
    ensures Cong(b, a, p)
  {
    DividesSum(p, 0, a - b);
  }

  lemma CongTrans(a: int, b: int, c: int, p: int)
    requires Cong(a, b, p) && Cong(b, c, p)
    ensures Cong(a, c, p)
  {
    DividesSum(p, a - b, b - c);
  }

  lemma CongAdd(a: int, b: int, c: int, d: int, p: int)
    requires Cong(a, b, p) && Cong(c, d, p)
    ensures Cong(a + c, b + d, p) && Cong(a - c, b - d, p)
  {
    DividesSum(p, a - b, c - d);
    assert (a - b) - (c - d) == (a - c) - (b - d);
    assert (a - b) + (c - d) == (a + c) - (b + d);
  }

  lemma CongMul(a: int, b: int, c: int, d: int, p: int)
    requires Cong(a, b, p) && Cong(c, d, p)
    ensures Cong(a * c, b * d, p)
  {
    DividesMul(p, a - b, c);
    DividesMul(p, c - d, b);
    DividesSum(p, (a - b) * c, (c - d) * b);
    assert (a - b) * c + (c - d) * b == a * c - b * d;
  }

  lemma CongMod(a: int, p: int)
    requires p > 0
    ensures Cong(a % p, a, p) && 0 <= a % p < p
  {
    MultipleIsDivisible(p, -(a / p));
    assert a % p - a == p * -(a / p);
  }

  /** A residue is determined by its congruence class. */
  lemma ResidueUnique(r: int, a: int, p: int)
    requires 0 <= r < p && Cong(r, a, p)
    ensures r == a % p
  {
    CongMod(a, p);
    CongSym(a % p, a, p);
    CongTrans(r, a, a % p, p);
    var k := Quotient(p, r - a % p);
    SmallMultiple(p, k);
  }

  // ----- powers -----

  function Pow(b: int, n: nat): int {
    if n == 0 then 1 else b * Pow(b, n - 1)
  }

  lemma {:induction false} PowAdd(b: int, m: nat, n: nat)
    ensures Pow(b, m + n) == Pow(b, m) * Pow(b, n)
  {
    if m > 0 {
      PowAdd(b, m - 1, n);
      var x, y := Pow(b, m - 1), Pow(b, n);
      assert b * (x * y) == (b * x) * y;
    }
  }

  lemma Pow256Is()
    ensures Pow(256, 32) == TWO256
  {
    PowAdd(256, 16, 16);
    PowAdd(256, 8, 8);
    assert Pow(256, 4) == 0x1_0000_0000;
    PowAdd(256, 4, 4);
  }

  lemma {:induction false} PowCong(a: int, b: int, n: nat, p: int)
    requires Cong(a, b, p)
    ensures Cong(Pow(a, n), Pow(b, n), p)
  {
    if n == 0 {
      CongRefl(1, p);
    } else {
      PowCong(a, b, n - 1, p);
      CongMul(a, b, Pow(a, n - 1), Pow(b, n - 1), p);
    }
  }

  // ----- Euclid's lemma -----

  lemma {:induction false} EuclidReduced(p: int, a: int, b: int)
    requires IsPrime(p) && 0 < a < p && Divides(p, a * b)
    ensures Divides(p, b)
    decreases a
  {
    if a > 1 {
      var q, r := p / a, p % a;
      assert r != 0 by { assert !Divides(a, p); }
      DividesMul(p, a * b, q);
      MultipleIsDivisible(p, b);
      DividesSum(p, p * b, (a * b) * q);
      assert r * b == p * b - (a * b) * q by {
        assert r == p - a * q;
        assert (p - a * q) * b == p * b - (a * b) * q;
      }
      EuclidReduced(p, r, b);
    }
  }

  /** A prime that divides a product divides a factor. */
  lemma Euclid(p: int, a: int, b: int)
    requires IsPrime(p) && Divides(p, a * b)
    ensures Divides(p, a) || Divides(p, b)
  {
    var r := a % p;
    if r != 0 {
      CongMod(a, p);
      CongRefl(b, p);
      CongMul(r, a, b, b, p);
      DividesSum(p, r * b - a * b, a * b);
      EuclidReduced(p, r, b);
    }
  }

  // ----- Fermat's little theorem, by the binomial expansion of (1 + a)^p -----

  function Binom(n: nat, k: nat): nat {
    if k == 0 then 1 else if n == 0 then 0 else Binom(n - 1, k - 1) + Binom(n - 1, k)
  }

  lemma {:induction false} BinomAboveDiagonal(n: nat, k: nat)
    requires k > n
    ensures Binom(n, k) == 0
  {
    if n > 0 {
      BinomAboveDiagonal(n - 1, k - 1);
      BinomAboveDiagonal(n - 1, k);
    }
  }

  lemma AbsorptionStep(n: int, k: int, a: int, b: int, c: int, d: int)
    requires k * b == (n - 1) * c && (k - 1) * a == (n - 1) * d && a == d + c
    ensures k * (a + b) == n * a
  {
    assert k * (a + b) == (k - 1) * a + a + k * b;
    assert (n - 1) * (d + c) == (n - 1) * d + (n - 1) * c;
  }

  lemma {:induction false} BinomAbsorption(n: nat, k: nat)
    requires n > 0 && k > 0
    ensures k * Binom(n, k) == n * Binom(n - 1, k - 1)
  {
    if n == 1 {
      if k > 1 { BinomAboveDiagonal(0, k - 1); }
      BinomAboveDiagonal(0, k);
    } else {
      BinomAbsorption(n - 1, k);
      if k > 1 { BinomAbsorption(n - 1, k - 1); }
      AbsorptionStep(n, k, Binom(n - 1, k - 1), Binom(n - 1, k), Binom(n - 2, k - 1),
                     if k > 1 then Binom(n - 2, k - 2) else 0);
    }
  }

  lemma PrimeDividesBinom(p: int, k: nat)
    requires IsPrime(p) && 0 < k < p
    ensures Divides(p, Binom(p, k))
  {
    BinomAbsorption(p, k);
    MultipleIsDivisible(p, Binom(p - 1, k - 1));
    EuclidReduced(p, k, Binom(p, k));
  }

  /** The first m + 1 terms of the expansion of (1 + a)^n. */
  function Expansion(a: int, n: nat, m: nat): int {
    Binom(n, m) * Pow(a, m) + (if m == 0 then 0 else Expansion(a, n, m - 1))
  }

  lemma ExpansionAlgebra(a: int, b: int, c: int, t: int, e: int, f: int)
    requires (1 + a) * e == f + c * t
    ensures (1 + a) * (b * t + e) == (c + b) * t + f + b * (a * t)
  {
    assert (1 + a) * (b * t + e) == (1 + a) * (b * t) + (1 + a) * e;
    assert (1 + a) * (b * t) == b * t + b * (a * t);
    assert (c + b) * t == c * t + b * t;
  }

  lemma {:induction false} ExpansionStep(a: int, n: nat, m: nat)
    ensures (1 + a) * Expansion(a, n, m) == Expansion(a, n + 1, m) + Binom(n, m) * Pow(a, m + 1)
  {
    assert Pow(a, m + 1) == a * Pow(a, m);
    if m == 0 {
      assert Pow(a, 1) == a && Expansion(a, n, 0) == 1 && Expansion(a, n + 1, 0) == 1;
    } else {
      ExpansionStep(a, n, m - 1);
      ExpansionAlgebra(a, Binom(n, m), Binom(n, m - 1), Pow(a, m), Expansion(a, n, m - 1), Expansion(a, n + 1, m - 1));
    }
  }

  lemma {:induction false} BinomialTheorem(a: int, n: nat)
    ensures Pow(1 + a, n) == Expansion(a, n, n)
  {
    if n > 0 {
      BinomialTheorem(a, n - 1);
      ExpansionStep(a, n - 1, n - 1);
      BinomAboveDiagonal(n - 1, n);
    }
  }

  lemma CongAddMultiple(a: int, b: int, m: int, p: int)
    requires Cong(a, b, p) && Divides(p, m)
    ensures Cong(m + a, b, p)
  {
    DividesSum(p, a - b, m);
  }

  lemma {:induction false} ExpansionModPrime(a: int, p: int, m: nat)
    requires IsPrime(p) && m < p
    ensures Cong(Expansion(a, p, m), 1, p)
  {
    if m > 0 {
      ExpansionModPrime(a, p, m - 1);
      PrimeDividesBinom(p, m);
      DividesMul(p, Binom(p, m), Pow(a, m));
      CongAddMultiple(Expansion(a, p, m - 1), 1, Binom(p, m) * Pow(a, m), p);
    }
  }

  lemma {:induction false} BinomDiagonal(n: nat)
    ensures Binom(n, n) == 1
  {
    if n > 0 {
      BinomDiagonal(n - 1);
      BinomAboveDiagonal(n - 1, n);
    }
  }

  lemma {:induction false} FermatPower(a: nat, p: int)
    requires IsPrime(p)
    ensures Cong(Pow(a, p), a, p)
  {
    if a == 0 {
      assert Pow(0, p) == 0;
    } else {
      FermatPower(a - 1, p);
      BinomialTheorem(a - 1, p);
      ExpansionModPrime(a - 1, p, p - 1);
      BinomDiagonal(p);
      CongAdd(Expansion(a - 1, p, p - 1), 1, Pow(a - 1, p), a - 1, p);
    }
  }

  /** For a prime p that does not divide a, the power p - 2 inverts a. */
  lemma FermatInverse(a: nat, p: int)
    requires IsPrime(p) && !Divides(p, a)
    ensures Cong(a * Pow(a, p - 2), 1, p)
  {
    FermatPower(a, p);
    var u := Pow(a, p - 2);
    assert Pow(a, p - 1) == a * u;
    assert Pow(a, p) - a == a * (a * u - 1);
    Euclid(p, a, a * u - 1);
  }
}
