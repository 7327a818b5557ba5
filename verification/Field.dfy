/** Arithmetic modulo 2^256 - 189 on four 64-bit limbs. */
module Field {
  import opened Words
  import opened ModArith
  import opened Limbs

  const P: int := TWO256 - 189

  method Reduce(a: U256) returns (r: U256)
    ensures Value(r) == Value(a) % P
  {
    FourLimbs(a);
    ToLimbsValue(P);
    var big := Gte(a, ToLimbs(P));
    if big {
      var diff, borrow := SubRaw(a, ToLimbs(P));
      FourLimbs(diff);
      return diff;
    } else {
      return a;
    }
  }

  method ReduceBytes(a: Digest) returns (r: Digest)
    ensures r == a % P
  {
    ToLimbsValue(a);
    var l := Reduce(ToLimbs(a));
    r := FromLimbs(l);
  }

  lemma SumResidue(s: int)
    requires 0 <= s < 2 * TWO256
    ensures s < P ==> s % P == s
    ensures P <= s < 2 * P ==> s % P == s - P
    ensures s >= 2 * P ==> s % P == s - 2 * P
  {
  }

  /** Adds correctly exactly when the operands sum to less than 2p, which two
      reduced operands always do. */
  method Add(a: Digest, b: Digest) returns (r: Digest)
    ensures r == (a + b) % P <==> a + b < 2 * P
  {
    ToLimbsValue(a);
    ToLimbsValue(b);
    ToLimbsValue(P);
    var sum, carry := AddRaw(ToLimbs(a), ToLimbs(b));
    FourLimbs(sum);
    SumResidue(a + b);
    SumResidue(Value(sum));
    if carry {
      var diff, borrow := SubRaw(sum, ToLimbs(P));
      FourLimbs(diff);
      r := FromLimbs(diff);
    } else {
      var l := Reduce(sum);
      r := FromLimbs(l);
    }
  }

  lemma DifferenceResidue(d: int)
    requires -TWO256 < d < TWO256
    ensures 0 <= d < P ==> d % P == d
    ensures -P <= d < 0 ==> d % P == d + P
    ensures d >= P ==> d % P == d - P
  {
  }

  /** Subtracts correctly exactly when the difference is at least -p and less than p. */
  method Sub(a: Digest, b: Digest) returns (r: Digest)
    ensures r == (a - b) % P <==> -P <= a - b < P
  {
    ToLimbsValue(a);
    ToLimbsValue(b);
    ToLimbsValue(P);
    var diff, borrow := SubRaw(ToLimbs(a), ToLimbs(b));
    FourLimbs(diff);
    DifferenceResidue(a - b);
    CongMod(a - b, P);
    if borrow {
      var sum, carry := AddRaw(diff, ToLimbs(P));
      FourLimbs(sum);
      r := FromLimbs(sum);
    } else {
      r := FromLimbs(diff);
    }
  }

  // ----- multiplication: the 512-bit product -----

  /** What one limb product adds to the accumulated value. */
  lemma LimbProduct(x: int, y: int, i: nat, j: nat, hi: int, lo: int)
    requires i < 4 && j < 4 && x * y == lo + TWO64 * hi
    ensures hi * Radix(7 - i - j) + lo * Radix(6 - i - j) == (x * Radix(3 - i)) * (y * Radix(3 - j))
  {
    var w, u, v := Radix(6 - i - j), Radix(3 - i), Radix(3 - j);
    RadixAdd(3 - i, 3 - j);
    assert Radix(7 - i - j) == TWO64 * w;
    Column(x * y, 0, 0, lo, hi, 6 - i - j);
    Rearrange(x, u, y, v);
  }

  /** Adding a limb product's halves to two adjacent columns. */
  lemma Accumulate(prod: seq<int>, x: int, y: int, i: nat, j: nat, hi: int, lo: int)
    requires |prod| == 8 && i < 4 && j < 4 && x * y == lo + TWO64 * hi
    ensures Value(prod[i + j := prod[i + j] + hi][i + j + 1 := prod[i + j + 1] + lo])
            == Value(prod) + (x * Radix(3 - i)) * (y * Radix(3 - j))
  {
    var k := i + j;
    LimbProduct(x, y, i, j, hi, lo);
    ValueUpdate(prod, k, prod[k] + hi);
    ValueUpdate(prod[k := prod[k] + hi], k + 1, prod[k + 1] + lo);
  }

  /** No column is more than `c` above where it started. */
  ghost predicate Grown(prod: seq<U128>, start: seq<U128>, c: nat) {
    |prod| == |start| && forall m :: 0 <= m < |prod| ==> prod[m] <= start[m] + c
  }

  /** The columns hold what they started with and `top` times the limbs from j on. */
  ghost predicate RowDone(prod: seq<int>, start: seq<int>, top: int, lb: U256, j: nat)
    requires j <= 4
  {
    |prod| == 8 && Value(prod) == Value(start) + top * Value(lb[j..])
  }

  lemma RowStep(prod: seq<int>, start: seq<int>, x: int, i: nat, lb: U256, j: nat, hi: int, lo: int)
    requires i < 4 && j < 4 && RowDone(prod, start, x * Radix(3 - i), lb, j + 1)
    requires x * lb[j] == lo + TWO64 * hi
    ensures RowDone(prod[i + j := prod[i + j] + hi][i + j + 1 := prod[i + j + 1] + lo], start, x * Radix(3 - i), lb, j)
  {
    var top, y := x * Radix(3 - i), lb[j] as int;
    Accumulate(prod, x, y, i, j, hi, lo);
    ValueTail(lb, j);
    DistributeLeft(top, y * Radix(3 - j), Value(lb[j + 1..]));
  }

  /** One row of the schoolbook product: limb `i` of one factor times the other. */
  method AddRow(start: seq<U128>, x: U64, i: nat, lb: U256) returns (prod: seq<U128>)
    requires |start| == 8 && i < 4
    requires forall m :: 0 <= m < 8 ==> start[m] <= 24 * TWO64
    ensures |prod| == 8 && Value(prod) == Value(start) + (x * Radix(3 - i)) * Value(lb)
    ensures forall m :: 0 <= m < 8 ==> prod[m] <= start[m] + 8 * TWO64
  {
    prod := start;
    assert lb[4..] == [];
    for j := 4 downto 0
      invariant RowDone(prod, start, x * Radix(3 - i), lb, j)
      invariant Grown(prod, start, 2 * (4 - j) * TWO64)
    {
      MulBounds(x, lb[j], U64_MAX, U64_MAX);
      var pij: U128 := (x as int) * lb[j];
      var k := i + j;
      RowStep(prod, start, x, i, lb, j, pij / TWO64, pij % TWO64);
      prod := prod[k := prod[k] + pij / TWO64][k + 1 := prod[k + 1] + pij % TWO64];
    }
    assert lb[0..] == lb;
  }

  /** Schoolbook columns, not yet carried: no 128-bit column overflows. */
  method Columns(la: U256, lb: U256) returns (prod: seq<U128>)
    ensures |prod| == 8 && Value(prod) == Value(la) * Value(lb)
    ensures forall m :: 0 <= m < 8 ==> prod[m] <= 32 * TWO64
  {
    prod := [0, 0, 0, 0, 0, 0, 0, 0];
    ValueZeros(prod);
    for i := 4 downto 0
      invariant |prod| == 8 && Value(prod) == Value(la[i..]) * Value(lb)
      invariant forall m :: 0 <= m < 8 ==> prod[m] <= 8 * (4 - i) * TWO64
    {
      prod := AddRow(prod, la[i], i, lb);
      ValueTail(la, i);
      DistributeLeft(Value(lb), la[i] * Radix(3 - i), Value(la[i + 1..]));
    }
    assert la[0..] == la;
  }

  lemma MovedUp(hi: int, lo: int, col: int, w: int)
    requires col == lo + TWO64 * hi
    ensures hi * (TWO64 * w) + (lo - col) * w == 0
  {
    MulAssoc(hi, TWO64, w);
    assert lo - col == -(hi * TWO64);
  }

  /** Moving the high half of a column to the next one keeps the value. */
  lemma CarryMoves(cols: seq<int>, i: nat, hi: int, lo: int)
    requires 0 < i < |cols| && cols[i] == lo + TWO64 * hi
    ensures Value(cols[i - 1 := cols[i - 1] + hi][i := lo]) == Value(cols)
  {
    var w := Radix(|cols| - 1 - i);
    var mid := cols[i - 1 := cols[i - 1] + hi];
    ValueUpdate(cols, i - 1, cols[i - 1] + hi);
    ValueUpdate(mid, i, lo);
    assert Radix(|cols| - i) == TWO64 * w;
    MovedUp(hi, lo, cols[i], w);
  }

  lemma TopLimbFits(prod: seq<U128>)
    requires |prod| == 8 && Value(prod) < Radix(8)
    requires forall m :: 1 <= m < 8 ==> prod[m] < TWO64
    ensures prod[0] < TWO64
  {
    var low: seq<U64> := prod[1..];
    ValueBound(low);
    MulCancelLt(Radix(7), prod[0], TWO64);
  }

  method Carry(columns: seq<U128>) returns (prod: seq<U64>)
    requires |columns| == 8 && Value(columns) < Radix(8)
    requires forall m :: 0 <= m < 8 ==> columns[m] <= 32 * TWO64
    ensures |prod| == 8 && Value(prod) == Value(columns)
  {
    var cols: seq<U128> := columns;
    for i := 8 downto 1
      invariant |cols| == 8 && Value(cols) == Value(columns)
      invariant forall m :: i <= m < 8 ==> cols[m] < TWO64
      invariant forall m :: 0 <= m < i ==> cols[m] <= 33 * TWO64
      invariant forall m :: 0 <= m < i - 1 ==> cols[m] <= 32 * TWO64
    {
      var hi, lo := cols[i] / TWO64, cols[i] % TWO64;
      CarryMoves(cols, i, hi, lo);
      cols := cols[i - 1 := cols[i - 1] + hi][i := lo];
    }
    TopLimbFits(cols);
    cols := cols[0 := cols[0] % TWO64];
    prod := cols;
  }

  // ----- multiplication: the two folds -----

  lemma Scale189(x: int, w: int)
    ensures (189 * x) * w == 189 * (x * w)
  {
  }

  ghost predicate Scaled(hi: U256, r: seq<int>, carry: int, i: nat)
    requires i <= 4 && |r| == 5
  {
    Value(r[i + 1..]) + carry * Radix(4 - i) == 189 * Value(hi[i..])
  }

  lemma ScaleStep(hi: U256, r: seq<int>, carry: int, i: nat, digit: int, next: int)
    requires i < 4 && |r| == 5 && Scaled(hi, r, carry, i + 1)
    requires 189 * (hi[i] as int) + carry == digit + TWO64 * next
    ensures Scaled(hi, r[i + 1 := digit], next, i)
  {
    var x: int := hi[i];
    ValueTail(hi, i);
    SetLimb(r, i + 1, digit);
    Column(189 * x, 0, carry, digit, next, 3 - i);
    Scale189(x, Radix(3 - i));
  }

  /** 189 * hi as five limbs. */
  method Times189(hi: U256) returns (r: seq<U64>)
    ensures |r| == 5 && r[0] <= 189 && Value(r) == 189 * Value(hi)
  {
    r := [0, 0, 0, 0, 0];
    var carry: U128 := 0;
    for i := 4 downto 0
      invariant |r| == 5 && carry <= 189 && Scaled(hi, r, carry, i)
    {
      var x: int := hi[i];
      var v: U128 := x * 189 + carry;
      ScaleStep(hi, r, carry, i, v % TWO64, v / TWO64);
      r := r[i + 1 := v % TWO64];
      carry := v / TWO64;
    }
    assert hi[0..] == hi && r[0 := carry][1..] == r[1..];
    r := r[0 := carry];
  }

  ghost predicate Corrected(lo: U256, correction: seq<int>, r: seq<int>, carry: int, i: nat)
    requires i <= 4 && |correction| == 5 && |r| == 5
  {
    Value(r[i + 1..]) + carry * Radix(4 - i) == Value(lo[i..]) + Value(correction[i + 1..])
  }

  lemma CorrectStep(lo: U256, correction: seq<int>, r: seq<int>, carry: int, i: nat, digit: int, next: int)
    requires i < 4 && |correction| == 5 && |r| == 5 && Corrected(lo, correction, r, carry, i + 1)
    requires lo[i] as int + correction[i + 1] + carry == digit + TWO64 * next
    ensures Corrected(lo, correction, r[i + 1 := digit], next, i)
  {
    ValueTail(lo, i);
    ValueTail(correction, i + 1);
    SetLimb(r, i + 1, digit);
    Column(lo[i], correction[i + 1], carry, digit, next, 3 - i);
  }

  /** lo + correction as five limbs. */
  method AddFive(lo: U256, correction: seq<U64>) returns (r: seq<U64>)
    requires |correction| == 5 && correction[0] <= 189
    ensures |r| == 5 && r[0] <= 190 && Value(r) == Value(lo) + Value(correction)
  {
    r := [0, 0, 0, 0, 0];
    var carry: U128 := 0;
    for i := 4 downto 0
      invariant |r| == 5 && carry <= 1 && Corrected(lo, correction, r, carry, i)
    {
      var s: U128 := lo[i] + correction[i + 1] + carry;
      CorrectStep(lo, correction, r, carry, i, s % TWO64, s / TWO64);
      r := r[i + 1 := s % TWO64];
      carry := s / TWO64;
    }
    assert lo[0..] == lo && r[0 := correction[0] + carry][1..] == r[1..];
    r := r[0 := correction[0] + carry];
    DistributeLeft(Radix(4), correction[0], carry);
  }

  lemma FoldHigh(x: int, hi: int, lo: int)
    requires x == hi * TWO256 + lo
    ensures (lo + 189 * hi) % P == x % P
  {
    assert x == (lo + 189 * hi) + P * hi;
    MultipleIsDivisible(P, hi);
    CongRefl(lo + 189 * hi, P);
    CongAddMultiple(lo + 189 * hi, lo + 189 * hi, P * hi, P);
    CongMod(lo + 189 * hi, P);
    CongSym(x, lo + 189 * hi, P);
    CongTrans((lo + 189 * hi) % P, lo + 189 * hi, x, P);
    ResidueUnique((lo + 189 * hi) % P, x, P);
  }

  lemma DropP(x: int)
    ensures (x - P) % P == x % P
  {
  }

  /** Fold the fifth limb back in, and reduce. */
  method FoldOverflow(r5: seq<U64>) returns (l: U256)
    requires |r5| == 5 && r5[0] <= 190
    ensures Value(l) == Value(r5) % P
  {
    var overflow: U128 := r5[0];
    l := r5[1..];
    Radix4();
    assert Value(r5) == overflow * TWO256 + Value(l);
    FourLimbs(l);
    FoldHigh(Value(r5), overflow, Value(l));
    ghost var folded := Value(l) + 189 * overflow;
    if overflow > 0 {
      var extra: U128 := overflow * 189;
      var small: U256 := [0, 0, extra / TWO64, extra % TWO64];
      FourLimbs(small);
      var added, carry := AddRaw(l, small);
      l := added;
      FourLimbs(l);
      if carry {
        ToLimbsValue(P);
        var diff, borrow := SubRaw(l, ToLimbs(P));
        FourLimbs(diff);
        l := diff;
      }
    }
    assert Value(l) == folded || Value(l) == folded - P;
    DropP(folded);
    l := Reduce(l);
  }

  lemma ProductFits512(a: Digest, b: Digest)
    ensures 0 <= a * b < Radix(8)
  {
    RadixAdd(4, 4);
    Radix4();
    MulBounds(a, b, TWO256 - 1, TWO256 - 1);
  }

  /** For every pair of 32-byte values, reduced or not: the residue of a * b. */
  method Mul(a: Digest, b: Digest) returns (r: Digest)
    ensures r == (a * b) % P
  {
    ToLimbsValue(a);
    ToLimbsValue(b);
    ProductFits512(a, b);
    var columns := Columns(ToLimbs(a), ToLimbs(b));
    var prod := Carry(columns);
    var hi, lo := prod[..4], prod[4..];
    assert prod == hi + lo;
    ValueConcat(hi, lo);
    Radix4();
    var correction := Times189(hi);
    var r5 := AddFive(lo, correction);
    var l := FoldOverflow(r5);
    FoldHigh(a * b, Value(hi), Value(lo));
    r := FromLimbs(l);
  }
}
