/** Big-endian limb sequences and the number each denotes. */
module Limbs {
  import opened Words
  import opened ModArith

  type U256 = l: seq<U64> | |l| == 4 witness [0, 0, 0, 0]

  function Radix(n: nat): (r: int)
    ensures r > 0
  {
    if n == 0 then 1 else TWO64 * Radix(n - 1)
  }

  function Value(l: seq<int>): int {
    if l == [] then 0 else l[0] * Radix(|l| - 1) + Value(l[1..])
  }

  lemma {:induction false} RadixAdd(m: nat, n: nat)
    ensures Radix(m + n) == Radix(m) * Radix(n)
  {
    if m > 0 {
      RadixAdd(m - 1, n);
      MulAssoc(TWO64, Radix(m - 1), Radix(n));
    }
  }

  lemma Radix4()
    ensures Radix(4) == TWO256
  {
    assert Radix(1) == TWO64;
    assert Radix(2) == TWO64 * TWO64;
    assert Radix(3) == TWO64 * TWO64 * TWO64;
  }

  lemma ValueTail(l: seq<int>, i: nat)
    requires i < |l|
    ensures Value(l[i..]) == l[i] * Radix(|l| - 1 - i) + Value(l[i + 1..])
  {
    assert l[i..][1..] == l[i + 1..];
  }

  /** Writing limb i changes the value from i on and nothing below it. */
  lemma SetLimb(l: seq<int>, i: nat, v: int)
    requires i < |l|
    ensures Value(l[i := v][i..]) == v * Radix(|l| - 1 - i) + Value(l[i + 1..])
  {
    ValueTail(l[i := v], i);
    assert l[i := v][i + 1..] == l[i + 1..];
  }

  lemma {:induction false} ValueBound(l: seq<U64>)
    ensures 0 <= Value(l) < Radix(|l|)
  {
    if l != [] {
      ValueBound(l[1..]);
      var w := Radix(|l| - 1);
      assert 0 <= l[0] * w <= (TWO64 - 1) * w;
    }
  }

  lemma {:induction false} ValueUpdate(l: seq<int>, k: nat, v: int)
    requires k < |l|
    ensures Value(l[k := v]) == Value(l) + (v - l[k]) * Radix(|l| - 1 - k)
  {
    var w := Radix(|l| - 1 - k);
    assert (v - l[k]) * w == v * w - l[k] * w;
    if k == 0 {
      assert l[0 := v][1..] == l[1..];
    } else {
      assert l[k := v][1..] == l[1..][k - 1 := v];
      ValueUpdate(l[1..], k - 1, v);
    }
  }

  lemma DistributeRight(x: int, w: int, t: int, v: int)
    ensures (x * w + t) * v == x * (w * v) + t * v
  {
    assert (x * w) * v == x * (w * v);
  }

  lemma {:induction false} ValueConcat(a: seq<int>, b: seq<int>)
    ensures Value(a + b) == Value(a) * Radix(|b|) + Value(b)
  {
    if a == [] {
      assert a + b == b;
    } else {
      assert (a + b)[1..] == a[1..] + b;
      ValueConcat(a[1..], b);
      RadixAdd(|a| - 1, |b|);
      DistributeRight(a[0], Radix(|a| - 1), Value(a[1..]), Radix(|b|));
    }
  }

  lemma {:induction false} ValueZeros(l: seq<int>)
    requires forall i :: 0 <= i < |l| ==> l[i] == 0
    ensures Value(l) == 0
  {
    if l != [] { ValueZeros(l[1..]); }
  }

  /** One column of a carry chain, at weight Radix(n). */
  lemma Column(x: int, y: int, c: int, low: int, high: int, n: nat)
    requires x + y + c == low + TWO64 * high
    ensures x * Radix(n) + y * Radix(n) + c * Radix(n) == low * Radix(n) + high * Radix(n + 1)
  {
    var w := Radix(n);
    assert x * w + y * w + c * w == (x + y + c) * w;
    assert (TWO64 * high) * w == high * (TWO64 * w);
    assert (low + TWO64 * high) * w == low * w + (TWO64 * high) * w;
  }

  /** One column of a borrow chain, at weight Radix(n). */
  lemma BorrowColumn(x: int, y: int, c: int, low: int, high: int, n: nat)
    requires x - y - c == low - TWO64 * high
    ensures x * Radix(n) - y * Radix(n) == low * Radix(n) - high * Radix(n + 1) + c * Radix(n)
  {
    Column(low, y, c, x, high, n);
  }

  lemma HigherLimbDecides(x: int, y: int, s: int, t: int, w: int)
    requires 0 <= s < w && 0 <= t < w
    ensures x > y ==> x * w + s > y * w + t
    ensures x < y ==> x * w + s < y * w + t
  {
    assert w * (x - y) == x * w - y * w;
    MultipleBound(w, x - y);
  }

  // ----- raw 256-bit operations -----

  /** The limbs of the 32-byte string that denotes `v`. */
  function ToLimbs(v: Digest): U256 {
    var b, c := v / TWO64, v / TWO64 / TWO64;
    [c / TWO64, c % TWO64, b % TWO64, v % TWO64]
  }

  lemma ToLimbsValue(v: Digest)
    ensures Value(ToLimbs(v)) == v
  {
    FourLimbs(ToLimbs(v));
  }

  lemma FourLimbs(l: U256)
    ensures Value(l) == l[0] * (TWO64 * TWO64 * TWO64) + l[1] * (TWO64 * TWO64) + l[2] * TWO64 + l[3]
    ensures 0 <= Value(l) < TWO256
  {
    assert l[0..] == l;
    ValueTail(l, 0);
    ValueTail(l, 1);
    ValueTail(l, 2);
    ValueTail(l, 3);
    assert Radix(0) == 1 && Radix(1) == TWO64 && Radix(2) == TWO64 * TWO64 && Radix(3) == TWO64 * TWO64 * TWO64;
  }

  /** The digest whose bytes are these limbs. */
  function FromLimbs(l: U256): (v: Digest)
    ensures v == Value(l)
  {
    FourLimbs(l);
    Value(l)
  }

  method Gte(a: U256, b: U256) returns (r: bool)
    ensures r <==> Value(a) >= Value(b)
  {
    for i := 0 to 4
      invariant Value(a) - Value(b) == Value(a[i..]) - Value(b[i..])
    {
      ValueTail(a, i);
      ValueTail(b, i);
      ValueBound(a[i + 1..]);
      ValueBound(b[i + 1..]);
      HigherLimbDecides(a[i], b[i], Value(a[i + 1..]), Value(b[i + 1..]), Radix(3 - i));
      if a[i] > b[i] {
        return true;
      }
      if a[i] < b[i] {
        return false;
      }
    }
    return true;
  }

  /** From limb i down, a + b is what has been written plus the carry. */
  ghost predicate Added(a: U256, b: U256, out: U256, carry: int, i: nat)
    requires i <= 4
  {
    Value(a[i..]) + Value(b[i..]) == Value(out[i..]) + carry * Radix(4 - i)
  }

  lemma AddStep(a: U256, b: U256, out: U256, carry: int, i: nat, digit: U64, next: int)
    requires i < 4 && Added(a, b, out, carry, i + 1) && a[i] + b[i] + carry == digit + TWO64 * next
    ensures Added(a, b, out[i := digit], next, i)
  {
    ValueTail(a, i);
    ValueTail(b, i);
    SetLimb(out, i, digit);
    Column(a[i], b[i], carry, digit, next, 3 - i);
  }

  method AddRaw(a: U256, b: U256) returns (out: U256, carryOut: bool)
    ensures Value(out) + (if carryOut then TWO256 else 0) == Value(a) + Value(b)
  {
    out := [0, 0, 0, 0];
    var carry: U64 := 0;
    for i := 4 downto 0
      invariant carry <= 1 && Added(a, b, out, carry, i)
    {
      var sum: U128 := a[i] + b[i] + carry;
      AddStep(a, b, out, carry, i, sum % TWO64, sum / TWO64);
      out := out[i := sum % TWO64];
      carry := sum / TWO64;
    }
    carryOut := carry != 0;
    assert a[0..] == a && b[0..] == b && out[0..] == out;
    Radix4();
  }

  /** From limb i down, a - b is what has been written minus the borrow. */
  ghost predicate Subtracted(a: U256, b: U256, out: U256, borrow: int, i: nat)
    requires i <= 4
  {
    Value(a[i..]) - Value(b[i..]) == Value(out[i..]) - borrow * Radix(4 - i)
  }

  lemma SubStep(a: U256, b: U256, out: U256, borrow: int, i: nat, digit: U64, next: int)
    requires i < 4 && Subtracted(a, b, out, borrow, i + 1) && a[i] as int - b[i] - borrow == digit - TWO64 * next
    ensures Subtracted(a, b, out[i := digit], next, i)
  {
    ValueTail(a, i);
    ValueTail(b, i);
    SetLimb(out, i, digit);
    BorrowColumn(a[i], b[i], borrow, digit, next, 3 - i);
  }

  method SubRaw(a: U256, b: U256) returns (out: U256, borrowOut: bool)
    ensures Value(out) == Value(a) - Value(b) + (if borrowOut then TWO256 else 0)
  {
    out := [0, 0, 0, 0];
    var borrow: int := 0;
    for i := 4 downto 0
      invariant 0 <= borrow <= 1 && Subtracted(a, b, out, borrow, i)
    {
      var diff := a[i] - b[i] - borrow;
      var digit: U64 := if diff < 0 then diff + TWO64 else diff;
      var next := if diff < 0 then 1 else 0;
      SubStep(a, b, out, borrow, i, digit, next);
      out := out[i := digit];
      borrow := next;
    }
    borrowOut := borrow != 0;
    assert a[0..] == a && b[0..] == b && out[0..] == out;
    Radix4();
  }
}
