/** Square-and-multiply over the 256 exponent bits, and inversion. */
module FieldPow {
  import opened Words
  import opened ModArith
  import opened Field

  /** `v` shifted right by `t` bits, and by `k` bytes. */
  function ShiftBits(v: nat, t: nat): nat { if t == 0 then v else ShiftBits(v, t - 1) / 2 }
  function ShiftBytes(v: nat, k: nat): nat { if k == 0 then v else ShiftBytes(v, k - 1) / 256 }

  /** Byte `idx` of the big-endian 32-byte string that denotes `v`. */
  function ByteAt(v: Digest, idx: nat): U8
    requires idx < 32
  {
    ShiftBytes(v, 31 - idx) % 256
  }

  lemma EightBitsAreAByte(v: nat)
    ensures ShiftBits(v, 8) == v / 256
  {
    assert ShiftBits(v, 2) == ShiftBits(v, 1) / 2 == v / 4;
    assert ShiftBits(v, 4) == ShiftBits(v, 3) / 2 == v / 16;
    assert ShiftBits(v, 6) == ShiftBits(v, 5) / 2 == v / 64;
    assert ShiftBits(v, 8) == ShiftBits(v, 7) / 2;
  }

  lemma HalfOfSum(z: nat, x: nat)
    ensures (2 * z + x) / 2 == z + x / 2
  {
  }

  lemma {:induction false} ShiftSplits(q: nat, b: nat, t: nat, m: nat, c: nat)
    requires c == Pow2(t) * m
    ensures ShiftBits(c * q + b, t) == m * q + ShiftBits(b, t)
    decreases t
  {
    if t > 0 {
      MulAssoc(Pow2(t - 1), 2, m);
      ShiftSplits(q, b, t - 1, 2 * m, c);
      MulAssoc(2, m, q);
      HalfOfSum(m * q, ShiftBits(b, t - 1));
    }
  }

  lemma ParityOfSum(m: int, q: int, x: int)
    ensures (2 * m * q + x) % 2 == x % 2
  {
    var z := m * q;
    assert 2 * m * q == 2 * z;
  }

  /** Bit t of a byte is bit t of every number that ends in that byte. */
  lemma ByteBit(v: nat, t: nat)
    requires t < 8
    ensures ShiftBits(v % 256, t) % 2 == ShiftBits(v, t) % 2
  {
    var q, b, m := v / 256, v % 256, Pow2(7 - t);
    Pow2Add(t, 8 - t);
    assert Pow2(8) == 256 && Pow2(8 - t) == 2 * m;
    ShiftSplits(q, b, t, 2 * m, 256);
    ParityOfSum(m, q, ShiftBits(b, t));
  }

  lemma {:induction false} ShiftBytesBound(v: nat, k: nat, n: nat)
    requires k <= n && v < Pow(256, n)
    ensures ShiftBytes(v, k) < Pow(256, n - k)
    decreases k
  {
    if k > 0 {
      ShiftBytesBound(v, k - 1, n);
      assert Pow(256, n - k + 1) == 256 * Pow(256, n - k);
    }
  }

  lemma {:induction false} PowOfSquare(b: int, n: nat)
    ensures Pow(b * b, n) == Pow(b, 2 * n)
  {
    if n > 0 {
      PowOfSquare(b, n - 1);
      assert Pow(b, 2 * n) == b * (b * Pow(b, 2 * n - 2));
      var x := Pow(b, 2 * n - 2);
      assert b * (b * x) == (b * b) * x;
    }
  }

  /** Consuming one exponent bit keeps result * b^rest congruent to the target. */
  lemma PowStep(result: int, b: int, rest: nat, target: int)
    requires Cong(result * Pow(b, rest), target, P)
    ensures Cong((if rest % 2 == 1 then (result * b) % P else result) * Pow((b * b) % P, rest / 2), target, P)
  {
    var n := rest / 2;
    var odd := rest % 2 == 1;
    var power := Pow(b * b, n);
    PowOfSquare(b, n);
    assert result * Pow(b, rest) == (if odd then result * b else result) * power by {
      if odd { assert Pow(b, rest) == b * power && result * (b * power) == (result * b) * power; }
    }
    var r := if odd then result * b else result;
    CongMod(b * b, P);
    PowCong((b * b) % P, b * b, n, P);
    CongMod(r, P);
    CongRefl(r, P);
    CongMul(if odd then r % P else r, r, Pow((b * b) % P, n), power, P);
    CongTrans((if odd then r % P else r) * Pow((b * b) % P, n), r * power, target, P);
  }

  /** The residue of base^exp, for every pair of 32-byte values. */
  method PowMod(base: Digest, exp: Digest) returns (result: Digest)
    ensures result == Pow(base, exp) % P
  {
    result := 1;
    var b := base;
    ghost var target := Pow(base, exp);
    CongRefl(target, P);
    for byteIdx := 32 downto 0
      invariant 0 <= result < P
      invariant Cong(result * Pow(b, ShiftBytes(exp, 32 - byteIdx)), target, P)
    {
      var byte := ByteAt(exp, byteIdx);
      ghost var rest := ShiftBytes(exp, 31 - byteIdx);
      for bit := 0 to 8
        invariant 0 <= result < P
        invariant Cong(result * Pow(b, ShiftBits(rest, bit)), target, P)
      {
        ByteBit(rest, bit);
        PowStep(result, b, ShiftBits(rest, bit), target);
        if ShiftBits(byte, bit) % 2 == 1 {
          result := Mul(result, b);
        }
        b := Mul(b, b);
      }
      EightBitsAreAByte(rest);
    }
    Pow256Is();
    ShiftBytesBound(exp, 32, 32);
    assert Pow(256, 0) == 1;
    ResidueUnique(result, target, P);
  }

  /** a^(p - 2) mod p. */
  method Inv(a: Digest) returns (r: Digest)
    ensures r == Pow(a, P - 2) % P
  {
    r := PowMod(a, P - 2);
  }

  /** What `Inv` returns is the inverse whenever p is prime and a nonzero mod p. */
  lemma InverseIsInverse(a: nat)
    requires IsPrime(P) && a % P != 0
    ensures Cong(a * (Pow(a, P - 2) % P), 1, P)
  {
    var u := Pow(a, P - 2);
    FermatInverse(a, P);
    CongMod(u, P);
    CongRefl(a, P);
    CongMul(a, a, u % P, u, P);
    CongTrans(a * (u % P), a * u, 1, P);
  }
}
