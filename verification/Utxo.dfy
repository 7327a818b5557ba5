/** The in-memory UTXO set and the commitment to its contents. */
module Utxo {
  import opened Words
  import opened ModArith
  import opened Sorting
  import opened Merkle
  import opened Block

  /** An unspent output; its canonical encoding is a parameter below. */
  datatype TxOutput = TxOutput(value: U64, lockingScript: seq<U8>, datum: Option<seq<U8>>, stealthInfo: Option<seq<U8>>)

  type Utxos = map<OutPoint, TxOutput>

  datatype UtxoError = DuplicateOutPoint | NotFound

  // ----- byte encodings -----

  /** The n low bytes of v, most significant first. */
  function BigEndian(v: nat, n: nat): (b: seq<U8>)
    ensures |b| == n
  {
    if n == 0 then [] else BigEndian(v / 256, n - 1) + [v % 256]
  }

  function LittleEndian(v: nat, n: nat): (b: seq<U8>)
    ensures |b| == n
  {
    if n == 0 then [] else [v % 256] + LittleEndian(v / 256, n - 1)
  }

  lemma {:induction false} BigEndianInjective(v: nat, w: nat, n: nat)
    requires v < Pow(256, n) && w < Pow(256, n) && BigEndian(v, n) == BigEndian(w, n)
    ensures v == w
  {
    if n > 0 {
      assert BigEndian(v, n)[..n - 1] == BigEndian(v / 256, n - 1);
      assert BigEndian(w, n)[..n - 1] == BigEndian(w / 256, n - 1);
      assert BigEndian(v, n)[n - 1] == BigEndian(w, n)[n - 1];
      BigEndianInjective(v / 256, w / 256, n - 1);
    }
  }

  lemma {:induction false} LittleEndianInjective(v: nat, w: nat, n: nat)
    requires v < Pow(256, n) && w < Pow(256, n) && LittleEndian(v, n) == LittleEndian(w, n)
    ensures v == w
  {
    if n > 0 {
      assert LittleEndian(v, n)[1..] == LittleEndian(v / 256, n - 1);
      assert LittleEndian(w, n)[1..] == LittleEndian(w / 256, n - 1);
      assert LittleEndian(v, n)[0] == LittleEndian(w, n)[0];
      LittleEndianInjective(v / 256, w / 256, n - 1);
    }
  }

  lemma {:induction false} PowPositive(n: nat)
    ensures Pow(256, n) > 0
  {
    if n > 0 { PowPositive(n - 1); }
  }

  /** The digit of 256^k. */
  function ByteOf(v: nat, k: nat): nat {
    PowPositive(k);
    v / Pow(256, k) % 256
  }

  /** Byte j of each encoding, counted from its first byte. */
  lemma {:induction false} BigEndianByte(v: nat, n: nat, j: nat)
    requires j < n
    ensures BigEndian(v, n)[j] == ByteOf(v, n - 1 - j)
  {
    if j == n - 1 {
      assert Pow(256, 0) == 1 && v / 1 == v;
    } else {
      BigEndianByte(v / 256, n - 1, j);
      PowPositive(n - 2 - j);
      DivDiv(v, 256, Pow(256, n - 2 - j));
    }
  }

  lemma {:induction false} LittleEndianByte(v: nat, n: nat, j: nat)
    requires j < n
    ensures LittleEndian(v, n)[j] == ByteOf(v, j)
  {
    if j == 0 {
      assert Pow(256, 0) == 1 && v / 1 == v;
    } else {
      LittleEndianByte(v / 256, n - 1, j - 1);
      PowPositive(j - 1);
      DivDiv(v, 256, Pow(256, j - 1));
    }
  }

  /** tx_id followed by the index: always 36 bytes. */
  function CanonicalBytes(op: OutPoint): (b: seq<U8>)
    ensures |b| == 36
  {
    BigEndian(op.txId, 32) + LittleEndian(op.index, 4)
  }

  /** The first 32 bytes are the id from its highest byte down, the last four the index from
      its lowest byte up. */
  lemma CanonicalBytesLayout(op: OutPoint)
    ensures forall j :: 0 <= j < 32 ==> CanonicalBytes(op)[j] == ByteOf(op.txId, 31 - j)
    ensures forall j :: 0 <= j < 4 ==> CanonicalBytes(op)[32 + j] == ByteOf(op.index, j)
    ensures var b: seq<int> := CanonicalBytes(op); op.index == b[32] + 256 * b[33] + 65_536 * b[34] + 16_777_216 * b[35]
  {
    forall j | 0 <= j < 32 ensures CanonicalBytes(op)[j] == ByteOf(op.txId, 31 - j) {
      BigEndianByte(op.txId, 32, j);
    }
    forall j | 0 <= j < 4 ensures CanonicalBytes(op)[32 + j] == ByteOf(op.index, j) {
      LittleEndianByte(op.index, 4, j);
    }
    FourBytes(op.index);
  }

  lemma FourBytes(v: U32)
    ensures LittleEndian(v, 4) == [v % 256, v / 256 % 256, v / 65_536 % 256, v / 16_777_216 % 256]
    ensures v == v % 256 + 256 * (v / 256 % 256) + 65_536 * (v / 65_536 % 256) + 16_777_216 * (v / 16_777_216 % 256)
  {
    assert LittleEndian(v, 4) == [v % 256] + LittleEndian(v / 256, 3);
    assert LittleEndian(v / 256, 3) == [v / 256 % 256] + LittleEndian(v / 256 / 256, 2);
    assert v / 256 / 256 == v / 65_536;
    assert LittleEndian(v / 65_536, 2) == [v / 65_536 % 256] + LittleEndian(v / 65_536 / 256, 1);
    assert v / 65_536 / 256 == v / 16_777_216;
    assert LittleEndian(v / 16_777_216, 1) == [v / 16_777_216 % 256] + LittleEndian(v / 16_777_216 / 256, 0);
  }

  lemma CanonicalBytesInjective(a: OutPoint, b: OutPoint)
    requires CanonicalBytes(a) == CanonicalBytes(b)
    ensures a == b
  {
    Pow256Is();
    assert Pow(256, 4) == U32_MAX + 1;
    assert CanonicalBytes(a)[..32] == BigEndian(a.txId, 32) && CanonicalBytes(b)[..32] == BigEndian(b.txId, 32);
    assert CanonicalBytes(a)[32..] == LittleEndian(a.index, 4) && CanonicalBytes(b)[32..] == LittleEndian(b.index, 4);
    BigEndianInjective(a.txId, b.txId, 32);
    LittleEndianInjective(a.index, b.index, 4);
  }

  // ----- the set -----

  /** Outpoints in iteration order. */
  ghost function Ordered(s: set<OutPoint>): (keys: seq<OutPoint>)
    ensures forall k :: k in keys <==> k in s
  {
    OutPointOrder();
    InOrder(s, OutPointLe)
  }

  method First(s: set<OutPoint>) returns (op: OutPoint)
    requires s != {}
    ensures op in s && Ordered(s) == [op] + Ordered(s - {op})
  {
    OutPointOrder();
    LeastExists(s, OutPointLe);
    op :| IsLeast(op, s, OutPointLe);
    InOrderStep(s, op, OutPointLe);
  }

  ghost function Keys(m: Utxos): (keys: seq<OutPoint>)
    ensures forall k :: k in keys <==> k in m
  {
    assert forall k :: k in m.Keys <==> k in m;
    Ordered(m.Keys)
  }

  /** What is hashed for one entry. */
  function LeafPreimage(encode: TxOutput -> seq<U8>, op: OutPoint, out: TxOutput): seq<U8> {
    CanonicalBytes(op) + encode(out)
  }

  ghost function LeafIds(sha3: seq<U8> -> Digest, encode: TxOutput -> seq<U8>, m: Utxos): (ids: seq<Digest>)
    ensures |ids| == |Keys(m)|
  {
    var keys := Keys(m);
    seq<Digest>(|keys|, i requires 0 <= i < |keys| => sha3(LeafPreimage(encode, keys[i], m[keys[i]])))
  }

  ghost function CommitmentRoot(sha3: seq<U8> -> Digest, h: PairHash, encode: TxOutput -> seq<U8>, m: Utxos): Digest {
    MerkleRoot(h, LeafIds(sha3, encode, m))
  }

  /** The leaves are the hashes of every entry's 36 outpoint bytes and encoded output, by
      ascending transaction id and then index, each entry once. */
  lemma LeavesAscend(sha3: seq<U8> -> Digest, encode: TxOutput -> seq<U8>, m: Utxos)
    ensures |LeafIds(sha3, encode, m)| == |m|
    ensures forall op :: op in m <==> op in Keys(m)
    ensures forall i :: 0 <= i < |m| ==>
              Keys(m)[i] in m && LeafIds(sha3, encode, m)[i] == sha3(CanonicalBytes(Keys(m)[i]) + encode(m[Keys(m)[i]]))
    ensures forall i, j :: 0 <= i < j < |m| ==>
              Keys(m)[i].txId < Keys(m)[j].txId || (Keys(m)[i].txId == Keys(m)[j].txId && Keys(m)[i].index < Keys(m)[j].index)
  {
    var keys := Keys(m);
    OutPointOrder();
    InOrderIsSorted(m.Keys, OutPointLe);
    forall i | 0 <= i < |m|
      ensures keys[i] in m && LeafIds(sha3, encode, m)[i] == sha3(CanonicalBytes(keys[i]) + encode(m[keys[i]]))
    {
      assert keys[i] in keys;
      assert LeafIds(sha3, encode, m)[i] == sha3(LeafPreimage(encode, keys[i], m[keys[i]]));
    }
  }

  class InMemoryUtxoSet {
    var utxos: Utxos

    constructor ()
      ensures utxos == map[]
    {
      utxos := map[];
    }

    method Insert(op: OutPoint, out: TxOutput) returns (r: Result<(), UtxoError>)
      modifies this
      ensures r == if op in old(utxos) then Err(DuplicateOutPoint) else Ok(())
      ensures utxos == if op in old(utxos) then old(utxos) else old(utxos)[op := out]
    {
      if op in utxos {
        return Err(DuplicateOutPoint);
      }
      utxos := utxos[op := out];
      return Ok(());
    }

    method Remove(op: OutPoint) returns (r: Result<TxOutput, UtxoError>)
      modifies this
      ensures r == if op in old(utxos) then Ok(old(utxos)[op]) else Err(NotFound)
      ensures utxos == old(utxos) - {op}
    {
      if op !in utxos {
        return Err(NotFound);
      }
      r := Ok(utxos[op]);
      utxos := utxos - {op};
    }

    method Iter() returns (keys: seq<OutPoint>)
      ensures keys == Keys(utxos)
    {
      keys := [];
      var rest := utxos.Keys;
      while rest != {}
        invariant Keys(utxos) == keys + Ordered(rest)
        decreases rest
      {
        var op := First(rest);
        keys := keys + [op];
        rest := rest - {op};
      }
    }

    method Commitment(sha3: seq<U8> -> Digest, h: PairHash, encode: TxOutput -> seq<U8>) returns (root: Digest)
      ensures root == CommitmentRoot(sha3, h, encode, utxos)
    {
      var keys := Iter();
      var leaves: seq<Digest> := [];
      for i := 0 to |keys|
        invariant leaves == LeafIds(sha3, encode, utxos)[..i]
      {
        assert keys[i] in Keys(utxos);
        leaves := leaves + [sha3(LeafPreimage(encode, keys[i], utxos[keys[i]]))];
      }
      assert LeafIds(sha3, encode, utxos)[..|keys|] == LeafIds(sha3, encode, utxos);
      root := MerkleRootOf(h, leaves);
    }
  }

  // ----- what the commitment determines -----

  ghost function Preimages(encode: TxOutput -> seq<U8>, m: Utxos): set<seq<U8>> {
    set op | op in m :: LeafPreimage(encode, op, m[op])
  }

  ghost predicate CollisionFree(sha3: seq<U8> -> Digest, preimages: set<seq<U8>>) {
    forall a, b :: a in preimages && b in preimages && sha3(a) == sha3(b) ==> a == b
  }

  /** The encoding tells the outputs apart and no two leaf preimages collide. */
  ghost predicate LeavesSound(sha3: seq<U8> -> Digest, encode: TxOutput -> seq<U8>, m: Utxos, n: Utxos) {
    && (forall a, b :: a in m.Values + n.Values && b in m.Values + n.Values && encode(a) == encode(b) ==> a == b)
    && CollisionFree(sha3, Preimages(encode, m) + Preimages(encode, n))
  }

  /** The assumptions for comparing two sets: sound leaves, and sound tree hashes
      over the resulting leaf values. */
  ghost predicate SoundFor(sha3: seq<U8> -> Digest, h: PairHash, encode: TxOutput -> seq<U8>, m: Utxos, n: Utxos) {
    LeavesSound(sha3, encode, m, n) && Sound(h, LeafIds(sha3, encode, m), LeafIds(sha3, encode, n))
  }

  /** A leaf preimage determines the outpoint and the output. */
  lemma PreimageInjective(encode: TxOutput -> seq<U8>, a: OutPoint, x: TxOutput, b: OutPoint, y: TxOutput)
    requires LeafPreimage(encode, a, x) == LeafPreimage(encode, b, y)
    ensures a == b && encode(x) == encode(y)
  {
    assert LeafPreimage(encode, a, x)[..36] == CanonicalBytes(a) && LeafPreimage(encode, b, y)[..36] == CanonicalBytes(b);
    assert LeafPreimage(encode, a, x)[36..] == encode(x) && LeafPreimage(encode, b, y)[36..] == encode(y);
    CanonicalBytesInjective(a, b);
  }

  lemma EqualLeavesEqualEntries(sha3: seq<U8> -> Digest, encode: TxOutput -> seq<U8>,
                                m: Utxos, n: Utxos, a: OutPoint, b: OutPoint)
    requires LeavesSound(sha3, encode, m, n) && a in m && b in n
    requires sha3(LeafPreimage(encode, a, m[a])) == sha3(LeafPreimage(encode, b, n[b]))
    ensures a == b && m[a] == n[b]
  {
    assert LeafPreimage(encode, a, m[a]) in Preimages(encode, m);
    assert LeafPreimage(encode, b, n[b]) in Preimages(encode, n);
    PreimageInjective(encode, a, m[a], b, n[b]);
    assert m[a] in m.Values && n[b] in n.Values;
  }

  lemma LeavesAreDistinct(sha3: seq<U8> -> Digest, encode: TxOutput -> seq<U8>, m: Utxos, all: set<seq<U8>>)
    requires CollisionFree(sha3, all) && Preimages(encode, m) <= all
    ensures !HasDuplicate(LeafIds(sha3, encode, m))
  {
    var keys, ids := Keys(m), LeafIds(sha3, encode, m);
    OutPointOrder();
    InOrderIsSorted(m.Keys, OutPointLe);
    forall i, j | 0 <= i < j < |ids| ensures ids[i] != ids[j] {
      assert keys[i] in keys && keys[j] in keys && keys[i] != keys[j];
      var a, b := LeafPreimage(encode, keys[i], m[keys[i]]), LeafPreimage(encode, keys[j], m[keys[j]]);
      assert a in Preimages(encode, m) && b in Preimages(encode, m);
      if a == b {
        PreimageInjective(encode, keys[i], m[keys[i]], keys[j], m[keys[j]]);
      }
    }
  }

  /** Two sets have one commitment exactly when they hold the same outputs. */
  lemma CommitmentDeterminesSet(sha3: seq<U8> -> Digest, h: PairHash, encode: TxOutput -> seq<U8>, m: Utxos, n: Utxos)
    requires SoundFor(sha3, h, encode, m, n)
    ensures CommitmentRoot(sha3, h, encode, m) == CommitmentRoot(sha3, h, encode, n) <==> m == n
  {
    if CommitmentRoot(sha3, h, encode, m) == CommitmentRoot(sha3, h, encode, n) {
      LeavesAreDistinct(sha3, encode, m, Preimages(encode, m) + Preimages(encode, n));
      LeavesAreDistinct(sha3, encode, n, Preimages(encode, m) + Preimages(encode, n));
      RootDeterminesList(h, LeafIds(sha3, encode, m), LeafIds(sha3, encode, n));
      SameLeavesSameEntries(sha3, encode, m, n);
      SameEntriesSameMap(m, n);
    }
  }

  lemma SameLeafSameEntry(sha3: seq<U8> -> Digest, encode: TxOutput -> seq<U8>, m: Utxos, n: Utxos, i: nat)
    requires LeavesSound(sha3, encode, m, n) && i < |Keys(m)| && i < |Keys(n)|
    requires LeafIds(sha3, encode, m)[i] == LeafIds(sha3, encode, n)[i]
    ensures Keys(m)[i] == Keys(n)[i] && Keys(m)[i] in m && Keys(m)[i] in n && m[Keys(m)[i]] == n[Keys(m)[i]]
  {
    var a, b := Keys(m)[i], Keys(n)[i];
    assert a in Keys(m) && b in Keys(n);
    EqualLeavesEqualEntries(sha3, encode, m, n, a, b);
  }

  lemma SameLeavesSameEntries(sha3: seq<U8> -> Digest, encode: TxOutput -> seq<U8>, m: Utxos, n: Utxos)
    requires LeavesSound(sha3, encode, m, n) && LeafIds(sha3, encode, m) == LeafIds(sha3, encode, n)
    ensures Keys(m) == Keys(n)
    ensures forall i :: 0 <= i < |Keys(m)| ==> Keys(m)[i] in m && Keys(m)[i] in n && m[Keys(m)[i]] == n[Keys(m)[i]]
  {
    assert |Keys(m)| == |LeafIds(sha3, encode, m)| == |Keys(n)|;
    forall i | 0 <= i < |Keys(m)|
      ensures Keys(m)[i] == Keys(n)[i] && Keys(m)[i] in m && Keys(m)[i] in n && m[Keys(m)[i]] == n[Keys(m)[i]]
    {
      SameLeafSameEntry(sha3, encode, m, n, i);
    }
  }

  lemma SameEntriesSameMap(m: Utxos, n: Utxos)
    requires Keys(m) == Keys(n)
    requires forall i :: 0 <= i < |Keys(m)| ==> Keys(m)[i] in m && Keys(m)[i] in n && m[Keys(m)[i]] == n[Keys(m)[i]]
    ensures m == n
  {
    forall op | op in m ensures m[op] == n[op] {
      var i :| 0 <= i < |Keys(m)| && Keys(m)[i] == op;
    }
    assert m.Keys == n.Keys;
  }
}
