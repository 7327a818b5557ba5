/** The canonical transaction order: fee density down, then time, then id. */
module Ordering {
  import opened Words
  import opened Sorting

  datatype OrderKey = OrderKey(negFeeDensity: U64, timestampMs: U64, txId: Digest)

  function NewKey(feeDensity: U64, timestampMs: U64, txId: Digest): OrderKey {
    OrderKey(U64_MAX - feeDensity, timestampMs, txId)
  }

  predicate KeyLe(a: OrderKey, b: OrderKey) {
    a.negFeeDensity < b.negFeeDensity
    || (a.negFeeDensity == b.negFeeDensity
        && (a.timestampMs < b.timestampMs || (a.timestampMs == b.timestampMs && a.txId <= b.txId)))
  }

  lemma KeyOrder()
    ensures TotalOrder(KeyLe)
  {
  }

  /** The order the policy asks for: better-paying first, then older, then lower id. */
  lemma KeyLeMeansPriority(d: U64, t: U64, x: Digest, e: U64, u: U64, y: Digest)
    ensures KeyLe(NewKey(d, t, x), NewKey(e, u, y)) <==> d > e || (d == e && (t < u || (t == u && x <= y)))
  {
  }

  method DeterministicSort(keys: array<OrderKey>)
    modifies keys
    ensures keys[..] == Sort(old(keys[..]), KeyLe)
  {
    ghost var was := keys[..];
    var sorted := Sort(keys[..], KeyLe);
    SortLength(was, KeyLe);
    for i := 0 to keys.Length
      invariant forall j :: 0 <= j < i ==> keys[j] == sorted[j]
    {
      keys[i] := sorted[i];
    }
  }

  lemma {:induction false} PlaceLength<T>(x: T, s: seq<T>, le: (T, T) -> bool)
    ensures |Place(x, s, le)| == |s| + 1
  {
    if s != [] && !le(x, s[0]) { PlaceLength(x, s[1..], le); }
  }

  lemma {:induction false} SortLength<T>(s: seq<T>, le: (T, T) -> bool)
    ensures |Sort(s, le)| == |s|
  {
    if s != [] {
      SortLength(s[1..], le);
      PlaceLength(s[0], Sort(s[1..], le), le);
    }
  }

  /** Neighbours strictly ascend. */
  predicate VerifyOrder(keys: seq<OrderKey>) {
    forall i :: 0 <= i < |keys| - 1 ==> KeyLe(keys[i], keys[i + 1]) && keys[i] != keys[i + 1]
  }

  lemma {:induction false} AscendingNeighbours(keys: seq<OrderKey>, i: nat, j: nat)
    requires VerifyOrder(keys) && i < j < |keys|
    ensures KeyLe(keys[i], keys[j]) && keys[i] != keys[j]
    decreases j
  {
    if i < j - 1 {
      AscendingNeighbours(keys, i, j - 1);
      assert KeyLe(keys[j - 1], keys[j - 1 + 1]) && keys[j - 1] != keys[j - 1 + 1];
    }
  }

  /** A verifier accepts exactly the duplicate-free outputs of the canonical sort. */
  lemma VerifyOrderAcceptsCanonical(keys: seq<OrderKey>)
    ensures VerifyOrder(keys) <==> keys == Sort(keys, KeyLe) && !HasDuplicate(keys)
  {
    KeyOrder();
    SortSorts(keys, KeyLe);
    if VerifyOrder(keys) {
      forall i, j | 0 <= i < j < |keys| ensures KeyLe(keys[i], keys[j]) && keys[i] != keys[j] {
        AscendingNeighbours(keys, i, j);
      }
      SortedUnique(keys, Sort(keys, KeyLe), KeyLe);
    }
  }

  /** Whatever order the keys arrive in, the sorted result is the same. */
  lemma SortForgetsArrival(xs: seq<OrderKey>, ys: seq<OrderKey>)
    requires multiset(xs) == multiset(ys)
    ensures Sort(xs, KeyLe) == Sort(ys, KeyLe)
  {
    KeyOrder();
    SortSorts(xs, KeyLe);
    SortSorts(ys, KeyLe);
    SortedUnique(Sort(xs, KeyLe), Sort(ys, KeyLe), KeyLe);
  }
}
