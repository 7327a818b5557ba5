/** The deterministic AMM batch: orders sorted canonically, then swapped in turn. */
module Batcher {
  import opened Words
  import opened ModArith
  import opened Sorting
  import opened Ordering
  import Amm

  datatype OrderIntent = OrderIntent(
    orderTxId: Digest, poolId: Digest, direction: Amm.SwapDirection, offer: U64, minReceive: U64,
    feeDensity: U64, timestampMs: U64)
  {
    function Key(): OrderKey { NewKey(feeDensity, timestampMs, orderTxId) }
  }

  datatype PoolState = PoolState(poolId: Digest, reserveA: U64, reserveB: U64)

  datatype BatchResult = BatchResult(
    poolId: Digest, matched: seq<Digest>, newReserveA: U64, newReserveB: U64, totalFees: U64)

  /** The batcher's own quote, with a 0.3% fee taken on 64-bit products. */
  function SwapOutput(reserveIn: U64, reserveOut: U64, dx: U64): Option<(U64, U64)> {
    if reserveIn == 0 || reserveOut == 0 || dx == 0 || dx * 3 > U64_MAX then None
    else
      var fee := dx * 3 / 1000;
      Amm.QuoteBounds(reserveIn, reserveOut, dx - fee);
      Some((reserveOut * (dx - fee) / (reserveIn + (dx - fee)), fee))
  }

  /** It is the pool's 30-basis-point quote exactly while tripling the offer fits. */
  lemma SwapOutputIsAmmQuote(reserveIn: U64, reserveOut: U64, dx: U64)
    ensures SwapOutput(reserveIn, reserveOut, dx) == Amm.ComputeSwapOutput(reserveIn, reserveOut, dx, 30)
            <==> reserveIn == 0 || reserveOut == 0 || dx <= U64_MAX / 3
  {
    assert dx * 3 / 1000 == dx * 30 / 10_000;
  }

  /** The net input is dx * 997 / 1000 rounded up: the floor exactly when 3dx is a multiple of
      1000, and otherwise one more. */
  lemma NetInput(dx: U64)
    ensures var net := dx - dx * 3 / 1000;
            net == dx * 997 / 1000 + (if dx * 3 % 1000 == 0 then 0 else 1)
  {
  }

  // ----- executing one order -----

  datatype Batch = Batch(a: U64, b: U64, fees: U64, matched: seq<Digest>)

  function Quote(s: Batch, o: OrderIntent): Option<(U64, U64)> {
    if o.direction.AtoB? then SwapOutput(s.a, s.b, o.offer) else SwapOutput(s.b, s.a, o.offer)
  }

  /** An order is filled when it names this pool, can be quoted and meets its limit. */
  predicate Filled(poolId: Digest, s: Batch, o: OrderIntent) {
    o.poolId == poolId && Quote(s, o).Some? && Quote(s, o).value.0 >= o.minReceive
  }

  /** The reserve an order pays into and the one it is paid from. */
  function Into(s: Batch, o: OrderIntent): U64 { if o.direction.AtoB? then s.a else s.b }
  function From(s: Batch, o: OrderIntent): U64 { if o.direction.AtoB? then s.b else s.a }

  lemma QuotientAtLeast(x: nat, d: nat, q: int)
    requires d > 0
    ensures x / d >= q <==> q * d <= x
  {
    FloorBounds(x, d);
    if x / d >= q { MulMono(d, q, x / d); } else { MulMono(d, x / d + 1, q); }
  }

  /** An order is filled exactly when it names the pool, both reserves and the offer are
      nonzero, three times the offer fits 64 bits, and the limit is within its share of the
      reserve after the 0.3% fee. */
  lemma FilledExactly(poolId: Digest, s: Batch, o: OrderIntent)
    ensures var net := o.offer - o.offer * 3 / 1000;
            Filled(poolId, s, o)
            <==> && o.poolId == poolId && o.offer > 0 && Into(s, o) > 0 && From(s, o) > 0 && 3 * o.offer <= U64_MAX
                 && o.minReceive * (Into(s, o) + net) <= From(s, o) * net
  {
    var net := o.offer - o.offer * 3 / 1000;
    if Into(s, o) > 0 {
      MulMono(From(s, o), 0, net);
      QuotientAtLeast(From(s, o) * net, Into(s, o) + net, o.minReceive);
    }
  }

  function Execute(poolId: Digest, s: Batch, o: OrderIntent): Batch {
    if !Filled(poolId, s, o) then s
    else
      var (output, fee) := Quote(s, o).value;
      var (a, b) :=
        if o.direction.AtoB? then (SatAdd64(s.a, o.offer), SatSub64(s.b, output))
        else (SatSub64(s.a, output), SatAdd64(s.b, o.offer));
      Batch(a, b, SatAdd64(s.fees, fee), s.matched + [o.orderTxId])
  }

  function ExecuteAll(poolId: Digest, s: Batch, orders: seq<OrderIntent>): Batch {
    if orders == [] then s
    else Execute(poolId, ExecuteAll(poolId, s, orders[..|orders| - 1]), orders[|orders| - 1])
  }

  // ----- the canonical order of a batch -----

  function Keys(orders: seq<OrderIntent>): (keys: seq<OrderKey>)
    ensures |keys| == |orders|
  {
    seq(|orders|, i requires 0 <= i < |orders| => orders[i].Key())
  }

  /** The order an id maps to: the last one listed with it. */
  function Lookup(orders: seq<OrderIntent>, id: Digest): Option<OrderIntent> {
    if orders == [] then None
    else if orders[|orders| - 1].orderTxId == id then Some(orders[|orders| - 1])
    else Lookup(orders[..|orders| - 1], id)
  }

  /** The orders behind a list of keys; a key without an order is passed over. */
  function Resolve(orders: seq<OrderIntent>, keys: seq<OrderKey>): seq<OrderIntent> {
    if keys == [] then []
    else
      var front := Resolve(orders, keys[..|keys| - 1]);
      match Lookup(orders, keys[|keys| - 1].txId) case None => front case Some(o) => front + [o]
  }

  function Canonical(orders: seq<OrderIntent>): seq<OrderIntent> {
    Resolve(orders, Sort(Keys(orders), KeyLe))
  }

  function BatchOf(pool: PoolState, orders: seq<OrderIntent>): BatchResult {
    var s := ExecuteAll(pool.poolId, Batch(pool.reserveA, pool.reserveB, 0, []), Canonical(orders));
    BatchResult(pool.poolId, s.matched, s.a, s.b, s.fees)
  }

  /** It is the last order listed with the id. */
  lemma {:induction false} LookupIsLast(orders: seq<OrderIntent>, id: Digest)
    ensures Lookup(orders, id).None? <==> forall i :: 0 <= i < |orders| ==> orders[i].orderTxId != id
    ensures Lookup(orders, id).Some? ==>
              exists i :: 0 <= i < |orders| && orders[i].orderTxId == id && Lookup(orders, id) == Some(orders[i])
                          && forall j :: i < j < |orders| ==> orders[j].orderTxId != id
  {
    if orders != [] {
      var n := |orders| - 1;
      LookupIsLast(orders[..n], id);
      if orders[n].orderTxId != id && Lookup(orders, id).Some? {
        var i :| 0 <= i < n && orders[..n][i].orderTxId == id && Lookup(orders, id) == Some(orders[..n][i])
                 && forall j :: i < j < n ==> orders[..n][j].orderTxId != id;
        assert forall j :: i < j < n ==> orders[j].orderTxId == orders[..n][j].orderTxId;
        assert orders[i].orderTxId == id;
      }
      assert forall i :: 0 <= i < n ==> orders[i] == orders[..n][i];
    }
  }

  method BuildLookup(orders: seq<OrderIntent>) returns (orderMap: map<Digest, OrderIntent>)
    ensures forall id :: (id in orderMap <==> Lookup(orders, id).Some?)
                         && (id in orderMap ==> Lookup(orders, id) == Some(orderMap[id]))
  {
    orderMap := map[];
    for i := 0 to |orders|
      invariant forall id :: (id in orderMap <==> Lookup(orders[..i], id).Some?)
                             && (id in orderMap ==> Lookup(orders[..i], id) == Some(orderMap[id]))
    {
      assert orders[..i + 1][..i] == orders[..i];
      orderMap := orderMap[orders[i].orderTxId := orders[i]];
    }
    assert orders[..|orders|] == orders;
  }

  /** One order against the running reserves, as the loop body does it. */
  method ExecuteOrder(poolId: Digest, s: Batch, order: OrderIntent) returns (t: Batch)
    ensures t == Execute(poolId, s, order)
  {
    if order.poolId != poolId {
      return s;
    }
    var result := if order.direction.AtoB? then SwapOutput(s.a, s.b, order.offer) else SwapOutput(s.b, s.a, order.offer);
    if result.None? {
      return s;
    }
    var (output, fee) := result.value;
    if output < order.minReceive {
      return s;
    }
    if order.direction.AtoB? {
      t := s.(a := SatAdd64(s.a, order.offer), b := SatSub64(s.b, output));
    } else {
      t := s.(b := SatAdd64(s.b, order.offer), a := SatSub64(s.a, output));
    }
    t := t.(fees := SatAdd64(t.fees, fee), matched := t.matched + [order.orderTxId]);
  }

  lemma ExecuteNext(poolId: Digest, s: Batch, orders: seq<OrderIntent>, keys: seq<OrderKey>, i: nat)
    requires i < |keys|
    ensures var before := ExecuteAll(poolId, s, Resolve(orders, keys[..i]));
            ExecuteAll(poolId, s, Resolve(orders, keys[..i + 1]))
            == match Lookup(orders, keys[i].txId) case None => before case Some(o) => Execute(poolId, before, o)
  {
    assert keys[..i + 1][..i] == keys[..i];
    var front := Resolve(orders, keys[..i]);
    if Lookup(orders, keys[i].txId).Some? {
      assert (front + [Lookup(orders, keys[i].txId).value])[..|front|] == front;
    }
  }

  /** Run through the sorted keys, filling what can be filled. */
  method ExecuteKeys(poolId: Digest, start: Batch, orders: seq<OrderIntent>, keys: seq<OrderKey>) returns (s: Batch)
    ensures s == ExecuteAll(poolId, start, Resolve(orders, keys))
  {
    var orderMap := BuildLookup(orders);
    s := start;
    for i := 0 to |keys|
      invariant s == ExecuteAll(poolId, start, Resolve(orders, keys[..i]))
    {
      ExecuteNext(poolId, start, orders, keys, i);
      if keys[i].txId in orderMap {
        s := ExecuteOrder(poolId, s, orderMap[keys[i].txId]);
      }
    }
    assert keys[..|keys|] == keys;
  }

  method BuildAmmBatch(pool: PoolState, orders: seq<OrderIntent>) returns (r: BatchResult)
    ensures r == BatchOf(pool, orders)
  {
    var list := Keys(orders);
    var keys := new OrderKey[|list|](i requires 0 <= i < |list| => list[i]);
    assert keys[..] == list;
    DeterministicSort(keys);
    var s := ExecuteKeys(pool.poolId, Batch(pool.reserveA, pool.reserveB, 0, []), orders, keys[..]);
    r := BatchResult(pool.poolId, s.matched, s.a, s.b, s.fees);
  }

  // ----- arrival order is irrelevant -----

  ghost predicate DistinctIds(orders: seq<OrderIntent>) {
    forall i, j :: 0 <= i < j < |orders| ==> orders[i].orderTxId != orders[j].orderTxId
  }

  lemma {:induction false} LookupFindsOrder(orders: seq<OrderIntent>, id: Digest)
    requires DistinctIds(orders)
    ensures Lookup(orders, id).Some? <==> exists o :: o in orders && o.orderTxId == id
    ensures Lookup(orders, id).Some? ==> Lookup(orders, id).value in orders && Lookup(orders, id).value.orderTxId == id
  {
    if orders != [] {
      var n := |orders| - 1;
      LookupFindsOrder(orders[..n], id);
      assert forall o :: o in orders <==> o in orders[..n] || o == orders[n];
    }
  }

  lemma SameLookup(xs: seq<OrderIntent>, ys: seq<OrderIntent>, id: Digest)
    requires DistinctIds(xs) && DistinctIds(ys) && multiset(xs) == multiset(ys)
    ensures Lookup(xs, id) == Lookup(ys, id)
  {
    LookupFindsOrder(xs, id);
    LookupFindsOrder(ys, id);
    assert forall o :: o in xs <==> o in multiset(xs);
    assert forall o :: o in ys <==> o in multiset(ys);
    if Lookup(xs, id).Some? {
      var o, q := Lookup(xs, id).value, Lookup(ys, id).value;
      assert o in ys && q in ys && o.orderTxId == q.orderTxId;
    }
  }

  lemma TakeOut<T>(s: seq<T>, k: nat)
    requires k < |s|
    ensures multiset(s) == multiset(Without(s, k)) + multiset{s[k]}
  {
    assert s == s[..k] + [s[k]] + s[k + 1..];
  }

  function Without<T>(s: seq<T>, k: nat): seq<T>
    requires k < |s|
  {
    s[..k] + s[k + 1..]
  }

  lemma KeysTakeOut(orders: seq<OrderIntent>, k: nat)
    requires k < |orders|
    ensures multiset(Keys(orders)) == multiset(Keys(Without(orders, k))) + multiset{orders[k].Key()}
    ensures multiset(orders) == multiset(Without(orders, k)) + multiset{orders[k]}
  {
    TakeOut(orders, k);
    TakeOut(Keys(orders), k);
    assert Keys(Without(orders, k)) == Without(Keys(orders), k);
  }

  lemma CancelOne<T>(a: multiset<T>, b: multiset<T>, x: T)
    requires a + multiset{x} == b + multiset{x}
    ensures a == b
  {
    assert a == a + multiset{x} - multiset{x};
    assert b == b + multiset{x} - multiset{x};
  }

  lemma {:induction false} KeysPermute(xs: seq<OrderIntent>, ys: seq<OrderIntent>)
    requires multiset(xs) == multiset(ys)
    ensures multiset(Keys(xs)) == multiset(Keys(ys))
    decreases |xs|
  {
    if xs == [] {
      assert |ys| == |multiset(ys)| == 0;
    } else {
      assert xs[0] in multiset(ys);
      var k :| 0 <= k < |ys| && ys[k] == xs[0];
      KeysTakeOut(xs, 0);
      KeysTakeOut(ys, k);
      CancelOne(multiset(Without(xs, 0)), multiset(Without(ys, k)), xs[0]);
      KeysPermute(Without(xs, 0), Without(ys, k));
    }
  }

  lemma {:induction false} SameResolution(xs: seq<OrderIntent>, ys: seq<OrderIntent>, keys: seq<OrderKey>)
    requires forall id :: Lookup(xs, id) == Lookup(ys, id)
    ensures Resolve(xs, keys) == Resolve(ys, keys)
  {
    if keys != [] { SameResolution(xs, ys, keys[..|keys| - 1]); }
  }

  /** Any permutation of orders with distinct ids gives the same batch. */
  lemma BatchForgetsArrival(pool: PoolState, xs: seq<OrderIntent>, ys: seq<OrderIntent>)
    requires DistinctIds(xs) && DistinctIds(ys) && multiset(xs) == multiset(ys)
    ensures BatchOf(pool, xs) == BatchOf(pool, ys)
  {
    KeysPermute(xs, ys);
    SortForgetsArrival(Keys(xs), Keys(ys));
    forall id ensures Lookup(xs, id) == Lookup(ys, id) { SameLookup(xs, ys, id); }
    SameResolution(xs, ys, Sort(Keys(xs), KeyLe));
  }

  // ----- the canonical list is the orders, sorted -----

  lemma {:induction false} ResolveKeys(orders: seq<OrderIntent>, keys: seq<OrderKey>)
    requires DistinctIds(orders)
    requires forall k :: k in keys ==> exists o :: o in orders && o.Key() == k
    ensures Keys(Resolve(orders, keys)) == keys
    ensures forall o :: o in Resolve(orders, keys) ==> o in orders
  {
    if keys != [] {
      var n := |keys| - 1;
      assert forall k :: k in keys[..n] ==> k in keys;
      ResolveKeys(orders, keys[..n]);
      assert keys[n] in keys;
      var o :| o in orders && o.Key() == keys[n];
      LookupFindsOrder(orders, keys[n].txId);
      assert Lookup(orders, keys[n].txId).value == o;
    }
  }

  lemma SortedKeysHaveOrders(orders: seq<OrderIntent>)
    ensures forall k :: k in Sort(Keys(orders), KeyLe) ==> exists o :: o in orders && o.Key() == k
  {
    KeyOrder();
    SortSorts(Keys(orders), KeyLe);
    forall k | k in Sort(Keys(orders), KeyLe) ensures exists o :: o in orders && o.Key() == k {
      assert k in multiset(Sort(Keys(orders), KeyLe)) && k in multiset(Keys(orders));
      var i :| 0 <= i < |orders| && Keys(orders)[i] == k;
      assert orders[i] in orders && orders[i].Key() == k;
    }
  }

  lemma KeysAreDistinct(orders: seq<OrderIntent>)
    requires DistinctIds(orders)
    ensures !HasDuplicate(Keys(orders))
  {
    forall i, j | 0 <= i < j < |Keys(orders)| ensures Keys(orders)[i] != Keys(orders)[j] {
      assert orders[i].orderTxId != orders[j].orderTxId;
    }
  }

  /** The executed list is exactly the orders in canonical key order. */
  lemma CanonicalIsSortedOrders(orders: seq<OrderIntent>)
    requires DistinctIds(orders)
    ensures Keys(Canonical(orders)) == Sort(Keys(orders), KeyLe) && VerifyOrder(Keys(Canonical(orders)))
    ensures forall o :: o in Canonical(orders) <==> o in orders
  {
    var keys := Sort(Keys(orders), KeyLe);
    SortedKeysHaveOrders(orders);
    ResolveKeys(orders, keys);
    forall o | o in orders ensures o in Canonical(orders) {
      CanonicalHolds(orders, o);
    }
    KeysAreDistinct(orders);
    SortedHasNoDuplicate(Keys(orders));
    SortIdempotent(Keys(orders));
    VerifyOrderAcceptsCanonical(keys);
  }

  lemma SortedHasNoDuplicate(keys: seq<OrderKey>)
    requires !HasDuplicate(keys)
    ensures !HasDuplicate(Sort(keys, KeyLe))
  {
    KeyOrder();
    SortSorts(keys, KeyLe);
    if HasDuplicate(Sort(keys, KeyLe)) { DuplicateSurvivesPermutation(Sort(keys, KeyLe), keys); }
  }

  lemma SortIdempotent(keys: seq<OrderKey>)
    ensures Sort(Sort(keys, KeyLe), KeyLe) == Sort(keys, KeyLe)
  {
    KeyOrder();
    SortSorts(keys, KeyLe);
    SortForgetsArrival(Sort(keys, KeyLe), keys);
  }

  lemma SortHolds(keys: seq<OrderKey>, key: OrderKey) returns (j: nat)
    requires key in keys
    ensures j < |Sort(keys, KeyLe)| && Sort(keys, KeyLe)[j] == key
  {
    KeyOrder();
    SortSorts(keys, KeyLe);
    assert key in multiset(keys);
    j :| 0 <= j < |Sort(keys, KeyLe)| && Sort(keys, KeyLe)[j] == key;
  }

  lemma CanonicalHolds(orders: seq<OrderIntent>, o: OrderIntent)
    requires DistinctIds(orders) && o in orders
    requires Keys(Canonical(orders)) == Sort(Keys(orders), KeyLe)
    requires forall q :: q in Canonical(orders) ==> q in orders
    ensures o in Canonical(orders)
  {
    var i :| 0 <= i < |orders| && orders[i] == o;
    assert Keys(orders)[i] == o.Key();
    var j := SortHolds(Keys(orders), o.Key());
    var q := Canonical(orders)[j];
    assert Keys(Canonical(orders))[j] == q.Key();
    assert q in orders && q.orderTxId == o.orderTxId;
  }

  // ----- what a batch guarantees -----

  /** The pool's own swap, applied when the order is for this pool and its limit is met. */
  function AmmExecute(poolId: Digest, p: Amm.Pool, o: OrderIntent): Amm.Pool {
    var quote := if o.direction.AtoB? then Amm.ComputeSwapOutput(p.a, p.b, o.offer, 30)
                 else Amm.ComputeSwapOutput(p.b, p.a, o.offer, 30);
    if o.poolId == poolId && quote.Some? && quote.value.0 >= o.minReceive
    then Amm.SwapStep(p, o.direction, o.offer, 30) else p
  }

  function AmmExecuteAll(poolId: Digest, p: Amm.Pool, orders: seq<OrderIntent>): Amm.Pool {
    if orders == [] then p
    else AmmExecute(poolId, AmmExecuteAll(poolId, p, orders[..|orders| - 1]), orders[|orders| - 1])
  }

  function Offered(orders: seq<OrderIntent>): nat {
    if orders == [] then 0 else Offered(orders[..|orders| - 1]) + orders[|orders| - 1].offer
  }

  /** While nothing saturates, one execution is one swap of the pool. */
  lemma ExecuteIsAmmSwap(poolId: Digest, s: Batch, o: OrderIntent)
    requires o.offer <= U64_MAX / 3 && s.a + o.offer <= U64_MAX && s.b + o.offer <= U64_MAX
    ensures var t := Execute(poolId, s, o);
            Amm.Pool(t.a, t.b, 0) == AmmExecute(poolId, Amm.Pool(s.a, s.b, 0), o)
            && t.a <= s.a + o.offer && t.b <= s.b + o.offer
  {
    if o.direction.AtoB? {
      SwapOutputIsAmmQuote(s.a, s.b, o.offer);
      Amm.SwapQuote(s.a, s.b, o.offer, 30);
    } else {
      SwapOutputIsAmmQuote(s.b, s.a, o.offer);
      Amm.SwapQuote(s.b, s.a, o.offer, 30);
    }
  }

  /** While the executed offers are at most a third of the 64-bit range, the whole batch is
      the 30-basis-point swap folded over its orders. */
  lemma {:induction false} BatchIsAmmFold(poolId: Digest, s: Batch, orders: seq<OrderIntent>)
    requires s.a + Offered(orders) <= U64_MAX && s.b + Offered(orders) <= U64_MAX
    requires forall o :: o in orders ==> o.offer <= U64_MAX / 3
    ensures var t := ExecuteAll(poolId, s, orders);
            Amm.Pool(t.a, t.b, 0) == AmmExecuteAll(poolId, Amm.Pool(s.a, s.b, 0), orders)
  {
    if orders != [] {
      var n := |orders| - 1;
      BatchIsAmmFold(poolId, s, orders[..n]);
      BatchKeepsProduct(poolId, s, orders[..n]);
      ExecuteIsAmmSwap(poolId, ExecuteAll(poolId, s, orders[..n]), orders[n]);
    }
  }

  /** What no batch does as long as nothing saturates: lower the reserve product. An order
      too large to triple is never filled, so offers need no bound of their own. */
  ghost predicate Kept(s: Batch, t: Batch, offered: nat) {
    t.a * t.b >= s.a * s.b && t.a <= s.a + offered && t.b <= s.b + offered
  }

  lemma ExecuteKeepsProduct(poolId: Digest, s: Batch, o: OrderIntent)
    requires s.a + o.offer <= U64_MAX && s.b + o.offer <= U64_MAX
    ensures Kept(s, Execute(poolId, s, o), o.offer)
  {
    if Filled(poolId, s, o) {
      ExecuteIsAmmSwap(poolId, s, o);
      Amm.SwapKeeps(Amm.Pool(s.a, s.b, 0), o.direction, o.offer, 30);
    }
  }

  lemma {:induction false} BatchKeepsProduct(poolId: Digest, s: Batch, orders: seq<OrderIntent>)
    requires s.a + Offered(orders) <= U64_MAX && s.b + Offered(orders) <= U64_MAX
    ensures Kept(s, ExecuteAll(poolId, s, orders), Offered(orders))
  {
    if orders != [] {
      var n := |orders| - 1;
      BatchKeepsProduct(poolId, s, orders[..n]);
      ExecuteKeepsProduct(poolId, ExecuteAll(poolId, s, orders[..n]), orders[n]);
    }
  }

  lemma AtMostOnce<T>(s: seq<T>, x: T)
    requires !HasDuplicate(s)
    ensures multiset(s)[x] <= 1
  {
    if multiset(s)[x] >= 2 { var i, j := CountedTwice(s, x); }
  }

  /** The executed list is a permutation of the orders: none lost, none run twice. */
  lemma CanonicalPermutes(orders: seq<OrderIntent>)
    requires DistinctIds(orders)
    ensures multiset(Canonical(orders)) == multiset(orders)
  {
    var list := Canonical(orders);
    CanonicalIsSortedOrders(orders);
    forall i, j | 0 <= i < j < |list| ensures list[i] != list[j] {
      AscendingNeighbours(Keys(list), i, j);
    }
    forall o ensures multiset(list)[o] == multiset(orders)[o] {
      AtMostOnce(list, o);
      AtMostOnce(orders, o);
      assert o in list <==> o in multiset(list);
      assert o in orders <==> o in multiset(orders);
    }
  }

  lemma OfferedSnoc(front: seq<OrderIntent>, o: OrderIntent)
    ensures Offered(front + [o]) == Offered(front) + o.offer
  {
    assert (front + [o])[..|front|] == front;
  }

  lemma WithoutEarlier<T>(s: seq<T>, k: nat)
    requires k < |s| - 1
    ensures Without(s, k) == Without(s[..|s| - 1], k) + [s[|s| - 1]] && s[..|s| - 1][k] == s[k]
  {
  }

  lemma {:induction false} OfferedTakeOut(orders: seq<OrderIntent>, k: nat)
    requires k < |orders|
    ensures Offered(orders) == Offered(Without(orders, k)) + orders[k].offer
    decreases |orders|
  {
    var n := |orders| - 1;
    var front := orders[..n];
    if k < n {
      OfferedTakeOut(front, k);
      OfferedSnoc(Without(front, k), orders[n]);
      WithoutEarlier(orders, k);
    } else {
      assert Without(orders, k) == front;
    }
  }

  lemma {:induction false} OfferedPermutes(xs: seq<OrderIntent>, ys: seq<OrderIntent>)
    requires multiset(xs) == multiset(ys)
    ensures Offered(xs) == Offered(ys)
    decreases |xs|
  {
    assert |xs| == |multiset(xs)| == |multiset(ys)| == |ys|;
    if xs != [] {
      assert xs[0] in multiset(ys);
      var k :| 0 <= k < |ys| && ys[k] == xs[0];
      KeysTakeOut(xs, 0);
      KeysTakeOut(ys, k);
      CancelOne(multiset(Without(xs, 0)), multiset(Without(ys, k)), xs[0]);
      OfferedPermutes(Without(xs, 0), Without(ys, k));
      OfferedTakeOut(xs, 0);
      OfferedTakeOut(ys, k);
    }
  }

  /** While reserves plus offers fit 64 bits: the reserve product never falls, and with no offer
      past a third of the range the batch is the pool's own swap over the canonical order. */
  lemma BatchIsPoolSwaps(pool: PoolState, orders: seq<OrderIntent>)
    requires DistinctIds(orders)
    requires pool.reserveA + Offered(orders) <= U64_MAX && pool.reserveB + Offered(orders) <= U64_MAX
    ensures var r := BatchOf(pool, orders);
            && r.newReserveA * r.newReserveB >= pool.reserveA * pool.reserveB
            && ((forall o :: o in orders ==> o.offer <= U64_MAX / 3) ==>
                  Amm.Pool(r.newReserveA, r.newReserveB, 0)
                  == AmmExecuteAll(pool.poolId, Amm.Pool(pool.reserveA, pool.reserveB, 0), Canonical(orders)))
  {
    var start, list := Batch(pool.reserveA, pool.reserveB, 0, []), Canonical(orders);
    CanonicalPermutes(orders);
    OfferedPermutes(list, orders);
    CanonicalIsSortedOrders(orders);
    BatchKeepsProduct(pool.poolId, start, list);
    if forall o :: o in orders ==> o.offer <= U64_MAX / 3 {
      BatchIsAmmFold(pool.poolId, start, list);
    }
  }

  /** What filling an order does: its id is matched, it is paid its quote and at least its
      limit out of one reserve, its whole offer joins the other, and the fee is 0.3% of it. */
  ghost predicate FilledFrom(before: Batch, after: Batch, o: OrderIntent) {
    var (input, output, newInput, newOutput) :=
      if o.direction.AtoB? then (before.a, before.b, after.a, after.b) else (before.b, before.a, after.b, after.a);
    && after.matched == before.matched + [o.orderTxId]
    && Quote(before, o).Some?
    && output as int - newOutput == Quote(before, o).value.0 >= o.minReceive
    && newInput == Min(input + o.offer, U64_MAX)
    && var fee := Quote(before, o).value.1;
       after.fees == SatAdd64(before.fees, fee) && fee * 1000 <= o.offer * 3 < fee * 1000 + 1000
  }

  /** Every order of a batch is either filled on the reserves it meets or changes nothing. */
  lemma {:induction false} MatchedOrdersWereFilled(poolId: Digest, s: Batch, orders: seq<OrderIntent>, n: nat)
    requires n < |orders|
    ensures var before := ExecuteAll(poolId, s, orders[..n]);
            var after := ExecuteAll(poolId, s, orders[..n + 1]);
            if Filled(poolId, before, orders[n]) then FilledFrom(before, after, orders[n]) else after == before
  {
    assert orders[..n + 1][..n] == orders[..n];
    var before := ExecuteAll(poolId, s, orders[..n]);
    var o := orders[n];
    if Quote(before, o).Some? {
      var x, y := if o.direction.AtoB? then before.a else before.b, if o.direction.AtoB? then before.b else before.a;
      Amm.QuoteBounds(x, y, o.offer - o.offer * 3 / 1000);
    }
  }

  /** The i-th executed order is filled on the reserves it meets. */
  ghost predicate FilledAt(poolId: Digest, s: Batch, orders: seq<OrderIntent>, i: nat)
    requires i < |orders|
  {
    Filled(poolId, ExecuteAll(poolId, s, orders[..i]), orders[i])
  }

  ghost predicate Positions(poolId: Digest, s: Batch, orders: seq<OrderIntent>, at: seq<nat>) {
    && (forall j :: 0 <= j < |at| ==> at[j] < |orders|)
    && (forall j, k :: 0 <= j < k < |at| ==> at[j] < at[k])
    && (forall i :: 0 <= i < |orders| ==> (i in at <==> FilledAt(poolId, s, orders, i)))
  }

  function IdsAt(orders: seq<OrderIntent>, at: seq<nat>): seq<Digest>
    requires forall j :: 0 <= j < |at| ==> at[j] < |orders|
  {
    seq(|at|, j requires 0 <= j < |at| => orders[at[j]].orderTxId)
  }

  /** The 0.3% fees of the orders at the positions. */
  function FeesAt(orders: seq<OrderIntent>, at: seq<nat>): nat
    requires forall j :: 0 <= j < |at| ==> at[j] < |orders|
  {
    if at == [] then 0 else FeesAt(orders, at[..|at| - 1]) + orders[at[|at| - 1]].offer * 3 / 1000
  }

  lemma {:induction false} FeesOfFront(orders: seq<OrderIntent>, n: nat, at: seq<nat>)
    requires n <= |orders| && forall j :: 0 <= j < |at| ==> at[j] < n
    ensures FeesAt(orders, at) == FeesAt(orders[..n], at)
  {
    if at != [] { FeesOfFront(orders, n, at[..|at| - 1]); }
  }

  lemma ExecuteOne(poolId: Digest, s: Batch, o: OrderIntent)
    ensures var t := Execute(poolId, s, o);
            if Filled(poolId, s, o) then t.matched == s.matched + [o.orderTxId]
                                         && t.fees == Min(s.fees + o.offer * 3 / 1000, U64_MAX)
            else t == s
  {
  }

  lemma NextPosition(poolId: Digest, s: Batch, orders: seq<OrderIntent>, before: seq<nat>, n: nat) returns (at: seq<nat>)
    requires n + 1 == |orders| && Positions(poolId, s, orders[..n], before)
    ensures at == if FilledAt(poolId, s, orders, n) then before + [n] else before
    ensures Positions(poolId, s, orders, at)
  {
    at := if FilledAt(poolId, s, orders, n) then before + [n] else before;
    var front := orders[..n];
    forall i | 0 <= i < n ensures FilledAt(poolId, s, orders, i) == FilledAt(poolId, s, front, i) {
      assert orders[..i] == front[..i];
    }
    assert forall i :: i in before + [n] <==> i in before || i == n;
  }

  /** Between s and t the orders at the positions were matched and their fees taken. */
  ghost predicate Reports(s: Batch, t: Batch, orders: seq<OrderIntent>, at: seq<nat>) {
    && (forall j :: 0 <= j < |at| ==> at[j] < |orders|)
    && t.matched == s.matched + IdsAt(orders, at)
    && t.fees == Min(s.fees + FeesAt(orders, at), U64_MAX)
  }

  lemma ReportsMore(s: Batch, t: Batch, orders: seq<OrderIntent>, at: seq<nat>, n: nat)
    requires n <= |orders| && Reports(s, t, orders[..n], at)
    ensures Reports(s, t, orders, at)
  {
    FeesOfFront(orders, n, at);
    assert IdsAt(orders, at) == IdsAt(orders[..n], at);
  }

  lemma ReportsNext(s: Batch, t: Batch, u: Batch, orders: seq<OrderIntent>, at: seq<nat>, n: nat)
    requires n < |orders| && Reports(s, t, orders, at)
    requires u.matched == t.matched + [orders[n].orderTxId] && u.fees == Min(t.fees + orders[n].offer * 3 / 1000, U64_MAX)
    ensures Reports(s, u, orders, at + [n])
  {
    assert IdsAt(orders, at + [n]) == IdsAt(orders, at) + [orders[n].orderTxId];
    assert (at + [n])[..|at|] == at;
  }

  /** The matched list is the filled orders' ids, all of them, in execution order, and the
      fees are the sum of theirs, cut off at 64 bits. */
  lemma {:induction false} MatchedInOrder(poolId: Digest, s: Batch, orders: seq<OrderIntent>) returns (at: seq<nat>)
    ensures Positions(poolId, s, orders, at) && Reports(s, ExecuteAll(poolId, s, orders), orders, at)
  {
    if orders == [] {
      at := [];
    } else {
      var n := |orders| - 1;
      var before := MatchedInOrder(poolId, s, orders[..n]);
      var t := ExecuteAll(poolId, s, orders[..n]);
      at := NextPosition(poolId, s, orders, before, n);
      ReportsMore(s, t, orders, before, n);
      ExecuteOne(poolId, t, orders[n]);
      if FilledAt(poolId, s, orders, n) {
        ReportsNext(s, t, Execute(poolId, t, orders[n]), orders, before, n);
      }
    }
  }

  /** What a batch reports: its pool, the ids of exactly the orders filled from the pool's
      reserves, in canonical order, and the sum of their fees cut off at 64 bits. */
  lemma BatchReportsFilledOrders(pool: PoolState, orders: seq<OrderIntent>) returns (at: seq<nat>)
    requires DistinctIds(orders)
    ensures VerifyOrder(Keys(Canonical(orders))) && multiset(Canonical(orders)) == multiset(orders)
    ensures Positions(pool.poolId, Batch(pool.reserveA, pool.reserveB, 0, []), Canonical(orders), at)
    ensures var r := BatchOf(pool, orders);
            && r.poolId == pool.poolId
            && r.matched == IdsAt(Canonical(orders), at)
            && r.totalFees == Min(FeesAt(Canonical(orders), at), U64_MAX)
  {
    CanonicalIsSortedOrders(orders);
    CanonicalPermutes(orders);
    at := MatchedInOrder(pool.poolId, Batch(pool.reserveA, pool.reserveB, 0, []), Canonical(orders));
  }

  // ----- repeated ids -----

  lemma {:induction false} ResolveEach(orders: seq<OrderIntent>, keys: seq<OrderKey>)
    requires forall i :: 0 <= i < |keys| ==> Lookup(orders, keys[i].txId).Some?
    ensures |Resolve(orders, keys)| == |keys|
    ensures forall i :: 0 <= i < |keys| ==> Resolve(orders, keys)[i] == Lookup(orders, keys[i].txId).value
  {
    if keys != [] { ResolveEach(orders, keys[..|keys| - 1]); }
  }

  /** On every list, repeated ids included: one execution per listed order, each of the last
      order that has the id. So an id listed twice runs its last order twice. */
  lemma CanonicalRunsLastOrders(orders: seq<OrderIntent>)
    ensures |Canonical(orders)| == |orders| == |Sort(Keys(orders), KeyLe)|
    ensures forall i :: 0 <= i < |orders| ==>
              Lookup(orders, Sort(Keys(orders), KeyLe)[i].txId) == Some(Canonical(orders)[i])
  {
    var keys := Sort(Keys(orders), KeyLe);
    SortLength(Keys(orders), KeyLe);
    SortedKeysHaveOrders(orders);
    forall i | 0 <= i < |keys| ensures Lookup(orders, keys[i].txId).Some? {
      assert keys[i] in keys;
      var o :| o in orders && o.Key() == keys[i];
      LookupIsLast(orders, keys[i].txId);
    }
    ResolveEach(orders, keys);
  }
}
