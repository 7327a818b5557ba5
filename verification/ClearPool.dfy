/** The fee-sorted mempool: four indexes kept in agreement, and eviction. */
module ClearPool {
  import opened Words
  import opened ModArith
  import opened Sorting
  import opened MapSums
  import opened Ordering
  import opened Block

  /** A pooled transaction; sizes are machine words and `added` is in seconds. */
  datatype Entry = Entry(txId: Digest, inputs: seq<OutPoint>, fee: U64, size: U64, feeDensity: U64, added: U64)

  datatype Config = Config(maxTxCount: nat, maxPoolBytes: U64, minFee: U64, maxAgeSecs: U64)

  datatype MempoolError =
    | DuplicateTx(id: Digest) | FeeTooLow(fee: U64, min: U64)
    | DoubleSpend(outpoint: OutPoint, existing: Digest) | PoolFull

  type Pool = map<Digest, Entry>

  /** An entry as it is built for the pool, at the current time. */
  function NewEntry(txId: Digest, inputs: seq<OutPoint>, fee: U64, size: U64, now: U64): Entry {
    if size > 0 then QuotientAtMost(SatMul64(fee, 1000), size); Entry(txId, inputs, fee, size, SatMul64(fee, 1000) / size, now)
    else Entry(txId, inputs, fee, size, fee, now)
  }

  /** Its density is the fee per thousand bytes, rounded down, unless the fee has more than
      64 bits in thousandths; without a size it is the fee. */
  lemma NewEntryDensity(txId: Digest, inputs: seq<OutPoint>, fee: U64, size: U64, now: U64)
    ensures var e := NewEntry(txId, inputs, fee, size, now);
            && e == Entry(txId, inputs, fee, size, e.feeDensity, now)
            && (size == 0 ==> e.feeDensity == fee)
            && (size > 0 ==> e.feeDensity * size <= Min(1000 * fee, U64_MAX) < e.feeDensity * size + size)
  {
    if size > 0 { FloorBounds(SatMul64(fee, 1000), size); }
  }

  /** Fee density down, then age, then id: the same order as for blocks. */
  function KeyOf(e: Entry): OrderKey { NewKey(e.feeDensity, e.added, e.txId) }

  // ----- the indexes, each against the id map -----

  predicate IdHeld(m: Pool, id: Digest)
    requires id in m
  {
    m[id].txId == id
  }

  ghost predicate IdsAgree(m: Pool) { forall id {:trigger IdHeld(m, id)} :: id in m ==> IdHeld(m, id) }

  predicate KeyHeld(m: Pool, priority: map<OrderKey, Digest>, k: OrderKey)
    requires k in priority
  {
    priority[k] == k.txId && k.txId in m && KeyOf(m[k.txId]) == k
  }

  predicate HasKey(m: Pool, priority: map<OrderKey, Digest>, id: Digest)
    requires id in m
  {
    KeyOf(m[id]) in priority
  }

  ghost predicate PriorityAgrees(m: Pool, priority: map<OrderKey, Digest>) {
    && (forall k {:trigger KeyHeld(m, priority, k)} :: k in priority ==> KeyHeld(m, priority, k))
    && (forall id {:trigger HasKey(m, priority, id)} :: id in m ==> HasKey(m, priority, id))
  }

  predicate SpenderHeld(m: Pool, spent: map<OutPoint, Digest>, op: OutPoint)
    requires op in spent
  {
    spent[op] in m && op in m[spent[op]].inputs
  }

  predicate SpendRecorded(m: Pool, spent: map<OutPoint, Digest>, id: Digest, op: OutPoint)
    requires id in m
  {
    op in m[id].inputs ==> op in spent && spent[op] == id
  }

  ghost predicate SpentAgrees(m: Pool, spent: map<OutPoint, Digest>) {
    && (forall op {:trigger SpenderHeld(m, spent, op)} :: op in spent ==> SpenderHeld(m, spent, op))
    && (forall id, op {:trigger SpendRecorded(m, spent, id, op)} :: id in m ==> SpendRecorded(m, spent, id, op))
  }

  ghost function Sizes(m: Pool): map<Digest, int> { map id | id in m :: m[id].size }

  ghost function Bytes(m: Pool): nat {
    SumNonNegative(Sizes(m));
    SumValues(Sizes(m))
  }

  ghost predicate Coherent(m: Pool, priority: map<OrderKey, Digest>, spent: map<OutPoint, Digest>) {
    IdsAgree(m) && PriorityAgrees(m, priority) && SpentAgrees(m, spent)
  }

  lemma NoBytes()
    ensures Bytes(map[]) == 0
  {
    assert Sizes(map[]) == map[];
  }

  function Elements(ids: seq<Digest>): set<Digest> { set id | id in ids }

  lemma ElementsAppend(ids: seq<Digest>, id: Digest)
    ensures Elements(ids + [id]) == Elements(ids) + {id}
    ensures !HasDuplicate(ids) && id !in Elements(ids) ==> !HasDuplicate(ids + [id])
  {
    assert forall i :: 0 <= i < |ids| ==> ids[i] in ids && ids[i] in Elements(ids);
  }

  lemma ElementsSnoc(ids: seq<Digest>, i: nat)
    requires i < |ids|
    ensures Elements(ids[..i + 1]) == Elements(ids[..i]) + {ids[i]}
  {
    assert ids[..i + 1] == ids[..i] + [ids[i]];
  }

  lemma SeenStep(seen: set<Digest>, keys: set<Digest>, id: Digest)
    ensures (seen + {id}) * keys == if id in keys then seen * keys + {id} else seen * keys
    ensures id in seen && id in keys ==> seen * keys + {id} == seen * keys
  {
  }

  lemma RemoveNone(m: Pool)
    ensures m - {} == m
  {
  }

  lemma RemoveAnother(m: Pool, gone: set<Digest>, id: Digest)
    ensures m - gone - {id} == m - (gone + {id})
  {
  }

  lemma LeaveOut(m: Pool, ids: set<Digest>, rest: set<Digest>)
    ensures rest == ids ==> m - (ids - rest) == m
    ensures rest == {} ==> m - (ids - rest) == m - ids
  {
    if rest == ids { assert ids - rest == {}; }
    if rest == {} { assert ids - rest == ids; }
  }

  lemma TakeOneMore(m: Pool, ids: set<Digest>, rest: set<Digest>, id: Digest)
    requires id in rest && rest <= ids
    ensures m - (ids - rest) - {id} == m - (ids - (rest - {id}))
  {
  }

  predicate SpendsOneOf(e: Entry, spent: seq<OutPoint>) {
    exists i :: 0 <= i < |spent| && spent[i] in e.inputs
  }

  /** The ids that are among the keys, each where it first occurs. */
  function Present(ids: seq<Digest>, keys: set<Digest>): seq<Digest> {
    if ids == [] then []
    else
      var front, id := Present(ids[..|ids| - 1], keys), ids[|ids| - 1];
      if id in keys && id !in front then front + [id] else front
  }

  lemma PresentStep(ids: seq<Digest>, i: nat, keys: set<Digest>)
    requires i < |ids|
    ensures var front := Present(ids[..i], keys);
            Present(ids[..i + 1], keys) == if ids[i] in keys && ids[i] !in front then front + [ids[i]] else front
  {
    assert ids[..i + 1][..i] == ids[..i];
  }

  /** The recorded spenders of these outpoints, in their order. */
  function Spenders(recorded: map<OutPoint, Digest>, spent: seq<OutPoint>): seq<Digest> {
    if spent == [] then []
    else
      var front, op := Spenders(recorded, spent[..|spent| - 1]), spent[|spent| - 1];
      if op in recorded then front + [recorded[op]] else front
  }

  /** The positions are where each listed id first occurs, in order. */
  ghost predicate FirstAt(ids: seq<Digest>, out: seq<Digest>, at: seq<nat>) {
    && |at| == |out|
    && (forall j :: 0 <= j < |at| ==> at[j] < |ids| && ids[at[j]] == out[j])
    && (forall j, i :: 0 <= j < |at| && 0 <= i < at[j] ==> ids[i] != out[j])
    && (forall j, k :: 0 <= j < k < |at| ==> at[j] < at[k])
  }

  lemma FirstAtMore(ids: seq<Digest>, n: nat, out: seq<Digest>, at: seq<nat>)
    requires n < |ids| && FirstAt(ids[..n], out, at)
    ensures FirstAt(ids, out, at)
    ensures (forall i :: 0 <= i < n ==> ids[i] != ids[n]) ==> FirstAt(ids, out + [ids[n]], at + [n])
  {
    forall j, i | 0 <= j < |at| && 0 <= i < at[j] ensures ids[i] != out[j] {
      assert ids[..n][i] != out[j];
    }
  }

  /** The ids reported are those among the keys, each once, in the order of first occurrence. */
  lemma {:induction false} PresentInOrder(ids: seq<Digest>, keys: set<Digest>) returns (at: seq<nat>)
    ensures forall id :: id in Present(ids, keys) <==> id in ids && id in keys
    ensures FirstAt(ids, Present(ids, keys), at)
  {
    if ids == [] {
      at := [];
    } else {
      var n := |ids| - 1;
      var id := ids[n];
      at := PresentInOrder(ids[..n], keys);
      FirstAtMore(ids, n, Present(ids[..n], keys), at);
      assert forall x :: x in ids <==> x in ids[..n] || x == id;
      if id in keys && id !in Present(ids[..n], keys) {
        forall i | 0 <= i < n ensures ids[i] != id { assert ids[..n][i] in ids[..n]; }
        at := at + [n];
      }
    }
  }

  /** Which of the outpoints are recorded, and by whom: one spender for each, in order. */
  ghost predicate SpentAt(recorded: map<OutPoint, Digest>, spent: seq<OutPoint>, at: seq<nat>, out: seq<Digest>) {
    && |at| == |out|
    && (forall j :: 0 <= j < |at| ==> at[j] < |spent| && spent[at[j]] in recorded && out[j] == recorded[spent[at[j]]])
    && (forall j, k :: 0 <= j < k < |at| ==> at[j] < at[k])
    && forall i :: 0 <= i < |spent| ==> (spent[i] in recorded <==> i in at)
  }

  lemma SpentAtMore(recorded: map<OutPoint, Digest>, spent: seq<OutPoint>, op: OutPoint, at: seq<nat>, out: seq<Digest>)
    requires SpentAt(recorded, spent, at, out)
    ensures op !in recorded ==> SpentAt(recorded, spent + [op], at, out)
    ensures op in recorded ==> SpentAt(recorded, spent + [op], at + [|spent|], out + [recorded[op]])
  {
    assert |spent| !in at;
    assert forall i :: i in at + [|spent|] <==> i in at || i == |spent|;
  }

  lemma {:induction false} SpendersInOrder(recorded: map<OutPoint, Digest>, spent: seq<OutPoint>) returns (at: seq<nat>)
    ensures SpentAt(recorded, spent, at, Spenders(recorded, spent))
  {
    if spent == [] {
      at := [];
    } else {
      var n := |spent| - 1;
      at := SpendersInOrder(recorded, spent[..n]);
      SpentAtMore(recorded, spent[..n], spent[n], at, Spenders(recorded, spent[..n]));
      assert spent[..n] + [spent[n]] == spent;
      if spent[n] in recorded { at := at + [n]; }
    }
  }

  lemma RemovedCount(m: Pool, gone: set<Digest>)
    requires gone <= m.Keys
    ensures |m - gone| == |m| - |gone|
  {
    assert m.Keys == (m - gone).Keys + gone;
  }

  function Inputs(e: Entry): set<OutPoint> { set op | op in e.inputs }

  lemma BytesWithout(m: Pool, id: Digest)
    requires id in m
    ensures Bytes(m) == Bytes(m - {id}) + m[id].size
  {
    SumWithout(Sizes(m), id);
    assert Sizes(m) - {id} == Sizes(m - {id});
  }

  lemma BytesWith(m: Pool, id: Digest, e: Entry)
    requires id !in m
    ensures Bytes(m[id := e]) == Bytes(m) + e.size
  {
    BytesWithout(m[id := e], id);
    assert m[id := e] - {id} == m;
  }

  lemma RemovalKeepsPriority(m: Pool, priority: map<OrderKey, Digest>, id: Digest)
    requires IdsAgree(m) && PriorityAgrees(m, priority) && id in m
    ensures PriorityAgrees(m - {id}, priority - {KeyOf(m[id])})
  {
    var n, rest := m - {id}, priority - {KeyOf(m[id])};
    assert IdHeld(m, id);
    forall k | k in rest ensures KeyHeld(n, rest, k) { assert KeyHeld(m, priority, k); }
    forall i | i in n ensures HasKey(n, rest, i) { assert HasKey(m, priority, i) && IdHeld(m, i); }
  }

  lemma RemovalKeepsSpent(m: Pool, spent: map<OutPoint, Digest>, id: Digest)
    requires SpentAgrees(m, spent) && id in m
    ensures SpentAgrees(m - {id}, spent - Inputs(m[id]))
  {
    var n, rest := m - {id}, spent - Inputs(m[id]);
    forall op | op in rest ensures SpenderHeld(n, rest, op) { assert SpenderHeld(m, spent, op); }
    forall i, op | i in n ensures SpendRecorded(n, rest, i, op) {
      assert SpendRecorded(m, spent, i, op) && SpendRecorded(m, spent, id, op);
    }
  }

  lemma RemovalKeepsCoherence(m: Pool, priority: map<OrderKey, Digest>, spent: map<OutPoint, Digest>, id: Digest)
    requires Coherent(m, priority, spent) && id in m
    ensures Coherent(m - {id}, priority - {KeyOf(m[id])}, spent - Inputs(m[id]))
  {
    RemovalKeepsPriority(m, priority, id);
    RemovalKeepsSpent(m, spent, id);
    forall i | i in m - {id} ensures IdHeld(m - {id}, i) { assert IdHeld(m, i); }
  }

  lemma InsertionKeepsPriority(m: Pool, priority: map<OrderKey, Digest>, e: Entry)
    requires IdsAgree(m) && PriorityAgrees(m, priority) && e.txId !in m
    ensures PriorityAgrees(m[e.txId := e], priority[KeyOf(e) := e.txId])
  {
    var n, all := m[e.txId := e], priority[KeyOf(e) := e.txId];
    forall k | k in all ensures KeyHeld(n, all, k) {
      if k != KeyOf(e) { assert KeyHeld(m, priority, k); }
    }
    forall i | i in n ensures HasKey(n, all, i) {
      if i != e.txId { assert HasKey(m, priority, i); }
    }
  }

  /** Every input of `e` now spent by it, all else as before. */
  ghost predicate SpentBy(old_: map<OutPoint, Digest>, e: Entry, n: nat, spent: map<OutPoint, Digest>)
    requires n <= |e.inputs|
  {
    && (forall op :: op in spent <==> op in old_ || op in e.inputs[..n])
    && (forall op :: op in spent ==> spent[op] == if op in e.inputs[..n] then e.txId else if op in old_ then old_[op] else 0)
  }

  lemma InsertionKeepsSpent(m: Pool, spent: map<OutPoint, Digest>, e: Entry, after: map<OutPoint, Digest>)
    requires SpentAgrees(m, spent) && e.txId !in m && SpentBy(spent, e, |e.inputs|, after)
    requires forall op :: op in e.inputs ==> op !in spent
    ensures SpentAgrees(m[e.txId := e], after)
  {
    assert e.inputs[..|e.inputs|] == e.inputs;
    var n := m[e.txId := e];
    forall op | op in after ensures SpenderHeld(n, after, op) {
      if op !in e.inputs { assert SpenderHeld(m, spent, op); }
    }
    forall i, op | i in n ensures SpendRecorded(n, after, i, op) {
      if i != e.txId { assert SpendRecorded(m, spent, i, op); }
    }
  }

  /** No outpoint is spent by two pooled transactions. */
  lemma NoDoubleSpend(m: Pool, priority: map<OrderKey, Digest>, spent: map<OutPoint, Digest>,
                      a: Digest, b: Digest, op: OutPoint)
    requires Coherent(m, priority, spent) && a in m && b in m
    requires op in m[a].inputs && op in m[b].inputs
    ensures a == b
  {
    assert SpendRecorded(m, spent, a, op) && SpendRecorded(m, spent, b, op);
  }

  // ----- what eviction keeps -----

  ghost predicate SubPool(k: Pool, u: Pool) { k.Keys <= u.Keys && forall id :: id in k ==> k[id] == u[id] }

  /** Everything kept ranks before everything dropped. */
  ghost predicate KeepsTop(u: Pool, k: Pool) {
    SubPool(k, u) && forall a, b :: a in k && b in u && b !in k ==> KeyLe(KeyOf(u[a]), KeyOf(u[b]))
  }

  /** There is room for a transaction of this size beside these. */
  ghost predicate Fits(c: Config, k: Pool, size: U64) {
    |k| < c.maxTxCount && Bytes(k) + size <= c.maxPoolBytes
  }

  /** The kept part is the largest top part with room: taking back the best one
      dropped, it would no longer have any. */
  ghost predicate KeepsMost(c: Config, u: Pool, k: Pool, size: U64) {
    && KeepsTop(u, k) && Fits(c, k, size)
    && forall b :: b in u && b !in k && BestDropped(u, k, b) ==> !Fits(c, k[b := u[b]], size)
  }

  ghost predicate BestDropped(u: Pool, k: Pool, b: Digest)
    requires b in u
  {
    b !in k && forall d :: d in u && d !in k ==> KeyLe(KeyOf(u[b]), KeyOf(u[d]))
  }

  function Unexpired(c: Config, m: Pool, now: U64): Pool {
    map id | id in m && m[id].added >= SatSub64(now, c.maxAgeSecs) :: m[id]
  }

  /** A transaction stays exactly while it has not been in the pool longer than the age limit. */
  lemma UnexpiredExactly(c: Config, m: Pool, now: U64, id: Digest)
    ensures id in Unexpired(c, m, now) <==> id in m && now <= m[id].added + c.maxAgeSecs
    ensures id in Unexpired(c, m, now) ==> Unexpired(c, m, now)[id] == m[id]
  {
  }

  /** The ranking: more fee per byte first, then longer in the pool, then the lower id. */
  lemma RankingMeans(a: Entry, b: Entry)
    ensures KeyLe(KeyOf(a), KeyOf(b))
            <==> a.feeDensity > b.feeDensity
                 || (a.feeDensity == b.feeDensity && (a.added < b.added || (a.added == b.added && a.txId <= b.txId)))
  {
    KeyLeMeansPriority(a.feeDensity, a.added, a.txId, b.feeDensity, b.added, b.txId);
  }

  /** Room for a transaction means that with it both caps still hold. */
  lemma FitsWithinCaps(c: Config, k: Pool, e: Entry)
    requires e.txId !in k
    ensures Fits(c, k, e.size) <==> |k[e.txId := e]| <= c.maxTxCount && Bytes(k[e.txId := e]) <= c.maxPoolBytes
  {
    BytesWith(k, e.txId, e);
    assert k[e.txId := e].Keys == k.Keys + {e.txId};
  }

  lemma KeepUnexpired(c: Config, m: Pool, now: U64, expired: set<Digest>)
    requires expired == set id | id in m && m[id].added < SatSub64(now, c.maxAgeSecs)
    ensures m - expired == Unexpired(c, m, now) && expired <= m.Keys
  {
  }

  lemma {:induction false} SmallerIsLighter(k: Pool, l: Pool)
    requires SubPool(k, l)
    ensures |k| <= |l| && Bytes(k) <= Bytes(l)
    decreases |l|
  {
    if k.Keys == l.Keys {
      assert k == l;
    } else {
      assert !(l.Keys <= k.Keys);
      var id :| id in l.Keys && id !in k.Keys;
      BytesWithout(l, id);
      SmallerIsLighter(k, l - {id});
    }
  }

  /** Keys tell pooled transactions apart. */
  lemma KeyDeterminesId(u: Pool, a: Digest, b: Digest)
    requires IdsAgree(u) && a in u && b in u
    ensures KeyLe(KeyOf(u[a]), KeyOf(u[b])) || KeyLe(KeyOf(u[b]), KeyOf(u[a]))
    ensures KeyLe(KeyOf(u[a]), KeyOf(u[b])) && KeyLe(KeyOf(u[b]), KeyOf(u[a])) ==> a == b
  {
    assert IdHeld(u, a) && IdHeld(u, b);
  }

  lemma BestDroppedExists(u: Pool, k: Pool) returns (b: Digest)
    requires IdsAgree(u) && SubPool(k, u) && k.Keys != u.Keys
    ensures b in u && BestDropped(u, k, b)
  {
    KeyOrder();
    var keys := set id | id in u.Keys - k.Keys :: KeyOf(u[id]);
    assert !(u.Keys <= k.Keys);
    var some :| some in u.Keys && some !in k.Keys;
    assert KeyOf(u[some]) in keys;
    LeastExists(keys, KeyLe);
    var least :| IsLeast(least, keys, KeyLe);
    b :| b in u.Keys - k.Keys && KeyOf(u[b]) == least;
    forall d | d in u && d !in k ensures KeyLe(KeyOf(u[b]), KeyOf(u[d])) {
      assert KeyOf(u[d]) in keys;
    }
  }

  /** Of two top parts, one that holds something the other drops holds all of it. */
  lemma TopPartsNest(u: Pool, k: Pool, l: Pool, a: Digest)
    requires IdsAgree(u) && KeepsTop(u, k) && KeepsTop(u, l) && a in k && a !in l
    ensures l.Keys <= k.Keys
    ensures forall b :: b in u && BestDropped(u, l, b) ==> b in k
  {
    forall d | d in l ensures d in k { KeyDeterminesId(u, a, d); }
    forall b | b in u && BestDropped(u, l, b) ensures b in k { KeyDeterminesId(u, a, b); }
  }

  /** If k keeps something l drops, then l could have kept one more. */
  lemma NothingMore(c: Config, u: Pool, k: Pool, l: Pool, size: U64)
    requires IdsAgree(u) && KeepsTop(u, k) && Fits(c, k, size) && KeepsTop(u, l)
    requires !(k.Keys <= l.Keys)
    ensures !KeepsMost(c, u, l, size)
  {
    var a :| a in k.Keys && a !in l.Keys;
    TopPartsNest(u, k, l, a);
    var b := BestDroppedExists(u, l);
    SmallerIsLighter(l[b := u[b]], k);
  }

  /** What is kept is determined: no two different parts both keep most. */
  lemma KeptIsUnique(c: Config, u: Pool, k: Pool, l: Pool, size: U64)
    requires IdsAgree(u) && KeepsMost(c, u, k, size) && KeepsMost(c, u, l, size)
    ensures k == l
  {
    if !(k.Keys <= l.Keys) { NothingMore(c, u, k, l, size); }
    if !(l.Keys <= k.Keys) { NothingMore(c, u, l, k, size); }
    assert k.Keys == l.Keys;
  }

  ghost predicate IsWorst(m: Pool, w: Digest) {
    w in m && forall id :: id in m ==> KeyLe(KeyOf(m[id]), KeyOf(m[w]))
  }

  /** With any one of the best dropped back in, there is no room. */
  ghost predicate OneMoreIsTooMany(c: Config, u: Pool, k: Pool, size: U64) {
    forall b :: b in u && BestDropped(u, k, b) ==> !Fits(c, k[b := u[b]], size)
  }

  lemma DropWorst(u: Pool, k: Pool, w: Digest)
    requires KeepsTop(u, k) && IsWorst(k, w)
    ensures KeepsTop(u, k - {w})
  {
  }

  lemma EvictStep(c: Config, u: Pool, k: Pool, w: Digest, size: U64)
    requires IdsAgree(u) && KeepsTop(u, k) && !Fits(c, k, size) && IsWorst(k, w)
    ensures KeepsTop(u, k - {w}) && OneMoreIsTooMany(c, u, k - {w}, size)
  {
    var l := k - {w};
    DropWorst(u, k, w);
    forall b | b in u && BestDropped(u, l, b) ensures !Fits(c, l[b := u[b]], size) {
      KeyDeterminesId(u, b, w);
      assert b == w && l[w := u[w]] == k;
    }
  }

  predicate KeyGe(a: OrderKey, b: OrderKey) { KeyLe(b, a) }

  method LastKey(priority: map<OrderKey, Digest>) returns (key: OrderKey)
    requires priority.Keys != {}
    ensures IsLeast(key, priority.Keys, KeyGe)
  {
    KeyOrder();
    LeastExists(priority.Keys, KeyGe);
    key :| IsLeast(key, priority.Keys, KeyGe);
  }

  lemma LastKeyIsWorst(m: Pool, priority: map<OrderKey, Digest>, key: OrderKey)
    requires PriorityAgrees(m, priority) && IsLeast(key, priority.Keys, KeyGe)
    ensures IsWorst(m, key.txId)
  {
    assert KeyHeld(m, priority, key);
    forall id | id in m ensures KeyLe(KeyOf(m[id]), key) { assert HasKey(m, priority, id); }
  }

  lemma KeysAndIds(m: Pool, priority: map<OrderKey, Digest>)
    requires PriorityAgrees(m, priority)
    ensures forall id :: id in m.Keys ==> KeyOf(m[id]) in priority.Keys
    ensures forall k :: k in priority.Keys ==> k.txId in m.Keys
  {
    forall id | id in m.Keys ensures KeyOf(m[id]) in priority.Keys { assert HasKey(m, priority, id); }
    forall k | k in priority.Keys ensures k.txId in m.Keys { assert KeyHeld(m, priority, k); }
  }

  lemma NoKeysNoEntries(m: Pool, priority: map<OrderKey, Digest>)
    requires PriorityAgrees(m, priority)
    ensures priority.Keys == {} <==> m == map[]
  {
    KeysAndIds(m, priority);
  }

  /** The first of these inputs that is already spent. */
  function Conflict(spent: map<OutPoint, Digest>, inputs: seq<OutPoint>): (r: Option<OutPoint>)
    ensures r.None? <==> forall op :: op in inputs ==> op !in spent
    ensures r.Some? ==> r.value in spent
  {
    if inputs == [] then None
    else if inputs[0] in spent then Some(inputs[0])
    else Conflict(spent, inputs[1..])
  }

  function EntryProblem(c: Config, m: Pool, spent: map<OutPoint, Digest>, e: Entry): Option<MempoolError> {
    if e.txId in m then Some(MempoolError.DuplicateTx(e.txId))
    else if e.fee < c.minFee then Some(FeeTooLow(e.fee, c.minFee))
    else match Conflict(spent, e.inputs)
         case Some(op) => Some(DoubleSpend(op, spent[op]))
         case None => None
  }

  /** The conflict is the first input that is spent. */
  lemma {:induction false} ConflictIsFirst(spent: map<OutPoint, Digest>, inputs: seq<OutPoint>)
    ensures Conflict(spent, inputs).Some? ==>
              exists i :: 0 <= i < |inputs| && inputs[i] == Conflict(spent, inputs).value && inputs[i] in spent
                          && forall j :: 0 <= j < i ==> inputs[j] !in spent
  {
    if inputs != [] && inputs[0] !in spent && Conflict(spent, inputs).Some? {
      var rest := inputs[1..];
      ConflictIsFirst(spent, rest);
      var i :| 0 <= i < |rest| && rest[i] == Conflict(spent, inputs).value && rest[i] in spent
               && forall j :: 0 <= j < i ==> rest[j] !in spent;
      forall j | 0 <= j < i + 1 ensures inputs[j] !in spent {
        if j > 0 { assert inputs[j] == rest[j - 1]; }
      }
      assert inputs[i + 1] == rest[i];
    }
  }

  /** The input at i is the first one spent, by this transaction. */
  ghost predicate FirstSpent(spent: map<OutPoint, Digest>, inputs: seq<OutPoint>, i: nat, op: OutPoint, spender: Digest) {
    && i < |inputs| && inputs[i] == op && op in spent && spent[op] == spender
    && forall j :: 0 <= j < i ==> inputs[j] !in spent
  }

  /** A transaction passes the checks exactly when its id is not pooled, it pays the minimum fee
      and spends nothing the pool spends; what it is told is the first of these that fails. */
  lemma EntryProblemExactly(c: Config, m: Pool, spent: map<OutPoint, Digest>, e: Entry)
    ensures var unknown, pays := e.txId !in m, e.fee >= c.minFee;
            var clear := forall op :: op in e.inputs ==> op !in spent;
            match EntryProblem(c, m, spent, e)
            case None => unknown && pays && clear
            case Some(DuplicateTx(id)) => !unknown && id == e.txId
            case Some(FeeTooLow(fee, min)) => unknown && !pays && fee == e.fee && min == c.minFee
            case Some(DoubleSpend(op, other)) => unknown && pays && exists i: nat :: FirstSpent(spent, e.inputs, i, op, other)
            case Some(PoolFull) => false
  {
    if e.txId !in m && e.fee >= c.minFee && Conflict(spent, e.inputs).Some? {
      ConflictIsFirst(spent, e.inputs);
      var op := Conflict(spent, e.inputs).value;
      var i :| 0 <= i < |e.inputs| && e.inputs[i] == op && e.inputs[i] in spent
               && forall j :: 0 <= j < i ==> e.inputs[j] !in spent;
      assert FirstSpent(spent, e.inputs, i, op, spent[op]);
    }
  }

  lemma InsertionKeepsCoherence(m: Pool, priority: map<OrderKey, Digest>, spent: map<OutPoint, Digest>,
                                e: Entry, after: map<OutPoint, Digest>)
    requires Coherent(m, priority, spent) && e.txId !in m
    requires SpentBy(spent, e, |e.inputs|, after) && forall op :: op in e.inputs ==> op !in spent
    ensures Coherent(m[e.txId := e], priority[KeyOf(e) := e.txId], after)
  {
    InsertionKeepsPriority(m, priority, e);
    InsertionKeepsSpent(m, spent, e, after);
    var n := m[e.txId := e];
    forall i | i in n ensures IdHeld(n, i) {
      if i != e.txId { assert IdHeld(m, i); }
    }
  }

  /** Evictions free outpoints and never take new ones. */
  lemma NoConflictStays(m: Pool, spent: map<OutPoint, Digest>, k: Pool, left: map<OutPoint, Digest>, e: Entry)
    requires SpentAgrees(m, spent) && SpentAgrees(k, left) && SubPool(k, m)
    requires forall op :: op in e.inputs ==> op !in spent
    ensures forall op :: op in e.inputs ==> op !in left
  {
    forall op | op in left ensures op in spent {
      assert SpenderHeld(k, left, op);
      assert SpendRecorded(m, spent, left[op], op);
    }
  }

  // ----- the ranking -----

  ghost function Ordered(keys: set<OrderKey>): (s: seq<OrderKey>)
    ensures |s| == |keys| && forall k :: k in s <==> k in keys
  {
    KeyOrder();
    InOrder(keys, KeyLe)
  }

  /** All pooled transactions' keys, best first. */
  ghost function Ranking(priority: map<OrderKey, Digest>): seq<OrderKey> { Ordered(priority.Keys) }

  method FirstKey(keys: set<OrderKey>) returns (key: OrderKey)
    requires keys != {}
    ensures key in keys && Ordered(keys) == [key] + Ordered(keys - {key})
  {
    KeyOrder();
    LeastExists(keys, KeyLe);
    key :| IsLeast(key, keys, KeyLe);
    InOrderStep(keys, key, KeyLe);
  }

  lemma KeysMatchEntries(m: Pool, priority: map<OrderKey, Digest>)
    requires IdsAgree(m) && PriorityAgrees(m, priority)
    ensures |priority| == |m|
    decreases |m|
  {
    NoKeysNoEntries(m, priority);
    if m.Keys != {} {
      var id :| id in m.Keys;
      assert HasKey(m, priority, id);
      RemovalKeepsPriority(m, priority, id);
      forall i | i in m - {id} ensures IdHeld(m - {id}, i) { assert IdHeld(m, i); }
      KeysMatchEntries(m - {id}, priority - {KeyOf(m[id])});
      assert m.Keys == (m - {id}).Keys + {id};
      assert priority.Keys == (priority - {KeyOf(m[id])}).Keys + {KeyOf(m[id])};
    }
  }

  /** Entries listed in ranking order, as far as the list goes. */
  ghost predicate FollowsRanking(m: Pool, priority: map<OrderKey, Digest>, batch: seq<Entry>) {
    |batch| <= |Ranking(priority)|
    && forall i :: 0 <= i < |batch| ==>
         Ranking(priority)[i].txId in m && batch[i] == m[Ranking(priority)[i].txId]
  }

  lemma RankedKey(m: Pool, priority: map<OrderKey, Digest>, batch: seq<Entry>, i: nat)
    requires IdsAgree(m) && PriorityAgrees(m, priority) && FollowsRanking(m, priority, batch) && i < |batch|
    ensures KeyOf(batch[i]) == Ranking(priority)[i] && batch[i].txId in m && m[batch[i].txId] == batch[i]
  {
    var k := Ranking(priority)[i];
    assert k in Ranking(priority);
    assert KeyHeld(m, priority, k) && IdHeld(m, k.txId);
  }

  lemma RankOf(m: Pool, priority: map<OrderKey, Digest>, batch: seq<Entry>, id: Digest) returns (j: nat)
    requires IdsAgree(m) && PriorityAgrees(m, priority) && FollowsRanking(m, priority, batch) && id in m
    ensures j < |Ranking(priority)| && Ranking(priority)[j] == KeyOf(m[id])
    ensures j < |batch| ==> batch[j] == m[id]
  {
    assert HasKey(m, priority, id) && IdHeld(m, id);
    assert KeyOf(m[id]) in Ranking(priority);
    j :| 0 <= j < |Ranking(priority)| && Ranking(priority)[j] == KeyOf(m[id]);
  }

  /** A list that follows the ranking ascends, and nothing outside it ranks before
      anything inside. */
  lemma BatchIsBest(m: Pool, priority: map<OrderKey, Digest>, batch: seq<Entry>)
    requires IdsAgree(m) && PriorityAgrees(m, priority) && FollowsRanking(m, priority, batch)
    ensures forall i :: 0 <= i < |batch| ==> batch[i].txId in m && m[batch[i].txId] == batch[i]
    ensures forall i, j :: 0 <= i < j < |batch| ==> KeyLe(KeyOf(batch[i]), KeyOf(batch[j])) && batch[i] != batch[j]
    ensures forall i, id :: 0 <= i < |batch| && id in m && m[id] !in batch ==> KeyLe(KeyOf(batch[i]), KeyOf(m[id]))
  {
    KeyOrder();
    InOrderIsSorted(priority.Keys, KeyLe);
    forall i | 0 <= i < |batch|
      ensures KeyOf(batch[i]) == Ranking(priority)[i] && batch[i].txId in m && m[batch[i].txId] == batch[i]
    {
      RankedKey(m, priority, batch, i);
    }
    forall i, id | 0 <= i < |batch| && id in m && m[id] !in batch ensures KeyLe(KeyOf(batch[i]), KeyOf(m[id])) {
      var j := RankOf(m, priority, batch, id);
    }
  }

  lemma NextRanked(m: Pool, priority: map<OrderKey, Digest>, batch: seq<Entry>, taken: seq<OrderKey>,
                   key: OrderKey, rest: seq<OrderKey>)
    requires FollowsRanking(m, priority, batch) && Ranking(priority) == taken + ([key] + rest)
    requires |taken| == |batch| && key.txId in m
    ensures FollowsRanking(m, priority, batch + [m[key.txId]])
    ensures Ranking(priority) == taken + [key] + rest
  {
    assert Ranking(priority)[|batch|] == key;
  }

  /** The ranking is what has been taken, then the rest in order. */
  ghost predicate Taken(m: Pool, priority: map<OrderKey, Digest>, batch: seq<Entry>, taken: seq<OrderKey>,
                        rest: set<OrderKey>) {
    && |taken| == |batch| && rest <= priority.Keys
    && Ranking(priority) == taken + Ordered(rest) && FollowsRanking(m, priority, batch)
  }

  lemma TakeNext(m: Pool, priority: map<OrderKey, Digest>, batch: seq<Entry>, taken: seq<OrderKey>,
                 rest: set<OrderKey>, key: OrderKey)
    requires PriorityAgrees(m, priority) && Taken(m, priority, batch, taken, rest)
    requires key in rest && Ordered(rest) == [key] + Ordered(rest - {key})
    ensures key.txId in m && Taken(m, priority, batch + [m[key.txId]], taken + [key], rest - {key})
  {
    assert KeyHeld(m, priority, key);
    NextRanked(m, priority, batch, taken, key, Ordered(rest - {key}));
  }

  lemma TakenCount(m: Pool, priority: map<OrderKey, Digest>, batch: seq<Entry>, taken: seq<OrderKey>,
                   rest: set<OrderKey>)
    requires IdsAgree(m) && PriorityAgrees(m, priority) && Taken(m, priority, batch, taken, rest)
    ensures |batch| + |rest| == |m|
  {
    KeysMatchEntries(m, priority);
    assert |Ranking(priority)| == |taken| + |Ordered(rest)|;
  }

  lemma AddThenRemove(k: Pool, e: Entry)
    requires e.txId !in k
    ensures k[e.txId := e] - {e.txId} == k
  {
  }

  /** The saturating byte total cannot lose count under these caps. */
  predicate Exact(c: Config) { c.maxPoolBytes < U64_MAX || c.maxTxCount <= 1 }

  /** The code's test for room, on the total it keeps. */
  predicate HasRoom(c: Config, count: nat, total: U64, size: U64) {
    count < c.maxTxCount && SatAdd64(total, size) <= c.maxPoolBytes
  }

  lemma RoomIsFit(c: Config, m: Pool, total: U64, size: U64)
    requires total == Bytes(m) && Exact(c)
    ensures HasRoom(c, |m|, total, size) <==> Fits(c, m, size)
    ensures HasRoom(c, |m|, total, size) ==> total + size <= U64_MAX
  {
    NoBytes();
    if |m| == 0 { assert m == map[]; }
  }

  class ClearPool {
    const config: Config
    var byId: Pool
    var byPriority: map<OrderKey, Digest>
    var spentOutpoints: map<OutPoint, Digest>
    var totalBytes: U64

    /** The id map, the priority index and the spent outpoints agree. */
    ghost predicate Agrees()
      reads this
    {
      Coherent(byId, byPriority, spentOutpoints)
    }

    /** They agree and both caps hold: true of every pool at every moment. */
    ghost predicate Sound()
      reads this
    {
      Agrees() && |byId| <= config.maxTxCount && totalBytes <= config.maxPoolBytes
    }

    /** The byte total is the sum of the sizes: kept by every method under exact caps. */
    ghost predicate Counted()
      reads this
    {
      totalBytes == Bytes(byId)
    }

    constructor (config: Config)
      ensures Sound() && Counted() && byId == map[] && this.config == config
    {
      this.config := config;
      byId, byPriority, spentOutpoints, totalBytes := map[], map[], map[], 0;
      new;
      NoBytes();
    }

    method Remove(id: Digest) returns (r: Option<Entry>)
      requires Agrees()
      modifies this
      ensures Agrees() && byId == old(byId) - {id}
      ensures old(Counted()) ==> Counted()
      ensures |byId| <= old(|byId|) && totalBytes <= old(totalBytes)
      ensures r == if id in old(byId) then Some(old(byId)[id]) else None
    {
      if id !in byId {
        return None;
      }
      var entry := byId[id];
      RemovalKeepsCoherence(byId, byPriority, spentOutpoints, id);
      BytesWithout(byId, id);
      byId := byId - {id};
      byPriority := byPriority - {KeyOf(entry)};
      spentOutpoints := spentOutpoints - Inputs(entry);
      totalBytes := SatSub64(totalBytes, entry.size);
      return Some(entry);
    }

    /** Remove each of these that is pooled; a repeated id is removed once. */
    method RemoveAll(ids: seq<Digest>) returns (removed: seq<Digest>)
      requires Sound()
      modifies this
      ensures Sound() && byId == old(byId) - Elements(ids)
      ensures old(Counted()) ==> Counted()
      ensures !HasDuplicate(removed) && Elements(removed) == Elements(ids) * old(byId).Keys
      ensures removed == Present(ids, old(byId).Keys)
    {
      removed := [];
      ghost var was, seen, counted := byId, {}, Counted();
      RemoveNone(was);
      for i := 0 to |ids|
        invariant Sound() && byId == was - seen && seen == Elements(ids[..i])
        invariant counted ==> Counted()
        invariant !HasDuplicate(removed) && Elements(removed) == seen * was.Keys
        invariant removed == Present(ids[..i], was.Keys)
      {
        PresentStep(ids, i, was.Keys);
        assert ids[i] in removed <==> ids[i] in Elements(removed);
        ElementsSnoc(ids, i);
        RemoveAnother(was, seen, ids[i]);
        SeenStep(seen, was.Keys, ids[i]);
        var r := Remove(ids[i]);
        if r.Some? {
          ElementsAppend(removed, ids[i]);
          removed := removed + [ids[i]];
        }
        seen := seen + {ids[i]};
      }
      assert ids[..|ids|] == ids;
    }

    /** Remove every transaction spending one of these outpoints; each once, reported in the
        order of the first outpoint it spends. */
    method RemoveConfirmed(spent: seq<OutPoint>) returns (removed: seq<Digest>)
      requires Sound()
      modifies this
      ensures Sound() && byId == old(byId) - Elements(removed) && !HasDuplicate(removed)
      ensures old(Counted()) ==> Counted()
      ensures forall id :: id in removed <==> id in old(byId) && SpendsOneOf(old(byId)[id], spent)
      ensures removed == Present(Spenders(old(spentOutpoints), spent), old(byId).Keys)
    {
      var ids := SpendersOf(spent);
      removed := RemoveAll(ids);
      assert forall id :: id in removed <==> id in Elements(removed);
      assert forall id :: id in ids <==> id in Elements(ids);
      assert old(byId) - Elements(ids) == old(byId) - Elements(removed);
    }

    method SpendersOf(spent: seq<OutPoint>) returns (ids: seq<Digest>)
      requires Agrees()
      ensures forall id :: id in ids <==> id in byId && SpendsOneOf(byId[id], spent)
      ensures ids == Spenders(spentOutpoints, spent)
    {
      ids := [];
      for i := 0 to |spent|
        invariant forall id :: id in ids <==> id in byId && SpendsOneOf(byId[id], spent[..i])
        invariant ids == Spenders(spentOutpoints, spent[..i])
      {
        assert spent[..i + 1] == spent[..i] + [spent[i]] && spent[..i + 1][..i] == spent[..i];
        assert forall id :: id in byId ==> SpendRecorded(byId, spentOutpoints, id, spent[i]);
        if spent[i] in spentOutpoints {
          assert SpenderHeld(byId, spentOutpoints, spent[i]);
          ids := ids + [spentOutpoints[spent[i]]];
        }
      }
      assert spent[..|spent|] == spent;
    }

    /** Evict everything older than the age limit. */
    method EvictExpired(now: U64) returns (count: nat)
      requires Sound()
      modifies this
      ensures Sound() && byId == Unexpired(config, old(byId), now)
      ensures old(Counted()) ==> Counted()
      ensures count == |old(byId)| - |byId|
      ensures count == 0 ==> byId == old(byId) && totalBytes == old(totalBytes)
    {
      var cutoff := SatSub64(now, config.maxAgeSecs);
      ghost var was, total := byId, totalBytes;
      var expired := set id | id in byId && byId[id].added < cutoff;
      count := |expired|;
      RemoveEach(expired);
      KeepUnexpired(config, was, now, expired);
      RemovedCount(was, expired);
      if count == 0 { RemoveNone(was); }
    }

    /** Remove these pooled transactions, in any order. */
    method RemoveEach(ids: set<Digest>)
      requires Sound() && ids <= byId.Keys
      modifies this
      ensures Sound() && byId == old(byId) - ids
      ensures old(Counted()) ==> Counted()
      ensures ids == {} ==> totalBytes == old(totalBytes)
    {
      var rest := ids;
      ghost var was, counted := byId, Counted();
      LeaveOut(was, ids, ids);
      while rest != {}
        invariant rest <= ids && Sound() && byId == was - (ids - rest)
        invariant counted ==> Counted()
        invariant rest == ids ==> totalBytes == old(totalBytes)
        decreases rest
      {
        var id :| id in rest;
        TakeOneMore(was, ids, rest, id);
        var r := Remove(id);
        rest := rest - {id};
      }
      LeaveOut(was, ids, {});
    }

    /** Evict the transaction ranked last. */
    method EvictLowestFee() returns (r: bool, ghost worst: Digest)
      requires Sound()
      modifies this
      ensures Sound() && r == (old(byId) != map[])
      ensures old(Counted()) ==> Counted()
      ensures !r ==> byId == old(byId) && totalBytes == old(totalBytes)
      ensures r ==> IsWorst(old(byId), worst) && byId == old(byId) - {worst} && |byId| < |old(byId)|
    {
      if byPriority.Keys == {} {
        NoKeysNoEntries(byId, byPriority);
        return false, 0;
      }
      var key := LastKey(byPriority);
      assert KeyHeld(byId, byPriority, key);
      LastKeyIsWorst(byId, byPriority, key);
      RemovedCount(byId, {key.txId});
      var removed := Remove(key.txId);
      return true, key.txId;
    }

    /** The checks that come before any eviction; nothing changes. */
    method CheckEntry(entry: Entry) returns (r: Option<MempoolError>)
      ensures r == EntryProblem(config, byId, spentOutpoints, entry)
    {
      if entry.txId in byId {
        return Some(MempoolError.DuplicateTx(entry.txId));
      }
      if entry.fee < config.minFee {
        return Some(FeeTooLow(entry.fee, config.minFee));
      }
      for i := 0 to |entry.inputs|
        invariant Conflict(spentOutpoints, entry.inputs) == Conflict(spentOutpoints, entry.inputs[i..])
      {
        if entry.inputs[i] in spentOutpoints {
          return Some(DoubleSpend(entry.inputs[i], spentOutpoints[entry.inputs[i]]));
        }
        assert entry.inputs[i..][1..] == entry.inputs[i + 1..];
      }
      return None;
    }

    /** Evict from the bottom until there is room, or nothing is left. */
    method MakeRoom(size: U64) returns (ok: bool)
      requires Sound()
      modifies this
      ensures Sound() && KeepsTop(old(byId), byId) && (old(Counted()) ==> Counted())
      ensures if ok then HasRoom(config, |byId|, totalBytes, size) else byId == map[]
      ensures old(HasRoom(config, |byId|, totalBytes, size)) ==> ok && byId == old(byId) && totalBytes == old(totalBytes)
      ensures old(Counted()) && Exact(config) ==>
                && ok == Fits(config, map[], size)
                && (ok ==> KeepsMost(config, old(byId), byId, size))
    {
      ghost var u, total, counted := byId, totalBytes, Counted() && Exact(config);
      ghost var roomy := HasRoom(config, |byId|, totalBytes, size);
      SubPoolOfSelf(u);
      while |byId| >= config.maxTxCount || SatAdd64(totalBytes, size) > config.maxPoolBytes
        invariant Sound() && IdsAgree(u) && KeepsTop(u, byId) && (old(Counted()) ==> Counted())
        invariant roomy ==> byId == u && totalBytes == total
        invariant counted ==> OneMoreIsTooMany(config, u, byId, size)
        decreases |byId|
      {
        ghost var k := byId;
        if counted { RoomIsFit(config, k, totalBytes, size); }
        var evicted, worst := EvictLowestFee();
        if !evicted {
          return false;
        }
        DropWorst(u, k, worst);
        if counted { EvictStep(config, u, k, worst, size); }
      }
      if counted {
        RoomIsFit(config, byId, totalBytes, size);
        SmallerIsLighter(map[], byId);
      }
      return true;
    }

    method InsertEntry(entry: Entry)
      requires Sound() && HasRoom(config, |byId|, totalBytes, entry.size)
      requires entry.txId !in byId && forall op :: op in entry.inputs ==> op !in spentOutpoints
      modifies this
      ensures Sound() && byId == old(byId)[entry.txId := entry]
      ensures totalBytes == SatAdd64(old(totalBytes), entry.size)
      ensures old(Counted()) && Exact(config) ==> Counted()
    {
      ghost var spent, m, counted := spentOutpoints, byId, Counted() && Exact(config);
      if counted { RoomIsFit(config, byId, totalBytes, entry.size); }
      for i := 0 to |entry.inputs|
        invariant SpentBy(spent, entry, i, spentOutpoints)
        invariant byId == m && byPriority == old(byPriority) && totalBytes == old(totalBytes)
      {
        spentOutpoints := spentOutpoints[entry.inputs[i] := entry.txId];
        assert entry.inputs[..i + 1] == entry.inputs[..i] + [entry.inputs[i]];
      }
      InsertionKeepsCoherence(byId, byPriority, spent, entry, spentOutpoints);
      BytesWith(byId, entry.txId, entry);
      totalBytes := SatAdd64(totalBytes, entry.size);
      byPriority := byPriority[KeyOf(entry) := entry.txId];
      byId := byId[entry.txId := entry];
    }

    /** Let the expired go, then make room, then insert. */
    method Admit(entry: Entry, now: U64) returns (ok: bool)
      requires Sound() && EntryProblem(config, byId, spentOutpoints, entry).None?
      modifies this
      ensures Sound() && (old(Counted()) && Exact(config) ==> Counted())
      ensures if ok then entry.txId in byId && byId[entry.txId] == entry else byId == map[]
      ensures old(Counted()) && Exact(config) ==>
                && ok == Fits(config, map[], entry.size)
                && (ok ==> KeepsMost(config, Unexpired(config, old(byId), now), byId - {entry.txId}, entry.size))
      ensures Unexpired(config, old(byId), now) == old(byId) && old(HasRoom(config, |byId|, totalBytes, entry.size)) ==>
                ok && byId == old(byId)[entry.txId := entry] && totalBytes == SatAdd64(old(totalBytes), entry.size)
    {
      ghost var before, spent := byId, spentOutpoints;
      assert SpentAgrees(before, spent);
      var expired := EvictExpired(now);
      ok := MakeRoom(entry.size);
      if ok {
        ghost var kept := byId;
        NoConflictStays(before, spent, kept, spentOutpoints, entry);
        InsertEntry(entry);
        AddThenRemove(kept, entry);
      }
    }

    /** Add a transaction. The checks leave the pool alone; past them, under exact caps, the
        expired go, then exactly the lowest-ranked suffix that must make room. */
    method Add(entry: Entry, now: U64) returns (r: Result<Digest, MempoolError>)
      requires Sound()
      modifies this
      ensures Sound() && (old(Counted()) && Exact(config) ==> Counted())
      ensures var problem := EntryProblem(config, old(byId), old(spentOutpoints), entry);
              problem.Some? ==> r == Err(problem.value) && byId == old(byId) && totalBytes == old(totalBytes)
      ensures EntryProblem(config, old(byId), old(spentOutpoints), entry).None? ==>
                if r.Ok? then r == Ok(entry.txId) && entry.txId in byId && byId[entry.txId] == entry
                else r == Err(PoolFull) && byId == map[]
      ensures EntryProblem(config, old(byId), old(spentOutpoints), entry).None? && old(Counted()) && Exact(config) ==>
                && r.Ok? == Fits(config, map[], entry.size)
                && (r.Ok? ==> KeepsMost(config, Unexpired(config, old(byId), now), byId - {entry.txId}, entry.size))
      ensures EntryProblem(config, old(byId), old(spentOutpoints), entry).None?
              && Unexpired(config, old(byId), now) == old(byId)
              && old(HasRoom(config, |byId|, totalBytes, entry.size)) ==>
                r.Ok? && byId == old(byId)[entry.txId := entry] && totalBytes == SatAdd64(old(totalBytes), entry.size)
    {
      var problem := CheckEntry(entry);
      if problem.Some? {
        return Err(problem.value);
      }
      var ok := Admit(entry, now);
      return if ok then Ok(entry.txId) else Err(PoolFull);
    }

    method TakeRanked(n: nat) returns (batch: seq<Entry>)
      requires Agrees()
      ensures |batch| == Min(n, |byId|) && FollowsRanking(byId, byPriority, batch)
    {
      batch := [];
      var rest := byPriority.Keys;
      ghost var taken: seq<OrderKey> := [];
      while |batch| < n && rest != {}
        invariant |batch| <= n && Taken(byId, byPriority, batch, taken, rest)
        decreases rest
      {
        var key := FirstKey(rest);
        TakeNext(byId, byPriority, batch, taken, rest, key);
        batch := batch + [byId[key.txId]];
        taken := taken + [key];
        rest := rest - {key};
      }
      TakenCount(byId, byPriority, batch, taken, rest);
    }

    /** The best `n` transactions, best first. */
    method GetBatch(n: nat) returns (batch: seq<Entry>)
      requires Agrees()
      ensures |batch| == Min(n, |byId|)
      ensures forall i :: 0 <= i < |batch| ==> batch[i].txId in byId && byId[batch[i].txId] == batch[i]
      ensures forall i, j :: 0 <= i < j < |batch| ==> KeyLe(KeyOf(batch[i]), KeyOf(batch[j])) && batch[i] != batch[j]
      ensures forall i, id :: 0 <= i < |batch| && id in byId && byId[id] !in batch
                ==> KeyLe(KeyOf(batch[i]), KeyOf(byId[id]))
    {
      batch := TakeRanked(n);
      BatchIsBest(byId, byPriority, batch);
    }
  }

  lemma SubPoolOfSelf(u: Pool)
    ensures SubPool(u, u) && KeepsTop(u, u)
  {
  }

  lemma FreshStay(c: Config, m: Pool, now: U64)
    requires forall id :: id in m ==> m[id].added == now
    ensures Unexpired(c, m, now) == m
  {
  }

  /** A transaction without inputs, as large as the total can count. */
  function Largest(id: Digest, c: Config, now: U64): Entry { Entry(id, [], c.minFee, U64_MAX, 0, now) }

  method AddLargest(pool: ClearPool, id: Digest, now: U64)
    requires pool.Sound() && !Exact(pool.config) && |pool.byId| < 2 && id !in pool.byId
    requires forall i :: i in pool.byId ==> pool.byId[i].added == now
    modifies pool
    ensures pool.Sound() && pool.byId == old(pool.byId)[id := Largest(id, pool.config, now)]
    ensures pool.totalBytes == U64_MAX
  {
    FreshStay(pool.config, pool.byId, now);
    var r := pool.Add(Largest(id, pool.config, now), now);
  }

  /** Under any other caps two adds are enough: both transactions are in, and the byte total,
      saturated, has fallen behind them. */
  method TotalFallsBehind(config: Config, now: U64) returns (pool: ClearPool)
    requires !Exact(config)
    ensures fresh(pool) && pool.config == config && pool.Sound() && !pool.Counted()
  {
    pool := new ClearPool(config);
    AddLargest(pool, 1, now);
    ghost var one := pool.byId;
    AddLargest(pool, 2, now);
    NoBytes();
    BytesWith(map[], 1, Largest(1, config, now));
    BytesWith(one, 2, Largest(2, config, now));
  }
}
