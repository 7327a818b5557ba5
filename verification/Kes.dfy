/** Key-evolving signatures: a Merkle tree over one-period leaf keys.

    The leaf signature scheme and the hashes are parameters. */
module Kes {
  import opened Words
  import opened Merkle

  const TREE_DEPTH: nat := 11
  const TOTAL_PERIODS: U32 := 2048

  type Bytes = seq<U8>

  // ----- authentication paths -----

  function SiblingIndex(idx: nat): nat { if idx % 2 == 0 then idx + 1 else idx - 1 }

  /** Sibling hashes from leaf to root; a missing sibling reads as zero. */
  function PathFor(h: PairHash, layer: seq<Digest>, idx: nat, depth: nat): (path: seq<Digest>)
    ensures |path| == depth
    decreases depth
  {
    if depth == 0 then []
    else
      var s := SiblingIndex(idx);
      [if s < |layer| then layer[s] else 0] + PathFor(h, NextLevel(h, layer), idx / 2, depth - 1)
  }

  /** The pair hashed when `current` meets its sibling. */
  function Ordered(current: Digest, idx: nat, sibling: Digest): (Digest, Digest) {
    if idx % 2 == 0 then (current, sibling) else (sibling, current)
  }

  function RootFromPath(h: PairHash, leaf: Digest, idx: nat, path: seq<Digest>): Digest
    decreases |path|
  {
    if path == [] then leaf
    else
      var pair := Ordered(leaf, idx, path[0]);
      RootFromPath(h, h(pair.0, pair.1), idx / 2, path[1..])
  }

  method MerkleRootFromLeaves(h: PairHash, leaves: seq<Digest>) returns (root: Digest)
    ensures root == MerkleRoot(h, leaves)
  {
    var layer := leaves;
    while |layer| > 1
      invariant layer == [] <==> leaves == []
      invariant MerkleRoot(h, layer) == MerkleRoot(h, leaves)
      decreases |layer|
    {
      layer := ParentLayer(h, layer);
    }
    return if layer == [] then ZERO else layer[0];
  }

  method ParentLayer(h: PairHash, layer: seq<Digest>) returns (next: seq<Digest>)
    ensures next == NextLevel(h, layer)
  {
    next := [];
    var i := 0;
    while 2 * i < |layer|
      invariant 0 <= i <= (|layer| + 1) / 2 && next == NextLevel(h, layer)[..i]
    {
      var left := layer[2 * i];
      var right := if 2 * i + 1 < |layer| then layer[2 * i + 1] else left;
      next := next + [h(left, right)];
      i := i + 1;
    }
  }

  method MerklePathFor(h: PairHash, leaves: seq<Digest>, leafIndex: U32, depth: U32) returns (path: seq<Digest>)
    ensures path == PathFor(h, leaves, leafIndex, depth)
  {
    path := [];
    var layer := leaves;
    var idx: nat := leafIndex;
    for level := 0 to depth
      invariant PathFor(h, leaves, leafIndex, depth) == path + PathFor(h, layer, idx, depth - level)
    {
      var s := SiblingIndex(idx);
      path := path + [if s < |layer| then layer[s] else 0];
      layer := ParentLayer(h, layer);
      idx := idx / 2;
    }
  }

  method MerkleRootFromPath(h: PairHash, leafHash: Digest, leafIndex: U32, path: seq<Digest>) returns (root: Digest)
    ensures root == RootFromPath(h, leafHash, leafIndex, path)
  {
    root := leafHash;
    var idx: nat := leafIndex;
    for i := 0 to |path|
      invariant RootFromPath(h, leafHash, leafIndex, path) == RootFromPath(h, root, idx, path[i..])
    {
      assert path[i..][1..] == path[i + 1..];
      root := if idx % 2 == 0 then h(root, path[i]) else h(path[i], root);
      idx := idx / 2;
    }
  }

  /** `all` holds every pair hashed on the way up from one leaf. */
  ghost predicate PathWithin(h: PairHash, leaf: Digest, idx: nat, path: seq<Digest>, all: set<(Digest, Digest)>)
    decreases |path|
  {
    path == [] ||
    (var pair := Ordered(leaf, idx, path[0]);
     pair in all && PathWithin(h, h(pair.0, pair.1), idx / 2, path[1..], all))
  }

  /** `all` holds every pair hashed in the tree over this layer. */
  ghost predicate TreeWithin(h: PairHash, layer: seq<Digest>, all: set<(Digest, Digest)>)
    decreases |layer|
  {
    |layer| <= 1 ||
    ((forall i :: 0 <= i < (|layer| + 1) / 2 ==> (layer[2 * i], layer[PartnerOf(i, |layer|)]) in all)
     && TreeWithin(h, NextLevel(h, layer), all))
  }

  ghost predicate PairsCollisionFree(h: PairHash, pairs: set<(Digest, Digest)>) {
    forall p, q :: p in pairs && q in pairs && h(p.0, p.1) == h(q.0, q.1) ==> p == q
  }

  /** The node above position idx is the hash of idx's node and its sibling. */
  lemma ParentOf(h: PairHash, layer: seq<Digest>, idx: nat)
    requires |layer| % 2 == 0 && idx < |layer|
    ensures SiblingIndex(idx) < |layer|
    ensures var pair := Ordered(layer[idx], idx, layer[SiblingIndex(idx)]);
            NextLevel(h, layer)[idx / 2] == h(pair.0, pair.1)
            && pair == (layer[2 * (idx / 2)], layer[PartnerOf(idx / 2, |layer|)])
  {
  }

  /** The generated path recomputes the root, at every index of every depth. */
  lemma {:induction false} PathRecomputesRoot(h: PairHash, leaves: seq<Digest>, idx: nat, depth: nat)
    requires |leaves| == Pow2(depth) && idx < |leaves|
    ensures RootFromPath(h, leaves[idx], idx, PathFor(h, leaves, idx, depth)) == MerkleRoot(h, leaves)
    decreases depth
  {
    if depth > 0 {
      ParentOf(h, leaves, idx);
      PathRecomputesRoot(h, NextLevel(h, leaves), idx / 2, depth - 1);
      var path := PathFor(h, leaves, idx, depth);
      assert path[1..] == PathFor(h, NextLevel(h, leaves), idx / 2, depth - 1);
    }
  }

  /** Reaching the right parent without a collision means the right two children. */
  lemma StepBindsLeaf(h: PairHash, leaves: seq<Digest>, idx: nat, leaf: Digest, sibling: Digest,
                      all: set<(Digest, Digest)>)
    requires |leaves| % 2 == 0 && idx < |leaves| && PairsCollisionFree(h, all)
    requires Ordered(leaf, idx, sibling) in all
    requires (leaves[2 * (idx / 2)], leaves[PartnerOf(idx / 2, |leaves|)]) in all
    requires var pair := Ordered(leaf, idx, sibling); h(pair.0, pair.1) == NextLevel(h, leaves)[idx / 2]
    ensures SiblingIndex(idx) < |leaves| && leaf == leaves[idx] && sibling == leaves[SiblingIndex(idx)]
  {
    ParentOf(h, leaves, idx);
  }

  lemma HalfOfLevel(n: nat, depth: nat, idx: nat)
    requires depth > 0 && n == Pow2(depth) && idx < n
    ensures n > 1 && n % 2 == 0 && (n + 1) / 2 == Pow2(depth - 1) && idx / 2 < (n + 1) / 2
  {
  }

  lemma PathOneUp(h: PairHash, idx: nat, leaf: Digest, path: seq<Digest>, all: set<(Digest, Digest)>)
    requires path != [] && PathWithin(h, leaf, idx, path, all)
    ensures var pair := Ordered(leaf, idx, path[0]);
            && pair in all && PathWithin(h, h(pair.0, pair.1), idx / 2, path[1..], all)
            && RootFromPath(h, leaf, idx, path) == RootFromPath(h, h(pair.0, pair.1), idx / 2, path[1..])
  {
  }

  lemma TreeOneUp(h: PairHash, leaves: seq<Digest>, idx: nat, all: set<(Digest, Digest)>)
    requires |leaves| > 1 && idx < |leaves| && TreeWithin(h, leaves, all)
    ensures TreeWithin(h, NextLevel(h, leaves), all) && MerkleRoot(h, leaves) == MerkleRoot(h, NextLevel(h, leaves))
    ensures (leaves[2 * (idx / 2)], leaves[PartnerOf(idx / 2, |leaves|)]) in all
  {
  }

  /** What one level of a path and of the tree leaves for the levels above. */
  lemma OneLevelUp(h: PairHash, leaves: seq<Digest>, idx: nat, leaf: Digest, path: seq<Digest>,
                   all: set<(Digest, Digest)>)
    requires path != [] && |leaves| == Pow2(|path|) && idx < |leaves|
    requires RootFromPath(h, leaf, idx, path) == MerkleRoot(h, leaves)
    requires PathWithin(h, leaf, idx, path, all) && TreeWithin(h, leaves, all)
    ensures |leaves| % 2 == 0 && |NextLevel(h, leaves)| == Pow2(|path| - 1) && idx / 2 < |NextLevel(h, leaves)|
    ensures var pair := Ordered(leaf, idx, path[0]);
            && pair in all
            && RootFromPath(h, h(pair.0, pair.1), idx / 2, path[1..]) == MerkleRoot(h, NextLevel(h, leaves))
            && PathWithin(h, h(pair.0, pair.1), idx / 2, path[1..], all)
    ensures TreeWithin(h, NextLevel(h, leaves), all)
    ensures (leaves[2 * (idx / 2)], leaves[PartnerOf(idx / 2, |leaves|)]) in all
  {
    HalfOfLevel(|leaves|, |path|, idx);
    PathOneUp(h, idx, leaf, path, all);
    TreeOneUp(h, leaves, idx, all);
  }

  /** Any full-length path that reaches the root at an index starts from the
      leaf at that index and is the generated path. */
  lemma {:induction false} PathBindsLeaf(h: PairHash, leaves: seq<Digest>, idx: nat, leaf: Digest, path: seq<Digest>,
                                         all: set<(Digest, Digest)>)
    requires |leaves| == Pow2(|path|) && idx < |leaves|
    requires RootFromPath(h, leaf, idx, path) == MerkleRoot(h, leaves)
    requires PairsCollisionFree(h, all) && PathWithin(h, leaf, idx, path, all) && TreeWithin(h, leaves, all)
    ensures leaf == leaves[idx] && path == PathFor(h, leaves, idx, |path|)
    decreases |path|
  {
    if path != [] {
      var pair := Ordered(leaf, idx, path[0]);
      OneLevelUp(h, leaves, idx, leaf, path, all);
      PathBindsLeaf(h, NextLevel(h, leaves), idx / 2, h(pair.0, pair.1), path[1..], all);
      StepBindsLeaf(h, leaves, idx, leaf, path[0], all);
      assert path == [path[0]] + path[1..];
    }
  }

  // ----- keys and signatures -----

  /** The leaf signature scheme, the hashes and the domain tag of signed messages. Key
      derivation, signing and checking may fail in the library, which reads as None. */
  datatype Scheme = Scheme(
    deriveSeed: (Digest, U32) -> Digest, publicKey: Digest -> Option<Bytes>, sign: (Digest, Bytes) -> Option<Bytes>,
    check: (Bytes, Bytes, Bytes) -> Option<bool>, pkHash: Bytes -> Digest, node: PairHash,
    bind: (U32, Bytes) -> Bytes)

  /** Every leaf signature that is made verifies under its own leaf key. */
  ghost predicate SignaturesVerify(s: Scheme) {
    forall seed, msg :: s.publicKey(seed).Some? && s.sign(seed, msg).Some?
      ==> s.check(s.publicKey(seed).value, msg, s.sign(seed, msg).value) == Some(true)
  }

  datatype KesSignature = KesSignature(period: U32, leafPk: Bytes, leafSignature: Bytes, merklePath: seq<Digest>)

  datatype KesError = Exhausted | SeedMissing | LeafKeyFailed | LeafSignFailed | LeafCheckFailed

  datatype KeyState = KeyState(period: U32, leafSeeds: seq<Digest>, leafPkHashes: seq<Digest>)

  function Seeds(s: Scheme, master: Digest): (seeds: seq<Digest>)
    ensures |seeds| == TOTAL_PERIODS
  {
    seq<Digest>(TOTAL_PERIODS, i requires 0 <= i < TOTAL_PERIODS => s.deriveSeed(master, i))
  }

  function LeafKey(s: Scheme, master: Digest, period: U32): Option<Bytes> {
    s.publicKey(s.deriveSeed(master, period))
  }

  /** All leaf keys can be derived. */
  ghost predicate KeysDerive(s: Scheme, master: Digest) {
    forall i: U32 :: i < TOTAL_PERIODS ==> LeafKey(s, master, i).Some?
  }

  function LeafHash(s: Scheme, master: Digest, period: U32): Digest {
    match LeafKey(s, master, period) case Some(pk) => s.pkHash(pk) case None => ZERO
  }

  function PkHashes(s: Scheme, master: Digest): (hashes: seq<Digest>)
    ensures |hashes| == TOTAL_PERIODS
  {
    seq<Digest>(TOTAL_PERIODS, i requires 0 <= i < TOTAL_PERIODS => LeafHash(s, master, i))
  }

  function NewKey(s: Scheme, master: Digest): KeyState {
    KeyState(0, Seeds(s, master), PkHashes(s, master))
  }

  function PublicRoot(s: Scheme, master: Digest): Digest { MerkleRoot(s.node, PkHashes(s, master)) }

  function Sign(s: Scheme, k: KeyState, msg: Bytes): Result<KesSignature, KesError> {
    if k.period >= TOTAL_PERIODS then Err(Exhausted)
    else if k.period >= |k.leafSeeds| then Err(SeedMissing)
    else
      var seed := k.leafSeeds[k.period];
      var signature := s.sign(seed, s.bind(k.period, msg));
      if s.publicKey(seed).None? then Err(LeafKeyFailed)
      else if signature.None? then Err(LeafSignFailed)
      else Ok(KesSignature(k.period, s.publicKey(seed).value, signature.value,
                           PathFor(s.node, k.leafPkHashes, k.period, TREE_DEPTH)))
  }

  function Verify(s: Scheme, root: Digest, sig: KesSignature, msg: Bytes): Result<bool, KesError> {
    if sig.period >= TOTAL_PERIODS || |sig.merklePath| != TREE_DEPTH then Ok(false)
    else
      match s.check(sig.leafPk, s.bind(sig.period, msg), sig.leafSignature)
      case None => Err(LeafCheckFailed)
      case Some(valid) =>
        Ok(valid && RootFromPath(s.node, s.pkHash(sig.leafPk), sig.period, sig.merklePath) == root)
  }

  function Evolve(k: KeyState): KeyState {
    if k.period >= TOTAL_PERIODS then k
    else k.(period := k.period + 1,
            leafSeeds := if k.period < |k.leafSeeds| then k.leafSeeds[k.period := ZERO] else k.leafSeeds)
  }

  class KesSecretKey {
    var period: U32
    var leafSeeds: seq<Digest>
    var leafPkHashes: seq<Digest>

    function State(): KeyState
      reads this
    {
      KeyState(period, leafSeeds, leafPkHashes)
    }

    constructor (state: KeyState)
      ensures State() == state
    {
      period, leafSeeds, leafPkHashes := state.period, state.leafSeeds, state.leafPkHashes;
    }

    method SignMessage(s: Scheme, msg: Bytes) returns (r: Result<KesSignature, KesError>)
      ensures r == Sign(s, State(), msg)
    {
      if period >= TOTAL_PERIODS {
        return Err(Exhausted);
      }
      if period >= |leafSeeds| {
        return Err(SeedMissing);
      }
      var seed := leafSeeds[period];
      var leafPk := s.publicKey(seed);
      if leafPk.None? {
        return Err(LeafKeyFailed);
      }
      var leafSignature := s.sign(seed, s.bind(period, msg));
      if leafSignature.None? {
        return Err(LeafSignFailed);
      }
      var merklePath := MerklePathFor(s.node, leafPkHashes, period, TREE_DEPTH);
      return Ok(KesSignature(period, leafPk.value, leafSignature.value, merklePath));
    }

    /** Move to the next period, erasing the seed of the one just used. */
    method Advance() returns (r: Result<(), KesError>)
      modifies this
      ensures r == if old(period) >= TOTAL_PERIODS then Err(Exhausted) else Ok(())
      ensures State() == Evolve(old(State()))
    {
      if period >= TOTAL_PERIODS {
        return Err(Exhausted);
      }
      if period < |leafSeeds| {
        leafSeeds := leafSeeds[period := ZERO];
      }
      period := period + 1;
      return Ok(());
    }
  }

  /** Fails exactly when some leaf key cannot be derived. */
  method Generate(s: Scheme, master: Digest) returns (r: Result<(Digest, KesSecretKey), KesError>)
    ensures r.Ok? <==> KeysDerive(s, master)
    ensures r.Err? ==> r.error == LeafKeyFailed
    ensures r.Ok? ==> r.value.0 == PublicRoot(s, master)
                      && fresh(r.value.1) && r.value.1.State() == NewKey(s, master)
  {
    var leafSeeds: seq<Digest> := [];
    var leafPkHashes: seq<Digest> := [];
    for period := 0 to TOTAL_PERIODS
      invariant leafSeeds == Seeds(s, master)[..period] && leafPkHashes == PkHashes(s, master)[..period]
      invariant forall i: U32 :: i < period ==> LeafKey(s, master, i).Some?
    {
      var seed := s.deriveSeed(master, period);
      var leafPk := s.publicKey(seed);
      assert leafPk == LeafKey(s, master, period);
      if leafPk.None? {
        return Err(LeafKeyFailed);
      }
      leafSeeds := leafSeeds + [seed];
      leafPkHashes := leafPkHashes + [s.pkHash(leafPk.value)];
    }
    assert leafSeeds == Seeds(s, master) && leafPkHashes == PkHashes(s, master);
    var root := MerkleRootFromLeaves(s.node, leafPkHashes);
    var sk := new KesSecretKey(KeyState(0, leafSeeds, leafPkHashes));
    return Ok((root, sk));
  }

  method VerifySignature(s: Scheme, root: Digest, sig: KesSignature, msg: Bytes) returns (r: Result<bool, KesError>)
    ensures r == Verify(s, root, sig, msg)
  {
    if sig.period >= TOTAL_PERIODS || |sig.merklePath| != TREE_DEPTH {
      return Ok(false);
    }
    var valid := s.check(sig.leafPk, s.bind(sig.period, msg), sig.leafSignature);
    if valid.None? {
      return Err(LeafCheckFailed);
    }
    if !valid.value {
      return Ok(false);
    }
    var computed := MerkleRootFromPath(s.node, s.pkHash(sig.leafPk), sig.period, sig.merklePath);
    return Ok(computed == root);
  }

  // ----- over the life of a key -----

  /** The key after n evolutions. */
  ghost function After(s: Scheme, master: Digest, n: nat): KeyState {
    if n == 0 then NewKey(s, master) else Evolve(After(s, master, n - 1))
  }

  /** Exactly the seeds of the past periods are erased, and nothing else changes. */
  lemma {:induction false} PastSeedsAreErased(s: Scheme, master: Digest, n: nat)
    requires n <= TOTAL_PERIODS
    ensures var k := After(s, master, n);
            k.period == n && k.leafPkHashes == PkHashes(s, master) && |k.leafSeeds| == TOTAL_PERIODS
            && forall i :: 0 <= i < TOTAL_PERIODS ==> k.leafSeeds[i] == if i < n then ZERO else Seeds(s, master)[i]
  {
    if n > 0 { PastSeedsAreErased(s, master, n - 1); }
  }

  /** A key past its last period holds no seed and never signs again, however often it is
      advanced. */
  lemma {:induction false} ExhaustedForGood(s: Scheme, master: Digest, n: nat, msg: Bytes)
    requires n >= TOTAL_PERIODS
    ensures var k := After(s, master, n);
            && k == After(s, master, TOTAL_PERIODS) && k.period == TOTAL_PERIODS
            && (forall i :: 0 <= i < |k.leafSeeds| ==> k.leafSeeds[i] == ZERO)
            && Sign(s, k, msg) == Err(Exhausted)
  {
    PastSeedsAreErased(s, master, TOTAL_PERIODS);
    if n > TOTAL_PERIODS { ExhaustedForGood(s, master, n - 1, msg); }
  }

  /** On any key state, in order: why signing fails. */
  lemma SignFailsExactly(s: Scheme, k: KeyState, msg: Bytes)
    ensures var r := Sign(s, k, msg);
            && (r == Err(Exhausted) <==> k.period >= TOTAL_PERIODS)
            && (r == Err(SeedMissing) <==> |k.leafSeeds| <= k.period < TOTAL_PERIODS)
            && (k.period < TOTAL_PERIODS && k.period < |k.leafSeeds| ==>
                  var seed := k.leafSeeds[k.period];
                  && (r == Err(LeafKeyFailed) <==> s.publicKey(seed).None?)
                  && (r == Err(LeafSignFailed) <==> s.publicKey(seed).Some? && s.sign(seed, s.bind(k.period, msg)).None?)
                  && (r.Ok? <==> s.publicKey(seed).Some? && s.sign(seed, s.bind(k.period, msg)).Some?))
  {
  }

  /** A signature is accepted exactly when its period and path are in range, its leaf signature
      checks against the bound message and its path leads from the leaf key to the root; it is an
      error exactly when it is in range and the library cannot check it. */
  lemma VerifyExactly(s: Scheme, root: Digest, sig: KesSignature, msg: Bytes)
    ensures var r := Verify(s, root, sig, msg);
            var inRange := sig.period < 2048 && |sig.merklePath| == 11;
            var checked := s.check(sig.leafPk, s.bind(sig.period, msg), sig.leafSignature);
            && (r == Ok(true) <==> inRange && checked == Some(true)
                                   && RootFromPath(s.node, s.pkHash(sig.leafPk), sig.period, sig.merklePath) == root)
            && (r.Err? <==> inRange && checked.None?) && (r.Err? ==> r == Err(LeafCheckFailed))
  {
  }

  lemma DepthCoversPeriods()
    ensures Pow2(TREE_DEPTH) == TOTAL_PERIODS
  {
    assert Pow2(5) == 32 && Pow2(8) == 256 && Pow2(11) == 2048;
  }

  /** In every period of its life a key signs exactly when the library derives the leaf key
      and the leaf signature, and then the signature verifies at that period. */
  lemma EverySignatureVerifies(s: Scheme, master: Digest, n: nat, msg: Bytes)
    requires SignaturesVerify(s) && n < TOTAL_PERIODS
    ensures var r := Sign(s, After(s, master, n), msg);
            && (r.Ok? <==> LeafKey(s, master, n).Some? && s.sign(s.deriveSeed(master, n), s.bind(n, msg)).Some?)
            && (r.Ok? ==> r.value.period == n && Verify(s, PublicRoot(s, master), r.value, msg) == Ok(true))
  {
    PastSeedsAreErased(s, master, n);
    DepthCoversPeriods();
    PathRecomputesRoot(s.node, PkHashes(s, master), n, TREE_DEPTH);
    assert PkHashes(s, master)[n] == LeafHash(s, master, n);
  }

  /** No two of these keys share a hash. */
  ghost predicate KeysCollisionFree(s: Scheme, keys: set<Bytes>) {
    forall a, b :: a in keys && b in keys && s.pkHash(a) == s.pkHash(b) ==> a == b
  }

  /** A signature accepted at a period was checked under exactly that period's leaf key,
      against the message bound to that period, and carries the generated path. */
  lemma VerifiedSignatureBindsPeriod(s: Scheme, master: Digest, sig: KesSignature, msg: Bytes,
                                     hashed: set<(Digest, Digest)>, keys: set<Bytes>)
    requires KeysDerive(s, master) && Verify(s, PublicRoot(s, master), sig, msg) == Ok(true)
    requires PairsCollisionFree(s.node, hashed)
    requires PathWithin(s.node, s.pkHash(sig.leafPk), sig.period, sig.merklePath, hashed)
    requires TreeWithin(s.node, PkHashes(s, master), hashed)
    requires KeysCollisionFree(s, keys) && sig.leafPk in keys
    requires forall i: U32 :: i < TOTAL_PERIODS ==> LeafKey(s, master, i).value in keys
    ensures Some(sig.leafPk) == LeafKey(s, master, sig.period)
    ensures sig.merklePath == PathFor(s.node, PkHashes(s, master), sig.period, TREE_DEPTH)
    ensures s.check(LeafKey(s, master, sig.period).value, s.bind(sig.period, msg), sig.leafSignature) == Some(true)
  {
    DepthCoversPeriods();
    PathBindsLeaf(s.node, PkHashes(s, master), sig.period, s.pkHash(sig.leafPk), sig.merklePath, hashed);
    assert LeafKey(s, master, sig.period).value in keys;
  }
}
