/** Fork choice, sticky finality and equivocation evidence as a transition
    function, and what every run of it keeps. */
module ForkChoice {
  import opened Words
  import opened BlockTree

  datatype ChainError =
    | UnknownParent(hash: Digest)
    | DuplicateBlock(hash: Digest)
    | ConflictsWithFinalized(finalHeight: U64, blockHeight: U64)

  type SlotKey = (U64, Digest)

  datatype EquivocationProof = EquivocationProof(slot: U64, producer: Digest, first: Digest, second: Digest)

  datatype Chain = Chain(
    entries: Entries, tip: Digest, k: U64, finalHash: Digest, finalHeight: U64,
    slotProducers: map<SlotKey, Digest>, equivocations: map<SlotKey, EquivocationProof>)

  function GenesisChain(k: U64): Chain {
    Chain(map[ZERO := GENESIS], ZERO, k, ZERO, 0, map[], map[])
  }

  // ----- the invariant -----

  /** Greater height first, then lower hash. */
  predicate AtLeastAsGood(es: Entries, a: Digest, b: Digest)
    requires a in es && b in es
  {
    es[a].height > es[b].height || (es[a].height == es[b].height && a <= b)
  }

  ghost predicate TipIsBest(c: Chain) {
    && c.tip in c.entries
    && forall h :: h in c.entries ==> AtLeastAsGood(c.entries, c.tip, h)
  }

  /** The finalized block is the tip's ancestor `k` blocks below it (or genesis). */
  ghost predicate FinalIsKDeep(c: Chain)
    requires WellFormed(c.entries) && c.tip in c.entries
  {
    && c.finalHeight == Max(0, c.entries[c.tip].height - c.k)
    && c.finalHash == Path(c.entries, c.tip)[c.finalHeight].hash
  }

  function KeyOf(e: ChainEntry): SlotKey { (e.slot, e.producer) }

  ghost predicate SamePair(es: Entries, a: Digest, b: Digest)
    requires a in es && b in es
  {
    a != ZERO && b != ZERO && a != b && KeyOf(es[a]) == KeyOf(es[b])
  }

  /** The first-seen index holds exactly the pairs of the accepted blocks. */
  ghost predicate IndexIsExact(c: Chain) {
    && (forall key :: key in c.slotProducers ==>
          c.slotProducers[key] in c.entries && c.slotProducers[key] != ZERO
          && KeyOf(c.entries[c.slotProducers[key]]) == key)
    && (forall h :: h in c.entries && h != ZERO ==> KeyOf(c.entries[h]) in c.slotProducers)
  }

  ghost predicate ProofsAreSound(c: Chain) {
    forall key :: key in c.equivocations ==> ProofIsSound(c, key, c.equivocations[key])
  }

  ghost predicate ProofIsSound(c: Chain, key: SlotKey, p: EquivocationProof) {
    && (p.slot, p.producer) == key
    && p.first in c.entries && p.second in c.entries
    && SamePair(c.entries, p.first, p.second) && KeyOf(c.entries[p.first]) == key
  }

  ghost predicate ProofsAreComplete(c: Chain) {
    forall a, b :: a in c.entries && b in c.entries && SamePair(c.entries, a, b)
      ==> KeyOf(c.entries[a]) in c.equivocations
  }

  /** A proof is held for a (slot, producer) pair exactly when two accepted
      blocks share that pair. */
  ghost predicate EvidenceIsExact(c: Chain) {
    IndexIsExact(c) && ProofsAreSound(c) && ProofsAreComplete(c)
  }

  ghost predicate Inv(c: Chain) {
    WellFormed(c.entries) && TipIsBest(c) && FinalIsKDeep(c)
  }

  // ----- the transition -----

  /** Header validation (slot and height against the parent) precedes add_block. */
  predicate Validated(c: Chain, e: ChainEntry) {
    e.parentHash in c.entries ==> Linked(c.entries, e)
  }

  function RecordEquivocation(c: Chain, key: SlotKey, h: Digest): (d: Chain)
    ensures d.entries == c.entries && d.tip == c.tip && d.k == c.k
    ensures d.finalHash == c.finalHash && d.finalHeight == c.finalHeight
  {
    if key in c.slotProducers then
      var first := c.slotProducers[key];
      if first != h && key !in c.equivocations then
        c.(equivocations := c.equivocations[key := EquivocationProof(key.0, key.1, first, h)])
      else c
    else c.(slotProducers := c.slotProducers[key := h])
  }

  ghost function AdvanceFinality(c: Chain): (d: Chain)
    requires WellFormed(c.entries) && c.tip in c.entries
    ensures d.entries == c.entries && d.tip == c.tip && d.k == c.k && c.finalHeight <= d.finalHeight
  {
    var target := c.entries[c.tip].height - c.k;
    if target < 0 || target <= c.finalHeight then c
    else c.(finalHash := Path(c.entries, c.tip)[target].hash, finalHeight := target)
  }

  ghost function Rejection(c: Chain, e: ChainEntry): Option<ChainError>
    requires Inv(c)
  {
    if e.parentHash !in c.entries && e.hash != ZERO then Some(UnknownParent(e.parentHash))
    else if e.hash in c.entries then Some(DuplicateBlock(e.hash))
    else if e.hash != ZERO && !Ancestor(c.entries, c.finalHash, e.parentHash) then
      Some(ConflictsWithFinalized(c.finalHeight, e.height))
    else None
  }

  /** When each check refuses, and with what; a block passes exactly when it is new, is not
      genesis and its parent descends from the finalized block. */
  lemma RejectionExactly(c: Chain, e: ChainEntry)
    requires Inv(c)
    ensures var known, unseen := e.parentHash in c.entries, e.hash !in c.entries;
            var descends := known && Ancestor(c.entries, c.finalHash, e.parentHash);
            match Rejection(c, e)
            case None => e.hash != ZERO && known && unseen && descends
            case Some(UnknownParent(h)) => e.hash != ZERO && !known && h == e.parentHash
            case Some(DuplicateBlock(h)) => (e.hash == ZERO || known) && !unseen && h == e.hash
            case Some(ConflictsWithFinalized(f, h)) =>
              e.hash != ZERO && known && unseen && !descends && f == c.finalHeight && h == e.height
  {
  }

  predicate BecomesTip(c: Chain, e: ChainEntry)
    requires c.tip in c.entries
  {
    var h := c.entries[c.tip].height;
    e.height > h || (e.height == h && e.hash < c.tip)
  }

  /** The state after a block that passed every check has been stored. */
  function Insert(c: Chain, e: ChainEntry): Chain {
    RecordEquivocation(c.(entries := c.entries[e.hash := e]), KeyOf(e), e.hash)
  }

  ghost function Accept(c: Chain, e: ChainEntry): Chain
    requires c.tip in c.entries && WellFormed(c.entries[e.hash := e])
  {
    if BecomesTip(c, e) then AdvanceFinality(Insert(c, e).(tip := e.hash)) else Insert(c, e)
  }

  ghost function AddBlock(c: Chain, e: ChainEntry): (r: (Result<bool, ChainError>, Chain))
    requires Inv(c) && Validated(c, e)
  {
    var rejection := Rejection(c, e);
    if rejection.Some? then (Err(rejection.value), c) else
    AcceptedDescendsFromFinal(c, e);
    (Ok(BecomesTip(c, e)), Accept(c, e))
  }

  /** What a node does with an offered block: validate the header, then add. */
  ghost function Offer(c: Chain, e: ChainEntry): (r: Chain)
    requires Inv(c)
    ensures Inv(r) && r.k == c.k
  {
    if Validated(c, e) then AddBlockKeepsInv(c, e); AddBlock(c, e).1 else c
  }

  /** The state after any sequence of offered blocks whatsoever. */
  ghost function Run(k: U64, blocks: seq<ChainEntry>): (c: Chain)
    ensures Inv(c) && c.k == k
  {
    if blocks == [] then
      GenesisIsInv(k);
      GenesisChain(k)
    else Offer(Run(k, blocks[..|blocks| - 1]), blocks[|blocks| - 1])
  }

  lemma GenesisIsInv(k: U64)
    ensures Inv(GenesisChain(k))
  {
    assert Path(GenesisChain(k).entries, ZERO) == [GENESIS];
  }

  // ----- every step keeps the invariant -----

  lemma FinalIsAncestorOfTip(c: Chain)
    requires Inv(c)
    ensures c.finalHash in c.entries && c.entries[c.finalHash].height == c.finalHeight
    ensures Path(c.entries, c.finalHash) == Path(c.entries, c.tip)[..c.finalHeight + 1]
  {
    PathPrefix(c.entries, c.tip, c.finalHeight);
  }

  lemma EvidenceStaysExact(c: Chain, e: ChainEntry)
    requires EvidenceIsExact(c) && e.hash !in c.entries && e.hash != ZERO
    ensures EvidenceIsExact(RecordEquivocation(c.(entries := c.entries[e.hash := e]), KeyOf(e), e.hash))
  {
    var d := RecordEquivocation(c.(entries := c.entries[e.hash := e]), KeyOf(e), e.hash);
    IndexStaysExact(c, e, d);
    ProofsStaySound(c, e, d);
    ProofsStayComplete(c, e, d);
  }

  lemma IndexStaysExact(c: Chain, e: ChainEntry, d: Chain)
    requires IndexIsExact(c) && e.hash !in c.entries && e.hash != ZERO
    requires d == RecordEquivocation(c.(entries := c.entries[e.hash := e]), KeyOf(e), e.hash)
    ensures IndexIsExact(d)
  {
  }

  lemma ProofsStaySound(c: Chain, e: ChainEntry, d: Chain)
    requires IndexIsExact(c) && ProofsAreSound(c) && e.hash !in c.entries && e.hash != ZERO
    requires d == RecordEquivocation(c.(entries := c.entries[e.hash := e]), KeyOf(e), e.hash)
    ensures ProofsAreSound(d)
  {
    forall key | key in d.equivocations ensures ProofIsSound(d, key, d.equivocations[key]) {
      if key in c.equivocations {
        assert ProofIsSound(c, key, c.equivocations[key]);
      }
    }
  }

  lemma ProofsStayComplete(c: Chain, e: ChainEntry, d: Chain)
    requires IndexIsExact(c) && ProofsAreComplete(c) && e.hash !in c.entries && e.hash != ZERO
    requires d == RecordEquivocation(c.(entries := c.entries[e.hash := e]), KeyOf(e), e.hash)
    ensures ProofsAreComplete(d)
  {
    forall a, b | a in d.entries && b in d.entries && SamePair(d.entries, a, b)
      ensures KeyOf(d.entries[a]) in d.equivocations
    {
      if a != e.hash && b != e.hash {
        assert SamePair(c.entries, a, b);
      } else {
        var other := if a == e.hash then b else a;
        assert KeyOf(c.entries[other]) in c.slotProducers;
      }
    }
  }

  /** An accepted block's path extends the finalized block's path. */
  lemma AcceptedDescendsFromFinal(c: Chain, e: ChainEntry)
    requires Inv(c) && Validated(c, e) && Rejection(c, e).None?
    ensures e.hash != ZERO && e.hash !in c.entries && Linked(c.entries, e)
    ensures Extends(c.entries, c.entries[e.hash := e])
    ensures c.finalHash in c.entries
    ensures Path(c.entries, c.finalHash) <= Path(c.entries, e.parentHash)
    ensures Path(c.entries, c.finalHash) <= Path(c.entries[e.hash := e], e.hash)
  {
    AncestorIffPrefix(c.entries, c.finalHash, e.parentHash);
    InsertKeepsTree(c.entries, e);
  }

  lemma NewTipIsBest(c: Chain, e: ChainEntry, d: Chain)
    requires TipIsBest(c) && e.hash !in c.entries && d.entries == c.entries[e.hash := e]
    requires d.tip == if BecomesTip(c, e) then e.hash else c.tip
    ensures TipIsBest(d)
  {
    forall h | h in d.entries ensures AtLeastAsGood(d.entries, d.tip, h) {
      if h != e.hash { assert AtLeastAsGood(c.entries, c.tip, h); }
    }
  }

  /** Switching to a tip at least as high that extends the finalized path leaves
      the advanced finalized point exactly `k` below the new tip. */
  lemma AdvanceKeepsFinalKDeep(c: Chain, d: Chain)
    requires Inv(c) && WellFormed(d.entries) && d.tip in d.entries && d.k == c.k
    requires d.finalHash == c.finalHash && d.finalHeight == c.finalHeight
    requires d.entries[d.tip].height >= c.entries[c.tip].height
    requires c.finalHash in c.entries && Path(c.entries, c.finalHash) <= Path(d.entries, d.tip)
    ensures FinalIsKDeep(AdvanceFinality(d))
  {
    FinalIsAncestorOfTip(c);
    assert Path(d.entries, d.tip)[c.finalHeight] == Path(c.entries, c.finalHash)[c.finalHeight];
  }

  lemma AcceptKeepsInv(c: Chain, e: ChainEntry)
    requires Inv(c) && Extends(c.entries, c.entries[e.hash := e]) && e.hash !in c.entries
    requires c.finalHash in c.entries
    requires Path(c.entries, c.finalHash) <= Path(c.entries[e.hash := e], e.hash)
    ensures Inv(Accept(c, e)) && Accept(c, e).k == c.k
  {
    var c1 := Insert(c, e);
    NewTipIsBest(c, e, Accept(c, e));
    if BecomesTip(c, e) {
      AdvanceKeepsFinalKDeep(c, c1.(tip := e.hash));
    } else {
      assert Path(c1.entries, c.tip) == Path(c.entries, c.tip);
    }
  }

  lemma AddBlockKeepsInv(c: Chain, e: ChainEntry)
    requires Inv(c) && Validated(c, e)
    ensures Inv(AddBlock(c, e).1) && AddBlock(c, e).1.k == c.k
  {
    if Rejection(c, e).None? {
      AcceptedDescendsFromFinal(c, e);
      AcceptKeepsInv(c, e);
    }
  }

  // ----- finality over whole runs -----

  /** Every block of `c` keeps its path in `d`, and so does the finalized one. */
  ghost predicate FinalGrows(c: Chain, d: Chain) {
    && Extends(c.entries, d.entries)
    && c.finalHash in c.entries && d.finalHash in d.entries
    && Path(c.entries, c.finalHash) <= Path(d.entries, d.finalHash)
  }

  lemma FinalGrowsReflexive(c: Chain)
    requires Inv(c)
    ensures FinalGrows(c, c)
  {
    FinalIsAncestorOfTip(c);
  }

  /** A tip that extends the old finalized path has its own finalized block
      on that path or above it. */
  lemma FinalGrowsUnderTip(c: Chain, d: Chain)
    requires Inv(c) && Inv(d) && Extends(c.entries, d.entries)
    requires c.finalHash in c.entries && c.finalHeight <= d.finalHeight
    requires Path(c.entries, c.finalHash) <= Path(d.entries, d.tip)
    ensures FinalGrows(c, d)
  {
    FinalIsAncestorOfTip(c);
    FinalIsAncestorOfTip(d);
  }

  lemma AcceptExtendsFinal(c: Chain, e: ChainEntry)
    requires Inv(c) && Extends(c.entries, c.entries[e.hash := e]) && e.hash !in c.entries
    requires c.finalHash in c.entries
    requires Path(c.entries, c.finalHash) <= Path(c.entries[e.hash := e], e.hash)
    ensures FinalGrows(c, Accept(c, e))
  {
    AcceptKeepsInv(c, e);
    var d := Accept(c, e);
    assert d.entries == c.entries[e.hash := e] && c.finalHeight <= d.finalHeight;
    assert Path(c.entries, c.finalHash) <= Path(d.entries, d.tip) by {
      if !BecomesTip(c, e) {
        FinalIsAncestorOfTip(c);
        assert Path(d.entries, c.tip) == Path(c.entries, c.tip);
      }
    }
    FinalGrowsUnderTip(c, d);
  }

  lemma StepExtendsFinal(c: Chain, e: ChainEntry)
    requires Inv(c)
    ensures FinalGrows(c, Offer(c, e))
  {
    if Validated(c, e) && Rejection(c, e).None? {
      AcceptedDescendsFromFinal(c, e);
      AcceptExtendsFinal(c, e);
    } else {
      FinalGrowsReflexive(c);
    }
  }

  lemma FinalGrowsTransitive(c: Chain, d: Chain, e: Chain)
    requires FinalGrows(c, d) && FinalGrows(d, e)
    ensures FinalGrows(c, e)
  {
    ExtendsTransitive(c.entries, d.entries, e.entries);
  }

  /** Between any two moments of a run, the finalized path only grows. */
  lemma {:induction false} FinalityIsMonotone(k: U64, blocks: seq<ChainEntry>, n: nat)
    requires n <= |blocks|
    ensures FinalGrows(Run(k, blocks[..n]), Run(k, blocks))
  {
    if n == |blocks| {
      assert blocks[..n] == blocks;
      FinalGrowsReflexive(Run(k, blocks));
    } else {
      var front := blocks[..|blocks| - 1];
      assert front[..n] == blocks[..n];
      FinalityIsMonotone(k, front, n);
      StepExtendsFinal(Run(k, front), blocks[|blocks| - 1]);
      FinalGrowsTransitive(Run(k, blocks[..n]), Run(k, front), Run(k, blocks));
    }
  }

  ghost predicate Descends(c: Chain, es: Entries, h: Digest)
    requires WellFormed(es) && h in es && WellFormed(c.entries) && c.finalHash in c.entries
  {
    h in c.entries || Path(c.entries, c.finalHash) <= Path(es, h)
  }

  /** Every block of `es` that `c` lacks descends from the block final in `c`. */
  ghost predicate NewcomersDescend(c: Chain, es: Entries)
    requires WellFormed(es) && WellFormed(c.entries) && c.finalHash in c.entries
  {
    forall h {:trigger Descends(c, es, h)} :: h in es ==> Descends(c, es, h)
  }

  lemma InsertedDescends(c: Chain, d: Chain, es: Entries, h: Digest)
    requires FinalGrows(c, d) && NewcomersDescend(c, d.entries)
    requires Extends(d.entries, es) && h in es
    requires h in d.entries || Path(d.entries, d.finalHash) <= Path(es, h)
    ensures Descends(c, es, h)
  {
    if h in d.entries {
      assert Descends(c, d.entries, h);
      assert Path(es, h) == Path(d.entries, h);
    }
  }

  lemma NewcomersStayDescended(c: Chain, d: Chain, es: Entries, e: Digest)
    requires FinalGrows(c, d) && NewcomersDescend(c, d.entries)
    requires Extends(d.entries, es) && es.Keys == d.entries.Keys + {e}
    requires Path(d.entries, d.finalHash) <= Path(es, e)
    ensures NewcomersDescend(c, es)
  {
    forall h | h in es ensures Descends(c, es, h) {
      InsertedDescends(c, d, es, h);
    }
  }

  lemma StepNewcomersDescend(c: Chain, d: Chain, e: ChainEntry)
    requires Inv(d) && FinalGrows(c, d) && NewcomersDescend(c, d.entries)
    ensures NewcomersDescend(c, Offer(d, e).entries)
  {
    if Validated(d, e) && Rejection(d, e).None? {
      AcceptedDescendsFromFinal(d, e);
      NewcomersStayDescended(c, d, d.entries[e.hash := e], e.hash);
    }
  }

  /** Every block accepted after some moment of a run descends from what was final then. */
  lemma {:induction false} LaterBlocksDescend(k: U64, blocks: seq<ChainEntry>, n: nat)
    requires n <= |blocks|
    ensures FinalGrows(Run(k, blocks[..n]), Run(k, blocks))
    ensures NewcomersDescend(Run(k, blocks[..n]), Run(k, blocks).entries)
  {
    FinalityIsMonotone(k, blocks, n);
    if n == |blocks| {
      assert blocks[..n] == blocks;
    } else {
      var front := blocks[..|blocks| - 1];
      assert front[..n] == blocks[..n];
      LaterBlocksDescend(k, front, n);
      StepNewcomersDescend(Run(k, blocks[..n]), Run(k, front), blocks[|blocks| - 1]);
    }
  }

  ghost predicate IsFinal(c: Chain, h: Digest)
    requires Inv(c)
  {
    FinalIsAncestorOfTip(c);
    Ancestor(c.entries, h, c.finalHash)
  }

  lemma FinalStaysFinal(c: Chain, d: Chain, h: Digest)
    requires Inv(c) && Inv(d) && FinalGrows(c, d) && IsFinal(c, h)
    ensures IsFinal(d, h)
  {
    AncestorIffPrefix(c.entries, h, c.finalHash);
    AncestorIffPrefix(d.entries, h, d.finalHash);
  }

  /** A block once final is final forever, through every reorganisation. */
  lemma OnceFinalAlwaysFinal(k: U64, blocks: seq<ChainEntry>, n: nat, h: Digest)
    requires n <= |blocks| && IsFinal(Run(k, blocks[..n]), h)
    ensures IsFinal(Run(k, blocks), h)
  {
    FinalityIsMonotone(k, blocks, n);
    FinalStaysFinal(Run(k, blocks[..n]), Run(k, blocks), h);
  }

  lemma FinalBlocksAreComparable(d: Chain, a: Digest, b: Digest)
    requires Inv(d) && IsFinal(d, a) && IsFinal(d, b)
    ensures a in d.entries && b in d.entries
    ensures Ancestor(d.entries, a, b) || Ancestor(d.entries, b, a)
    ensures d.entries[a].height == d.entries[b].height ==> a == b
  {
    FinalIsAncestorOfTip(d);
    var es := d.entries;
    AncestorIffPrefix(es, a, d.finalHash);
    AncestorIffPrefix(es, b, d.finalHash);
    AncestorIffPrefix(es, a, b);
    AncestorIffPrefix(es, b, a);
    assert Placed(es, a) && Placed(es, b);
    if es[a].height == es[b].height {
      assert Path(es, a) == Path(es, b);
    }
  }

  /** All blocks ever finalized lie on one chain: at each height, at most one. */
  lemma FinalizedBlocksNeverConflict(k: U64, blocks: seq<ChainEntry>, m: nat, n: nat, a: Digest, b: Digest)
    requires m <= |blocks| && n <= |blocks|
    requires IsFinal(Run(k, blocks[..m]), a) && IsFinal(Run(k, blocks[..n]), b)
    ensures var es := Run(k, blocks).entries;
            && a in es && b in es
            && (Ancestor(es, a, b) || Ancestor(es, b, a))
            && (es[a].height == es[b].height ==> a == b)
  {
    OnceFinalAlwaysFinal(k, blocks, m, a);
    OnceFinalAlwaysFinal(k, blocks, n, b);
    FinalBlocksAreComparable(Run(k, blocks), a, b);
  }

  // ----- equivocation evidence over whole runs -----

  lemma StepKeepsEvidence(c: Chain, e: ChainEntry)
    requires Inv(c) && EvidenceIsExact(c)
    ensures EvidenceIsExact(Offer(c, e))
  {
    if Validated(c, e) && Rejection(c, e).None? {
      EvidenceStaysExact(c, e);
    }
  }

  /** In every reachable state, evidence is held for exactly the producers that
      have two accepted blocks in one slot. */
  lemma {:induction false} RunKeepsEvidence(k: U64, blocks: seq<ChainEntry>)
    ensures EvidenceIsExact(Run(k, blocks))
  {
    if blocks != [] {
      var front := blocks[..|blocks| - 1];
      RunKeepsEvidence(k, front);
      StepKeepsEvidence(Run(k, front), blocks[|blocks| - 1]);
    }
  }

  // ----- which two blocks a proof names -----

  /** The hashes of the accepted blocks of one pair, in the order of acceptance. */
  ghost function AcceptedOf(k: U64, blocks: seq<ChainEntry>, key: SlotKey): seq<Digest> {
    if blocks == [] then []
    else
      var front, e := blocks[..|blocks| - 1], blocks[|blocks| - 1];
      var earlier := AcceptedOf(k, front, key);
      if KeyOf(e) == key && e.hash !in Run(k, front).entries && e.hash in Run(k, blocks).entries
      then earlier + [e.hash] else earlier
  }

  /** The index holds the first of the listed blocks, the proof the first two. */
  ghost predicate NamesFirstTwo(c: Chain, key: SlotKey, accepted: seq<Digest>) {
    && (key in c.slotProducers <==> |accepted| >= 1)
    && (key in c.slotProducers ==> c.slotProducers[key] == accepted[0])
    && (key in c.equivocations <==> |accepted| >= 2)
    && (key in c.equivocations ==> c.equivocations[key] == EquivocationProof(key.0, key.1, accepted[0], accepted[1]))
    && forall i :: 0 <= i < |accepted| ==> accepted[i] in c.entries
  }

  lemma RecordNamesFirstTwo(c: Chain, e: ChainEntry, key: SlotKey, accepted: seq<Digest>)
    requires NamesFirstTwo(c, key, accepted) && e.hash !in c.entries
    ensures NamesFirstTwo(Insert(c, e), key, if KeyOf(e) == key then accepted + [e.hash] else accepted)
  {
  }

  /** `d` is `c` with the block inserted, whatever became of the tip. */
  ghost predicate Holds(c: Chain, e: ChainEntry, d: Chain) {
    && e.hash != ZERO && e.hash !in c.entries && d.entries == c.entries[e.hash := e]
    && d.slotProducers == Insert(c, e).slotProducers && d.equivocations == Insert(c, e).equivocations
  }

  lemma AcceptHolds(c: Chain, e: ChainEntry)
    requires c.tip in c.entries && WellFormed(c.entries[e.hash := e]) && e.hash != ZERO && e.hash !in c.entries
    ensures Holds(c, e, Accept(c, e))
  {
  }

  lemma OfferInsertsOrRefuses(c: Chain, e: ChainEntry)
    requires Inv(c)
    ensures Offer(c, e) == c || Holds(c, e, Offer(c, e))
  {
    if Validated(c, e) && Rejection(c, e).None? {
      AcceptedDescendsFromFinal(c, e);
      AcceptHolds(c, e);
      assert Offer(c, e) == Accept(c, e);
    }
  }

  /** An offered block is taken exactly when it is new, is not genesis, follows its parent in
      height and slot, and that parent descends from the finalized block. */
  lemma OfferTakesExactly(c: Chain, e: ChainEntry)
    requires Inv(c)
    ensures Offer(c, e) != c <==> e.hash != ZERO && e.hash !in c.entries && Linked(c.entries, e)
                                  && Ancestor(c.entries, c.finalHash, e.parentHash)
    ensures Offer(c, e) != c ==> Offer(c, e).entries == c.entries[e.hash := e]
  {
    OfferInsertsOrRefuses(c, e);
    if Validated(c, e) {
      RejectionExactly(c, e);
      if Rejection(c, e).None? {
        AcceptedDescendsFromFinal(c, e);
        AcceptHolds(c, e);
        assert Offer(c, e) == Accept(c, e);
        assert e.hash in Accept(c, e).entries;
      }
    }
  }

  lemma StepNamesFirstTwo(c: Chain, e: ChainEntry, d: Chain, key: SlotKey, accepted: seq<Digest>)
    requires NamesFirstTwo(c, key, accepted) && (d == c || Holds(c, e, d))
    ensures NamesFirstTwo(d, key, if KeyOf(e) == key && e.hash !in c.entries && e.hash in d.entries
                                  then accepted + [e.hash] else accepted)
  {
    if d != c { RecordNamesFirstTwo(c, e, key, accepted); }
  }

  /** Over every run: the first-seen hash of a (slot, producer) pair is its first accepted
      block, a proof is held exactly when a second one was accepted, and names these two
      however many follow. */
  lemma {:induction false} ProofsNameFirstTwo(k: U64, blocks: seq<ChainEntry>, key: SlotKey)
    ensures NamesFirstTwo(Run(k, blocks), key, AcceptedOf(k, blocks, key))
  {
    if blocks != [] {
      var front := blocks[..|blocks| - 1];
      ProofsNameFirstTwo(k, front, key);
      OfferInsertsOrRefuses(Run(k, front), blocks[|blocks| - 1]);
      StepNamesFirstTwo(Run(k, front), blocks[|blocks| - 1], Run(k, blocks), key, AcceptedOf(k, front, key));
    }
  }

  lemma {:induction false} AcceptedGrows(k: U64, blocks: seq<ChainEntry>, key: SlotKey, n: nat)
    requires n <= |blocks|
    ensures AcceptedOf(k, blocks[..n], key) <= AcceptedOf(k, blocks, key)
  {
    if n < |blocks| {
      var front := blocks[..|blocks| - 1];
      assert front[..n] == blocks[..n];
      AcceptedGrows(k, front, key, n);
    } else {
      assert blocks[..n] == blocks;
    }
  }

  /** A first-seen hash and a proof, once held, never change. */
  lemma EvidenceNeverChanges(k: U64, blocks: seq<ChainEntry>, key: SlotKey, n: nat)
    requires n <= |blocks|
    ensures var c, d := Run(k, blocks[..n]), Run(k, blocks);
            && (key in c.slotProducers ==> key in d.slotProducers && d.slotProducers[key] == c.slotProducers[key])
            && (key in c.equivocations ==> key in d.equivocations && d.equivocations[key] == c.equivocations[key])
  {
    ProofsNameFirstTwo(k, blocks[..n], key);
    ProofsNameFirstTwo(k, blocks, key);
    AcceptedGrows(k, blocks, key, n);
  }

  /** The list holds the pair's accepted blocks, each once. */
  ghost predicate Lists(es: Entries, key: SlotKey, a: seq<Digest>) {
    && (forall i, j :: 0 <= i < j < |a| ==> a[i] != a[j])
    && forall h :: h in a <==> h in es && h != ZERO && KeyOf(es[h]) == key
  }

  lemma ListsOneMore(es: Entries, e: ChainEntry, key: SlotKey, a: seq<Digest>)
    requires Lists(es, key, a) && e.hash !in es && e.hash != ZERO
    ensures Lists(es[e.hash := e], key, if KeyOf(e) == key then a + [e.hash] else a)
  {
    forall h | h in a ensures h != e.hash { assert h in es; }
    if KeyOf(e) == key { assert forall h :: h in a + [e.hash] <==> h in a || h == e.hash; }
  }

  /** `AcceptedOf` lists exactly the accepted blocks of the pair, each once. */
  lemma {:induction false} AcceptedOfLists(k: U64, blocks: seq<ChainEntry>, key: SlotKey)
    ensures Lists(Run(k, blocks).entries, key, AcceptedOf(k, blocks, key))
  {
    if blocks == [] {
      assert Run(k, blocks) == GenesisChain(k);
    } else {
      var front, e := blocks[..|blocks| - 1], blocks[|blocks| - 1];
      AcceptedOfLists(k, front, key);
      OfferInsertsOrRefuses(Run(k, front), e);
      if Run(k, blocks) != Run(k, front) { ListsOneMore(Run(k, front).entries, e, key, AcceptedOf(k, front, key)); }
    }
  }
}
