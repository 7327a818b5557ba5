/** The mutable chain index: the loops that walk the block tree, and add_block
    as a refinement of the transition function in `ForkChoice`. */
module ChainState {
  import opened Words
  import opened BlockTree
  import opened ForkChoice

  class ChainState {
    var entries: Entries
    var tip: Digest
    var k: U64
    var finalHash: Digest
    var finalHeight: U64
    var slotProducers: map<SlotKey, Digest>
    var equivocations: map<SlotKey, EquivocationProof>

    ghost function View(): Chain
      reads this
    {
      Chain(entries, tip, k, finalHash, finalHeight, slotProducers, equivocations)
    }

    ghost predicate Valid()
      reads this
    {
      Inv(View())
    }

    constructor Genesis(k: U64)
      ensures View() == GenesisChain(k) && Valid()
    {
      entries, tip, this.k := map[ZERO := GENESIS], ZERO, k;
      finalHash, finalHeight := ZERO, 0;
      slotProducers, equivocations := map[], map[];
      new;
      GenesisIsInv(k);
    }

    /** Whether `ancestor` lies on the parent links of `descendant`; false when
        either block is unknown. */
    method IsAncestor(ancestor: Digest, descendant: Digest) returns (r: bool)
      requires WellFormed(entries)
      ensures r <==> descendant in entries && ancestor in entries && Ancestor(entries, ancestor, descendant)
    {
      if ancestor !in entries || descendant !in entries {
        return false;
      }
      AncestorIffPrefix(entries, ancestor, descendant);
      var target := entries[ancestor].height;
      var current := descendant;
      while current != ancestor
        invariant current in entries
        invariant Path(entries, ancestor) <= Path(entries, descendant)
                  <==> Path(entries, ancestor) <= Path(entries, current)
        decreases entries[current].height
      {
        assert Placed(entries, current);
        var height, parent := entries[current].height, entries[current].parentHash;
        if height <= target {
          if Path(entries, ancestor) <= Path(entries, current) {
            PrefixAtSameHeight(entries, ancestor, current);
          }
          return false;
        }
        if current == parent {
          return false;
        }
        ghost var p, q := Path(entries, current), Path(entries, parent);
        assert p[..|q|] == q;
        current := parent;
      }
      return true;
    }

    /** Whether a block is final. */
    method IsFinal(hash: Digest) returns (r: bool)
      requires Valid()
      ensures r <==> ForkChoice.IsFinal(View(), hash)
    {
      FinalIsAncestorOfTip(View());
      AncestorIffPrefix(entries, hash, finalHash);
      r := IsAncestor(hash, finalHash);
    }

    /** The last `count` entries of the path to `hash`, newest first. */
    method Ancestors(hash: Digest, count: nat) returns (result: seq<ChainEntry>)
      requires WellFormed(entries)
      ensures hash !in entries ==> result == []
      ensures hash in entries ==>
                var p := Path(entries, hash);
                |result| == Min(count, |p|)
                && forall i :: 0 <= i < |result| ==> result[i] == p[|p| - 1 - i]
    {
      result := [];
      var current := hash;
      if hash in entries {
        ghost var p := Path(entries, hash);
        var n := 0;
        while n < count
          invariant n == |result| && n <= count && n < |p|
          invariant current in entries && Path(entries, current) == p[..|p| - n]
          invariant forall i :: 0 <= i < n ==> result[i] == p[|p| - 1 - i]
        {
          var entry := entries[current];
          assert Placed(entries, current);
          assert entry == p[..|p| - n][|p| - n - 1];
          result := result + [entry];
          if current == entry.parentHash {
            return;
          }
          PathPrefix(entries, current, |p| - n - 2);
          assert Path(entries, entry.parentHash) == p[..|p| - n][..|p| - n - 1] == p[..|p| - n - 1];
          current := entry.parentHash;
          n := n + 1;
        }
      }
    }

    /** The canonical chain, genesis first. The bound `|entries|` never cuts it. */
    method CanonicalChain() returns (chain: seq<ChainEntry>)
      requires Valid()
      ensures chain == Path(entries, tip)
    {
      PathFits(entries, tip);
      var newestFirst := Ancestors(tip, |entries|);
      chain := seq(|newestFirst|, i requires 0 <= i < |newestFirst| => newestFirst[|newestFirst| - 1 - i]);
    }

    /** Move the finalized point to `k` below the tip, never backwards. */
    method AdvanceFinality()
      requires WellFormed(entries) && tip in entries
      modifies this`finalHash, this`finalHeight
      ensures View() == ForkChoice.AdvanceFinality(old(View()))
    {
      var tipHeight := entries[tip].height;
      if tipHeight < k {
        return;
      }
      var target := tipHeight - k;
      if target <= finalHeight {
        return;
      }
      ghost var p := Path(entries, tip);
      var current := tip;
      while entries[current].height != target
        invariant current in entries && entries[current].height >= target
        invariant Path(entries, current) <= p
        invariant unchanged(this)
        decreases entries[current].height
      {
        assert Placed(entries, current);
        PathPrefix(entries, current, entries[current].height - 1);
        current := entries[current].parentHash;
      }
      assert Placed(entries, current);
      assert p[target] == Path(entries, current)[target];
      finalHash, finalHeight := current, target;
    }

    /** Index a block by (slot, producer); keep the first conflict as evidence. */
    method RecordEquivocation(slot: U64, producer: Digest, hash: Digest)
      modifies this`slotProducers, this`equivocations
      ensures View() == ForkChoice.RecordEquivocation(old(View()), (slot, producer), hash)
    {
      var key := (slot, producer);
      if key in slotProducers {
        var first := slotProducers[key];
        if first != hash && key !in equivocations {
          equivocations := equivocations[key := EquivocationProof(slot, producer, first, hash)];
        }
      } else {
        slotProducers := slotProducers[key := hash];
      }
    }

    /** The checks of add_block, in order; nothing changes. */
    method Check(e: ChainEntry) returns (r: Option<ChainError>)
      requires Valid()
      ensures r == Rejection(View(), e)
    {
      if e.parentHash !in entries && e.hash != ZERO {
        return Some(UnknownParent(e.parentHash));
      }
      if e.hash in entries {
        return Some(DuplicateBlock(e.hash));
      }
      FinalIsAncestorOfTip(View());
      if e.hash != ZERO {
        var descends := IsAncestor(finalHash, e.parentHash);
        if !descends {
          return Some(ConflictsWithFinalized(finalHeight, e.height));
        }
      }
      return None;
    }

    /** Store a block that passed the checks, and choose the tip. */
    method Store(e: ChainEntry) returns (switched: bool)
      requires tip in entries && WellFormed(entries[e.hash := e]) && e.hash !in entries
      modifies this
      ensures switched == BecomesTip(old(View()), e) && View() == Accept(old(View()), e)
    {
      entries := entries[e.hash := e];
      RecordEquivocation(e.slot, e.producer, e.hash);
      assert View() == Insert(old(View()), e);
      var tipHeight := entries[tip].height;
      switched := e.height > tipHeight || (e.height == tipHeight && e.hash < tip);
      if switched {
        tip := e.hash;
        AdvanceFinality();
      }
    }

    /** Add a block whose header has been validated against its parent. */
    method AddBlock(e: ChainEntry) returns (r: Result<bool, ChainError>)
      requires Valid() && Validated(View(), e)
      modifies this
      ensures Valid() && (r, View()) == ForkChoice.AddBlock(old(View()), e)
    {
      AddBlockKeepsInv(View(), e);
      var rejection := Check(e);
      if rejection.Some? {
        return Err(rejection.value);
      }
      AcceptedDescendsFromFinal(View(), e);
      var switched := Store(e);
      return Ok(switched);
    }
  }
}
