/** Header synchronisation: block locators and the server's answer to them. */
module HeaderSync {
  import opened Words
  import opened BlockTree
  import opened MaxvalidBg

  // ----- build_locator -----

  /** Distance below the tip of the n-th locator entry: ten dense, then doubling. */
  function Distance(n: nat): nat {
    if n < 10 then n else 8 + Pow2(n - 9)
  }

  lemma DistanceStep(n: nat)
    ensures Distance(n + 1) == Distance(n) + (if n + 1 < 10 then 1 else Pow2(Max(0, n - 9)))
    ensures Distance(n) < Distance(n + 1) && n <= Distance(n)
  {
  }

  /** The chain position of the n-th locator entry of a chain of `len` blocks. */
  function Position(len: nat, n: nat): nat {
    Max(0, len - 1 - Distance(n))
  }

  /** `locator` is exactly the hashes at the locator positions, down to genesis. */
  ghost predicate IsLocator(chain: seq<ChainEntry>, locator: seq<Digest>) {
    && (chain == [] <==> locator == [])
    && (forall n :: 0 <= n < |locator| ==> locator[n] == chain[Position(|chain|, n)].hash)
    && (forall n :: 0 <= n < |locator| - 1 ==> Position(|chain|, n) > 0)
    && (chain != [] ==> Position(|chain|, |locator| - 1) == 0)
  }

  method BuildLocator(chain: seq<ChainEntry>) returns (locator: seq<Digest>)
    requires |chain| <= U64_MAX
    ensures IsLocator(chain, locator)
  {
    locator := [];
    if chain == [] {
      return;
    }
    var idx := |chain| - 1;
    var step: U64 := 1;
    while true
      invariant 0 <= idx < |chain| && idx == Position(|chain|, |locator|)
      invariant |locator| < 10 ==> step == 1
      invariant |locator| >= 10 ==> step == Min(Pow2(|locator| - 9), U64_MAX)
      invariant forall n :: 0 <= n < |locator| ==> locator[n] == chain[Position(|chain|, n)].hash
      invariant forall n :: 0 <= n < |locator| ==> Position(|chain|, n) > 0
      decreases idx
    {
      locator := locator + [chain[idx].hash];
      if idx == 0 {
        break;
      }
      var stride := if |locator| < 10 then 1 else step;
      if |locator| >= 10 {
        step := SatMul64(step, 2);
      }
      DistanceStep(|locator| - 1);
      idx := Max(0, idx - stride);
    }
  }

  function CeilLog2(n: nat): (m: nat)
    ensures n <= Pow2(m) && (m > 0 ==> Pow2(m - 1) < n)
  {
    if n <= 1 then 0 else
    var m := CeilLog2((n + 1) / 2) + 1;
    assert Pow2(m) == 2 * Pow2(m - 1);
    assert m > 1 ==> Pow2(m - 1) == 2 * Pow2(m - 2);
    m
  }

  /** A locator runs from the tip to genesis in at most 10 + ceil(log2 n) hashes. */
  lemma LocatorIsShort(chain: seq<ChainEntry>, locator: seq<Digest>)
    requires IsLocator(chain, locator) && chain != []
    ensures locator[0] == chain[|chain| - 1].hash && locator[|locator| - 1] == chain[0].hash
    ensures |locator| <= 10 + CeilLog2(|chain|)
  {
    var last := |locator| - 1;
    if last >= 11 {
      assert Position(|chain|, last - 1) > 0;
      assert Pow2(last - 10) < |chain| <= Pow2(CeilLog2(|chain|));
      if CeilLog2(|chain|) < last - 10 + 1 { Pow2Monotone(CeilLog2(|chain|), last - 10); }
    }
  }

  /** The locator names the tip and the ten blocks below it, then each gap is twice the last;
      past genesis it stops there. */
  lemma LocatorGaps(chain: seq<ChainEntry>, locator: seq<Digest>, n: nat)
    requires IsLocator(chain, locator) && n < |locator|
    ensures n <= 10 ==> locator[n] == chain[Max(0, |chain| - 1 - n)].hash
    ensures n > 10 ==>
              exists a: nat, b: nat ::
                b < a < |chain| && locator[n - 2] == chain[a].hash && locator[n - 1] == chain[b].hash
                && locator[n] == chain[Max(0, b - 2 * (a - b))].hash
  {
    if n > 10 {
      var a, b := Position(|chain|, n - 2), Position(|chain|, n - 1);
      DistanceStep(n - 2);
      DistanceStep(n - 1);
      assert b > 0;
      assert Pow2(n - 10) == 2 * Pow2(n - 11);
      assert locator[n - 2] == chain[a].hash && locator[n - 1] == chain[b].hash;
    } else if n == 10 {
      assert Pow2(1) == 2 * Pow2(0);
    }
  }

  // ----- select_headers_for_locator -----

  function IndexOf(chain: seq<ChainEntry>, h: Digest): (r: Option<nat>)
    ensures r.None? ==> forall i :: 0 <= i < |chain| ==> chain[i].hash != h
    ensures r.Some? ==> r.value < |chain| && chain[r.value].hash == h
    ensures r.Some? ==> forall i :: 0 <= i < r.value ==> chain[i].hash != h
  {
    if chain == [] then None
    else if chain[0].hash == h then Some(0)
    else match IndexOf(chain[1..], h) case None => None case Some(i) => Some(i + 1)
  }

  /** Where the answer starts: after the first locator hash that is known. */
  function StartIndex(chain: seq<ChainEntry>, locator: seq<Digest>): (s: nat)
    ensures s <= |chain|
  {
    if locator == [] then 0
    else match IndexOf(chain, locator[0])
         case Some(i) => i + 1
         case None => StartIndex(chain, locator[1..])
  }

  ghost predicate Unknown(chain: seq<ChainEntry>, h: Digest) { forall i :: 0 <= i < |chain| ==> chain[i].hash != h }

  /** The n-th locator hash is the first one the chain holds, and holds it first at p. */
  ghost predicate FirstKnown(chain: seq<ChainEntry>, locator: seq<Digest>, n: nat, p: nat) {
    && n < |locator| && p < |chain| && chain[p].hash == locator[n]
    && (forall i :: 0 <= i < p ==> chain[i].hash != locator[n])
    && forall m :: 0 <= m < n ==> Unknown(chain, locator[m])
  }

  /** The answer starts at genesis exactly when no locator hash is known, and otherwise right
      after the block of the first known one. */
  lemma {:induction false} StartIndexExactly(chain: seq<ChainEntry>, locator: seq<Digest>)
    ensures StartIndex(chain, locator) == 0 <==> forall n :: 0 <= n < |locator| ==> Unknown(chain, locator[n])
    ensures StartIndex(chain, locator) > 0 ==>
              exists n: nat, p: nat :: FirstKnown(chain, locator, n, p) && StartIndex(chain, locator) == p + 1
  {
    if locator != [] {
      var rest := locator[1..];
      if IndexOf(chain, locator[0]).Some? {
        assert FirstKnown(chain, locator, 0, IndexOf(chain, locator[0]).value);
      } else {
        StartIndexExactly(chain, rest);
        assert Unknown(chain, locator[0]);
        assert forall n :: 0 <= n < |rest| ==> rest[n] == locator[n + 1];
        if StartIndex(chain, rest) > 0 {
          var n: nat, p: nat :| FirstKnown(chain, rest, n, p) && StartIndex(chain, rest) == p + 1;
          forall m | 0 <= m < n + 1 ensures Unknown(chain, locator[m]) {
            if m > 0 { assert Unknown(chain, rest[m - 1]); }
          }
          assert FirstKnown(chain, locator, n + 1, p);
        } else {
          forall n | 0 <= n < |locator| ensures Unknown(chain, locator[n]) {
            if n > 0 { assert Unknown(chain, rest[n - 1]); }
          }
        }
      }
    }
  }

  function Take(chain: seq<ChainEntry>, stop: Digest, max: nat): seq<Digest> {
    if chain == [] || max == 0 then []
    else if stop != ZERO && chain[0].hash == stop then [stop]
    else [chain[0].hash] + Take(chain[1..], stop, max - 1)
  }

  method FindStart(chain: seq<ChainEntry>, locator: seq<Digest>) returns (startIdx: nat)
    ensures startIdx == StartIndex(chain, locator)
  {
    for n := 0 to |locator|
      invariant StartIndex(chain, locator) == StartIndex(chain, locator[n..])
    {
      var found := IndexOf(chain, locator[n]);
      if found.Some? {
        return found.value + 1;
      }
      assert locator[n..][1..] == locator[n + 1..];
    }
    return 0;
  }

  lemma TakeStep(chain: seq<ChainEntry>, i: nat, stop: Digest, max: nat)
    requires i < |chain| && max > 0
    ensures Take(chain[i..], stop, max)
            == [chain[i].hash] + (if stop != ZERO && chain[i].hash == stop then [] else Take(chain[i + 1..], stop, max - 1))
  {
    assert chain[i..][1..] == chain[i + 1..];
  }

  /** `out` has been sent and the blocks from i on are still to be looked at. */
  ghost predicate SentSoFar(whole: seq<Digest>, out: seq<Digest>, chain: seq<ChainEntry>, i: nat, stop: Digest, max: nat)
    requires i <= |chain|
  {
    |out| <= max && whole == out + Take(chain[i..], stop, max - |out|)
  }

  lemma SendOne(whole: seq<Digest>, out: seq<Digest>, chain: seq<ChainEntry>, i: nat, stop: Digest, max: nat)
    requires i < |chain| && |out| < max && SentSoFar(whole, out, chain, i, stop, max)
    ensures if stop != ZERO && chain[i].hash == stop then whole == out + [chain[i].hash]
            else SentSoFar(whole, out + [chain[i].hash], chain, i + 1, stop, max)
  {
    TakeStep(chain, i, stop, max - |out|);
  }

  lemma AllSent(whole: seq<Digest>, out: seq<Digest>, chain: seq<ChainEntry>, i: nat, stop: Digest, max: nat)
    requires i <= |chain| && SentSoFar(whole, out, chain, i, stop, max) && (i == |chain| || |out| == max)
    ensures whole == out
  {
  }

  method SelectHeadersForLocator(chain: seq<ChainEntry>, locator: seq<Digest>, stop: Digest, max: nat)
    returns (out: seq<Digest>)
    ensures out == Take(chain[StartIndex(chain, locator)..], stop, max)
  {
    var startIdx := FindStart(chain, locator);
    out := [];
    var i := startIdx;
    ghost var whole := Take(chain[startIdx..], stop, max);
    while i < |chain|
      invariant i <= |chain| && SentSoFar(whole, out, chain, i, stop, max)
    {
      if |out| >= max {
        break;
      }
      SendOne(whole, out, chain, i, stop, max);
      out := out + [chain[i].hash];
      if stop != ZERO && chain[i].hash == stop {
        return;
      }
      i := i + 1;
    }
    AllSent(whole, out, chain, i, stop, max);
  }

  /** The peer's and the server's chain share exactly their first `c` blocks. */
  ghost predicate ForkedAt(peer: seq<ChainEntry>, server: seq<ChainEntry>, c: nat) {
    && 0 < c <= |peer| && c <= |server| && peer[..c] == server[..c]
    && (forall i, j :: c <= i < |peer| && 0 <= j < |server| ==> peer[i].hash != server[j].hash)
    && (forall i, j :: 0 <= i < j < |server| ==> server[i].hash != server[j].hash)
  }

  lemma DistanceAtMostDoubles(n: nat)
    requires n > 0
    ensures Distance(n) <= 2 * Distance(n - 1) + 1
  {
    if n >= 10 { assert Pow2(n - 9) == 2 * Pow2(n - 10); }
  }

  /** A hash from the part not shared is passed over, one from the shared part is found in place. */
  lemma LookupOfEntry(peer: seq<ChainEntry>, server: seq<ChainEntry>, c: nat, p: nat)
    requires ForkedAt(peer, server, c) && p < |peer|
    ensures IndexOf(server, peer[p].hash) == if p < c then Some(p) else None
  {
    if p < c { assert peer[p] == peer[..c][p] == server[p]; }
  }

  /** The entry before an already shared one lies past the fork, so no more than d blocks are skipped. */
  lemma SharedSoonEnough(len: nat, c: nat, n: nat)
    requires 0 < c <= len && Position(len, n) < c && (n > 0 ==> Position(len, n - 1) >= c)
    ensures c - (Position(len, n) + 1) <= len - c
  {
    if n > 0 { DistanceAtMostDoubles(n); }
  }

  lemma {:induction false} FirstSharedEntry(peer: seq<ChainEntry>, server: seq<ChainEntry>, c: nat,
                                            locator: seq<Digest>, n: nat)
    requires ForkedAt(peer, server, c) && IsLocator(peer, locator) && n < |locator|
    requires n > 0 ==> Position(|peer|, n - 1) >= c
    ensures var start := StartIndex(server, locator[n..]);
            1 <= start <= c && c - start <= |peer| - c
    decreases |locator| - n
  {
    var p := Position(|peer|, n);
    assert locator[n..][0] == locator[n] == peer[p].hash;
    assert locator[n..][1..] == locator[n + 1..];
    LookupOfEntry(peer, server, c, p);
    if p >= c {
      FirstSharedEntry(peer, server, c, locator, n + 1);
    } else {
      SharedSoonEnough(|peer|, c, n);
    }
  }

  /** Against a server whose chain forks d blocks below the peer's tip, the
      answer never skips a missing block and starts at most d blocks early. */
  lemma AnswerStartsAtFork(peer: seq<ChainEntry>, server: seq<ChainEntry>, c: nat, locator: seq<Digest>)
    requires ForkedAt(peer, server, c) && IsLocator(peer, locator)
    ensures 0 < StartIndex(server, locator) <= c && c - StartIndex(server, locator) <= |peer| - c
  {
    assert locator[0..] == locator;
    FirstSharedEntry(peer, server, c, locator, 0);
  }

  /** How many of these blocks a request may be sent: all, or up to the stop block. */
  function Reach(chain: seq<ChainEntry>, stop: Digest): (n: nat)
    ensures n <= |chain|
  {
    if stop == ZERO then |chain|
    else match IndexOf(chain, stop) case Some(i) => i + 1 case None => |chain|
  }

  lemma {:induction false} TakeExactly(chain: seq<ChainEntry>, stop: Digest, max: nat)
    ensures |Take(chain, stop, max)| == Min(max, Reach(chain, stop))
    ensures forall i :: 0 <= i < |Take(chain, stop, max)| ==> Take(chain, stop, max)[i] == chain[i].hash
  {
    if chain != [] && max > 0 { TakeExactly(chain[1..], stop, max - 1); }
  }

  /** The answer is consecutive hashes, and it is shorter than it could be only when it
      ends at the stop block; nothing follows that block. */
  lemma {:induction false} TakeEndsAtStop(chain: seq<ChainEntry>, stop: Digest, max: nat)
    requires stop != ZERO
    ensures var out := Take(chain, stop, max);
            && |out| <= Min(max, |chain|)
            && (forall i :: 0 <= i < |out| ==> out[i] == chain[i].hash)
            && (forall i :: 0 <= i < |out| - 1 ==> out[i] != stop)
            && (|out| < Min(max, |chain|) ==> out != [] && out[|out| - 1] == stop)
  {
    if chain != [] && max > 0 { TakeEndsAtStop(chain[1..], stop, max - 1); }
  }

  /** A peer that shares nothing is answered from genesis on. */
  lemma StrangerIsSentGenesis(chain: seq<ChainEntry>, locator: seq<Digest>, stop: Digest, max: nat)
    requires forall n :: 0 <= n < |locator| ==> Unknown(chain, locator[n])
    ensures var out := Take(chain[StartIndex(chain, locator)..], stop, max);
            |out| == Min(max, Reach(chain, stop)) && forall i :: 0 <= i < |out| ==> out[i] == chain[i].hash
  {
    StartIndexExactly(chain, locator);
    assert chain[0..] == chain;
    TakeExactly(chain, stop, max);
  }

  /** Where a peer holding the first `n` blocks can get to: the stop block if it is still
      ahead, else the server's tip. */
  function Target(server: seq<ChainEntry>, stop: Digest, n: nat): (t: nat)
    requires n <= |server|
    ensures n <= t <= |server|
  {
    n + Reach(server[n..], stop)
  }

  /** On the way to the target the target stays the same. */
  lemma TargetStays(server: seq<ChainEntry>, stop: Digest, a: nat, n: nat)
    requires a <= n <= |server| && (stop == ZERO || n < Target(server, stop, a))
    ensures Target(server, stop, n) == Target(server, stop, a)
  {
    if stop != ZERO {
      var far, near := server[a..], server[n..];
      assert forall i :: 0 <= i < |near| ==> near[i] == far[n - a + i];
      match IndexOf(far, stop) {
        case Some(i) =>
          assert near[i - (n - a)].hash == stop;
          match IndexOf(near, stop) {
            case Some(j) => assert far[n - a + j].hash == stop;
            case None =>
          }
        case None =>
          forall j | 0 <= j < |near| ensures near[j].hash != stop {
            assert near[j] == far[n - a + j];
          }
      }
    }
  }

  /** One round from a prefix of the server's chain: the next `max` blocks up to the
      target, none repeated and none missing. */
  lemma RoundExtendsPrefix(server: seq<ChainEntry>, n: nat, locator: seq<Digest>, stop: Digest, max: nat)
    requires 0 < n <= |server| && IsLocator(server[..n], locator)
    requires forall i, j :: 0 <= i < j < |server| ==> server[i].hash != server[j].hash
    ensures StartIndex(server, locator) == n
    ensures var out := Take(server[StartIndex(server, locator)..], stop, max);
            |out| == Min(max, Target(server, stop, n) - n)
            && forall i :: 0 <= i < |out| ==> out[i] == server[n + i].hash
  {
    AnswerStartsAtFork(server[..n], server, n, locator);
    TakeExactly(server[n..], stop, max);
  }

  /** A peer holding the server's first `n` blocks asks for headers with a
      locator of its chain and ends the exchange holding the first `m`. */
  ghost predicate Round(server: seq<ChainEntry>, stop: Digest, max: nat, n: nat, m: nat) {
    0 < n <= |server| && exists locator ::
      IsLocator(server[..n], locator) && m == n + |Take(server[StartIndex(server, locator)..], stop, max)|
  }

  lemma RoundMoves(server: seq<ChainEntry>, stop: Digest, max: nat, n: nat, m: nat)
    requires Round(server, stop, max, n, m)
    requires forall i, j :: 0 <= i < j < |server| ==> server[i].hash != server[j].hash
    ensures m == Min(Target(server, stop, n), n + max)
  {
    var locator :| IsLocator(server[..n], locator)
                   && m == n + |Take(server[StartIndex(server, locator)..], stop, max)|;
    RoundExtendsPrefix(server, n, locator, stop, max);
  }

  ghost predicate RoundAt(server: seq<ChainEntry>, stop: Digest, max: nat, held: seq<nat>, i: nat)
    requires i + 1 < |held|
  {
    Round(server, stop, max, held[i], held[i + 1])
  }

  /** The peer has held these many blocks before and after each of r rounds, and was on its way
      to one target throughout. */
  ghost predicate Rounds(server: seq<ChainEntry>, stop: Digest, max: nat, held: seq<nat>, r: nat) {
    && r < |held| && 0 < held[0] <= |server|
    && (forall i {:trigger RoundAt(server, stop, max, held, i)} :: 0 <= i < r ==> RoundAt(server, stop, max, held, i))
    && (stop != ZERO ==> forall i :: 0 <= i < r ==> held[i] < Target(server, stop, held[0]))
  }

  /** max + ... + max, r times. */
  ghost function Times(r: nat, max: nat): nat { if r == 0 then 0 else Times(r - 1, max) + max }

  lemma {:induction false} TimesIsProduct(r: nat, max: nat)
    ensures Times(r, max) == r * max
  {
    if r > 0 { TimesIsProduct(r - 1, max); }
  }

  lemma {:induction false} HeldAfter(server: seq<ChainEntry>, stop: Digest, max: nat, held: seq<nat>, r: nat)
    requires forall i, j :: 0 <= i < j < |server| ==> server[i].hash != server[j].hash
    requires Rounds(server, stop, max, held, r)
    ensures held[r] == Min(Target(server, stop, held[0]), held[0] + Times(r, max))
  {
    if r > 0 {
      HeldAfter(server, stop, max, held, r - 1);
      assert RoundAt(server, stop, max, held, r - 1);
      RoundMoves(server, stop, max, held[r - 1], held[r]);
      TargetStays(server, stop, held[0], held[r - 1]);
    }
  }

  /** However many rounds a run makes, after r of them the peer is r * max blocks further or at
      its target: the stop block or the tip is reached in exactly ceil(gap / max) rounds. Past
      a stop block the peer would have to name another one. */
  lemma RoundsCatchUp(server: seq<ChainEntry>, stop: Digest, max: nat, held: seq<nat>, r: nat)
    requires forall i, j :: 0 <= i < j < |server| ==> server[i].hash != server[j].hash
    requires Rounds(server, stop, max, held, r)
    ensures held[r] == Min(Target(server, stop, held[0]), held[0] + r * max)
    ensures held[r] == Target(server, stop, held[0]) <==> Target(server, stop, held[0]) - held[0] <= r * max
  {
    HeldAfter(server, stop, max, held, r);
    TimesIsProduct(r, max);
  }

  /** What a peer holds of the server's chain once it has the answer that starts at `start`. */
  ghost function Answered(server: seq<ChainEntry>, start: nat, stop: Digest, max: nat): (m: nat)
    requires start <= |server|
    ensures m == Min(Target(server, stop, start), start + max) && start <= m <= |server|
  {
    TakeExactly(server[start..], stop, max);
    start + |Take(server[start..], stop, max)|
  }

  /** Exactly when the longest-chain rule adopts what a forked peer holds after one answer: it must reach
      past the peer's own length, or to it with a lower last hash. Otherwise the peer stays where
      it is, and the same request would get the same answer. */
  lemma ForkedRound(peer: seq<ChainEntry>, server: seq<ChainEntry>, c: nat, locator: seq<Digest>,
                    stop: Digest, max: nat)
    requires ForkedAt(peer, server, c) && IsLocator(peer, locator)
    ensures var start := StartIndex(server, locator);
            var m, n := Answered(server, start, stop, max), |peer|;
            LongerChain(peer, server[..m]).AdoptCandidate?
            <==> (start + max > n && Target(server, stop, start) > n)
                 || (m == n && server[n - 1].hash < peer[n - 1].hash)
  {
    AnswerStartsAtFork(peer, server, c, locator);
  }

  /** A cap above 2d is enough to outgrow the fork whenever the target does. */
  lemma LargeCapSuffices(peer: seq<ChainEntry>, server: seq<ChainEntry>, c: nat, locator: seq<Digest>,
                         stop: Digest, max: nat)
    requires ForkedAt(peer, server, c) && IsLocator(peer, locator) && max > 2 * (|peer| - c)
    requires Target(server, stop, StartIndex(server, locator)) > |peer|
    ensures LongerChain(peer, server[..Answered(server, StartIndex(server, locator), stop, max)]).AdoptCandidate?
  {
    AnswerStartsAtFork(peer, server, c, locator);
    ForkedRound(peer, server, c, locator, stop, max);
  }

  lemma RoundsFrom(server: seq<ChainEntry>, start: nat, stop: Digest, max: nat, held: seq<nat>, r: nat)
    requires forall i, j :: 0 <= i < j < |server| ==> server[i].hash != server[j].hash
    requires Rounds(server, stop, max, held, r) && start <= |server| && held[0] == Answered(server, start, stop, max)
    requires stop != ZERO && r > 0 ==> held[0] < Target(server, stop, start)
    ensures held[r] == Min(Target(server, stop, start), start + (r + 1) * max)
  {
    TimesIsProduct(r + 1, max);
    if r > 0 {
      TargetStays(server, stop, start, held[0]);
      HeldAfter(server, stop, max, held, r);
      assert Times(r + 1, max) == Times(r, max) + max;
    }
  }

  /** A forked peer that adopts the first answer and goes on from there needs, in all, exactly
      ceil(gap / max) rounds for the gap from where the first answer started, which is at most
      the missing blocks and d more. */
  lemma ForkedRoundsCatchUp(peer: seq<ChainEntry>, server: seq<ChainEntry>, c: nat, locator: seq<Digest>,
                            stop: Digest, max: nat, held: seq<nat>, r: nat)
    requires ForkedAt(peer, server, c) && IsLocator(peer, locator)
    requires Rounds(server, stop, max, held, r)
    requires held[0] == Answered(server, StartIndex(server, locator), stop, max)
    requires stop != ZERO && r > 0 ==> held[0] < Target(server, stop, StartIndex(server, locator))
    ensures held[r] == Min(Target(server, stop, StartIndex(server, locator)), StartIndex(server, locator) + (r + 1) * max)
    ensures Target(server, stop, StartIndex(server, locator)) - c + (|peer| - c) <= (r + 1) * max
            ==> held[r] == Target(server, stop, StartIndex(server, locator))
  {
    AnswerStartsAtFork(peer, server, c, locator);
    RoundsFrom(server, StartIndex(server, locator), stop, max, held, r);
  }

  lemma SharedBlockIsBelowFork(es: Entries, a: Digest, b: Digest, i: nat, j: nat)
    requires WellFormed(es) && a in es && b in es && i < |Path(es, a)| && j < |Path(es, b)|
    requires Path(es, a)[i].hash == Path(es, b)[j].hash
    ensures i == j && i < CommonPrefixLen(Path(es, a), Path(es, b)) && Path(es, a)[i] == Path(es, b)[i]
  {
    PathPrefix(es, a, i);
    PathPrefix(es, b, j);
    var c := CommonPrefixLen(Path(es, a), Path(es, b));
    if c <= i {
      PathsAgreeBelow(es, a, b, c, i);
    }
  }

  lemma PathIsDuplicateFree(es: Entries, a: Digest)
    requires WellFormed(es) && a in es
    ensures forall i, j :: 0 <= i < j < |Path(es, a)| ==> Path(es, a)[i].hash != Path(es, a)[j].hash
  {
    forall i, j | 0 <= i < j < |Path(es, a)| ensures Path(es, a)[i].hash != Path(es, a)[j].hash {
      PathPrefix(es, a, i);
      PathPrefix(es, a, j);
    }
  }

  /** Any two chains of one block tree fork where their common prefix ends. */
  lemma TreePathsFork(es: Entries, a: Digest, b: Digest)
    requires WellFormed(es) && a in es && b in es
    ensures ForkedAt(Path(es, a), Path(es, b), CommonPrefixLen(Path(es, a), Path(es, b)))
  {
    var p, q := Path(es, a), Path(es, b);
    var c := CommonPrefixLen(p, q);
    PathIsDuplicateFree(es, b);
    forall i | 0 <= i < c ensures p[i] == q[i] {
      SharedBlockIsBelowFork(es, a, b, i, i);
    }
    forall i, j | c <= i < |p| && 0 <= j < |q| ensures p[i].hash != q[j].hash {
      if p[i].hash == q[j].hash { SharedBlockIsBelowFork(es, a, b, i, j); }
    }
  }
}
