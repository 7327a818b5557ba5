/** The constant-product pool: swaps, liquidity and the integer square root. */
module Amm {
  import opened Words
  import opened ModArith

  datatype AmmError = InsufficientLiquidity | LpTokenMismatch(expected: U64, actual: U64) | ArithmeticOverflow

  datatype SwapDirection = AtoB | BtoA

  /** Reserves and liquidity tokens of a pool. */
  datatype Pool = Pool(a: U64, b: U64, lp: U64)

  const EMPTY := Pool(0, 0, 0)

  // ----- swaps -----

  /** The output and the fee of a swap, if it can be quoted. */
  function ComputeSwapOutput(reserveIn: U64, reserveOut: U64, amountIn: U64, feeBps: U16): Option<(U64, U64)> {
    if reserveIn == 0 || reserveOut == 0 || amountIn == 0 then None
    else
      var fee := amountIn * feeBps / 10_000;
      if fee > amountIn then None
      else
        var net := amountIn - fee;
        QuoteBounds(reserveIn, reserveOut, net);
        var amountOut := reserveOut * net / (reserveIn + net);
        FeeBounds(amountIn, feeBps);
        Some((amountOut, fee))
  }

  lemma FeeBounds(amountIn: nat, feeBps: nat)
    ensures 0 <= amountIn * feeBps / 10_000
  {
    MulMono(amountIn, 0, feeBps);
  }

  /** The quote is the largest output that does not lower the product. */
  lemma QuoteBounds(x: nat, y: nat, net: nat)
    requires x > 0
    ensures var out := y * net / (x + net);
            0 <= out && (y > 0 ==> out < y)
            && (x + net) * (y - out) >= x * y
            && (x + net) * (y - out - 1) < x * y
  {
    var d := x + net;
    var out := y * net / d;
    MulMono(y, 0, net);
    FloorBounds(y * net, d);
    assert d * (y - out) == y * d - out * d;
    assert d * (y - out - 1) == y * d - out * d - d;
    assert y * d == y * x + y * net;
    if out < 0 { MulMono(d, out, -1); }
    if y > 0 { MulMono(y, 1, x); MulCancelLt(d, out, y); }
  }

  /** A fee of at most 100% is a part of the input. */
  lemma FeeIsAPart(amountIn: U64, feeBps: U16)
    requires feeBps <= 10_000
    ensures amountIn * feeBps / 10_000 <= amountIn
  {
    MulMono(amountIn, feeBps, 10_000);
  }

  /** A live pool quotes every positive input at a fee of at most 100%. A quoted swap charges the
      floor of its basis points and takes less than the whole reserve; its net input and output
      keep the product, and one more unit of output would lower it. */
  lemma SwapQuote(reserveIn: U64, reserveOut: U64, amountIn: U64, feeBps: U16)
    ensures var r := ComputeSwapOutput(reserveIn, reserveOut, amountIn, feeBps);
            && (r.None? <==> reserveIn == 0 || reserveOut == 0 || amountIn == 0
                             || amountIn * feeBps / 10_000 > amountIn)
            && (feeBps <= 10_000 ==> (r.Some? <==> reserveIn > 0 && reserveOut > 0 && amountIn > 0))
            && (r.Some? ==>
                  var (out, fee) := r.value;
                  fee <= amountIn && out < reserveOut
                  && fee * 10_000 <= amountIn * feeBps < fee * 10_000 + 10_000
                  && (reserveIn + amountIn - fee) * (reserveOut - out) >= reserveIn * reserveOut
                  && (reserveIn + amountIn - fee) * (reserveOut - out - 1) < reserveIn * reserveOut)
  {
    if feeBps <= 10_000 { FeeIsAPart(amountIn, feeBps); }
    if reserveIn > 0 && amountIn * feeBps / 10_000 <= amountIn {
      QuoteBounds(reserveIn, reserveOut, amountIn - amountIn * feeBps / 10_000);
    }
  }

  function ApplySwap(p: Pool, direction: SwapDirection, amountIn: U64, amountOut: U64): (Result<(), AmmError>, Pool) {
    match direction
    case AtoB =>
      if p.a + amountIn > U64_MAX then (Err(ArithmeticOverflow), p)
      else if amountOut > p.b then (Err(ArithmeticOverflow), p.(a := p.a + amountIn))
      else (Ok(()), p.(a := p.a + amountIn, b := p.b - amountOut))
    case BtoA =>
      if p.b + amountIn > U64_MAX then (Err(ArithmeticOverflow), p)
      else if amountOut > p.a then (Err(ArithmeticOverflow), p.(b := p.b + amountIn))
      else (Ok(()), p.(b := p.b + amountIn, a := p.a - amountOut))
  }

  function Incoming(p: Pool, direction: SwapDirection): U64 { if direction.AtoB? then p.a else p.b }

  function Outgoing(p: Pool, direction: SwapDirection): U64 { if direction.AtoB? then p.b else p.a }

  /** A swap that is applied moves exactly its amounts. One that fails leaves the pool as it was
      exactly when the incoming addition overflowed or there was nothing to add; any other
      failure has credited the input and paid nothing. */
  lemma SwapFailure(p: Pool, direction: SwapDirection, amountIn: U64, amountOut: U64)
    ensures var (r, q) := ApplySwap(p, direction, amountIn, amountOut);
            && (r.Ok? <==> Incoming(p, direction) + amountIn <= U64_MAX && amountOut <= Outgoing(p, direction))
            && (r.Ok? ==> Incoming(q, direction) == Incoming(p, direction) + amountIn
                          && Outgoing(q, direction) == Outgoing(p, direction) - amountOut && q.lp == p.lp)
            && (r.Err? ==> r.error == ArithmeticOverflow)
            && (r.Err? ==> (q == p <==> Incoming(p, direction) + amountIn > U64_MAX || amountIn == 0))
            && (r.Err? && q != p ==> Incoming(q, direction) == Incoming(p, direction) + amountIn
                                     && Outgoing(q, direction) == Outgoing(p, direction) && q.lp == p.lp)
  {
  }

  class PoolState {
    var reserveA: U64
    var reserveB: U64
    var lpTotal: U64

    function View(): Pool
      reads this
    {
      Pool(reserveA, reserveB, lpTotal)
    }

    constructor (p: Pool)
      ensures View() == p
    {
      reserveA, reserveB, lpTotal := p.a, p.b, p.lp;
    }

    /** A failure on the outgoing side leaves the incoming side already credited. */
    method Swap(direction: SwapDirection, amountIn: U64, amountOut: U64) returns (r: Result<(), AmmError>)
      modifies this
      ensures (r, View()) == ApplySwap(old(View()), direction, amountIn, amountOut)
    {
      match direction {
        case AtoB =>
          if reserveA + amountIn > U64_MAX {
            return Err(ArithmeticOverflow);
          }
          reserveA := reserveA + amountIn;
          if amountOut > reserveB {
            return Err(ArithmeticOverflow);
          }
          reserveB := reserveB - amountOut;
        case BtoA =>
          if reserveB + amountIn > U64_MAX {
            return Err(ArithmeticOverflow);
          }
          reserveB := reserveB + amountIn;
          if amountOut > reserveA {
            return Err(ArithmeticOverflow);
          }
          reserveA := reserveA - amountOut;
      }
      return Ok(());
    }
  }

  // ----- the integer square root -----

  /** The largest r with r * r <= n. */
  function Isqrt(n: nat): (r: nat)
    ensures r * r <= n < (r + 1) * (r + 1)
  {
    if n == 0 then 0
    else
      var s := Isqrt(n - 1);
      if (s + 1) * (s + 1) <= n then s + 1 else s
  }

  lemma IsqrtUnique(n: nat, r: nat)
    requires r * r <= n < (r + 1) * (r + 1)
    ensures r == Isqrt(n)
  {
    var s := Isqrt(n);
    if r < s { MulBounds(r + 1, r + 1, s, s); }
    if s < r { MulBounds(s + 1, s + 1, r, r); }
  }

  lemma SquareOfSum(u: int, v: int)
    ensures (u + v) * (u + v) >= 4 * (u * v)
  {
    assert (u + v) * (u + v) - 4 * (u * v) == (u - v) * (u - v);
    assert (u - v) * (u - v) >= 0;
  }

  /** A Newton step never lands below the root. */
  lemma NewtonStaysAbove(n: nat, x: nat)
    requires x > 0
    ensures var y := (x + n / x) / 2; n < (y + 1) * (y + 1)
  {
    var q, y := n / x, (x + n / x) / 2;
    FloorBounds(n, x);
    SquareOfSum(x, q + 1);
    assert n < x * (q + 1);
    MulBounds(x + (q + 1), x + (q + 1), 2 * (y + 1), 2 * (y + 1));
    assert (2 * (y + 1)) * (2 * (y + 1)) == 4 * ((y + 1) * (y + 1));
  }

  lemma HalfAtMost(n: nat, x: nat)
    requires x >= 2
    ensures 0 <= 2 * (n / x) <= n
  {
    FloorBounds(n, x);
    var q := n / x;
    MulMono(q, 2, x);
  }

  lemma NewtonFits(n: U128, x: nat)
    requires 0 < n && 0 < x <= (n + 1) / 2 && n < (x + 1) * (x + 1)
    ensures 0 <= n / x && 2 <= x + n / x <= U128_MAX && (x + n / x) / 2 <= (n + 1) / 2
  {
    if x == 1 {
      assert n < 4 && n / x == n;
    } else {
      HalfAtMost(n, x);
    }
  }

  method SqrtU128(n: U128) returns (x: U128)
    ensures x == Isqrt(n)
  {
    if n == 0 {
      return 0;
    }
    x := n;
    var y: U128 := (n + 1) / 2;
    assert n / n == 1;
    NewtonStaysAbove(n, n);
    assert n < (n + 1) * (n + 1);
    while y < x
      invariant 0 < x && 0 < y <= (n + 1) / 2
      invariant y == (x + n / x) / 2 && n < (y + 1) * (y + 1) && n < (x + 1) * (x + 1)
      decreases x
    {
      x := y;
      NewtonFits(n, x);
      y := (x + n / x) / 2;
      NewtonStaysAbove(n, x);
    }
    FloorBounds(n, x);
    MulMono(x, x, n / x);
    IsqrtUnique(n, x);
  }

  // ----- liquidity -----

  /** Tokens issued for a deposit into a live pool: the smaller pro-rata share. */
  function ProRata(p: Pool, amountA: U64, amountB: U64): nat
    requires p.a > 0 && p.b > 0
  {
    SharesNonNegative(p.lp, amountA, p.a);
    SharesNonNegative(p.lp, amountB, p.b);
    Min(p.lp * amountA / p.a, p.lp * amountB / p.b)
  }

  lemma SharesNonNegative(lp: nat, amount: nat, reserve: nat)
    requires reserve > 0
    ensures 0 <= lp * amount / reserve
  {
    MulMono(lp, 0, amount);
  }

  function AddLiquidity(p: Pool, amountA: U64, amountB: U64): Result<(U64, Pool), AmmError> {
    if amountA == 0 || amountB == 0 then Err(InsufficientLiquidity)
    else if p.lp > 0 && (p.a == 0 || p.b == 0) then Err(ArithmeticOverflow)
    else
      MulMono(amountA, 0, amountB);
      var issued := if p.lp == 0 then Isqrt(amountA * amountB) else ProRata(p, amountA, amountB);
      if issued > U64_MAX || p.a + amountA > U64_MAX || p.b + amountB > U64_MAX || p.lp + issued > U64_MAX
      then Err(ArithmeticOverflow)
      else Ok((issued, Pool(p.a + amountA, p.b + amountB, p.lp + issued)))
  }

  lemma RootFits(a: U64, b: U64)
    ensures 0 <= a * b <= U128_MAX && Isqrt(a * b) <= U64_MAX
  {
    MulBounds(a, b, U64_MAX, U64_MAX);
    var r := Isqrt(a * b);
    if r > U64_MAX { MulBounds(U64_MAX + 1, U64_MAX + 1, r, r); }
  }

  method ComputeAddLiquidity(p: Pool, amountA: U64, amountB: U64) returns (r: Result<(U64, Pool), AmmError>)
    ensures r == AddLiquidity(p, amountA, amountB)
  {
    if amountA == 0 || amountB == 0 {
      return Err(InsufficientLiquidity);
    }
    var issued: U64;
    if p.lp == 0 {
      RootFits(amountA, amountB);
      issued := SqrtU128(amountA * amountB);
    } else {
      if p.a == 0 || p.b == 0 {
        return Err(ArithmeticOverflow);
      }
      var lp := Min(p.lp * amountA / p.a, p.lp * amountB / p.b);
      if lp > U64_MAX {
        return Err(ArithmeticOverflow);
      }
      SharesNonNegative(p.lp, amountA, p.a);
      SharesNonNegative(p.lp, amountB, p.b);
      issued := lp;
    }
    if p.a + amountA > U64_MAX || p.b + amountB > U64_MAX || p.lp + issued > U64_MAX {
      return Err(ArithmeticOverflow);
    }
    return Ok((issued, Pool(p.a + amountA, p.b + amountB, p.lp + issued)));
  }

  /** A share of a reserve never exceeds the reserve. */
  lemma ShareBounds(reserve: nat, burned: nat, lp: nat)
    requires 0 < burned <= lp
    ensures var share := reserve * burned / lp;
            0 <= share <= reserve && (reserve - share) * lp >= reserve * (lp - burned)
            && share * lp <= reserve * burned
  {
    FloorBounds(reserve * burned, lp);
    MulMono(reserve, 0, burned);
    MulMono(reserve, burned, lp);
    var share := reserve * burned / lp;
    if share > reserve { MulMono(lp, reserve + 1, share); }
    assert (reserve - share) * lp == reserve * lp - share * lp;
    assert reserve * (lp - burned) == reserve * lp - reserve * burned;
  }

  function RemoveLiquidity(p: Pool, burned: U64): Result<(U64, U64, Pool), AmmError> {
    if p.lp == 0 || burned == 0 then Err(InsufficientLiquidity)
    else if burned > p.lp then Err(LpTokenMismatch(p.lp, burned))
    else
      ShareBounds(p.a, burned, p.lp);
      ShareBounds(p.b, burned, p.lp);
      var amountA, amountB := p.a * burned / p.lp, p.b * burned / p.lp;
      Ok((amountA, amountB, Pool(p.a - amountA, p.b - amountB, p.lp - burned)))
  }

  /** Whether the tokens a deposit would issue fit: below the line on at least one side. */
  ghost predicate TokensFit(p: Pool, amountA: U64, amountB: U64) {
    || p.lp * amountA < (U64_MAX - p.lp + 1) * p.a
    || p.lp * amountB < (U64_MAX - p.lp + 1) * p.b
  }

  lemma QuotientBelow(x: nat, d: nat, q: int)
    requires d > 0
    ensures x / d < q <==> x < q * d
  {
    FloorBounds(x, d);
    if x / d < q { MulMono(d, x / d + 1, q); } else { MulMono(d, q, x / d); }
  }

  lemma IssuedFits(p: Pool, amountA: U64, amountB: U64)
    requires p.a > 0 && p.b > 0
    ensures p.lp + ProRata(p, amountA, amountB) <= U64_MAX <==> TokensFit(p, amountA, amountB)
  {
    MulMono(p.lp, 0, amountA);
    MulMono(p.lp, 0, amountB);
    QuotientBelow(p.lp * amountA, p.a, U64_MAX - p.lp + 1);
    QuotientBelow(p.lp * amountB, p.b, U64_MAX - p.lp + 1);
  }

  /** A deposit is taken exactly when both amounts are nonzero, both reserves hold them, and a
      pool with tokens has both reserves and room for what it would issue. It issues the most
      tokens that neither side's share exceeds; the first one issues the root of the product. */
  lemma DepositQuote(p: Pool, amountA: U64, amountB: U64)
    ensures var r := AddLiquidity(p, amountA, amountB);
            && (r.Ok? <==> && amountA > 0 && amountB > 0 && p.a + amountA <= U64_MAX && p.b + amountB <= U64_MAX
                           && (p.lp > 0 ==> p.a > 0 && p.b > 0 && TokensFit(p, amountA, amountB)))
            && (r == Err(InsufficientLiquidity) <==> amountA == 0 || amountB == 0)
            && (r.Err? && amountA > 0 && amountB > 0 ==> r == Err(ArithmeticOverflow))
            && (r.Ok? ==>
                  var (issued, q) := r.value;
                  && q == Pool(p.a + amountA, p.b + amountB, p.lp + issued)
                  && (p.lp == 0 ==> issued * issued <= amountA * amountB < (issued + 1) * (issued + 1))
                  && (p.lp > 0 ==> LargestShare(p, amountA, amountB, issued)))
  {
    if p.lp == 0 {
      RootFits(amountA, amountB);
    } else if p.a > 0 && p.b > 0 {
      ProRataIsLargest(p, amountA, amountB);
      IssuedFits(p, amountA, amountB);
    }
  }

  ghost predicate LargestShare(p: Pool, amountA: U64, amountB: U64, issued: nat) {
    && issued * p.a <= p.lp * amountA && issued * p.b <= p.lp * amountB
    && ((issued + 1) * p.a > p.lp * amountA || (issued + 1) * p.b > p.lp * amountB)
  }

  lemma ProRataIsLargest(p: Pool, amountA: U64, amountB: U64)
    requires p.a > 0 && p.b > 0
    ensures LargestShare(p, amountA, amountB, ProRata(p, amountA, amountB))
  {
    var issued := ProRata(p, amountA, amountB);
    FloorBounds(p.lp * amountA, p.a);
    FloorBounds(p.lp * amountB, p.b);
    MulMono(p.a, issued, p.lp * amountA / p.a);
    MulMono(p.b, issued, p.lp * amountB / p.b);
    DistributeLeft(p.a, issued, 1);
    DistributeLeft(p.b, issued, 1);
  }

  /** A withdrawal is refused only for lack of tokens, and pays the floor of each
      reserve's proportional share. */
  lemma WithdrawQuote(p: Pool, burned: U64)
    ensures var r := RemoveLiquidity(p, burned);
            && (r == Err(InsufficientLiquidity) <==> burned == 0 || p.lp == 0)
            && (r == Err(LpTokenMismatch(p.lp, burned)) <==> burned > p.lp > 0)
            && (r.Err? <==> burned == 0 || burned > p.lp)
            && (r.Ok? ==>
                  var (x, y, q) := r.value;
                  && q == Pool(p.a - x, p.b - y, p.lp - burned)
                  && x * p.lp <= p.a * burned < (x + 1) * p.lp
                  && y * p.lp <= p.b * burned < (y + 1) * p.lp)
  {
    if 0 < burned <= p.lp {
      FloorBounds(p.a * burned, p.lp);
      FloorBounds(p.b * burned, p.lp);
      var (x, y, q) := RemoveLiquidity(p, burned).value;
      DistributeLeft(p.lp, x, 1);
      DistributeLeft(p.lp, y, 1);
    }
  }

  // ----- runs -----

  datatype Operation =
    | Swap(direction: SwapDirection, amountIn: U64, feeBps: U16)
    | Deposit(amountA: U64, amountB: U64)
    | Withdraw(burned: U64)

  /** Quote a swap and apply it; nothing happens when it cannot be quoted. */
  function SwapStep(p: Pool, direction: SwapDirection, amountIn: U64, feeBps: U16): Pool {
    var quote := if direction.AtoB? then ComputeSwapOutput(p.a, p.b, amountIn, feeBps)
                 else ComputeSwapOutput(p.b, p.a, amountIn, feeBps);
    if quote.None? then p else ApplySwap(p, direction, amountIn, quote.value.0).1
  }

  function Step(p: Pool, op: Operation): Pool {
    match op
    case Swap(direction, amountIn, feeBps) => SwapStep(p, direction, amountIn, feeBps)
    case Deposit(x, y) => (match AddLiquidity(p, x, y) case Ok(r) => r.1 case Err(_) => p)
    case Withdraw(burned) => (match RemoveLiquidity(p, burned) case Ok(r) => r.2 case Err(_) => p)
  }

  /** A step moves exactly its amounts, or nothing at all: a swap its whole input against its
      quote as long as the input fits, a deposit and a withdrawal what they are granted. */
  lemma StepMoves(p: Pool, op: Operation)
    ensures var q := Step(p, op);
            match op
            case Swap(d, x, feeBps) =>
              var quote := ComputeSwapOutput(Incoming(p, d), Outgoing(p, d), x, feeBps);
              if quote.Some? && Incoming(p, d) + x <= U64_MAX
              then Incoming(q, d) == Incoming(p, d) + x && Outgoing(q, d) == Outgoing(p, d) - quote.value.0 && q.lp == p.lp
              else q == p
            case Deposit(x, y) =>
              var r := AddLiquidity(p, x, y);
              if r.Ok? then q == Pool(p.a + x, p.b + y, p.lp + r.value.0) else q == p
            case Withdraw(burned) =>
              var r := RemoveLiquidity(p, burned);
              if r.Ok? then q == Pool(p.a - r.value.0, p.b - r.value.1, p.lp - burned) else q == p
  {
    if op.Swap? { SwapQuote(Incoming(p, op.direction), Outgoing(p, op.direction), op.amountIn, op.feeBps); }
  }

  function Run(p: Pool, ops: seq<Operation>): Pool {
    if ops == [] then p else Step(Run(p, ops[..|ops| - 1]), ops[|ops| - 1])
  }

  /** Liquidity tokens are backed: lp^2 <= a * b. */
  ghost predicate Backed(p: Pool) { p.lp * p.lp <= p.a * p.b }

  /** The product behind one squared liquidity token has not fallen from p to q. */
  ghost predicate NotDiluted(p: Pool, q: Pool) {
    (q.lp * q.lp) * (p.a * p.b) <= (p.lp * p.lp) * (q.a * q.b)
  }

  lemma QuoteKeepsProduct(x: U64, y: U64, amountIn: U64, feeBps: U16)
    requires ComputeSwapOutput(x, y, amountIn, feeBps).Some?
    ensures var out := ComputeSwapOutput(x, y, amountIn, feeBps).value.0;
            out < y && x > 0 && (x + amountIn) * (y - out) >= x * y
  {
    SwapQuote(x, y, amountIn, feeBps);
    var (out, fee) := ComputeSwapOutput(x, y, amountIn, feeBps).value;
    MulMono(y - out, x + amountIn - fee, x + amountIn);
  }

  /** A swap keeps the liquidity tokens, never lowers the product and never drains
      a reserve. */
  ghost predicate Swapped(p: Pool, q: Pool) {
    q.lp == p.lp && q.a * q.b >= p.a * p.b && (p.a > 0 ==> q.a > 0) && (p.b > 0 ==> q.b > 0)
  }

  lemma SwapKeeps(p: Pool, direction: SwapDirection, amountIn: U64, feeBps: U16)
    ensures Swapped(p, SwapStep(p, direction, amountIn, feeBps))
  {
    if direction.AtoB? {
      if ComputeSwapOutput(p.a, p.b, amountIn, feeBps).Some? { QuoteKeepsProduct(p.a, p.b, amountIn, feeBps); }
    } else {
      if ComputeSwapOutput(p.b, p.a, amountIn, feeBps).Some? { QuoteKeepsProduct(p.b, p.a, amountIn, feeBps); }
    }
  }

  lemma ScaleShares(lp: nat, issued: nat, amount: nat, reserve: nat)
    requires issued * reserve <= lp * amount
    ensures (lp + issued) * reserve <= lp * (reserve + amount)
  {
    assert (lp + issued) * reserve == lp * reserve + issued * reserve;
    assert lp * (reserve + amount) == lp * reserve + lp * amount;
  }

  lemma DepositDoesNotDilute(p: Pool, amountA: U64, amountB: U64)
    requires p.lp > 0 && AddLiquidity(p, amountA, amountB).Ok?
    ensures NotDiluted(p, AddLiquidity(p, amountA, amountB).value.1)
  {
    var issued, q := ProRata(p, amountA, amountB), AddLiquidity(p, amountA, amountB).value.1;
    FloorBounds(p.lp * amountA, p.a);
    FloorBounds(p.lp * amountB, p.b);
    MulMono(p.a, issued, p.lp * amountA / p.a);
    MulMono(p.b, issued, p.lp * amountB / p.b);
    ScaleShares(p.lp, issued, amountA, p.a);
    ScaleShares(p.lp, issued, amountB, p.b);
    MulBounds(q.lp * p.a, q.lp * p.b, p.lp * q.a, p.lp * q.b);
    Rearrange(q.lp, p.a, q.lp, p.b);
    Rearrange(p.lp, q.a, p.lp, q.b);
  }

  lemma WithdrawDoesNotDilute(p: Pool, burned: U64)
    requires RemoveLiquidity(p, burned).Ok?
    ensures NotDiluted(p, RemoveLiquidity(p, burned).value.2)
  {
    var q := RemoveLiquidity(p, burned).value.2;
    ShareBounds(p.a, burned, p.lp);
    ShareBounds(p.b, burned, p.lp);
    MulMono(p.a, 0, q.lp);
    MulMono(p.b, 0, q.lp);
    MulBounds(p.a * q.lp, p.b * q.lp, q.a * p.lp, q.b * p.lp);
    Rearrange(p.a, q.lp, p.b, q.lp);
    Rearrange(q.a, p.lp, q.b, p.lp);
  }

  /** Every operation on a live pool keeps the value behind a liquidity token. */
  lemma StepDoesNotDilute(p: Pool, op: Operation)
    requires p.lp > 0
    ensures NotDiluted(p, Step(p, op))
  {
    var q := Step(p, op);
    match op {
      case Swap(direction, amountIn, feeBps) =>
        SwapKeeps(p, direction, amountIn, feeBps);
        MulMono(p.lp * p.lp, p.a * p.b, q.a * q.b);
      case Deposit(x, y) =>
        if AddLiquidity(p, x, y).Ok? { DepositDoesNotDilute(p, x, y); }
      case Withdraw(burned) =>
        if RemoveLiquidity(p, burned).Ok? { WithdrawDoesNotDilute(p, burned); }
    }
  }

  lemma BackedThroughDilution(l: nat, k: nat, m: nat, n: nat)
    requires 0 < l && l <= k && m * k <= l * n
    ensures m <= n
  {
    MulMono(n, l, k);
    if m > n { MulMono(k, n + 1, m); }
  }

  lemma StepKeepsBacked(p: Pool, op: Operation)
    requires Backed(p)
    ensures Backed(Step(p, op))
  {
    var q := Step(p, op);
    if p.lp > 0 {
      StepDoesNotDilute(p, op);
      MulMono(p.lp, 1, p.lp);
      MulMono(p.a, 0, p.b);
      MulMono(q.a, 0, q.b);
      MulMono(q.lp, 0, q.lp);
      BackedThroughDilution(p.lp * p.lp, p.a * p.b, q.lp * q.lp, q.a * q.b);
    } else {
      match op {
        case Swap(direction, amountIn, feeBps) => SwapKeeps(p, direction, amountIn, feeBps);
        case Deposit(x, y) =>
          MulMono(p.a, 0, p.b);
          if AddLiquidity(p, x, y).Ok? {
            MulBounds(x, y, p.a + x, p.b + y);
          }
        case Withdraw(burned) =>
      }
    }
  }

  /** From an empty pool, over every run, lp^2 <= a * b. */
  lemma {:induction false} RunKeepsBacked(ops: seq<Operation>)
    ensures Backed(Run(EMPTY, ops))
  {
    if ops != [] {
      RunKeepsBacked(ops[..|ops| - 1]);
      StepKeepsBacked(Run(EMPTY, ops[..|ops| - 1]), ops[|ops| - 1]);
    }
  }

  lemma DilutionTransitive(l1: nat, k1: nat, l2: nat, k2: nat, l3: nat, k3: nat)
    requires l2 > 0 && l2 * k1 <= l1 * k2 && l3 * k2 <= l2 * k3
    ensures l3 * k1 <= l1 * k3
  {
    MulMono(l3, l2 * k1, l1 * k2);
    MulMono(l1, l3 * k2, l2 * k3);
    assert l3 * (l2 * k1) == l2 * (l3 * k1);
    assert l3 * (l1 * k2) == l1 * (l3 * k2);
    assert l1 * (l2 * k3) == l2 * (l1 * k3);
    if l3 * k1 > l1 * k3 { MulMono(l2, l1 * k3 + 1, l3 * k1); }
  }

  /** Over every run that keeps liquidity in the pool, the value behind a
      liquidity token never falls. */
  lemma {:induction false} RunDoesNotDilute(p: Pool, ops: seq<Operation>)
    requires forall n :: 0 <= n <= |ops| ==> Run(p, ops[..n]).lp > 0
    ensures NotDiluted(p, Run(p, ops))
  {
    if ops != [] {
      var front := ops[..|ops| - 1];
      assert forall n :: 0 <= n <= |front| ==> front[..n] == ops[..n];
      RunDoesNotDilute(p, front);
      var q := Run(p, front);
      assert Run(p, ops[..|ops| - 1]).lp > 0;
      StepDoesNotDilute(q, ops[|ops| - 1]);
      var r := Run(p, ops);
      MulMono(q.lp, 1, q.lp);
      Squares(p); Squares(q); Squares(r);
      DilutionTransitive(p.lp * p.lp, p.a * p.b, q.lp * q.lp, q.a * q.b, r.lp * r.lp, r.a * r.b);
    }
  }

  lemma Squares(p: Pool)
    ensures 0 <= p.lp * p.lp && 0 <= p.a * p.b
  {
    MulMono(p.lp, 0, p.lp);
    MulMono(p.a, 0, p.b);
  }

  lemma {:induction false} SwapRunKeeps(p: Pool, ops: seq<Operation>)
    requires forall i :: 0 <= i < |ops| ==> ops[i].Swap?
    ensures Swapped(p, Run(p, ops))
  {
    if ops != [] {
      var n := |ops| - 1;
      SwapRunKeeps(p, ops[..n]);
      SwapKeeps(Run(p, ops[..n]), ops[n].direction, ops[n].amountIn, ops[n].feeBps);
    }
  }

  lemma ProductOrder(a: nat, b: nat, c: nat, d: nat)
    requires b > 0 && d <= b && c * d >= a * b
    ensures c >= a
  {
    MulMono(c, d, b);
    if c < a { MulMono(b, c + 1, a); }
  }

  /** No sequence of swaps pays: ending with no more of one token than at the start
      means ending with at least as much of the other, and neither side is drained. */
  lemma SwapRunNeverPays(p: Pool, ops: seq<Operation>)
    requires p.a > 0 && p.b > 0 && forall i :: 0 <= i < |ops| ==> ops[i].Swap?
    ensures var q := Run(p, ops);
            q.a > 0 && q.b > 0 && (q.b <= p.b ==> q.a >= p.a) && (q.a <= p.a ==> q.b >= p.b)
  {
    SwapRunKeeps(p, ops);
    NoFreeLunch(p, Run(p, ops));
  }

  lemma NoFreeLunch(p: Pool, q: Pool)
    requires p.a > 0 && p.b > 0 && Swapped(p, q)
    ensures (q.b <= p.b ==> q.a >= p.a) && (q.a <= p.a ==> q.b >= p.b)
  {
    if q.b <= p.b { ProductOrder(p.a, p.b, q.a, q.b); }
    if q.a <= p.a { ProductOrder(p.b, p.a, q.b, q.a); }
  }

  lemma ShareOfDeposit(lp: nat, issued: nat, amount: nat, reserve: nat)
    requires issued > 0 && issued * reserve <= lp * amount
    ensures (reserve + amount) * issued / (lp + issued) <= amount
  {
    var d := lp + issued;
    assert (reserve + amount) * issued == issued * reserve + amount * issued;
    assert amount * d == lp * amount + amount * issued;
    FloorBounds((reserve + amount) * issued, d);
    var share := (reserve + amount) * issued / d;
    if share > amount { MulMono(d, amount + 1, share); }
  }

  /** Depositing and at once burning the tokens issued never pays out more of either
      token than was put in. */
  lemma DepositThenWithdraw(p: Pool, amountA: U64, amountB: U64)
    requires AddLiquidity(p, amountA, amountB).Ok? && NothingStranded(p)
    ensures var (issued, q) := AddLiquidity(p, amountA, amountB).value;
            issued > 0 ==> RemoveLiquidity(q, issued).Ok?
                           && RemoveLiquidity(q, issued).value.0 <= amountA
                           && RemoveLiquidity(q, issued).value.1 <= amountB
  {
    var (issued, q) := AddLiquidity(p, amountA, amountB).value;
    if issued > 0 {
      if p.lp > 0 {
        FloorBounds(p.lp * amountA, p.a);
        FloorBounds(p.lp * amountB, p.b);
        MulMono(p.a, issued, p.lp * amountA / p.a);
        MulMono(p.b, issued, p.lp * amountB / p.b);
      }
      ShareOfDeposit(p.lp, issued, amountA, p.a);
      ShareOfDeposit(p.lp, issued, amountB, p.b);
    }
  }

  ghost predicate NothingStranded(p: Pool) { p.lp == 0 ==> p.a == 0 && p.b == 0 }

  lemma PositiveRoot(n: nat)
    requires n > 0
    ensures Isqrt(n) > 0
  {
  }

  lemma DepositStrandsNothing(p: Pool, x: U64, y: U64)
    requires AddLiquidity(p, x, y).Ok?
    ensures AddLiquidity(p, x, y).value.1.lp > 0
  {
    if p.lp == 0 {
      MulBounds(1, 1, x, y);
      PositiveRoot(x * y);
    }
  }

  lemma FullShare(reserve: nat, burned: nat, lp: nat)
    requires lp > 0
    ensures burned == lp ==> reserve * burned / lp == reserve
  {
    if burned == lp { QuotientIs(reserve * burned, lp, reserve, 0); }
  }

  /** Burning the last token pays out everything. */
  lemma WithdrawStrandsNothing(p: Pool, burned: U64)
    requires RemoveLiquidity(p, burned).Ok?
    ensures NothingStranded(RemoveLiquidity(p, burned).value.2)
  {
    FullShare(p.a, burned, p.lp);
    FullShare(p.b, burned, p.lp);
  }

  lemma StepStrandsNothing(p: Pool, op: Operation)
    requires NothingStranded(p)
    ensures NothingStranded(Step(p, op))
  {
    match op {
      case Swap(direction, amountIn, feeBps) =>
      case Deposit(x, y) =>
        if AddLiquidity(p, x, y).Ok? { DepositStrandsNothing(p, x, y); }
      case Withdraw(burned) =>
        if RemoveLiquidity(p, burned).Ok? { WithdrawStrandsNothing(p, burned); }
    }
  }

  lemma {:induction false} RunStrandsNothing(ops: seq<Operation>)
    ensures NothingStranded(Run(EMPTY, ops))
  {
    if ops != [] {
      RunStrandsNothing(ops[..|ops| - 1]);
      StepStrandsNothing(Run(EMPTY, ops[..|ops| - 1]), ops[|ops| - 1]);
    }
  }

  /** In every pool reached from an empty one, a deposit burned at once pays back no more
      than was put in. */
  lemma DepositNeverPays(ops: seq<Operation>, amountA: U64, amountB: U64)
    requires AddLiquidity(Run(EMPTY, ops), amountA, amountB).Ok?
    ensures var (issued, q) := AddLiquidity(Run(EMPTY, ops), amountA, amountB).value;
            issued > 0 ==> RemoveLiquidity(q, issued).Ok?
                           && RemoveLiquidity(q, issued).value.0 <= amountA
                           && RemoveLiquidity(q, issued).value.1 <= amountB
  {
    RunStrandsNothing(ops);
    DepositThenWithdraw(Run(EMPTY, ops), amountA, amountB);
  }
}
