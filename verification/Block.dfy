/** Structural block validation, and what a valid block's Merkle root pins down. */
module Block {
  import opened Words
  import opened Sorting
  import opened Merkle

  datatype OutPoint = OutPoint(txId: Digest, index: U32)

  predicate OutPointLe(a: OutPoint, b: OutPoint) {
    a.txId < b.txId || (a.txId == b.txId && a.index <= b.index)
  }

  /** The fields validation reads; `id` is None when the encoding fails. */
  datatype Transaction = Transaction(inputs: seq<OutPoint>, outputs: seq<U64>, lockTime: U64, id: Option<Digest>)

  datatype Block = Block(height: U64, merkleRoot: Digest, transactions: seq<Transaction>)

  datatype TransactionError =
    | NoInputs | NoOutputs | DuplicateInput | OutputOverflow
    | CoinbaseHasInputs | CoinbaseHeightMismatch(expected: U64, actual: U64) | Encode

  datatype BlockError = InvalidTransaction(index: nat, source: TransactionError) | DuplicateTx | MerkleRootMismatch

  // ----- specification -----

  function Total(amounts: seq<U64>): nat {
    if amounts == [] then 0 else Total(amounts[..|amounts| - 1]) + amounts[|amounts| - 1]
  }

  function TransactionProblem(tx: Transaction): Option<TransactionError> {
    if tx.inputs == [] then Some(NoInputs)
    else if tx.outputs == [] then Some(NoOutputs)
    else if HasDuplicate(tx.inputs) then Some(DuplicateInput)
    else if Total(tx.outputs) > U64_MAX then Some(OutputOverflow)
    else None
  }

  function CoinbaseProblem(tx: Transaction, height: U64): Option<TransactionError> {
    if tx.inputs != [] then Some(CoinbaseHasInputs)
    else if tx.outputs == [] then Some(NoOutputs)
    else if Total(tx.outputs) > U64_MAX then Some(OutputOverflow)
    else if tx.lockTime != height then Some(CoinbaseHeightMismatch(height, tx.lockTime))
    else None
  }

  /** The positional rules: allocations only in genesis, a coinbase only first. */
  function ProblemAt(b: Block, i: nat): Option<TransactionError>
    requires i < |b.transactions|
  {
    var tx := b.transactions[i];
    var problem :=
      if tx.inputs != [] then TransactionProblem(tx)
      else if b.height == 0 then (if tx.outputs == [] then Some(NoOutputs) else None)
      else if i == 0 then CoinbaseProblem(tx, b.height)
      else Some(NoInputs);
    if problem.Some? then problem else if tx.id.None? then Some(Encode) else None
  }

  function Ids(b: Block, n: nat): (ids: seq<Digest>)
    requires n <= |b.transactions| && forall i :: 0 <= i < n ==> ProblemAt(b, i).None?
    ensures |ids| == n
  {
    seq<Digest>(n, i requires 0 <= i < n => assert ProblemAt(b, i).None?; b.transactions[i].id.value)
  }

  /** The first problem from position i on, if any transaction has one. */
  function FirstProblem(b: Block, i: nat): (r: Option<BlockError>)
    requires i <= |b.transactions|
    ensures r.None? <==> forall j :: i <= j < |b.transactions| ==> ProblemAt(b, j).None?
    decreases |b.transactions| - i
  {
    if i == |b.transactions| then None
    else if ProblemAt(b, i).Some? then Some(InvalidTransaction(i, ProblemAt(b, i).value))
    else FirstProblem(b, i + 1)
  }

  function Problem(h: PairHash, b: Block): Option<BlockError> {
    if FirstProblem(b, 0).Some? then FirstProblem(b, 0)
    else
      var ids := Ids(b, |b.transactions|);
      if HasDuplicate(ids) then Some(DuplicateTx)
      else if MerkleRoot(h, ids) != b.merkleRoot then Some(MerkleRootMismatch)
      else None
  }

  // ----- the loops -----

  lemma {:induction false} TotalGrows(amounts: seq<U64>, n: nat)
    requires n <= |amounts|
    ensures Total(amounts[..n]) <= Total(amounts)
  {
    if n == |amounts| {
      assert amounts[..n] == amounts;
    } else {
      var front := amounts[..|amounts| - 1];
      TotalGrows(front, n);
      assert front[..n] == amounts[..n];
    }
  }

  /** `Total` is the sum: of none zero, of one itself, of two lists the sum of theirs. */
  lemma {:induction false} TotalIsSum(a: seq<U64>, b: seq<U64>, x: U64)
    ensures Total([]) == 0 && Total([x]) == x && Total(a + b) == Total(a) + Total(b)
    decreases |b|
  {
    assert [x][..0] == [];
    if b == [] {
      assert a + b == a;
    } else {
      TotalIsSum(a, b[..|b| - 1], x);
      assert (a + b)[..|a + b| - 1] == a + b[..|b| - 1];
    }
  }

  /** Checked summation: none as soon as a partial sum leaves 64 bits. */
  method CheckedSum(amounts: seq<U64>) returns (sum: Option<U64>)
    ensures sum == if Total(amounts) > U64_MAX then None else Some(Total(amounts))
  {
    var acc: U64 := 0;
    for i := 0 to |amounts|
      invariant acc == Total(amounts[..i])
    {
      assert amounts[..i + 1][..i] == amounts[..i];
      TotalGrows(amounts, i + 1);
      if acc + amounts[i] > U64_MAX {
        return None;
      }
      acc := acc + amounts[i];
    }
    assert amounts[..|amounts|] == amounts;
    return Some(acc);
  }

  lemma OutPointOrder()
    ensures TotalOrder(OutPointLe)
  {
  }

  method ValidateTransaction(tx: Transaction) returns (r: Option<TransactionError>)
    ensures r == TransactionProblem(tx)
  {
    if tx.inputs == [] {
      return Some(NoInputs);
    }
    if tx.outputs == [] {
      return Some(NoOutputs);
    }
    var seen := Sort(tx.inputs, OutPointLe);
    OutPointOrder();
    SortedNeighbours(tx.inputs, OutPointLe);
    if HasAdjacentPair(seen) {
      return Some(DuplicateInput);
    }
    var sum := CheckedSum(tx.outputs);
    return if sum.None? then Some(OutputOverflow) else None;
  }

  method ValidateCoinbase(tx: Transaction, height: U64) returns (r: Option<TransactionError>)
    ensures r == CoinbaseProblem(tx, height)
  {
    if tx.inputs != [] {
      return Some(CoinbaseHasInputs);
    }
    if tx.outputs == [] {
      return Some(NoOutputs);
    }
    var sum := CheckedSum(tx.outputs);
    if sum.None? {
      return Some(OutputOverflow);
    }
    return if tx.lockTime != height then Some(CoinbaseHeightMismatch(height, tx.lockTime)) else None;
  }

  method ValidateStructure(h: PairHash, b: Block) returns (r: Option<BlockError>)
    ensures r == Problem(h, b)
  {
    var ids: seq<Digest> := [];
    for i := 0 to |b.transactions|
      invariant forall j :: 0 <= j < i ==> ProblemAt(b, j).None?
      invariant ids == Ids(b, i)
      invariant FirstProblem(b, 0) == FirstProblem(b, i)
    {
      var tx := b.transactions[i];
      if tx.inputs == [] {
        if b.height == 0 {
          if tx.outputs == [] {
            return Some(InvalidTransaction(i, NoOutputs));
          }
        } else if i == 0 {
          var problem := ValidateCoinbase(tx, b.height);
          if problem.Some? {
            return Some(InvalidTransaction(i, problem.value));
          }
        } else {
          return Some(InvalidTransaction(i, NoInputs));
        }
      } else {
        var problem := ValidateTransaction(tx);
        if problem.Some? {
          return Some(InvalidTransaction(i, problem.value));
        }
      }
      if tx.id.None? {
        return Some(InvalidTransaction(i, Encode));
      }
      ids := ids + [tx.id.value];
    }
    var le := (a: Digest, b: Digest) => a <= b;
    var sortedIds := Sort(ids, le);
    SortedNeighbours(ids, le);
    if HasAdjacentPair(sortedIds) {
      return Some(DuplicateTx);
    }
    var computed := MerkleRootOf(h, ids);
    return if computed != b.merkleRoot then Some(MerkleRootMismatch) else None;
  }

  // ----- what a valid block is -----

  /** Outputs and an id; inputs, unless it allocates in genesis or is the coinbase in first
      place committing to the height; no input twice; and, but for genesis allocations,
      outputs that sum within 64 bits. */
  predicate Acceptable(b: Block, i: nat)
    requires i < |b.transactions|
  {
    var tx := b.transactions[i];
    && tx.outputs != [] && tx.id.Some?
    && (tx.inputs == [] ==> b.height == 0 || (i == 0 && tx.lockTime == b.height))
    && !HasDuplicate(tx.inputs)
    && ((tx.inputs == [] && b.height == 0) || Total(tx.outputs) <= U64_MAX)
  }

  function ListedIds(b: Block): seq<Digest> {
    seq<Digest>(|b.transactions|, i requires 0 <= i < |b.transactions| =>
      if b.transactions[i].id.Some? then b.transactions[i].id.value else ZERO)
  }

  lemma NoProblemExactly(b: Block, i: nat)
    requires i < |b.transactions|
    ensures ProblemAt(b, i).None? <==> Acceptable(b, i)
  {
  }

  lemma AcceptableExactly(b: Block)
    ensures FirstProblem(b, 0).None? <==> forall i :: 0 <= i < |b.transactions| ==> Acceptable(b, i)
    ensures FirstProblem(b, 0).None? ==> Ids(b, |b.transactions|) == ListedIds(b)
  {
    forall i | 0 <= i < |b.transactions| ensures ProblemAt(b, i).None? <==> Acceptable(b, i) {
      NoProblemExactly(b, i);
    }
    if FirstProblem(b, 0).None? {
      forall i | 0 <= i < |b.transactions| ensures Ids(b, |b.transactions|)[i] == ListedIds(b)[i] {
        assert ProblemAt(b, i).None? && Acceptable(b, i);
      }
    }
  }

  /** Validation accepts exactly the blocks whose transactions are all acceptable, with
      distinct ids that hash to the header's root. */
  lemma ValidExactly(h: PairHash, b: Block)
    ensures Problem(h, b).None?
            <==> && (forall i :: 0 <= i < |b.transactions| ==> Acceptable(b, i))
                 && !HasDuplicate(ListedIds(b)) && MerkleRoot(h, ListedIds(b)) == b.merkleRoot
  {
    AcceptableExactly(b);
  }

  /** What an error at position i says about the transaction there. The checks before it have
      passed; validation never reports that a coinbase has inputs, since it only takes a
      transaction without any for a coinbase. */
  ghost predicate Explains(b: Block, i: nat, error: TransactionError)
    requires i < |b.transactions|
  {
    var tx := b.transactions[i];
    var allocation, coinbase := tx.inputs == [] && b.height == 0, tx.inputs == [] && b.height > 0 && i == 0;
    var stray := tx.inputs == [] && b.height > 0 && i > 0;
    var summed := allocation || Total(tx.outputs) <= U64_MAX;
    match error
    case NoInputs => stray
    case NoOutputs => !stray && tx.outputs == []
    case DuplicateInput => tx.outputs != [] && HasDuplicate(tx.inputs)
    case OutputOverflow => !stray && tx.outputs != [] && !HasDuplicate(tx.inputs) && !summed
    case CoinbaseHasInputs => false
    case CoinbaseHeightMismatch(expected, actual) =>
      coinbase && tx.outputs != [] && summed && expected == b.height && actual == tx.lockTime != b.height
    case Encode =>
      !stray && tx.outputs != [] && !HasDuplicate(tx.inputs) && summed && (coinbase ==> tx.lockTime == b.height)
      && tx.id.None?
  }

  lemma ProblemAtExactly(b: Block, i: nat, error: TransactionError)
    requires i < |b.transactions|
    ensures ProblemAt(b, i) == Some(error) <==> Explains(b, i, error)
  {
  }

  lemma FirstProblemPlaced(b: Block, from: nat)
    requires from <= |b.transactions| && FirstProblem(b, from).Some?
    ensures FirstProblem(b, from).value.InvalidTransaction? && from <= FirstProblem(b, from).value.index < |b.transactions|
    decreases |b.transactions| - from
  {
    if ProblemAt(b, from).None? { FirstProblemPlaced(b, from + 1); }
  }

  /** The error of the first transaction that has one, and only that. */
  lemma {:induction false} FirstProblemExactly(b: Block, from: nat, i: nat, error: TransactionError)
    requires from <= i < |b.transactions|
    ensures FirstProblem(b, from) == Some(InvalidTransaction(i, error))
            <==> (forall j :: from <= j < i ==> Acceptable(b, j)) && Explains(b, i, error)
    decreases i - from
  {
    NoProblemExactly(b, from);
    ProblemAtExactly(b, i, error);
    if from < i {
      FirstProblemExactly(b, from + 1, i, error);
    } else if ProblemAt(b, i).None? && FirstProblem(b, i + 1).Some? {
      FirstProblemPlaced(b, i + 1);
    }
  }

  /** Which error validation reports: that of the first unacceptable transaction, then a
      repeated id, then a root that differs. */
  lemma ErrorsExactly(h: PairHash, b: Block, i: nat, error: TransactionError)
    ensures var acceptable := forall j :: 0 <= j < |b.transactions| ==> Acceptable(b, j);
            var repeated := HasDuplicate(ListedIds(b));
            && (Problem(h, b) == Some(InvalidTransaction(i, error))
                <==> i < |b.transactions| && (forall j :: 0 <= j < i ==> Acceptable(b, j)) && Explains(b, i, error))
            && (Problem(h, b) == Some(DuplicateTx) <==> acceptable && repeated)
            && (Problem(h, b) == Some(MerkleRootMismatch)
                <==> acceptable && !repeated && MerkleRoot(h, ListedIds(b)) != b.merkleRoot)
  {
    if i < |b.transactions| { FirstProblemExactly(b, 0, i, error); }
    if FirstProblem(b, 0).Some? { FirstProblemPlaced(b, 0); }
    AcceptableExactly(b);
  }

  // ----- what a valid block commits to -----

  /** Two structurally valid blocks with one Merkle root carry the same
      transaction ids in the same order, whatever their lengths. */
  lemma ValidRootDeterminesIds(h: PairHash, a: Block, b: Block)
    requires Problem(h, a).None? && Problem(h, b).None? && a.merkleRoot == b.merkleRoot
    requires Sound(h, Ids(a, |a.transactions|), Ids(b, |b.transactions|))
    ensures Ids(a, |a.transactions|) == Ids(b, |b.transactions|)
  {
    RootDeterminesList(h, Ids(a, |a.transactions|), Ids(b, |b.transactions|));
  }

  /** A valid block past genesis has at most one coinbase: its first transaction. */
  lemma CoinbaseOnlyFirst(h: PairHash, b: Block, i: nat)
    requires Problem(h, b).None? && b.height > 0 && i < |b.transactions| && b.transactions[i].inputs == []
    ensures i == 0 && b.transactions[0].lockTime == b.height
  {
    assert ProblemAt(b, i).None?;
  }
}
