# QuantumVault: a verified model of its consensus, ledger and exchange core

QuantumVault is a proof-of-stake chain over unspent outputs, written in Rust. This project
models the state machines and integer algorithms its nodes must agree on, and proves what
they keep over every input and every run.

| module | what it models |
|---|---|
| `BlockTree`, `ForkChoice`, `ChainState` | the block tree, fork choice, sticky finality, equivocation evidence |
| `Agreement`, `ArrivalOrder`, `Offenders` | what nodes with the same blocks agree on, and which block trees leave the choice or the proven offenders to arrival order |
| `MaxvalidBg`, `HeaderSync` | the Genesis chain-selection rule; block locators and header synchronisation |
| `Limbs`, `Field`, `FieldPow` | GF(2^256 - 189) on four 64-bit limbs |
| `Interpolation`, `Shamir` | polynomial interpolation; secret splitting and reconstruction |
| `Merkle`, `Block`, `Utxo`, `Kes` | the three Merkle commitments; block validation; key-evolving signatures |
| `Leader`, `Stake` | the fixed-point leader threshold; the stake snapshot |
| `Amm`, `Ordering`, `Batcher` | the constant-product pool, the canonical order, the order batch |
| `ClearPool` | the fee-sorted mempool with its four indexes |
| `Rewards` | halving subsidies, the supply cap, the split of a block's reward |
| `Words`, `ModArith`, `Sorting`, `MapSums` | machine words and saturation, number theory, sorting, sums over maps |

Code that updates state in place is a class whose methods are proved against a function of the
old state; loops are loops with invariants; results over whole runs are lemmas about those
functions. `dafny verify dfyconfig.toml` checks everything.

## Reading guide

**Consensus.** `ForkChoice.Run` is the state after any sequence of offered blocks. Its contract
is the invariant: the block map is a tree, the tip is the best accepted block, and the finalized
block is exactly the tip's ancestor at height max(0, tip height - k). Finality therefore only
grows, and everything ever finalized lies on one chain. `add_block` does not itself compare a
block's height and slot with its parent's; header validation does, so `Validated` is the
precondition of a step. Two nodes with the same *accepted* blocks make the same choice in
whatever order they came. For the same *offered* blocks the exact condition is on the tree they
form (`ArrivalOrder.OrdersAgreeExactly`): all parent-first orders end on the same tip and
finalized block if and only if no two blocks are both more than k blocks past their fork. And a
single block is held after every order if and only if no block other than its descendants is more
than k blocks past its fork with it (`ArrivalOrder.AlwaysKeptExactly`). Which offenders are proven is
decided in the same terms (`Offenders.OffendersAgreeExactly`). Within one node the evidence is final
as well: a proof names the first two accepted blocks of its pair and never changes.

**Chain selection.** `add_block` switches exactly when `maxvalid_bg` would, for every density
window, because finality keeps every fork shallow. On its own `maxvalid_bg` is not
antisymmetric; `MutualAdoptionExactly` says precisely when two nodes would adopt each other's
chain.

**Field and sharing.** Multiplication and exponentiation are the exact residues for all 32-byte
inputs. Addition is exact if and only if the operands sum to less than 2p, subtraction if and
only if their difference is at least -p and less than p; all callers pass reduced values. That p = 2^256 - 189 is
prime is a hypothesis (`IsPrime(P)`), used through Fermat's little theorem, which is proved. Under it
t shares determine the secret modulo p, and t - 1 shares fit every secret, each in exactly one way. How coefficients are derived from the secret is a parameter, SHA3-256 in the code.

**Merkle roots.** SHA3-256 is a function parameter. The hypotheses name only the finitely many
preimages actually hashed: no two of them collide, no inner hash is a leaf, and zero is neither.
Injectivity of a hash on all inputs would contradict its finite range. The separation of leaves
from inner nodes is assumed rather than derived from preimage lengths, because a leaf preimage
may also be 64 bytes long.

**Leader check.** A pool with all the stake is elected in exactly one VRF value in twenty, and at the
coefficient the exponential is 19/20 of 2^64 to within two units. The threshold is within six units of
2^64 (1 - S) for every exact partial sum S of nine or more terms of the exponential. Up to a total of `LN_ONE_MINUS_F_MAG / 4` (2.3 * 10^17,
against a supply of 2.1 * 10^15) a pool elected with less stake stays elected with more. From
`LN_ONE_MINUS_F_MAG` (9.5 * 10^17) up, every total has a pool that one more unit of stake costs a slot.

**Exchange.** The pool invariant lp^2 <= a * b holds over every run of swaps, deposits and
withdrawals from the empty pool. A batch is the same for every arrival order of orders with
distinct ids, and `Batcher.BatchReportsFilledOrders` says what it reports. With repeated ids the
last order listed with an id runs once for every time the id is listed.

**Rewards.** The capped subsidies of any run add up to exactly the scheduled subsidies cut off
at the supply. `Rewards.PayoutExactly` says for all inputs when a reward is paid out in full and no
more. With a margin in range it always is while the delegated stakes sum to at most 2^64 - 1; past
that, if and only if the excess stake, weighted with the delegators' pool, does not outweigh the
rounding dust.

## Where the code and its comments differ

The model follows the code.

- `crates/qv-consensus/src/rewards.rs:77` says the emission includes the given height; at height
  2^64 - 1 the block count saturates and the last block is missed (`Rewards.EmissionIsMinted`).
- `crates/qv-consensus/src/leader_schedule.rs:204-205` speaks of an error below one unit. That holds
  of stopping after nine terms (`Leader.TruncationBelowOne`), not of the computed value: the nine
  floors add up, to more than three units at one concrete exponent (`Leader.ThresholdMissesByThree`)
  and to less than five at every exponent (`Leader.ThresholdError`).
- `crates/qv-mempool/src/batcher.rs:174-175` gives the net input as dx * 997 / 1000; the code takes dx
  less the floor of 3dx / 1000, which is one unit more whenever 3dx is not a multiple of 1000
  (`Batcher.NetInput`).
- `crates/qv-crypto/src/kes.rs:273` says generation erases the master seed; the code borrows it and
  leaves it alone.
- `crates/qv-consensus/src/chain_state.rs:513-515` says a tie keeps the local chain so that nodes do
  not thrash; across the depth-k boundary two nodes can still swap chains
  (`MaxvalidBg.MutualAdoptionHappens`).

## Model

| member | source | states |
|---|---|---|
| BlockTree.AncestorIffPrefix | crates/qv-consensus/src/chain_state.rs:373-404 | Ancestry, the reflexive transitive closure of parent links, is the prefix order on paths from genesis |
| BlockTree.InsertKeepsTree | crates/qv-consensus/src/chain_state.rs:309-311 | Storing a block linked to its parent keeps the map a tree, leaves every old path alone and extends the parent's path by one |
| BlockTree.PathAscends | crates/qv-consensus/src/block_validator.rs:175-190 | Along every path of a tree heights count up from zero and slots strictly ascend |
| BlockTree.PathFits | crates/qv-consensus/src/chain_state.rs:363-371 | A path is never longer than the number of entries, so the cap in the canonical chain never truncates it |
| ForkChoice.AcceptedDescendsFromFinal | crates/qv-consensus/src/chain_state.rs:279-302 | An accepted block is new, linked, and its path extends the finalized block's path |
| ForkChoice.RejectionExactly | crates/qv-consensus/src/chain_state.rs:279-302 | Which check refuses a block and with what values, for every block; one passes exactly when it is new, not genesis, and its known parent descends from the finalized block |
| ForkChoice.NewTipIsBest | crates/qv-consensus/src/chain_state.rs:318-332 | The switching rule keeps the tip the best of all stored blocks: greatest height, then lowest hash |
| ForkChoice.AdvanceKeepsFinalKDeep | crates/qv-consensus/src/chain_state.rs:406-439 | After a switch the finalized block is exactly the new tip's ancestor k blocks below it |
| ForkChoice.AddBlockKeepsInv | crates/qv-consensus/src/chain_state.rs:279-337 | Adding any validated block, accepted or refused, keeps the invariant |
| ForkChoice.Offer | crates/qv-consensus/src/block_validator.rs:175-190 | A node that validates the header before adding keeps the invariant on any offered block |
| ForkChoice.OfferTakesExactly | crates/qv-consensus/src/block_validator.rs:175-190 | An offered block is taken exactly when it is new, not genesis, follows its parent in height and slot, and that parent descends from the finalized block; any other changes nothing |
| ForkChoice.Run | crates/qv-consensus/src/chain_state.rs:167-176 | Every state reached from genesis has a tree of blocks, the best block as tip, and as finalized block exactly the tip's ancestor at height max(0, tip height - k) |
| ForkChoice.FinalityIsMonotone | crates/qv-consensus/src/chain_state.rs:21-26 | Between any two moments of any run the finalized path only grows |
| ForkChoice.OnceFinalAlwaysFinal | crates/qv-consensus/src/chain_state.rs:236-247 | A block once final is final after any further blocks, through every reorganisation |
| ForkChoice.FinalizedBlocksNeverConflict | crates/qv-consensus/src/chain_state.rs:28-32 | Any two blocks ever finalized in a run lie on one chain, and at one height they are the same block |
| ForkChoice.LaterBlocksDescend | crates/qv-consensus/src/chain_state.rs:291-302 | Every block accepted after any moment of any run descends from the block that was final then |
| ForkChoice.RunKeepsEvidence | crates/qv-consensus/src/chain_state.rs:441-460 | In every reachable state a proof is held for a (slot, producer) pair exactly when two accepted blocks share it, and each proof names two such blocks |
| ForkChoice.ProofsNameFirstTwo | crates/qv-consensus/src/chain_state.rs:441-460 | Over every run the first-seen hash of a (slot, producer) pair is its first accepted block, a proof is held exactly when a second one was accepted, and names these two however many follow |
| ForkChoice.AcceptedOfLists | crates/qv-consensus/src/chain_state.rs:441-460 | The list these two are taken from holds exactly the accepted blocks of the pair, each once |
| ForkChoice.AcceptedGrows | crates/qv-consensus/src/chain_state.rs:441-460 | As a run goes on the list only grows at its end |
| ForkChoice.EvidenceNeverChanges | crates/qv-consensus/src/chain_state.rs:441-460 | A first-seen hash and a proof, once held, never change in the rest of the run |
| Agreement.SameBlocksSameChoice | crates/qv-consensus/src/chain_state.rs:28-32 | Two nodes with the same k and the same accepted blocks hold the same tip, finalized block and proven offenders, in whatever arrival orders |
| Agreement.FirstDeepBranchWins | crates/qv-consensus/src/chain_state.rs:291-302 | Of two branches of any lengths that part at any height, both more than k blocks past the fork, the one offered first is final there for good: two nodes offered them in opposite orders finalize different blocks, whatever else they are offered |
| Agreement.DeepBranchIsFinal | crates/qv-consensus/src/chain_state.rs:406-439 | A branch offered first finalizes all but its last k blocks for good, whatever is offered after it |
| ArrivalOrder.RefusedOnlyWhenOutrun | crates/qv-consensus/src/chain_state.rs:291-302 | A valid block with a known parent is refused only when the tip is more than k blocks past its fork with the block |
| ArrivalOrder.AlwaysKeptExactly | crates/qv-consensus/src/chain_state.rs:279-302 | A block of a tree is held after every parent-first order of the tree if and only if no block other than its descendants is more than k blocks past its fork with it |
| ArrivalOrder.TipIsTreeBest | crates/qv-consensus/src/chain_state.rs:318-332 | In a tree without two blocks that deep past their fork, every order ends with the best block of the whole tree as tip |
| ArrivalOrder.DeepForkSplits | crates/qv-consensus/src/chain_state.rs:291-302 | In a tree with two such blocks, two orders end with different tips |
| ArrivalOrder.OrdersAgreeExactly | crates/qv-consensus/src/chain_state.rs:28-32 | All parent-first orders of a tree give the same tip, finalized block and final height if and only if no two of its blocks are both more than k blocks past their fork |
| Offenders.UnheldIsOutrun | crates/qv-consensus/src/chain_state.rs:291-302 | After any parent-first run, every offered block that is not held is outrun by the tip |
| Offenders.HeldDeepIsFinal | crates/qv-consensus/src/chain_state.rs:406-439 | In every reachable state, whatever lies k blocks below a held block, on any branch, is final |
| Offenders.SometimesProvenExactly | crates/qv-consensus/src/chain_state.rs:441-460 | Some parent-first order of a tree proves an offender if and only if two of its blocks for one slot are not both more than k blocks past their fork |
| Offenders.AlwaysProvenExactly | crates/qv-consensus/src/chain_state.rs:441-460 | Every order proves an offender if and only if, for every block of the tree, two of the offender's blocks for one slot are not outrun by it |
| Offenders.OffendersAgreeExactly | crates/qv-consensus/src/chain_state.rs:441-460 | All orders prove the same offenders if and only if every offender that some order can prove, every order must |
| ChainState.ChainState.Genesis | crates/qv-consensus/src/chain_state.rs:167-176 | A new chain holds the all-zero genesis and satisfies the invariant |
| ChainState.ChainState.IsAncestor | crates/qv-consensus/src/chain_state.rs:380-404 | The height-bounded walk decides ancestry exactly, and is false when either block is unknown |
| ChainState.ChainState.IsFinal | crates/qv-consensus/src/chain_state.rs:245-247 | A block is reported final exactly when it is the finalized block or its ancestor |
| ChainState.ChainState.Ancestors | crates/qv-consensus/src/chain_state.rs:342-357 | The result is the last `count` entries of the block's path, newest first; empty for an unknown block |
| ChainState.ChainState.CanonicalChain | crates/qv-consensus/src/chain_state.rs:363-371 | The canonical chain is the whole path from genesis to the tip |
| ChainState.ChainState.AdvanceFinality | crates/qv-consensus/src/chain_state.rs:412-439 | The backward walk reaches the tip's ancestor at the target height and stores it |
| ChainState.ChainState.RecordEquivocation | crates/qv-consensus/src/chain_state.rs:444-460 | The two maps change exactly as the transition function says; `ForkChoice.ProofsNameFirstTwo` says what that keeps over runs |
| ChainState.ChainState.Check | crates/qv-consensus/src/chain_state.rs:279-302 | The three checks in order give the transition function's error, with no change of state |
| ChainState.ChainState.Store | crates/qv-consensus/src/chain_state.rs:304-336 | Storing, recording, choosing the tip and advancing finality give exactly the accepted state |
| ChainState.ChainState.AddBlock | crates/qv-consensus/src/chain_state.rs:279-337 | Result and whole new state equal the transition function's, and the invariant holds again |
| MaxvalidBg.CommonPrefixLen | crates/qv-consensus/src/chain_state.rs:555-561 | The result is the length of the longest common prefix by hash |
| MaxvalidBg.DensityCounts | crates/qv-consensus/src/chain_state.rs:565-580 | The density is the number of positions after the fork whose slot lies in the window |
| MaxvalidBg.MaxvalidBgExactly | crates/qv-consensus/src/chain_state.rs:521-552 | The candidate is adopted exactly when the chains share a block and, on a fork at most k deep, it is longer or as long with the lower tip hash, and on a deeper one it has more blocks within s slots after the fork |
| MaxvalidBg.MutualAdoptionExactly | crates/qv-consensus/src/chain_state.rs:521-552 | Two chains adopt each other exactly when one side of the fork is at most k long, the other longer, and the short side has more blocks within s slots after the fork |
| MaxvalidBg.MutualAdoptionHappens | crates/qv-consensus/src/chain_state.rs:513-515 | With k = 1 and s = 10, slots [5] against [20, 30] adopt in both directions |
| MaxvalidBg.ForkIsShallow | crates/qv-consensus/src/chain_state.rs:527-543 | A chain that extends the finalized path forks at most k blocks below the tip |
| MaxvalidBg.AddBlockIsMaxvalidBg | crates/qv-consensus/src/chain_state.rs:279-337 | For every accepted block and every window, the tip switches exactly when maxvalid_bg on the canonical chain and the block's path answers AdoptCandidate |
| HeaderSync.BuildLocator | crates/qv-consensus/src/chain_state.rs:607-629 | The locator is the hashes at distances 0..9, then 10, 12, 16, ... below the tip, ending at genesis |
| HeaderSync.LocatorIsShort | crates/qv-consensus/src/chain_state.rs:600-606 | It runs from tip to genesis in at most 10 + ceil(log2 n) hashes |
| HeaderSync.LocatorGaps | crates/qv-consensus/src/chain_state.rs:607-629 | The locator names the tip and the ten blocks below it; from there each gap is twice the one before, cut off at genesis |
| HeaderSync.FindStart | crates/qv-consensus/src/chain_state.rs:646-651 | The answer starts after the first locator hash the server knows, or at genesis |
| HeaderSync.StartIndexExactly | crates/qv-consensus/src/chain_state.rs:644-651 | The answer starts at genesis exactly when no locator hash is known, and otherwise right after the block of the first known one |
| HeaderSync.StrangerIsSentGenesis | crates/qv-consensus/src/chain_state.rs:637-664 | A peer whose locator shares nothing is sent the first `max` blocks, genesis first, up to the stop block |
| HeaderSync.SelectHeadersForLocator | crates/qv-consensus/src/chain_state.rs:640-664 | The answer is the next `max` hashes from there, ending early at `stop` |
| HeaderSync.TakeEndsAtStop | crates/qv-consensus/src/chain_state.rs:653-663 | The answer is consecutive hashes and falls short of the cap only by ending at the stop block, after which nothing follows |
| HeaderSync.AnswerStartsAtFork | crates/qv-consensus/src/chain_state.rs:634-651 | Against a server that forks d blocks below the peer's tip, the answer starts after a shared block, skips no missing block and repeats at most d known ones |
| HeaderSync.RoundExtendsPrefix | crates/qv-consensus/src/chain_state.rs:640-664 | From a prefix of the server's chain one round delivers exactly the next `max` blocks up to the target: the stop block if it is ahead, else the tip |
| HeaderSync.RoundsCatchUp | crates/qv-consensus/src/chain_state.rs:640-664 | After r rounds the peer is r * max blocks further or at its target, so the stop block or the tip is reached in exactly ceil(gap / max) rounds |
| HeaderSync.ForkedRound | crates/qv-consensus/src/chain_state.rs:640-664 | For a peer on a fork, exactly when the longest-chain rule adopts what it holds after one answer: the answer must pass the peer's length, or reach it with a lower last hash |
| HeaderSync.LargeCapSuffices | crates/qv-consensus/src/chain_state.rs:640-664 | On a fork d blocks deep a cap above 2d is enough, whenever the target is past the peer's length |
| HeaderSync.ForkedRoundsCatchUp | crates/qv-consensus/src/chain_state.rs:640-664 | A forked peer that adopts the first answer reaches the stop block or the tip in ceil(gap / max) rounds, the gap counted from where that answer started, at most d blocks before the fork |
| HeaderSync.TreePathsFork | crates/qv-consensus/src/chain_state.rs:555-561 | Any two chains of one block tree share exactly their common prefix, the premise of the two results above |
| Limbs.ToLimbsValue | crates/qv-crypto/src/threshold.rs:68-75 | The four limbs of a 32-byte string denote its value |
| Limbs.FromLimbs | crates/qv-crypto/src/threshold.rs:77-88 | Packing limbs keeps their value |
| Limbs.Gte | crates/qv-crypto/src/threshold.rs:95-105 | The limb comparison is the comparison of values, both ways |
| Limbs.AddRaw | crates/qv-crypto/src/threshold.rs:108-117 | Sum plus carry-out is the exact 257-bit sum |
| Limbs.SubRaw | crates/qv-crypto/src/threshold.rs:120-134 | Difference with borrow-out is the exact difference |
| Field.Reduce | crates/qv-crypto/src/threshold.rs:137-145 | One conditional subtraction reduces any 256-bit value modulo p |
| Field.ReduceBytes | crates/qv-crypto/src/threshold.rs:301-304 | The residue of any 32-byte value |
| Field.Add | crates/qv-crypto/src/threshold.rs:162-173 | The result is the sum modulo p exactly when the operands sum to less than 2p |
| Field.Sub | crates/qv-crypto/src/threshold.rs:176-186 | The result is the difference modulo p exactly when that difference is at least -p and less than p |
| Field.Columns | crates/qv-crypto/src/threshold.rs:189-204 | The eight accumulated columns denote the full product and no 128-bit column overflows |
| Field.Carry | crates/qv-crypto/src/threshold.rs:205-210 | Carrying leaves 64-bit limbs that denote the same product |
| Field.Times189 | crates/qv-crypto/src/threshold.rs:230-239 | Five limbs that denote 189 times the high half |
| Field.AddFive | crates/qv-crypto/src/threshold.rs:241-250 | Five limbs that denote the low half plus the correction |
| Field.FoldOverflow | crates/qv-crypto/src/threshold.rs:252-269 | Folding the fifth limb back in and reducing gives the residue |
| Field.Mul | crates/qv-crypto/src/threshold.rs:189-270 | For all 32-byte inputs, reduced or not, the result is the product modulo p |
| FieldPow.PowMod | crates/qv-crypto/src/threshold.rs:273-287 | The 256-step square-and-multiply is modular exponentiation, for every base and exponent |
| FieldPow.Inv | crates/qv-crypto/src/threshold.rs:290-296 | The result is the (p - 2)-th power modulo p |
| FieldPow.InverseIsInverse | crates/qv-crypto/src/threshold.rs:290-296 | With p prime that power is the multiplicative inverse of every nonzero residue |
| Shamir.PolyEval | crates/qv-crypto/src/threshold.rs:468-476 | Horner's loop gives the polynomial's value modulo p |
| Shamir.SplitSecret | crates/qv-crypto/src/threshold.rs:426-465 | The error cases, and otherwise exactly the shares at 1..n of the polynomial with the secret and the derived values as coefficients |
| Shamir.ShareIsPowerSum | crates/qv-crypto/src/threshold.rs:436-476 | The share at x is secret + derive(1) x + derive(2) x^2 + ... modulo p, power by power |
| Shamir.FewSharesSayNothing | crates/qv-crypto/src/threshold.rs:405-465 | Fewer than t shares fit every secret: for p prime, any secret, any distinct nonzero points and any residues there is a derivation for which exactly these residues are the shares |
| Shamir.OneExplanationPerSecret | crates/qv-crypto/src/threshold.rs:405-465 | With t - 1 points the derived coefficients that fit a secret are unique modulo p |
| Shamir.SharesEqualExactly | crates/qv-crypto/src/threshold.rs:426-465 | Two splits give the same shares exactly when the secrets and every derived coefficient agree modulo p |
| Shamir.BasisAtZero | crates/qv-crypto/src/threshold.rs:530-549 | The inner loops compute the Lagrange basis value at zero |
| Shamir.ReconstructSecret | crates/qv-crypto/src/threshold.rs:498-557 | The error cases in order, and otherwise Lagrange interpolation at zero over the first `threshold` shares |
| Shamir.ReconstructErrorsExactly | crates/qv-crypto/src/threshold.rs:498-520 | Which error comes back, for all shares: too few once the count is cut to 32 bits, then a repeated index among those used, then a zero one |
| Shamir.LagrangeRecovers | crates/qv-crypto/src/threshold.rs:522-557 | Any sufficiently many points with distinct nonzero indices recover the constant term |
| Shamir.ReconstructUndoesSplit | crates/qv-crypto/src/threshold.rs:405-557 | For every secret, every 1 <= t <= n <= 255 and every choice of at least t distinct shares in any order, reconstruction returns the secret modulo p |
| Merkle.MerkleRootOf | crates/qv-core/src/block.rs:257-294 | The level-by-level loop computes the tree's root; zero for an empty list |
| Merkle.ValueDeterminesTree | crates/qv-core/src/block.rs:257-294 | Without a collision among the pairs hashed, two roots agree exactly when the whole trees do |
| Merkle.RootDeterminesForest | crates/qv-core/src/block.rs:257-294 | Equal trees over duplicate-free lists, of whatever lengths, come from the same list |
| Merkle.RootDeterminesList | crates/qv-core/src/block.rs:226-240 | Two duplicate-free id lists of any lengths with one root are the same list |
| Merkle.RepeatedLastKeepsRoot | crates/qv-core/src/block.rs:226-234 | For every hash, repeating the last id of an odd list keeps the root: why duplicates must be refused |
| Block.CheckedSum | crates/qv-core/src/types.rs:510-513 | The sum of the amounts, or none exactly when it leaves 64 bits |
| Block.TotalIsSum | crates/qv-core/src/types.rs:510-513 | The total it is checked against is zero of nothing, the amount of one, and additive over lists |
| Block.ValidateTransaction | crates/qv-core/src/transaction.rs:522-543 | The first structural error in the order the code checks, duplicate inputs found by sorting |
| Block.ValidateCoinbase | crates/qv-core/src/transaction.rs:482-498 | The coinbase checks in order: no inputs, some outputs, no overflow, the committed height |
| Block.ValidateStructure | crates/qv-core/src/block.rs:186-243 | The first failing transaction by position, then duplicate ids, then a wrong Merkle root |
| Block.ValidExactly | crates/qv-core/src/block.rs:186-243 | A block is accepted exactly when every transaction obeys the positional, duplicate-input and overflow rules, the ids are distinct and they hash to the header's root |
| Block.ErrorsExactly | crates/qv-core/src/block.rs:186-243 | Which error is reported, for every block: that of the first unacceptable transaction, with what it says about it, then a repeated id, then a differing root; a coinbase is never reported to have inputs |
| Block.ValidRootDeterminesIds | crates/qv-core/src/block.rs:186-243 | Two valid blocks with one Merkle root carry the same transaction ids in the same order, whatever their lengths |
| Block.CoinbaseOnlyFirst | crates/qv-core/src/block.rs:180-211 | Past genesis a valid block has at most one coinbase: its first transaction, committing to the block's height |
| Sorting.SortedNeighbours | crates/qv-core/src/block.rs:226-234 | Comparing neighbours after sorting finds a duplicate exactly when there is one |
| Utxo.CanonicalBytesInjective | crates/qv-core/src/types.rs:561-567 | The 36 bytes of an outpoint determine it |
| Utxo.CanonicalBytesLayout | crates/qv-core/src/types.rs:561-567 | Bytes 0 to 31 are the id from its highest byte down, bytes 32 to 35 the index from its lowest byte up |
| Utxo.InMemoryUtxoSet.Insert | crates/qv-core/src/utxo.rs:118-124 | Inserts a fresh outpoint; a known one is refused and nothing changes |
| Utxo.InMemoryUtxoSet.Remove | crates/qv-core/src/utxo.rs:126-128 | Removes and returns the output, or reports it missing |
| Utxo.InMemoryUtxoSet.Iter | crates/qv-core/src/utxo.rs:112-114 | The outpoints in ascending order, each once |
| Utxo.InMemoryUtxoSet.Commitment | crates/qv-core/src/utxo.rs:138-140 | The Merkle root over the leaf hashes in outpoint order |
| Utxo.LeavesAscend | crates/qv-core/src/utxo.rs:153-181 | The leaves are the hashes of outpoint bytes and encoded output, one for each entry, by ascending id and then index |
| Utxo.CommitmentDeterminesSet | crates/qv-core/src/utxo.rs:153-181 | Two sets have equal commitments exactly when their maps are equal, whatever histories led to them |
| Kes.MerkleRootFromLeaves | crates/qv-crypto/src/kes.rs:200-214 | The loop computes the tree's root |
| Kes.MerklePathFor | crates/qv-crypto/src/kes.rs:218-239 | The loop collects the sibling on every level, zero where there is none |
| Kes.MerkleRootFromPath | crates/qv-crypto/src/kes.rs:242-256 | The loop folds a leaf with its path |
| Kes.PathRecomputesRoot | crates/qv-crypto/src/kes.rs:218-256 | At every depth d and every index of 2^d leaves, the generated path leads back to the root |
| Kes.PathBindsLeaf | crates/qv-crypto/src/kes.rs:242-256 | Without collisions, any length-d path that reaches the root at index i starts from leaf i and is the generated path |
| Kes.Generate | crates/qv-crypto/src/kes.rs:277-299 | Fails exactly when some leaf key cannot be derived; otherwise public root and secret key state as derived from the master seed |
| Kes.KesSecretKey.SignMessage | crates/qv-crypto/src/kes.rs:307-334 | A signature of the current period, or the error for an exhausted key, a failed leaf key or a failed leaf signature |
| Kes.SignFailsExactly | crates/qv-crypto/src/kes.rs:307-334 | On any key state, exactly when each of the four errors comes back |
| Kes.KesSecretKey.Advance | crates/qv-crypto/src/kes.rs:370-381 | Erases the current seed and moves one period on; an exhausted key is refused unchanged |
| Kes.VerifySignature | crates/qv-crypto/src/kes.rs:341-364 | False for a period out of range or a path of the wrong length, an error when the leaf check errs, else whether the leaf signature is valid and the path reaches the root |
| Kes.VerifyExactly | crates/qv-crypto/src/kes.rs:341-364 | Exactly when a signature is accepted, and when checking it is an error rather than a refusal |
| Kes.PastSeedsAreErased | crates/qv-crypto/src/kes.rs:366-381 | After n evolutions exactly the n past seeds are zero and all others untouched |
| Kes.ExhaustedForGood | crates/qv-crypto/src/kes.rs:366-381 | Past its last period a key holds no seed and never signs again, however often it is advanced |
| Kes.EverySignatureVerifies | crates/qv-crypto/src/kes.rs:307-364 | After any number of evolutions a signature is made exactly when the leaf key and leaf signature are, and then verifies at its own period |
| Kes.VerifiedSignatureBindsPeriod | crates/qv-crypto/src/kes.rs:341-364 | An accepted signature was made under exactly its own period's leaf key, on the message bound to that period, and carries the generated path |
| Leader.ExpNegFixed | crates/qv-consensus/src/leader_schedule.rs:213-231 | The saturating series on every exponent; up to the coefficient nothing saturates and it is the floored nine-term series |
| Leader.SeriesBracketed | crates/qv-consensus/src/leader_schedule.rs:213-231 | Partial sums bracket the series and stay within [2^64 - m, 2^64] |
| Leader.FixedThresholdIsExact | crates/qv-consensus/src/leader_schedule.rs:237-246 | For stake_num <= stake_den no saturating operation fires in the threshold; without stake or without a total it is zero |
| Leader.LeaderThresholdFixed | crates/qv-consensus/src/leader_schedule.rs:237-246 | The threshold on every input, saturation included, never above 2^64: exact for stake_num <= stake_den, zero without stake or without a total |
| Leader.FullStakeIsOneInTwenty | crates/qv-consensus/src/leader_schedule.rs:234-246 | A pool with all of any total has the threshold 2^64/20, rounded up, and is elected exactly when twenty times its VRF value is below 2^64 |
| Leader.CoefficientIsTheLogarithm | crates/qv-consensus/src/leader_schedule.rs:193-202 | At the coefficient every exact sum of nine or more terms is within two units of 19/20 of 2^64: it is the logarithm of 1 - 1/20 |
| Leader.LeaderVrfValue | crates/qv-consensus/src/leader_schedule.rs:250-254 | The VRF value is the output, as a part of 2^256, cut off to 64 bits |
| Leader.IsSlotLeader | crates/qv-consensus/src/leader_schedule.rs:263-268 | On every input: elected exactly when stake and total are nonzero and the VRF value is below the threshold, which is when the whole 256-bit output is below 2^192 thresholds |
| Leader.ThresholdAtMostExponent | crates/qv-consensus/src/leader_schedule.rs:237-246 | 0 <= threshold <= exponent <= the coefficient |
| Leader.ThresholdError | crates/qv-consensus/src/leader_schedule.rs:204-231 | The threshold is within 5 units of 2^64 times the exact degree-9 value at the exponent used, and within 6 at the exact relative stake |
| Leader.ThresholdMissesByThree | crates/qv-consensus/src/leader_schedule.rs:204-205 | At one concrete exponent the threshold is more than three units below the exact degree-9 value |
| Leader.TruncationBelowOne | crates/qv-consensus/src/leader_schedule.rs:204-205 | Every exact sum of more than nine terms exceeds the nine-term one by less than one unit |
| Leader.ThresholdNearExponential | crates/qv-consensus/src/leader_schedule.rs:204-231 | The threshold is within 6 units of every exact sum of nine or more terms, at the exponent used and at the exact relative stake |
| Leader.MoreStakeStaysElected | crates/qv-consensus/src/leader_schedule.rs:234-268 | For every total up to LN_ONE_MINUS_F_MAG / 4 a pool elected with less stake stays elected with more, and up to LN_ONE_MINUS_F_MAG / 5 more stake strictly raises the threshold |
| Leader.MoreStakeCanLoseASlot | crates/qv-consensus/src/leader_schedule.rs:234-268 | For every total from LN_ONE_MINUS_F_MAG up some pool loses a slot by gaining one unit of stake |
| Stake.NewDistribution | crates/qv-consensus/src/stake.rs:169-193 | Fails exactly when the listed amounts sum past 64 bits; otherwise the total is the sum of the pool stakes and each pool has the sum of its entries |
| Stake.ListedIsSum | crates/qv-consensus/src/stake.rs:169-193 | What is listed for a pool, and in all, is a sum over the entries |
| Stake.RelativeStakeIsAPart | crates/qv-consensus/src/stake.rs:254-260 | The relative stake is the stake of the pool over the total, or 0/1 without stake; always stake_num <= stake_den with a positive denominator |
| Stake.ThresholdsFitTheCoefficient | crates/qv-consensus/src/stake.rs:254-260 | However the stake is split, all pools' thresholds sum to at most LN_ONE_MINUS_F_MAG |
| Stake.CollectPledges | crates/qv-consensus/src/stake.rs:205-214 | Per active pool the saturated sum of its pledges |
| Stake.CollectStakes | crates/qv-consensus/src/stake.rs:216-228 | Per active pool the exact stake cut off at 64 bits; delegations to other pools are skipped |
| Stake.PledgedIsSum | crates/qv-consensus/src/stake.rs:205-214 | Pledges add up over the pools, each for its own id while active |
| Stake.DelegatedIsSum | crates/qv-consensus/src/stake.rs:216-228 | Delegations add up over the list, each for the pool it names |
| Stake.EntriesOf | crates/qv-consensus/src/stake.rs:230-233 | Listing the map neither loses nor duplicates stake |
| Stake.Snapshot | crates/qv-consensus/src/stake.rs:198-236 | Fails exactly when the cut-off stakes sum past 64 bits; otherwise the consistent distribution of them for this epoch, listing exactly the active pools with stake |
| Stake.SnapshotIsExact | crates/qv-consensus/src/stake.rs:198-236 | A snapshot with a total below 2^64 - 1 has cut nothing off |
| Amm.SwapQuote | crates/qv-defi/src/amm.rs:309-346 | A live pool quotes every positive input at a fee of at most 100%; the fee is the floor of its basis points, the output is the largest that keeps the product on net amounts, and never the whole reserve |
| Amm.PoolState.Swap | crates/qv-defi/src/amm.rs:245-278 | The reserves after a swap; a failure on the outgoing side leaves the incoming side credited |
| Amm.SwapFailure | crates/qv-defi/src/amm.rs:245-278 | When a swap is applied and what it moves; a failed one is an overflow error and leaves the pool unchanged exactly when the incoming addition overflowed or added nothing, else it has credited the input only |
| Amm.SqrtU128 | crates/qv-defi/src/amm.rs:513-524 | Newton's loop returns the exact integer square root of every 128-bit value, without overflow |
| Amm.ComputeAddLiquidity | crates/qv-defi/src/amm.rs:371-439 | Tokens issued and new pool, or the error, on every pool and deposit |
| Amm.DepositQuote | crates/qv-defi/src/amm.rs:371-439 | A deposit is taken exactly when both amounts are nonzero, both reserves hold them and a pool with tokens has both reserves and room for what it issues; it issues the largest number of tokens neither side's share exceeds, the root of the product when it is the first, and adds exactly itself to the reserves |
| Amm.WithdrawQuote | crates/qv-defi/src/amm.rs:445-506 | A withdrawal is refused exactly for zero or too many tokens, each with its own error, and pays the floor of each proportional share |
| Amm.StepMoves | crates/qv-defi/src/amm.rs:245-506 | A step of a run moves exactly its amounts or nothing: a quoted swap as long as the input fits, a deposit and a withdrawal when granted |
| Amm.DepositDoesNotDilute | crates/qv-defi/src/amm.rs:371-439 | A deposit never lowers the product behind a squared liquidity token |
| Amm.WithdrawDoesNotDilute | crates/qv-defi/src/amm.rs:445-506 | A withdrawal never lowers it either |
| Amm.SwapKeeps | crates/qv-defi/src/amm.rs:245-346 | A quoted swap keeps the tokens, never lowers the product and never drains a reserve |
| Amm.RunKeepsBacked | crates/qv-defi/src/amm.rs:245-524 | Over every run from an empty pool, lp_total^2 <= reserve_a * reserve_b |
| Amm.RunDoesNotDilute | crates/qv-defi/src/amm.rs:245-524 | Over every run that keeps liquidity in the pool, the value behind a token never falls |
| Amm.SwapRunNeverPays | crates/qv-defi/src/amm.rs:309-346 | A swap-only run that ends with no more of one token ends with at least as much of the other, and drains neither |
| Amm.RunStrandsNothing | crates/qv-defi/src/amm.rs:445-506 | In every pool reached from an empty one, no tokens left means no reserves left |
| Amm.DepositNeverPays | crates/qv-defi/src/amm.rs:371-506 | In every pool reached from an empty one, a deposit burned at once pays back no more of either token than was put in |
| Ordering.KeyLeMeansPriority | crates/qv-mempool/src/ordering.rs:68-75 | The key order is fee density down, then time up, then id up |
| Ordering.DeterministicSort | crates/qv-mempool/src/ordering.rs:81-83 | The array is sorted in place by that order |
| Ordering.VerifyOrderAcceptsCanonical | crates/qv-mempool/src/ordering.rs:89-91 | A verifier accepts exactly the duplicate-free outputs of the canonical sort |
| Ordering.SortForgetsArrival | crates/qv-mempool/src/ordering.rs:77-83 | Every arrival order of the same keys sorts to the same list |
| Batcher.SwapOutputIsAmmQuote | crates/qv-mempool/src/batcher.rs:178-201 | The batcher's quote is the pool's 30-basis-point quote exactly while tripling the offer fits 64 bits (or a reserve is empty) |
| Batcher.NetInput | crates/qv-mempool/src/batcher.rs:183-185 | The net input is dx * 997 / 1000 exactly when 3dx is a multiple of 1000, and otherwise one unit more |
| Batcher.BuildLookup | crates/qv-mempool/src/batcher.rs:107-109 | An id maps to the last order listed with it |
| Batcher.LookupIsLast | crates/qv-mempool/src/batcher.rs:107-109 | What an id maps to is the last order listed with it, and nothing exactly when there is none |
| Batcher.FilledExactly | crates/qv-mempool/src/batcher.rs:121-148 | An order is filled exactly when it names the pool, reserves and offer are nonzero, three times the offer fits 64 bits, and its minimum is within its share of the reserve after the 0.3% fee |
| Batcher.ExecuteOrder | crates/qv-mempool/src/batcher.rs:121-159 | One order is filled or skipped as specified, with the running reserves, fees and matched list |
| Batcher.BuildAmmBatch | crates/qv-mempool/src/batcher.rs:99-169 | The batch is the fold of the orders in canonical order |
| Batcher.BatchReportsFilledOrders | crates/qv-mempool/src/batcher.rs:99-169 | For distinct ids the batch reports its pool, the ids of exactly the orders filled from the pool's reserves, in canonical order, and the sum of their 0.3% fees cut off at 64 bits |
| Batcher.BatchForgetsArrival | crates/qv-mempool/src/batcher.rs:93-105 | Every permutation of orders with distinct ids gives the same batch |
| Batcher.CanonicalIsSortedOrders | crates/qv-mempool/src/batcher.rs:103-119 | The executed list holds exactly the orders, in strictly ascending key order |
| Batcher.CanonicalPermutes | crates/qv-mempool/src/batcher.rs:103-119 | No order is lost and none is executed twice |
| Batcher.CanonicalRunsLastOrders | crates/qv-mempool/src/batcher.rs:103-119 | On every list there is one execution for each listed order, of the last order with its id: an id listed twice runs its last order twice |
| Batcher.BatchIsPoolSwaps | crates/qv-mempool/src/batcher.rs:99-169 | While reserves plus offers fit 64 bits the reserve product never falls, and with offers up to a third of the range the batch is the pool's own swap folded over the canonical order |
| Batcher.MatchedOrdersWereFilled | crates/qv-mempool/src/batcher.rs:141-159 | A filled order is paid exactly its quote and at least its minimum, its whole offer joins the other reserve and its fee is 0.3% of it; a skipped one changes nothing |
| Batcher.MatchedInOrder | crates/qv-mempool/src/batcher.rs:111-160 | The running matched list is the ids of exactly the filled orders, in canonical order, and the running fees are the sum of theirs cut off at 64 bits |
| ClearPool.KeptIsUnique | crates/qv-mempool/src/clear.rs:238-245 | The part kept by an eviction is determined: no two different parts both keep the most |
| ClearPool.NoDoubleSpend | crates/qv-mempool/src/clear.rs:225-233 | No outpoint is spent by two pooled transactions |
| ClearPool.NewEntryDensity | crates/qv-mempool/src/clear.rs:94-108 | A new entry's density is the floor of a thousand times the fee, cut off at 64 bits, over the size; the fee itself without a size |
| ClearPool.RankingMeans | crates/qv-mempool/src/clear.rs:130-147 | The pool's key order is fee density down, then time up, then id up |
| ClearPool.FitsWithinCaps | crates/qv-mempool/src/clear.rs:238-245 | There is room for a transaction exactly when with it count and bytes are within the caps |
| ClearPool.UnexpiredExactly | crates/qv-mempool/src/clear.rs:309-316 | A transaction stays exactly while it has not been in the pool longer than the age limit |
| ClearPool.ClearPool.constructor | crates/qv-mempool/src/clear.rs:166-174 | A new pool, under any caps, is empty, within its caps, and its indexes and byte total agree |
| ClearPool.ClearPool.Add | crates/qv-mempool/src/clear.rs:211-259 | The first failing check leaves the pool alone; otherwise the expired go, then exactly the shortest lowest-priority suffix that makes room, then the entry is in; an entry that can never fit empties the pool. The three indexes stay in agreement and both caps hold under any configuration, the byte total too unless it can saturate |
| ClearPool.TotalFallsBehind | crates/qv-mempool/src/clear.rs:239-257 | Under every other configuration (a byte cap of 2^64 - 1 and room for two transactions) two adds leave the byte total behind the entries |
| ClearPool.ClearPool.CheckEntry | crates/qv-mempool/src/clear.rs:212-233 | Duplicate, then fee, then the first conflicting input |
| ClearPool.EntryProblemExactly | crates/qv-mempool/src/clear.rs:212-233 | A transaction passes exactly when its id is not pooled, it pays the minimum fee and spends nothing the pool spends; each error with its values, a double spend naming the first such input and its spender |
| ClearPool.ClearPool.MakeRoom | crates/qv-mempool/src/clear.rs:238-245 | Evicts from the bottom until there is room and no further; fails exactly when even an empty pool has none |
| ClearPool.ClearPool.Remove | crates/qv-mempool/src/clear.rs:262-272 | Removes one transaction from all four indexes |
| ClearPool.ClearPool.RemoveConfirmed | crates/qv-mempool/src/clear.rs:276-289 | Removes exactly the transactions spending one of the outpoints, reported once each in the order of the first outpoint they spend |
| ClearPool.SpendersInOrder | crates/qv-mempool/src/clear.rs:278-281 | The spenders are listed one for each recorded outpoint, in the order of the outpoints |
| ClearPool.PresentInOrder | crates/qv-mempool/src/clear.rs:283-288 | Of these, those pooled are reported, each once, where it first occurs |
| ClearPool.ClearPool.EvictExpired | crates/qv-mempool/src/clear.rs:309-323 | Removes and counts exactly the entries older than the cutoff |
| ClearPool.ClearPool.EvictLowestFee | crates/qv-mempool/src/clear.rs:327-337 | Removes the entry ranked last, if there is one |
| ClearPool.ClearPool.GetBatch | crates/qv-mempool/src/clear.rs:292-298 | The n best entries, best first, none repeated |
| ClearPool.BatchIsBest | crates/qv-mempool/src/clear.rs:292-298 | Following the priority index lists entries in ascending key order with nothing better left out |
| Rewards.IntervalGrants | crates/qv-consensus/src/rewards.rs:64-72 | Every block of the k-th interval is granted the initial reward shifted right k times |
| Rewards.CumulativeEmission | crates/qv-consensus/src/rewards.rs:80-103 | The saturating halving loop returns min(total supply, sum of the block subsidies), and zero without a halving interval |
| Rewards.MintedIsCapped | crates/qv-consensus/src/rewards.rs:115-136 | The capped subsidies paid over any run of heights add up to exactly the granted ones cut off at the supply, so no run mints past it |
| Rewards.EmissionIsMinted | crates/qv-consensus/src/rewards.rs:80-103 | The emission of every height below 2^64 - 1 is exactly what was minted; at that height it misses the last block |
| Rewards.ExhaustionIsFinal | crates/qv-consensus/src/rewards.rs:107-109 | Once the emission is exhausted no later block mints anything |
| Rewards.TotalBlockReward | crates/qv-consensus/src/rewards.rs:121-136 | What this height adds to the minted supply, plus the fees, cut off at 64 bits |
| Rewards.DistributeReward | crates/qv-consensus/src/rewards.rs:162-219 | The split on every input: floored shares in order, all else to the operator |
| Rewards.SplitInNumbers | crates/qv-consensus/src/rewards.rs:162-219 | The split in plain arithmetic on every input: the cost, the floor of the margin on the rest, the floor of each stake's part of what is left, and all else to the operator |
| Rewards.SumsAddUp | crates/qv-consensus/src/rewards.rs:190-195 | The total stake is a sum over the delegators |
| Rewards.SharesAddUp | crates/qv-consensus/src/rewards.rs:197-212 | The amount paid out is a sum over the shares |
| Rewards.OperatorKeepsMargin | crates/qv-consensus/src/rewards.rs:162-219 | Beyond its cost the operator keeps its margin of the rest, not a unit less and less than one unit more for each delegator |
| Rewards.PayoutExcess | crates/qv-consensus/src/rewards.rs:162-219 | With a margin in range the operator gets at least min(fixed cost, total), and the payout exceeds the reward by exactly what the shares exceed the delegators' pool |
| Rewards.SharesAndDust | crates/qv-consensus/src/rewards.rs:199-212 | Pool times stakes is weight times shares plus the dust that flooring cuts off, less than one unit for each delegator |
| Rewards.PayoutExactly | crates/qv-consensus/src/rewards.rs:162-219 | For all inputs, when operator plus shares equals the reward: with a margin in range, if and only if there is no stake or pool * (stakes - weight) is at most the dust; above one, as `Rewards.MarginAboveOne` says |
| Rewards.PayoutIsExact | crates/qv-consensus/src/rewards.rs:162-219 | While the stakes fit 64 bits operator plus shares equals the reward exactly, and the dust the operator keeps is smaller than the number of delegators |
| Rewards.FarPastOverpays | crates/qv-consensus/src/rewards.rs:190-211 | Stakes so far past 64 bits that no dust can make up for them always pay out more than the reward |
| Rewards.SaturatedStakesOverpay | crates/qv-consensus/src/rewards.rs:190-211 | Delegated stakes past 64 bits: a reward of 10 pays out 20 |
| Rewards.MarginAboveOne | crates/qv-consensus/src/stake.rs:104-112 | With a margin above one, which validation refuses, the reward is conserved exactly when the surplus rounds to nothing or the sum saturates |

## Left out

- Leader.MoreStakeStaysElected: totals between LN_ONE_MINUS_F_MAG / 4 and LN_ONE_MINUS_F_MAG are open; there one unit of stake moves the exponent by one to four, and whether a pool can lose a slot depends on which exponents the quotients visit.
- FieldPow.InverseIsInverse: primality of 2^256 - 189 is a hypothesis.
- ForkChoice.Offer: header checks other than slot and height are left out, and the height rule saturates at 2^64 - 1 in the code; here a block at that height has no valid child.
- Kes.EverySignatureVerifies: the leaf signature scheme is a parameter, assumed to accept its own signatures.
- ClearPool.ClearPool.MakeRoom: once the byte total has fallen behind, that what stays is a top part is stated, not where it ends.
- HeaderSync.ForkedRoundsCatchUp: that the peer adopts the first answer is assumed; `HeaderSync.ForkedRound` says exactly when it does.
- Utxo.CommitmentDeterminesSet: the encoding of an output is a parameter assumed to tell outputs apart; the bincode format is not part of this model.
- ClearPool.ClearPool.EvictExpired: the order in which expired entries are visited is left open, and the clock is a parameter.
- Hashes, VRF, hybrid key encapsulation and lattice signatures: uninterpreted functions.
- Verifiable secret sharing, distributed key generation and threshold decryption (`crates/qv-crypto/src/threshold.rs:604-1051`).
- Lending and oracle contracts: direct branch checks over narrow casts.
- Byte strings of 32 bytes are the numbers they denote; other encodings, serialisation and datum layouts are left out.
- `ChainState::new` with a genesis other than the all-zero one, and the unused `chain_density`.
- Header validation beyond the slot and height rules; the transaction's amount rules against resolved inputs.
- The plain lookups of the pool.
- Token ids and the fee field of a liquidity result, which the code fills with constants.
- Floating-point diagnostics, parameters, configuration, storage, networking, the node and its command line.
