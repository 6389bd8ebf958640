# A verified model of the chain's core

The node keeps a block chain secured by a class-group hash. This project models the parts of it whose
correctness is hardest to see by reading and proves what they are relied on for. `dafny verify dfyconfig.toml`
checks everything.

| files | part of the system |
|---|---|
| `Integers`, `Algebra`, `Forms`, `Congruence`, `Composition`, `Order`, `Lattices`, `GroupLaw`, `Powers`, `Primes`, `Sieve` | binary quadratic forms: reduction, composition, squaring, exponentiation, the group law, and the sieve that picks the discriminant |
| `Transactions`, `QueueOrder`, `HashKeys`, `TxQueue` | transactions and the queue of the transaction pool with its indexes |
| `Ledger`, `Execution` | balances, nonces and frozen amounts; exactly which transactions and blocks execute |
| `Pool`, `Picking`, `StaleIndexes`, `Acceptance` | the pool's simulation; exactly what it picks, and its clean-up; why the chain accepts what it picks |
| `ChainTables`, `ChainIndex`, `Chain`, `Consensus`, `ChainSupply` | the block database, reorganisation, the completeness of the transaction index, fork choice and orphans, and the supply along the main chain |
| `Clock`, `Gossip`, `Overtaking` | the Lamport clock, the ring of seen gossip messages, and callers of it that overtake each other |
| `Compact`, `Reward` | compact difficulty targets and the reward schedule |
| `Options`, `Sets` | an optional value; picking from a finite set |

## How the model is built

* Unbounded integers of the source (`big.Int`) are `int`; 64-bit amounts are a subset type and every sum that wraps
  around in the source wraps around here (`Wrap`).
* Objects that the source changes in place are classes (`OrderlyQueue`, `Database`, `TransactionPool`, `Blockchain`,
  `BlockChain`, `LamportClock`, `Node`); each method is proved against a function of the old state, and the properties
  are lemmas about those functions. The in-place sieves are methods on arrays.
* SHA-256 is taken to be free of collisions: a transaction's hash is the record of the fields it covers. The hash of a
  block is a token; the ghost function `H` gives the height a hash stands for, and every block offered to the chain is
  assumed to have the height that belongs to its hash and one more than its parent's, because `AddUncleBlock` never
  checks this.
* A state root stands for the state it identifies. What a block does to a root is a parameter of the chain
  (`exec`), as is `CheckBlockRegular` (`regular`); `ChainSupply` ties `exec` to the ledger. Whether the database accepts a
  commit is a parameter too (`disk`), so that the all-or-nothing results hold for failing commits.
* Frozen amounts are kept by the source as balances of derived addresses; they are separate tables here.
* The probable-prime test, the entropy drawn from the seed, signature checks and the time are parameters.

## What the proofs found

* `setFreezeAccount` adds the gas to the available side of its check, so a lock can freeze more than the account has
  (`Ledger.OverfrozenLock`), and a lock whose sender cannot pay the gas creates 2^64 (`Ledger.FreezeSetTotal`).
* A self-transfer of a huge amount passes the wrapped cost check and spends frozen money (`Ledger.OverdrawnSelfTransfer`).
* After a self-transfer the pool's entry for the caller is the receiver's, whose nonce has not moved and whose balance is
  too large. The picked list is executable all the same, because the queue's order leaves no further transaction with
  that nonce (`Acceptance.CallerMovesOn`).
* The pool remembers the frozen amount of one notary per caller only, so it can pick an unlock for which nothing is
  frozen (`Acceptance.TwoNotariesFail`). What it picks executes if and only if every unlock finds its amount frozen for
  its own notary (`Acceptance.PickedExecutes`); with one notary per caller that is always so.
* `Pending` removes rejected transactions by indexes it recorded before, but every removal may reorder the queue. It can
  remove a transaction it has just picked and keep a rejected one (`StaleIndexes.PickedRemoved`). Exactly the rejected
  ones go for all recorded indexes if and only if the guard of `down` stops each transaction in front of each one that
  removals can bring up behind it (`StaleIndexes.SettledIsGuarded`); so it is with one transaction per caller.
* The cost of a transfer and the receiver's new balance are both summed modulo 2^64. The supply is right if and only if
  both wrap around or neither does (`Ledger.TransferredTotal`). The gas check rules the wrong cases out, but
  `ProcessBlock` adds the first block after the initial height without it (`pkg/consensus/syncblock.go:50-58`), and
  there such a transfer creates 2^64 (`Ledger.UncheckedGasMints`).
* A Lamport time of 2^64 - 1 sets the clock back to zero, and an accepted message that shares its slot is accepted again
  (`Gossip.GreatestTimeRepeats`). Every repetition among undisturbed callers has such a message between its two
  acceptances (`Gossip.RepeatNeedsGreatest`); without it the deduplication is exact (`Gossip.AtMostOnce`).
* The age test and the slot update are not one atomic step. An overtaken caller can evict a later time, and this is the
  only way for interleaved callers to have a message accepted twice (`Overtaking.InterleavedOnce`,
  `Overtaking.OvertakenRepeats`).
* A negative target decodes to zero exactly when rounding up its leading bytes carries into the exponent or, at 255
  bytes, pushes the exponent past its byte (`Compact.NegativeLoss`), so between two negative time spans the longer one can
  make the target harder (`Compact.LongerSpanHarder`); for non-negative numbers the loss bound holds exactly below 2^2039.
* `DeleteBlock` commits block by block and, above the first height, succeeds if and only if all these commits do. A
  refused one in the middle leaves the state in memory behind the database, unless the two roots happen to be the same. Deleting leaves a block set
  aside without its parent exactly when it hangs on a deleted block (`Chain.TruncatedRooted`).
* `maybeAcceptBlock` deletes a block again that it could not reorganise to, but not one whose branch never meets the main
  chain: it answers that the block is refused and leaves it stored (`Consensus.BlockChain.MaybeAcceptBlock`).
* `ProcessOrphan` puts the first block waiting for a new tip on top, but a child of another one that waits too can replace it
  later in the same call (`Consensus.SiblingReplaces`, `Consensus.SiblingCan`). While nobody waits for the siblings it stays
  (`Consensus.BlockChain.ProcessOrphan`).
* `pow` squares once more after the last bit and fails when that squaring does; for a discriminant that is minus a prime
  no squaring fails (`Powers.HashChainNeverFails`).
* `TestFindTxByHash` in `pkg/txpool/queue_test.go` expects a removed transaction's hash to be found; the code reports it
  as absent, and so does the model.

## Model

| member | source | states |
|---|---|---|
| Integers.TruncatedRemainder | pkg/util/difficulty/hash/group.go:158-165 | the remainder left by the truncating quotient is smaller than the divisor and never of the opposite sign to the dividend |
| Integers.FloorDivision | pkg/util/difficulty/hash/group.go:158-165 | the correction of the truncated quotient yields the floor of the exact quotient, for either sign of the divisor |
| Integers.AllInputValueGCD | pkg/util/difficulty/hash/group.go:192-200 | a common divisor of any two integers, zero only for two zeros |
| Integers.GcdGreatest | pkg/util/difficulty/hash/group.go:192-200 | every common divisor divides it, whatever the signs |
| Integers.GcdBezout | pkg/util/difficulty/hash/group.go:192-200 | it is an integer combination of its arguments |
| Congruence.ExtendedGCD | pkg/util/difficulty/hash/group.go:216-248 | the loop ends with a combination of the arguments that divides both, for all integers, negative ones included |
| Congruence.SolveMod | pkg/util/difficulty/hash/group.go:202-214 | solvable exactly when some x solves a*x = b modulo m, and then the solutions are exactly those congruent to s modulo t, with s in range |
| Forms.Normalized | pkg/util/difficulty/hash/group.go:75-94 | the result has b in (-a, a], keeps a, and a normal form is returned unchanged |
| Forms.NormalizedEquivalent | pkg/util/difficulty/hash/group.go:75-94 | normalising is a substitution of determinant one, so it keeps the class and the discriminant |
| Forms.TurnProgress | pkg/util/difficulty/hash/group.go:51-73 | one round of the reduction loop keeps the form positive definite, normal and in its class, and makes a smaller or, with a equal, turns a negative b non-negative |
| Forms.ReducedExists | pkg/util/difficulty/hash/group.go:51-73 | on every positive definite normal form the rounds come to an end with an equivalent reduced form |
| Forms.Reduced | pkg/util/difficulty/hash/group.go:51-73 | the loop terminates on every positive definite form with -a < b <= a <= c (b >= 0 when a = c), keeps the discriminant and returns the unique reduced form of the class |
| Forms.ReducedUnique | pkg/util/difficulty/hash/group.go:51-73 | two equivalent reduced forms are equal |
| Forms.ReductionDecidesEquivalence | pkg/util/difficulty/hash/group.go:51-73 | two positive definite forms are equivalent if and only if they reduce to the same form |
| Composition.FindParts | pkg/util/difficulty/hash/group.go:109-123 | every division that splits the two forms is exact; the parts are those of the composition |
| Composition.PartsExact | pkg/util/difficulty/hash/group.go:109-156 | half sums and half differences of the middle coefficients are integers and the common divisor divides all of them |
| Composition.PartsCoprime | pkg/util/difficulty/hash/group.go:109-156 | the three quotients by the common divisor have no factor left in common |
| Composition.CongruencesSolvable | pkg/util/difficulty/hash/group.go:109-156 | for any two forms of one discriminant both linear congruences are solvable and their solutions give a multiplier |
| Composition.CompositeExact | pkg/util/difficulty/hash/group.go:109-156 | for a multiplier the remaining floor divisions are exact |
| Composition.CompositeKeeps | pkg/util/difficulty/hash/group.go:109-156 | the composed form is positive definite and has the discriminant of its factors |
| Composition.ComposesToOneClass | pkg/util/difficulty/hash/group.go:109-156 | whatever solutions of the congruences are chosen, the composed forms are equivalent |
| Composition.BuildForm | pkg/util/difficulty/hash/group.go:136-155 | from the parts and a multiplier the method builds the composed form |
| Composition.Multiply | pkg/util/difficulty/hash/group.go:109-156 | never nil for two positive definite forms of one discriminant; the result is the reduced form of the composed class |
| Composition.ComposeCommutes | pkg/util/difficulty/hash/group.go:109-156 | multiply is commutative on all forms of one discriminant |
| GroupLaw.ProductOfLattices | pkg/util/difficulty/hash/group.go:109-156 | the composed form belongs to the product of the two lattices of numbers, up to an integer factor |
| Lattices.HomotheticIsEquivalent | pkg/util/difficulty/hash/group.go:109-156 | lattices that are multiples of each other belong to equivalent forms |
| Lattices.HomotheticCanonical | pkg/util/difficulty/hash/group.go:51-73 | reduction multiplies the lattice of a form by a number |
| GroupLaw.CompositePrimitive | pkg/util/difficulty/hash/group.go:109-156 | composing primitive forms gives a primitive form |
| GroupLaw.ComposePrimitive | pkg/util/difficulty/hash/group.go:109-156 | so does multiply |
| GroupLaw.EquivalentPrimitive | pkg/util/difficulty/hash/group.go:51-73 | reduction keeps a form primitive |
| GroupLaw.ComposeWellDefined | pkg/util/difficulty/hash/group.go:109-156 | any composite of two primitive forms, however its parts were chosen, reduces to the result of multiply |
| GroupLaw.ComposeOfCanonical | pkg/util/difficulty/hash/group.go:109-156 | multiplying by a form or by its reduced form is the same |
| GroupLaw.ComposeAssociates | pkg/util/difficulty/hash/group.go:109-156 | multiply is associative on primitive forms |
| Powers.IdentityIsForm | pkg/util/difficulty/hash/group.go:19-21 | for a discriminant of 1 modulo 4 the identity is a reduced primitive form of that discriminant |
| Powers.BaseForm | pkg/util/difficulty/hash/hash.go:17-27 | the form the hash starts from, (2, 1), is positive definite of the requested discriminant when that is 1 modulo 8 |
| Powers.ComposeIdentity | pkg/util/difficulty/hash/group.go:23-25 | composing the identity with any form gives that form reduced |
| Powers.ComposeInverse | pkg/util/difficulty/hash/group.go:109-156 | a primitive form composed with its opposite gives the identity, so the classes form a group |
| Powers.SquareSolvable | pkg/util/difficulty/hash/group.go:250-264 | the congruence of square is solvable exactly when gcd(a, b) divides c |
| Powers.SquareKeeps | pkg/util/difficulty/hash/group.go:250-264 | the unreduced square is positive definite of the same discriminant |
| Powers.SquareComposes | pkg/util/difficulty/hash/group.go:250-264 | with gcd(a, b) = 1 the unreduced square is one of the composites of g with itself |
| Powers.Square | pkg/util/difficulty/hash/group.go:250-264 | square succeeds exactly when gcd(a, b) divides c, keeps the discriminant, and equals multiply(g, g) when gcd(a, b) = 1 |
| Powers.PowerAdd | pkg/util/difficulty/hash/group.go:31-49 | powers of a form multiply by adding exponents |
| Powers.PowerMul | pkg/util/difficulty/hash/group.go:31-49 | and iterate by multiplying exponents |
| Powers.PowerOfSquare | pkg/util/difficulty/hash/group.go:31-49 | a power of the square is the power of twice the exponent |
| Powers.Pow | pkg/util/difficulty/hash/group.go:31-49 | binary exponentiation returns the n-fold composition, and returns nothing exactly when one of the squarings, including the one after the last bit, fails |
| Powers.SquaredIsPower | pkg/util/difficulty/hash/group.go:250-264 | i squarings reduce to the 2^i-th power |
| Powers.PowTwoIsSquare | pkg/util/difficulty/hash/group.go:31-49 | pow(2) is one squaring but also needs the next squaring to succeed |
| Powers.IterateSquarings | pkg/util/difficulty/hash/hash.go:263-280 | each requested entry p is x squared p times, counted from the smallest p when that is negative; nothing is returned exactly when a squaring up to one beyond the largest of these numbers fails |
| Powers.PrimeDiscriminantCoprime | pkg/util/difficulty/hash/group.go:250-264 | when minus the discriminant is prime every reduced form has gcd(a, b) = 1 |
| Powers.PrimeDiscriminantSquarable | pkg/util/difficulty/hash/hash.go:263-280 | so no squaring ever fails |
| Powers.HashChainNeverFails | pkg/util/difficulty/hash/hash.go:17-27 | in particular not in the chain of the hash, if its discriminant is minus a prime |
| Primes.InverseByFermat | pkg/util/difficulty/hash/hash.go:282-292 | for a prime p the power p - 2 is the inverse modulo p |
| Primes.Fermat | pkg/util/difficulty/hash/hash.go:282-292 | for a prime p the power p - 1 of a number it does not divide is one modulo p |
| Sieve.ModExp | pkg/util/difficulty/hash/hash.go:282-292 | the accumulator is the power modulo the modulus, and its products stay within 64 bits |
| Sieve.CrossComposites | pkg/util/difficulty/hash/hash.go:158-174 | exactly the multiples of the odd numbers up to the root are crossed out |
| Sieve.PrimeLessThanN | pkg/util/difficulty/hash/hash.go:158-174 | exactly the odd primes up to the bound, in ascending order |
| Sieve.CollectResidues | pkg/util/difficulty/hash/hash.go:36-42 | exactly the residues of 7 modulo 8 that 3, 5, 7, 11 and 13 do not divide |
| Sieve.BuildTables | pkg/util/difficulty/hash/hash.go:33-50 | the table holds every prime above 13 up to 2^16, each with the inverse of the sieve modulus |
| Sieve.TableInverse | pkg/util/difficulty/hash/hash.go:45-49 | the stored exponentiation is the inverse of the sieve modulus |
| Sieve.StartIndex | pkg/util/difficulty/hash/hash.go:52-87 | an index is in the progression starting at -n*q mod p exactly when p divides n + m*i |
| Sieve.SievePass | pkg/util/difficulty/hash/hash.go:52-87 | a pass marks index i exactly when it is in the progression of some table prime |
| Sieve.MarkedMeansFactor | pkg/util/difficulty/hash/hash.go:52-87 | being marked means exactly that a table prime divides n + m*i |
| Sieve.EntropyBits | pkg/util/difficulty/hash/hash.go:53-59 | the number made from the entropy has exactly the requested length, its top bit set, and each lower bit is the bit of the entropy at its byte and offset |
| Sieve.StartingResidue | pkg/util/difficulty/hash/hash.go:52-87 | the starting point keeps the quotient of that number by the sieve modulus and has the residue that the last two bytes of the entropy choose |
| Sieve.SearchBlock | pkg/util/difficulty/hash/hash.go:52-87 | the block yields its first candidate without a table prime that passes the primality test, or has none |
| Sieve.NewDiscriminant | pkg/util/difficulty/hash/hash.go:52-87 | the search starts at the number of the requested length made from the entropy, with the chosen residue; the result is minus the first accepted candidate of all blocks; it is negative, 1 modulo 8 and has no factor among 3, 5, 7, 11, 13 and the table primes |
| Sieve.DiscriminantProperties | pkg/util/difficulty/hash/hash.go:52-87 | any unmarked candidate gives such a discriminant |
| Transactions.CheckedAdd | pkg/util/math/overflow.go:10-19 | an addition succeeds exactly when the sum fits in 64 bits |
| Transactions.CheckedSub | pkg/util/math/overflow.go:21-30 | a subtraction succeeds exactly when the difference is not negative |
| QueueOrder.SiftUpDescending | pkg/txpool/queue.go:116-135 | moving an appended transaction up keeps each caller's nonces strictly decreasing with the index |
| QueueOrder.SiftDownDescending | pkg/txpool/queue.go:137-151 | so does moving a transaction down: it never passes a later one of its caller |
| QueueOrder.PushedOrdered | pkg/txpool/queue.go:44-75 | push keeps callers' nonces distinct and descending, whatever the prices and replacements |
| QueueOrder.PushedContents | pkg/txpool/queue.go:44-75 | push adds the transaction, or replaces the one with its caller and nonce if that pays less, and otherwise changes nothing |
| QueueOrder.PoppedOrdered | pkg/txpool/queue.go:77-84 | pop keeps the order |
| QueueOrder.RemovedOrdered | pkg/txpool/queue.go:96-114 | remove keeps the order |
| QueueOrder.RemovedContents | pkg/txpool/queue.go:96-114 | remove takes out exactly the transaction at the index |
| QueueOrder.RunOrdered | pkg/txpool/queue.go:44-75 | in every queue reachable by push, pop and remove each caller's nonces strictly decrease with the index |
| QueueOrder.DrainedAscending | pkg/txpool/queue.go:77-151 | taking transactions from the end of any reachable queue yields every caller's in ascending nonce order |
| QueueOrder.PushedPriceQueue | pkg/txpool/queue.go:44-75 | while no caller has two transactions queued, push keeps the list sorted by price |
| QueueOrder.RemovedPriceQueue | pkg/txpool/queue.go:96-114 | and so does remove |
| HashKeys.DecodeEncode | pkg/txpool/queue.go:255-272 | the caller and nonce packed into the hash index are read back unchanged |
| TxQueue.IndexBelowIsBelow | pkg/txpool/queue.go:213-231 | the comparison answers through the index what it would on the array, even while the moving transaction's own entry is out of date |
| TxQueue.OrderlyQueue.Less | pkg/txpool/queue.go:213-231 | the method compares by nonce within a caller, lets a later nonce stay above an earlier one of its caller, and else compares prices |
| TxQueue.OrderlyQueue.Up | pkg/txpool/queue.go:116-135 | the array becomes the list with the transaction moved up, and the index agrees with it again |
| TxQueue.OrderlyQueue.Down | pkg/txpool/queue.go:137-151 | the same for moving down |
| TxQueue.OrderlyQueue.Update | pkg/txpool/queue.go:181-192 | exactly the entry with the caller and nonce changes |
| TxQueue.OrderlyQueue.AddRstBuffer | pkg/txpool/queue.go:153-159 | a new entry is added to the caller's |
| TxQueue.OrderlyQueue.RmRecivedTransaction | pkg/txpool/queue.go:194-209 | exactly the entry of the transaction at the index goes |
| TxQueue.OrderlyQueue.Push | pkg/txpool/queue.go:44-75 | the array becomes what push means on the list; array, index by caller and index by hash agree again and the order is kept |
| TxQueue.OrderlyQueue.Pop | pkg/txpool/queue.go:77-84 | the last transaction is returned and taken off, and all three structures agree |
| TxQueue.OrderlyQueue.Remove | pkg/txpool/queue.go:96-114 | the array becomes what remove means on the list, and all three structures agree |
| TxQueue.OrderlyQueue.GetIndex | pkg/txpool/queue.go:86-94 | a caller's transaction is found at its index by its nonce, if and only if it is queued |
| TxQueue.OrderlyQueue.GetAddrAndNonceByHash | pkg/txpool/queue.go:255-272 | exactly the hashes of queued transactions are found, each with its caller and nonce |
| Ledger.Database.SetNonce | pkg/blockchain/state.go:21-39 | the nonce advances only from the one before, an unset nonce counting as one |
| Ledger.Database.SetMinerFee | pkg/blockchain/state.go:202-213 | the fee is credited exactly unless it would overflow |
| Ledger.Database.SetToAccount | pkg/blockchain/state.go:189-199 | the amount is credited exactly unless it would overflow |
| Ledger.Database.SetAccount | pkg/blockchain/state.go:52-186 | for transfers, pledges and contract calls: both branches with their wrapping sums; nothing is written on an error |
| Ledger.Database.SetFreezeAccount | pkg/blockchain/freeze.go:17-84 | locking and unlocking, which succeed exactly when frozen total, amount and gas fit the balance as the numbers say; on the last error the frozen amounts are already written |
| Ledger.Database.GetAvailableBalance | pkg/blockchain/blockchain.go:145-166 | balance less frozen total, or an error when more is frozen; the second overflow check can never fire |
| Ledger.Database.ExecuteBlock | pkg/blockchain/addAndDel.go:86-216 | the loop over a block's transactions succeeds exactly when each one does on the state left by those before |
| Ledger.Database.Execute | pkg/blockchain/addAndDel.go:86-216 | one transaction: nonce, fee, then amount, lock or unlock, in that order |
| Execution.ExecutedExactly | pkg/blockchain/addAndDel.go:86-216 | with a small supply and checked gas, a transaction executes if and only if its nonce is its sender's next one and the balances and frozen amounts cover it, for each kind in numbers |
| Execution.ExecutedBooks | pkg/blockchain/addAndDel.go:86-216 | and then each balance, nonce and frozen amount of every account moves by exactly what the transaction says |
| Execution.BlockExactly | pkg/blockchain/addAndDel.go:86-216 | while the supply stays small, a block executes if and only if each of its transactions is covered on the state left by those before |
| Ledger.TransferredExact | pkg/blockchain/state.go:52-186 | with room for the gas the cost of a successful transfer never wraps, and both balances move by exactly the amounts |
| Ledger.TransferredTotal | pkg/blockchain/state.go:52-186 | a successful transfer lowers the sum of balances by exactly the gas if and only if its cost and the receiver's new balance both wrap around or neither does; otherwise it is off by 2^64 |
| Ledger.FreezeSetTotal | pkg/blockchain/freeze.go:17-84 | a lock or unlock lowers it by the gas, unless a lock's sender lacks the gas: then 2^64 appears |
| Ledger.ExecutedTotal | pkg/blockchain/addAndDel.go:86-216 | whatever the supply and the gas, a transaction changes the sum of balances by what it mints plus exactly the multiple of 2^64 that its wrapping sums create |
| Ledger.CheckedCreates | pkg/blockchain/checkblock.go:59-64 | with a small supply and the gas check passed, only a lock whose sender cannot pay its gas creates anything |
| Ledger.BlockTotal | pkg/blockchain/addAndDel.go:86-216 | a block changes the sum of balances by exactly what it mints if and only if what its transactions create adds up to nothing |
| Ledger.BlockConserves | pkg/blockchain/addAndDel.go:86-216 | with the gas check passed and every lock paid, a block creates nothing: the sum changes by exactly its coinbase amounts and coinbase gas, for any overlap of miner, senders and receivers |
| Ledger.UncheckedGasMints | pkg/consensus/syncblock.go:50-58 | an instance in a block added without the gas check: a transfer whose cost wraps to zero creates 2^64 |
| Ledger.FreezeSetConsistent | pkg/blockchain/freeze.go:17-84 | every successful lock or unlock keeps each frozen total equal to the sum of its notaries' amounts, without any assumption |
| Ledger.ExecutedConsistent | pkg/blockchain/addAndDel.go:86-216 | and so does every executed transaction |
| Ledger.FreezeSetCovered | pkg/blockchain/freeze.go:17-84 | the frozen total stays within the balance exactly when amount plus gas was available (unlocks always) |
| Ledger.OverfrozenLock | pkg/blockchain/freeze.go:17-84 | a lock that passes the check and freezes more than there is: the check adds the gas to the wrong side |
| Ledger.LockExactly | pkg/blockchain/freeze.go:17-84 | a lock succeeds if and only if no more is frozen than there is, the amount is at most the available balance plus the gas, and the sums have room |
| Ledger.UnlockExactly | pkg/blockchain/freeze.go:17-84 | an unlock succeeds if and only if the gas is available, both frozen amounts suffice and the balance has room |
| Ledger.LockBounded | pkg/blockchain/freeze.go:17-84 | after a lock whose sender has the gas, no more is frozen than the balance plus twice the gas |
| Ledger.TransferredCovered | pkg/blockchain/state.go:52-186 | a transfer to another account never touches frozen money; one to oneself keeps to that exactly when the gas is available |
| Ledger.OverdrawnSelfTransfer | pkg/blockchain/state.go:52-186 | a self-transfer of a huge amount passes the wrapped check and leaves more frozen than there is |
| Ledger.ExecutedCovered | pkg/blockchain/addAndDel.go:86-216 | with a small supply, checked gas and no unpaid lock, all accounts are covered after a transaction if and only if it was funded |
| Ledger.BlockKeepsLedger | pkg/blockchain/addAndDel.go:86-216 | with a small supply and checked gas, a block of funded transactions keeps the supply, the agreement of frozen totals with their parts and the cover of frozen totals |
| Ledger.NoncesConsecutive | pkg/blockchain/state.go:21-39 | in an executed block each caller's nonces are consecutive from its chain nonce, so nothing is executed twice |
| Pool.TransactionPool.Add | pkg/txpool/pool.go:74-93 | a transaction is queued exactly when it passes the input, gas, signature, capacity and nonce checks |
| Pool.TransactionPool.Pending | pkg/txpool/pool.go:153-201 | the picked transactions are those of the selection over the queue from its end, at most 100; then the recorded indexes are removed in turn, each from the queue that the removals before have left |
| Pool.SelectedFull | pkg/txpool/pool.go:153-201 | once the limit is reached the rest of the queue is not looked at |
| Picking.SimulatedExactly | pkg/txpool/pool.go:203-380 | the simulation accepts a transaction if and only if the accounts, as the pool knows them, cover it: for each kind a condition in numbers |
| Picking.PickedExactly | pkg/txpool/pool.go:153-201 | a transaction reached below the limit is picked if its nonce is the expected one and the accounts cover it, left alone if its nonce is a later one, and otherwise recorded for removal |
| Picking.KnownNumbers | pkg/txpool/pool.go:153-201 | what the pool knows of an account is the chain's entry moved by the transactions picked so far, in closed form |
| Picking.PickedByNumbers | pkg/txpool/pool.go:153-201 | so, in the numbers of the chain and of the picked transactions alone, it is picked if and only if it is its caller's next one and they cover it, and its index is recorded if and only if its nonce is used or it is next and not covered |
| Picking.PickedWhole | pkg/txpool/pool.go:153-201 | a queue whose every transaction is next and covered at its turn is picked whole, up to a hundred |
| StaleIndexes.RejectedIndexes | pkg/txpool/pool.go:162-191 | exactly the indexes of transactions that are considered before the limit is reached and have a used nonce or fail the simulation are recorded |
| StaleIndexes.SettledIsGuarded | pkg/txpool/pool.go:196-198 | in an ordered queue, removing any recorded indexes in turn takes out exactly the transactions that stood there, if and only if the guard of down stops each transaction in front of each one that removals can bring up behind it |
| StaleIndexes.GuardedExact | pkg/txpool/pool.go:196-198 | the remaining transactions then keep their order as well |
| StaleIndexes.QuietInTurn | pkg/txpool/queue.go:96-114 | for the indexes of one clean-up: every stage leaves the queue without them, in order, if and only if the guard stops every move of every removal |
| StaleIndexes.PriceQueueGuarded | pkg/txpool/queue.go:137-151 | with one transaction per caller the guard always stops |
| StaleIndexes.PendingCleansUp | pkg/txpool/pool.go:153-201 | with at most one rejected transaction, or with such a queue, Pending removes exactly the rejected ones and every picked one stays queued |
| StaleIndexes.PickedRemoved | pkg/txpool/pool.go:196-198 | a queue that pushes can build, of two used transactions around the price of a pledge: Pending removes the pledge it picks and keeps one of the two it rejects |
| Acceptance.SimulatedSeen | pkg/txpool/pool.go:203-219 | an accepted transaction was affordable and moves exactly its caller's and receiver's entries; a rejected one moves no nonce |
| Acceptance.TransferSeen | pkg/txpool/pool.go:221-256 | a transfer is accepted exactly when the caller can afford it and the receiver has room for it; one to oneself ends with the receiver's entry, whose nonce has not moved |
| Acceptance.LockSeen | pkg/txpool/pool.go:258-289 | a lock is accepted exactly when amount and gas are available and the frozen total has room |
| Acceptance.UnlockSeen | pkg/txpool/pool.go:291-328 | an unlock is accepted exactly when both frozen amounts and the gas suffice; it remembers the first notary asked for |
| Acceptance.PledgeSeen | pkg/txpool/pool.go:330-355 | a pledge is accepted exactly when amount and gas are available |
| Acceptance.LookupKeepsViews | pkg/txpool/pool.go:382-415 | looking an account up buffers it without changing what is known of any account |
| Acceptance.ExecutesWell | pkg/blockchain/addAndDel.go:86-216 | with a small supply and checked gas, a transaction with the right nonce that its sender can pay executes without error, costs the sender no more than simulated and harms no other account |
| Acceptance.ConsideredAccepted | pkg/txpool/pool.go:153-201 | one turn of the loop keeps the picked transactions executable and every entry within what the executed state holds |
| Acceptance.PickedExecutes | pkg/txpool/pool.go:153-201 | what Pending picks executes in that order for any miner if and only if every unlock finds its amount still frozen for its own notary; it then creates no money and has each caller's nonces consecutive from the chain nonce |
| Acceptance.OneNotaryExecutes | pkg/txpool/pool.go:153-201 | so it always executes while no caller unlocks from two notaries |
| Acceptance.TakenFromQueue | pkg/txpool/pool.go:153-201 | only queued transactions are picked |
| Acceptance.TransfersAndLocksExecute | pkg/txpool/pool.go:153-201 | for a queue of transfers and locks admitted by Add the picked list always executes, with no further condition on it |
| Acceptance.TwoNotariesFail | pkg/txpool/pool.go:382-415 | Pending picks two unlocks of a caller from different notaries of whom only the first holds anything, and the picked list fails on the chain |
| Chain.Blockchain.AddBlock | pkg/blockchain/blockchain.go:475-774 | a block is added exactly when its height, execution and root fit and the commit goes through, whatever its parent; otherwise tables and state root are as before. The chain stays linked when the block names the tip as its parent |
| Chain.Blockchain.AddUncleBlock | pkg/blockchain/blockchain.go:370-395 | the block is stored; the main chain stays sound unless this overwrites a different block of it |
| Chain.Blockchain.DeleteUncleBlock | pkg/blockchain/blockchain.go:398-417 | the block is removed; the main chain stays sound when the block is not on it, and not when it is one above the initial height |
| Chain.Blockchain.DeleteBlock | pkg/blockchain/blockchain.go:938-1068 | it succeeds if and only if the lookups of each block and root succeed, as they do above the first height, and each of the commits, one a block, goes through, and then the main chain is cut below the height; a failure leaves the chain shorter by the commits before the first refusal, and memory agrees with it if and only if the roots are the same. Every stored block keeps its parent if and only if no remaining one hangs on a deleted one |
| Chain.Blockchain.DeleteTempBlockTest | pkg/blockchain/addAndDel.go:337-463 | inside the transaction every block from the height up comes off, if and only if all lookups succeed, and the state is that of the new top |
| Chain.Blockchain.AddTempBlock | pkg/blockchain/addAndDel.go:28-272 | with the recorded root in memory it puts the block on top or fails; on a root mismatch it reports success and adds nothing |
| Chain.Blockchain.ReorganizeChain | pkg/blockchain/blockchain.go:779-844 | all or nothing: it succeeds if and only if the commit goes through and there is a run of databases from the one cut at the height, in each step of which the next block passes CheckBlockRegular, has the next height, executes, carries the root before or after, and goes on top; the last one is committed. Otherwise tables and state root are as before; the root mismatch of AddTempBlock cannot occur |
| Chain.Blockchain.GetTransactionByHash | pkg/blockchain/blockchain.go:273-295 | exactly the indexed hashes are found, and always the transaction with that hash on the main chain |
| ChainTables.TxsIndexedEntries | pkg/blockchain/blockchain.go:1088-1103 | indexing a block's transactions adds only entries that point to them |
| ChainTables.LoweredSound | pkg/blockchain/addAndDel.go:407-426 | taking the top block off keeps every main-chain and index invariant |
| ChainTables.ExtendedSound | pkg/blockchain/addAndDel.go:28-272 | putting a linked, executed block on top keeps them |
| ChainTables.RollBackCut | pkg/blockchain/addAndDel.go:337-463 | rolling back succeeds if and only if the lookups of each block and root do, as always above the first height, and yields the database cut below the height |
| ChainTables.ReplayGrown | pkg/blockchain/blockchain.go:779-844 | replaying a linked list of blocks puts exactly those on top |
| ChainTables.ReorganizedTrace | pkg/blockchain/blockchain.go:779-844 | a reorganisation leads to a database if and only if there is such a run of checked and executed blocks that ends with it |
| ChainTables.ReorganizedChain | pkg/blockchain/blockchain.go:779-844 | after a reorganisation the main chain below the height is unchanged, above it stands exactly the branch in ascending order, and every invariant holds |
| Chain.TruncatedRooted | pkg/blockchain/blockchain.go:938-1068 | deleting from a height on keeps every parent stored if and only if no block set aside hangs on a deleted one |
| ChainIndex.ExtendedComplete | pkg/blockchain/blockchain.go:475-774 | while the main chain's transactions have distinct hashes, putting a block on top keeps each of them indexed at its position |
| ChainIndex.LoweredComplete | pkg/blockchain/addAndDel.go:337-463 | and so does taking the top block off |
| ChainIndex.ReorganizedComplete | pkg/blockchain/blockchain.go:779-844 | and so does a reorganisation |
| Chain.OneDeletedSound | pkg/blockchain/blockchain.go:938-1068 | deleting the top block for good keeps the rest of the chain sound |
| Consensus.BlockChain.FindBranchPoint | pkg/consensus/chain.go:210-235 | it returns the hashes from the branch tip to the child of the first meeting point and that child's height, and fails exactly when the walks never meet |
| Consensus.BranchesMeet | pkg/consensus/chain.go:210-235 | a branch as high as the tip meets the main chain if and only if its ancestor at the first height is the main chain's first block |
| Consensus.OneRootMeets | pkg/consensus/chain.go:210-235 | with only one block stored at the first height every such branch meets it |
| Consensus.BranchFound | pkg/consensus/chain.go:129-206 | the list handed on is a linked branch sitting on the main chain, one block longer than what it replaces |
| Consensus.CanReplaceTrace | pkg/consensus/chain.go:129-206 | a reorganisation can put the block on top if and only if its branch meets the main chain and a run of databases leads up the branch, one checked block at a time |
| Consensus.BlockChain.MaybeAcceptBlock | pkg/consensus/chain.go:129-206 | from the tables: a child of the tip goes on top if and only if the rules, AddBlock and the commit allow it; a block whose parent is as high as the tip becomes the new tip whenever the commits go through and some reorganisation puts it on top; one whose parent is lower is stored aside; one whose parent is missing or higher is refused. With the commits going through, a refused block leaves nothing behind, unless its branch never meets the main chain: then it stays stored. What the block hangs on stays on the main chain |
| Consensus.BlockChain.TryOnTop | pkg/consensus/chain.go:137-157 | a child of the tip is accepted exactly when difficulty, regularity and AddBlock allow it |
| Consensus.BlockChain.TryBranch | pkg/consensus/chain.go:165-192 | the chain is reorganised to the path found, whenever the commits go through and some reorganisation puts the block on top; otherwise the main chain is untouched |
| Consensus.BlockChain.SwitchBranch | pkg/consensus/chain.go:186-191 | the reorganisation to the path, or else the block is deleted again and everything is as before; if that commit fails too, the main chain is |
| Consensus.BlockChain.AddOrphanBlock | pkg/consensus/chain.go:90-127 | exactly the expired orphans go, the block is kept under its hash and behind those that wait for its parent, whose order stays, and the two tables agree |
| Consensus.BlockChain.RemoveOrphanBlock | pkg/consensus/chain.go:59-86 | exactly the orphan goes from both tables |
| Consensus.BlockChain.ProcessOrphan | pkg/consensus/chain.go:29-56 | it terminates and keeps chain and pool sound; unless a block is refused, nobody is left waiting for the block or for any orphan taken. When the commits go through, every orphan that left the pool is stored, but for one that is refused, and for that one the tables give the reason. The first orphan of the tip, if it can go on top, makes the chain longer, and is on the main chain in the end while nobody waits for its siblings; the block itself stays on the main chain, unless somebody waits for the zero hash |
| Consensus.BlockChain.TakeOrphan | pkg/consensus/chain.go:29-56 | the orphan leaves both tables and is offered to the chain with the outcome that its placement has |
| Consensus.SiblingReplaces | pkg/consensus/chain.go:29-56 | why the condition on siblings is needed: a child of another block at the tip's height, with the tip's parent, takes the tip off the main chain |
| Consensus.SiblingCan | pkg/consensus/chain.go:29-56 | and it can: when blocks execute and pass their checks, there is such a reorganisation |
| Consensus.BlockChain.ProcessBlock | pkg/consensus/syncblock.go:29-77 | on every run with consistent heights the chain stays sound and never gets shorter, the current root is that of the tip, known blocks change nothing, the first block is added exactly when its height, execution and commit allow it, blocks without a parent join the pool, a child of the tip extends the chain exactly when the rules and the commit allow it, a block of a longer branch replaces the main chain's end exactly when some reorganisation can, one with a lower parent is stored aside, and one with a higher parent is refused. An orphan that can go on top of the new tip makes the chain two blocks longer |
| ChainSupply.ChainConserves | pkg/blockchain/addAndDel.go:86-216 | the balances of any main-chain state sum up to those of the first block plus all that the main chain minted, whatever was reorganised, while the supply stays small, the gas of its transactions is checked and its locks are paid |
| Clock.LamportClock.Witness | pkg/p2p/lamport.go:29-45 | the compare-and-swap loop ends with the clock at the later of itself and the successor of the time |
| Clock.WitnessedAhead | pkg/p2p/lamport.go:29-45 | the clock ends ahead of the time witnessed if and only if that is not the greatest time |
| Clock.StepAhead | pkg/p2p/lamport.go:29-45 | each atomic operation of any caller keeps the clock from going back and finished callers behind it, if and only if it does not put the clock back to zero by incrementing the greatest value or witnessing the greatest time |
| Clock.FailureIsProgress | pkg/p2p/lamport.go:29-45 | a caller whose exchange fails has been overtaken by a clock that moved on, so the retry loop is lock-free |
| Clock.RunAhead | pkg/p2p/lamport.go:29-45 | however callers interleave, in a run without such a step the clock never goes back and ends ahead of every time witnessed |
| Gossip.Node.HandleMessage | pkg/p2p/node.go:115-149 | the clock and the ring change as specified and the answer says whether the payload is handled |
| Gossip.SlotNotLater | pkg/p2p/node.go:115-149 | a message that passes the age test never meets a later time in its slot |
| Gossip.HandledKeeps | pkg/p2p/node.go:115-149 | for a time below the greatest, what was accepted stays remembered, and a message less than a ring behind the clock is refused only if it is held, one further behind always |
| Gossip.AtMostOnce | pkg/p2p/node.go:115-149 | in every run without the greatest time a message is accepted exactly when no earlier one was a whole ring ahead of it and it was not accepted before; the clock never goes back and exceeds all times seen |
| Gossip.RepeatNeedsGreatest | pkg/p2p/node.go:115-149 | from any state, a message accepted twice has a message with the greatest time between its two acceptances |
| Gossip.GreatestTimeRepeats | pkg/p2p/node.go:115-149 | after a message with the greatest time the clock has wrapped around, and an accepted message is accepted a second time if and only if it shares that message's slot |
| Overtaking.StoringKeeps | pkg/p2p/node.go:115-149 | the slot step keeps everything remembered if and only if it does not meet a later time; otherwise it evicts a message that would be accepted again |
| Overtaking.StepRemembers | pkg/p2p/node.go:115-149 | with witness, age test and slot as separate steps, each step of each caller keeps accepted messages remembered, unless it stores over a later time |
| Overtaking.InterleavedOnce | pkg/p2p/node.go:115-149 | however callers interleave, and whatever the times, no message is accepted twice in a run whose slot steps meet no later time |
| Overtaking.EmptyRemembers | pkg/p2p/node.go:115-149 | every such run may start from an empty ring |
| Overtaking.OvertakenRepeats | pkg/p2p/node.go:115-149 | in a ring of any size, a caller overtaken between age test and slot by a message one ring later breaks that condition, and the later message is accepted twice |
| Compact.EncodeShape | pkg/util/difficulty/difficulty.go:101-123 | the code computes the size of the number with a sign bit and its leading mantissa |
| Compact.DecodeShape | pkg/util/difficulty/difficulty.go:81-99 | decoding takes size and mantissa apart again |
| Compact.LossBound | pkg/util/difficulty/difficulty.go:101-123 | encoding never rounds up and loses less than one part in 2^15 if and only if the number is below 2^2039 |
| Compact.EncodingIdempotent | pkg/util/difficulty/difficulty.go:101-123 | below 2^2039 what has been decoded is encoded as it was |
| Compact.EncodingMonotone | pkg/util/difficulty/difficulty.go:101-123 | below 2^2039 encoding preserves the order of encoded and of decoded non-negative numbers |
| Compact.NegativeLoss | pkg/util/difficulty/difficulty.go:101-123 | a negative number decodes to zero if and only if rounding up its leading bytes carries into the exponent or, at 255 bytes, pushes the exponent past its byte; any other below 2^2039 loses less than one part in 2^15 |
| Compact.NegativeOrder | pkg/util/difficulty/difficulty.go:101-123 | of two negative numbers above -2^2039 the smaller is decoded to no more than the larger if and only if it does not vanish alone |
| Compact.NegativeVanishes | pkg/util/difficulty/difficulty.go:101-123 | an instance: minus four bytes of ones decodes to zero |
| Compact.NextCapped | pkg/util/difficulty/difficulty.go:63-79 | whatever the times and bits, the new target decodes to at most 2^255 - 1 |
| Compact.NextMonotone | pkg/util/difficulty/difficulty.go:63-79 | for an old target that is not negative: a longer time span does not make the target harder, if and only if it does not lead from a negative target that vanishes to a negative one that does not (negative targets above -2^2039) |
| Compact.LongerSpanHarder | pkg/util/difficulty/difficulty.go:63-79 | an instance with two negative spans where it does |
| Compact.NextProportional | pkg/util/difficulty/difficulty.go:63-79 | for a span and an old target that are not negative, the new target is the old one times the span over the planned time, rounded down, capped, and encoded with a loss of less than one part in 2^15 |
| Compact.OnScheduleKept | pkg/util/difficulty/difficulty.go:63-79 | ten blocks in exactly the planned time keep the bits |
| Reward.GetMinerAmount | pkg/blockchain/types.go:89-109 | the loop never underflows and returns the reward of the height's period; none below the first height |
| Reward.PeriodPays | pkg/blockchain/types.go:89-109 | each height of a period pays the same; the period pays a tenth of what was left, short of it by less than 10 * 3153600, and the next one starts from the rest |
| Reward.RewardNonIncreasing | pkg/blockchain/types.go:89-109 | rewards never grow with the height |
| Reward.PaidExactly | pkg/blockchain/types.go:89-109 | the sum of the rewards is exactly what is missing from the remaining supply |
| Reward.NeverOverpaid | pkg/blockchain/types.go:89-109 | over all heights together no more than the remaining supply is paid |

## Left out

- Powers.Pow: stated for primitive forms of discriminants congruent to 1 modulo 4, where powers are defined by the group law; those are the forms the hash uses.
- Powers.IterateSquarings: stated for the same forms; that the list of requested powers is sorted in place is not captured.
- Congruence.SolveMod: for a positive modulus; its callers pass products and leading coefficients of positive definite forms.
- Sieve.ModExp: for moduli whose squares fit in 64 bits; the table primes are below 2^16.
- Sieve.NewDiscriminant: searches a given number of blocks; the source goes on until it finds a candidate, and whether there is one depends on the density of primes.
- Acceptance.PickedExecutes: leaves out transactions that run the virtual machine and pledge redemptions, and needs the gas bound that `Add` and `CheckBlockRegular` check.
- Ledger.Database.Execute: leaves out contract calls, withdrawals and pledge redemptions, whose execution involves the virtual machine or tables outside the ledger.
- Ledger.Database.ExecuteBlock: leaves out blocks with these kinds.
- Ledger.Database.SetAccount: leaves out the branches of WithdrawToEth and PledgeBreak.
- Ledger.LockExactly: for an account whose notary's amount is at most its frozen total, as Ledger.FreezeSetConsistent keeps it.
- Execution.ExecutedExactly: for a small supply and checked gas, without the kinds that the ledger leaves out.
- Picking.PickedByNumbers: for nonces with room, and for unlocks whose caller asks one notary; other unlocks are in Picking.PickedExactly.
- Ledger.BlockConserves: leaves out the kinds whose execution involves the virtual machine, withdrawals and pledge redemptions.
- Gossip.HandledKeeps: for times below the greatest; what that time does is in Gossip.GreatestTimeRepeats and Gossip.RepeatNeedsGreatest.
- Compact.NextMonotone: for an old target that is not negative; negative ones below -2^2039, whose exponent is cut, are left out.
- Compact.NextProportional: for spans and old targets that are not negative; the others are in Compact.NextMonotone.
- Consensus.BlockChain.ProcessOrphan: stops at the first block refused, as the source does, so orphans whose parents have arrived can stay in the pool. That the first orphan stays on the main chain is stated in one direction, under the condition that nobody waits for its siblings or for the zero hash.
- Consensus.BlockChain.MaybeAcceptBlock: that a branch is reorganised to is promised when two commits in a row go through; with a refused first one the source cannot find the block again.
- The virtual machine, contracts and the kinds PledgeBreak and WithdrawToEth of setAccount.
- The index of transactions by address; only the index by hash is modelled.
- Token keys deleted during a rollback, and the block information handed to the virtual machine.
- The time buffer of the queue, its expiry and FilterTransaction, which iterates over a slice that removal changes.
- The shared buffer in which Pending returns its result: the model returns a value.
- The proof generation, parameter approximation and evaluation of the hash, which use floating point.
- NextMinerDifficulty and the checks behind CheckBlockRegular other than the gas bounds.
- AddList, which admits transactions without the gas bound, and the pool's lookup methods.
- FindChainBranch and NewBlock.
- HashToBig, Merkle trees, serialisation and the network, storage and wallet layers.
- The handler that handleMessage starts with the payload.
