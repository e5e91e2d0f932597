# Verified models of the uniq queue and library

This project models, in Dafny 4.11, the parts of the repository whose correctness is not visible from any one function,
and proves what they are for. `dafny verify dfyconfig.toml` checks everything.

## What is modelled

**The lock-free ring queue** (`RingQueue`, `RingInvariant`, `RingRefinement`, `RingProgress`; source `nutshell/queue.h`).
Every load, test, compare-and-swap and store of `push` and `pop` is one step, and the steps of any number of threads
interleave in any order; a weak compare-and-swap may fail for no reason. A *run* is a sequence of labels (thread,
action), and `Exec` gives the state it reaches. The class `Queue` performs the same steps on the fields the source
updates, each method proved to change the object's state exactly as the step function says. The proofs follow each
ticket's life: claimed, written, taken, released.

**The checksum program** (`Checksum`, `ChecksumProof`, `ChecksumEnds`; `nutshell/main.cc`). Producers and consumers as
they drive the ring queue; the invariant keeps five books (items made, items eaten, end marks pushed, end marks popped,
the shared total) that must balance at every step. `ChecksumEnds` shows by a potential that every run can be completed.

**The production queue** (`SkipZeroQueue`, `SkipZeroInvariant`, `SkipZeroRefinement`, `SkipZeroProgress`,
`SkipZeroSchedules`, `SkipZeroSmall`, `SkipZeroWaits`; `cpp/lib/queue.h`). Separate free flags, tickets from -1, ticket 0
skipped by both sides, `full` and `empty` that reload a negative ticket, and calls that refuse instead of waiting. The
last three modules build concrete schedules, for every capacity in question, that show where promises fail.

**Primality** (`NumberTheory`, `Reciprocity`, `JacobiSymbol`, `PrimeTests`, `ReciprocityTest`, `PrimeTable`, `Wheel`;
`cpp/lib/BigPrime.h`, `cpp/tests/prime.cc`). Miller-Rabin and modular power rest on Euclid's lemma, Fermat's little
theorem (by binomial coefficients) and the square roots of 1 modulo a prime; the Jacobi loop and `isPrimeQR` rest on
Wilson's theorem, Euler's criterion, Gauss's lemma and the law of quadratic reciprocity (by Eisenstein's lattice count),
which holds for all odd arguments without a common factor. All of these are proved here. `BigNumber` and `u64` values are
exact integers, `sqrt` is the floor of the square root. The wheel is compared with the plain scan through their common
meaning, the least divisor.

**Limb arithmetic** (`Limbs`, `NaiveSubtract`, `Karatsuba`; `cpp/lib/bign`). Little-endian vectors of 64-bit digits in
an object that the operations update in place, two arguments being one object where references allow it; `Value` is the
number a vector stands for. Overflow of a digit is written out. The Karatsuba recursion takes the subtraction it calls
as a parameter: the exact one that `IBigNumber` promises, or the one that the code calls.

**SHA-256** (`Sha256Standard`, `Sha256Stream`, `Sha256Parts`, `Sha256Constants`, `Sha256Example`; `cpp/lib/sha256.h`).
`Sha256Standard` is FIPS 180-4 on whole messages (sections 4.1.2, 4.2.2, 5.1.1, 5.3.3 and 6.2.2); `Sha256Stream` is the
object with its block buffer. Words are 32-bit vectors. The object names its compression function `f`, so that the proofs
about buffering do not unfold the rounds. The other modules fix what the compression function is: what its parts do to
each bit and as numbers, where its constants come from, and the hash of one message through every word and round.

**Digit text** (`DigitText`; `cpp/lib/bign/BigDigit.h`). The string constructor and `format`.

## Main results

- Every interleaving of any number of pushes and pops is explained, step by step, by an atomic bounded FIFO queue in
  which a push takes effect when it claims its ticket, before its item is stored: `RingRefinement.RefinesFifo`, and
  `SkipZeroRefinement.RefinesFifo` with refusing calls mixed in.
- Each ticket is returned by exactly one pop, with the item pushed under it; no two threads ever own one slot.
- A thread run alone finishes its call exactly when the real counters allow it, and the queue is deadlock free exactly
  when it is not left with producers only at a full ring or consumers only at an empty one. In the production queue this
  holds for waiting and refusing calls together, wherever they have got to: a refusing call returns also when it is going
  to be refused, and the queue is stuck when nobody left is (`SkipZeroProgress.FinishesIffUnblocked`, `DeadlockFree`).
- In every complete run of the checksum program the total is zero and the ring is clean; from every reachable state some
  continuation completes the run, whatever the ring's size (`ChecksumEnds.EveryRunCanFinish`).
- `jacobiBig` computes the Jacobi symbol, for every integer a and every odd n above 0: the product, over the prime factors
  of n, of the Legendre symbols, which tell squares from other numbers (`PrimeTests.JacobiBig`).
- No prime is ever rejected by `isPrimeMR`, for any number of rounds, and `isPrimeQR` rejects none but 3, 5 and 7, these
  exactly when the table has fewer than two entries to cover them; its reciprocity comparison never rejects anything.
- The wheel agrees with the plain scan for every n.
- Schoolbook multiplication gives the normalized exact product for operands of every size, and so does Karatsuba with the
  subtraction that its interface promises.
- The digest does not depend on how a message is cut into updates of up to 2^31 + 64 bytes each, and is the standard's for
  every message under 2^29 bytes. The round constants are the fractions of the cube roots of the first 64 primes, proved
  to be these, and the hash of "grape" is the one that the source expects (`Sha256Constants.ConstantsAreRoots`,
  `Sha256Example.HashOfGrape`).
- In the production queue a call is refused only if it was made with `wait` false, whatever the run and the capacity
  (`SkipZeroRefinement.OnlyTryCallsAreRefused`).
- A text too long for a digit is cut into consecutive pieces in one possible way, each as long as it can be, and the
  overflow callback gets their numbers in order (`DigitText.Parse`, `CutIsUnique`).

## What turned out not to hold

- Exactly-once delivery in `cpp/lib/queue.h` at capacity 1 and 2: tickets -1 and 1 share a slot there, and a schedule with
  one push returns its item from two pops (`SkipZeroSmall.DeliveredTwice`).
  `SkipZeroSmall.ExactlyOnceIffFour` states that delivery is exactly once in all runs if and only if the capacity is at
  least 4.
- A call of `cpp/lib/queue.h` with `wait` false need not return while the others stand still. It has two loops to stay in.
  The wait loop: the refusal test and the loop both reload a negative ticket and can see different counters, and ticket 1
  can meet `in` = 1 only after the test. `SkipZeroWaits.TryCallsWaitIff` states, for every capacity from 4 on, that a push
  can be kept there if and only if it loaded ticket -1, and a pop if and only if it loaded -1 or 1. The retry loop around
  it: a push goes round as long as its next slot is not released, a pop as long as its next slot is not published; and a
  pop that finds `out` = 1 past `in` = 0 goes round in an empty queue that nobody else uses
  (`SkipZeroWaits.LoneTryPopSpins`, one push and three pops of a single thread).
  `SkipZeroProgress.TryCallsReturnIff` states what a caller can check before the call: run alone, a push returns if and
  only if the ring is full or its next slot is released, a pop if and only if nothing is left or its next slot is
  published. `SkipZeroProgress.FinishesIffUnblocked` states it for calls in the middle, trapped ones included. With no
  other call in progress a push always returns, and a pop if and only if `out` is at most `in`
  (`SkipZeroProgress.LoneTryCallReturnsIff`). A push called once `in` is at least 0, or a pop called once `out` is at least
  2, passes its wait loop at once, and the retry loop is all that can keep it (`SkipZeroWaits.LateCallsDoNotWait`,
  `LateCallsReturnIff`).
- Passing Miller-Rabin is being prime: 2047 passes one round (`PrimeTests.MillerRabinCanErr`).
  `PrimeTests.TestIsExact` states when the answer is right whatever n is: whenever n shares a factor with one of the
  bases, and for every n below the square of the prime after the first k, up to k = 15 (`PrimeTests.FirstBases`): below
  961 for 10 rounds (the default), below 2809 from 15 on, and below 10609 from 100 on.
- `isPrimeQR` with a table of fewer than two entries rejects the primes 3, 5 and 7 from the square of the largest entry
  on, because Fermat's test uses them as bases: `PrimeTable.Primality.IsPrimeQR` states that a prime is accepted if and
  only if this is not the case. Without a table the composite 29341 is accepted (`PrimeTable.ReciprocityTestCanErr`).
- `firstFactor` with a table of one prime: the scan then starts at 5, so an odd multiple of 3 above 3 is answered wrongly.
  `PrimeTable.Primality.FirstFactor` states that the answer is the least divisor if and only if this is not the case.
  `isPrimeTD` is then wrong exactly when n is 27 or three times an odd prime: `PrimeTable.Primality.IsPrimeTD`, with 9 as
  the first such number (`PrimeTable.NineIsMisjudged`).
- `BigNumberNaive::subtract` passes the shortfall itself, not 1, to the next digit. What this leaves of a number is stated
  digit by digit for one digit taken, with any chain of shortfalls (`NaiveSubtract.ThrowsIff`, `DigitLeft`), and for whole
  numbers as long as every digit has what the shortfall below takes from it (`TakenByDigits`): a shortfall s at digit i
  makes the result too small by B^(i+1) (s - 1). `NaiveSubtract.Subtract` states that
  it neither throws nor misses the difference if and only if no digit falls short by more than 1 (`UnitBorrows`), and
  `NaiveSubtract.SubtractionCanFail` gives 2^64 - 5 as an operand pair that fails.
- Karatsuba multiplication calls that subtraction. `Karatsuba.Product` states which digits it leaves or that it throws, for
  all operands, and that, as long as the products of the parts come out (always below 97 digits), the product is exact if
  and only if neither subtraction of the outermost level falls short by more than 1 in any digit.
  `Karatsuba.ErrorOfHalves` gives, for all operands, by how much the result misses the product, from the errors of the
  three products and from what the two subtractions take too much. `Karatsuba.LowestFallsShortFails` finds failing
  operands from four of their digits, and `Karatsuba.KaratsubaCanFail` gives a pair of 50 digits each.
- Adding a vector to itself doubles it if and only if no digit is 2^63 or more; otherwise the result is too large
  (`Limbs.Add`).
- SHA-256 from 2^29 bytes on: the length in bits is cut to 32 bits. `Sha256Stream.CutFieldIsWhole` states that the length
  field is the standard's if and only if its upper half is zero. One call of `update` whose length and pending bytes come
  to 2^32 or more loses its data (`Sha256Stream.SHA256.Update`); between 2^31 + 128 and that, the offset of a block
  overflows an `int` and the behaviour is undefined.
- A text written by `BigDigit::format` reads back for every value if and only if the characters in use are distinct and
  none is a space: `DigitText.RoundTripIffGoodMap`.

## Model

| member | source | states |
|---|---|---|
| RingQueue.Queue.constructor | nutshell/queue.h:13-18 | a new queue is empty, with all slots free, for any power of two as size |
| RingQueue.Queue.AdvancePush | nutshell/queue.h:20-31 | each shared access of `push` changes the object's whole state as the transition system says; slots are found by masking |
| RingQueue.Queue.AdvancePop | nutshell/queue.h:33-45 | each shared access of `pop` changes the object's whole state as the transition system says |
| RingQueue.Queue.Step | nutshell/queue.h:20-45 | any scheduler label takes the object from one state of the system to the next |
| RingQueue.Queue.Run | nutshell/queue.h:20-45 | a whole schedule takes the object to the state reached by the transition system |
| Masks.MaskIsModulo | nutshell/queue.h:16-16 | masking with size - 1 is reduction modulo size for powers of two, for negative tickets too |
| Masks.LapIsInjective | nutshell/queue.h:25-30 | tickets less than one lap apart have different slots |
| RingInvariant.ExecKeepsInv | nutshell/queue.h:20-45 | in every reachable state the counters stay within one lap, and slots, tickets and threads agree on each ticket's life |
| RingInvariant.FreeSlotIsReleased | nutshell/queue.h:26-28 | a free slot seen with the current `in` means that its previous ticket was released, although test and claim are separate steps |
| RingInvariant.FilledSlotIsWritten | nutshell/queue.h:38-40 | a filled slot seen with the current `out` holds the item of that very ticket |
| RingRefinement.StepRefines | nutshell/queue.h:20-45 | each step is a step of the atomic FIFO or changes nothing abstract |
| RingRefinement.RefinesFifo | nutshell/queue.h:20-45 | every interleaving of pushes and pops is explained by an atomic FIFO of capacity size that takes effect at the successful compare-and-swap |
| RingRefinement.SlotsHaveOneOwner | nutshell/queue.h:28-43 | in every reachable state in - out is between 0 and size, and no two threads between claim and store or release own the same slot |
| RingRefinement.DeliveredExactlyOnce | nutshell/queue.h:33-45 | the tickets returned by pops are exactly the released ones, each once, each with the item pushed under it |
| RingRefinement.QuiescentQueue | nutshell/queue.h:20-45 | with no call in progress, tickets below out are delivered, the rest wait in their own slots, and every other slot is 0 |
| RingProgress.FinishesIffUnblocked | nutshell/queue.h:23-28 | a thread inside a call finishes when run alone if and only if the real counters and the next slot allow it |
| RingProgress.WaitsAreHonest | nutshell/queue.h:26-38 | a wait loop spins only when its ticket is current and the ring is really full or really empty |
| RingProgress.DeadlockFree | nutshell/queue.h:20-45 | some thread inside a call can finish alone, if and only if the ring is not left with producers only at full or consumers only at empty |
| Checksum.QueueFollows | nutshell/main.cc:19-45 | the queue inside the program goes through a run of the ring queue, so its theorems apply |
| Checksum.Main.constructor | nutshell/main.cc:47-55 | the program starts with each pair as a consumer and a producer, an empty queue and total 0 |
| Checksum.Main.Step | nutshell/main.cc:19-45 | a thread's move up to its next shared access changes queue, locals and total as the program model says |
| ChecksumProof.TurnKeepsInv | nutshell/main.cc:19-45 | every move of every thread keeps all five books and the place of every end mark |
| ChecksumProof.ChecksumIsZero | nutshell/main.cc:47-58 | in every complete run total is zero, everything pushed was popped, and the ring's slots are all free |
| ChecksumProof.ConsumersStopOnce | nutshell/main.cc:34-45 | a finished consumer was given exactly one end mark and as many items as it counted |
| ChecksumProof.EndMarkComesLast | nutshell/main.cc:23-28 | every item of a producer precedes that producer's end mark in ticket order |
| ChecksumProof.ProgramNeverDeadlocks | nutshell/main.cc:47-56 | in every reachable state that is not finished some thread can work or finish its queue call by itself |
| ChecksumEnds.TicketsBounded | nutshell/main.cc:19-45 | in every reachable state no more tickets have been handed out than a complete run needs, each pair one per item and one end mark |
| ChecksumEnds.EveryRunCanFinish | nutshell/main.cc:47-56 | from every reachable state some continuation lets every thread return, so no schedule leads into a state that only repeats itself |
| ChecksumEnds.CompleteRunExists | nutshell/main.cc:47-58 | a complete run with checksum zero exists for every size of the ring, number of pairs and number of items |
| SkipZeroQueue.Queue.constructor | cpp/lib/queue.h:15-21 | the capacity is the least power of two not below the size asked for, all slots are free, both counters are -1 |
| SkipZeroQueue.Queue.AdvancePush | cpp/lib/queue.h:27-40 | each shared access of `push`, with `full` and refusal, changes the object's whole state as the transition system says |
| SkipZeroQueue.Queue.AdvancePop | cpp/lib/queue.h:42-55 | each shared access of `pop`, with the skip of ticket 0, `empty` and refusal, changes the object's whole state as the transition system says |
| SkipZeroQueue.Queue.Step | cpp/lib/queue.h:27-77 | any scheduler label takes the object from one state of the system to the next |
| SkipZeroInvariant.ExecKeepsInv | cpp/lib/queue.h:27-77 | every reachable state keeps the counters, free flags, slots, tickets and threads consistent |
| SkipZeroInvariant.FreeSlotIsFinished | cpp/lib/queue.h:32-35 | a free flag seen with the current `in` means that the ticket one lap back is neither filled nor about to be |
| SkipZeroInvariant.FilledSlotIsWritten | cpp/lib/queue.h:47-50 | a filled slot seen with the current `out` carries that very ticket, even at ticket 1 while `in` is still 0 |
| SkipZeroRefinement.RefinesFifo | cpp/lib/queue.h:27-55 | every interleaving of waiting and refusing calls is explained by an atomic FIFO whose tickets run -1, 1, 2 and so on, and which refuses only calls that were made with wait false |
| SkipZeroRefinement.OnlyTryCallsAreRefused | cpp/lib/queue.h:32-50 | in every run and at every capacity, a refused call began with a call label that found its thread idle and has wait false, and the thread has not been idle since |
| SkipZeroRefinement.CountersAndOwners | cpp/lib/queue.h:27-77 | out is at most in except in the one state in = 0, out = 1; the counters stay within one lap; no slot has two owners |
| SkipZeroRefinement.TicketZeroIsNeverReturned | cpp/lib/queue.h:35-54 | 0 always means refusal: no successful call returns it and ticket 0 never carries an item |
| SkipZeroRefinement.TryCallsDoNotWait | cpp/lib/queue.h:32-48 | a call that must not wait passes its wait loop at once, except with the tickets that are reloaded or skipped: -1 for a push, -1 and 1 for a pop |
| SkipZeroWaits.PushWaitsAtMinusOne | cpp/lib/queue.h:32-33 | at every capacity from 4 on, some run keeps a push with wait false in its wait loop with ticket -1, at a full queue |
| SkipZeroWaits.PopWaitsAtMinusOne | cpp/lib/queue.h:47-48 | at every capacity from 4 on, some run keeps a pop with wait false in its wait loop with ticket -1 |
| SkipZeroWaits.PopWaitsAtOne | cpp/lib/queue.h:45-48 | at every capacity from 4 on, some run keeps a pop with wait false in its wait loop with ticket 1, while in is 1 |
| SkipZeroWaits.TryCallsWaitIff | cpp/lib/queue.h:32-48 | a call with wait false can be kept in its wait loop (lines 33 and 48) in some run if and only if it loaded ticket -1 (push), or -1 or 1 (pop); the retry loop around it is the subject of the next rows |
| SkipZeroWaits.LateCallsDoNotWait | cpp/lib/queue.h:32-48 | a push with wait false called once in is at least 0 passes its wait loop at once, and so does a pop called once out is at least 2 |
| SkipZeroWaits.LateCallsReturnIff | cpp/lib/queue.h:27-55 | wherever such a call has got to, it returns when run alone if and only if the ring is full (the queue is empty) or its next slot is released (published) |
| SkipZeroWaits.LoneTryPopSpins | cpp/lib/queue.h:42-50 | at every capacity from 4 on, one push and three pops with wait false of a single thread end in a pop that retries for ever in an empty queue, outside its wait loop |
| SkipZeroProgress.FinishesIffUnblocked | cpp/lib/queue.h:27-55 | from capacity 4 on, a thread anywhere inside a call finishes when run alone if and only if the real counters and the next slot allow its operation, ticket 0 being skipped on the way, or it must not wait and is going to be refused, that is, not trapped in its wait loop |
| SkipZeroProgress.TryCallsReturnIff | cpp/lib/queue.h:27-55 | a call with wait false, at its start, returns when run alone if and only if the ring is full or its next slot is released (push), or nothing is left behind ticket 0 or its next slot is published (pop) |
| SkipZeroProgress.LoneTryCallReturnsIff | cpp/lib/queue.h:27-55 | with no other call in progress, a push with wait false returns, and a pop if and only if out is at most in |
| SkipZeroProgress.DeadlockFree | cpp/lib/queue.h:27-55 | with any calls in progress, waiting and refusing, some of them can finish alone, if and only if the queue is not left with producers only at full or consumers only with nothing behind ticket 0, none of them going to be refused |
| SkipZeroRefinement.DeliveredExactlyOnce | cpp/lib/queue.h:42-55 | from capacity 4 on, each released ticket was returned by exactly one pop with the item pushed under it |
| SkipZeroSmall.DeliveredTwice | cpp/lib/queue.h:45-50 | at capacity 1 or 2 a run with a single push has two pops that return its item, one under a ticket never pushed |
| SkipZeroSmall.ExactlyOnceIffFour | cpp/lib/queue.h:27-55 | for a power of two as capacity, delivery is exactly once in every run if and only if the capacity is at least 4 |
| PrimeTests.ModularPower | cpp/lib/BigPrime.h:52-63 | the signed remainder of b to the e by m, for every b, every e and every m from 1; a negative exponent loses its sign and its last bit on the way |
| PrimeTests.IsPrimeMR | cpp/lib/BigPrime.h:127-164 | the answer is that the first k bases of the list all accept n; a prime is always accepted; the answer is primality for all n below the bound of k and all n that share a factor with a base |
| PrimeTests.Round | cpp/lib/BigPrime.h:153-161 | one base accepts exactly when n is a strong probable prime to it |
| PrimeTests.PrimesPassMillerRabin | cpp/lib/BigPrime.h:127-164 | every prime passes for every k |
| PrimeTests.PrimeIsStrong | cpp/lib/BigPrime.h:153-161 | no base between 2 and n - 1 can reject a prime n |
| PrimeTests.CommonFactorRejects | cpp/lib/BigPrime.h:153-161 | a base that shares a factor with n rejects n in its round |
| PrimeTests.SharedBaseIsRejected | cpp/lib/BigPrime.h:137-161 | when one of the first k bases shares a factor with n, n is rejected and not prime |
| PrimeTests.TestIsExact | cpp/lib/BigPrime.h:127-164 | passing is being prime for every n below the square of the prime after the first k (k up to 15; 10609 from 100 on), and for every n that shares a factor with a base |
| PrimeTests.FirstBases | cpp/lib/BigPrime.h:138-138 | the first k bases of the list are exactly the primes below the (k + 1)-th, for k up to 15 |
| PrimeTests.MillerRabinCanErr | cpp/lib/BigPrime.h:127-164 | beyond that the converse can fail: 2047 passes one round and is composite |
| PrimeTests.JacobiBig | cpp/lib/BigPrime.h:25-43 | for every a and every odd n above 0 the result is the Jacobi symbol, the product of the Legendre symbols over the prime factors of n, and 0 exactly when a and n share a factor; for other n it is 0 |
| Reciprocity.SymbolExchange | cpp/lib/BigPrime.h:36-39 | quadratic reciprocity: exchanging odd arguments without a common factor changes the sign exactly when both are 3 modulo 4 |
| Reciprocity.SymbolOfTwo | cpp/lib/BigPrime.h:31-35 | 2 counts negative exactly when n is 3 or 5 modulo 8 |
| Reciprocity.SymbolOfProduct | cpp/lib/BigPrime.h:31-35 | the symbol of a product is the product of the symbols |
| JacobiSymbol.EulersCriterion | cpp/lib/BigPrime.h:107-108 | a to the (p - 1) / 2 is 1 modulo an odd prime p for squares, and -1 for the other numbers that p does not divide |
| JacobiSymbol.GaussLemma | cpp/lib/BigPrime.h:114-116 | the symbol found by counting is a to the (p - 1) / 2 modulo an odd prime p |
| JacobiSymbol.SymbolBelow | cpp/lib/BigPrime.h:25-43 | the symbol is multiplicative in its second argument |
| JacobiSymbol.SymbolIsJacobi | cpp/lib/BigPrime.h:25-43 | the symbol found by counting is the product of Legendre symbols |
| JacobiSymbol.JacobiHalves | cpp/lib/BigPrime.h:31-35 | a factor 2 of a changes the sign of the Jacobi symbol exactly when n is 3 or 5 modulo 8 |
| JacobiSymbol.JacobiExchange | cpp/lib/BigPrime.h:36-39 | exchanging odd arguments changes the sign of the Jacobi symbol exactly when both are 3 modulo 4 |
| ReciprocityTest.Leg2Big | cpp/lib/BigPrime.h:45-50 | the Jacobi symbol of 2 for odd n above 0, and 0 for even n |
| ReciprocityTest.ReciprocityNeverRejects | cpp/lib/BigPrime.h:104-113 | what the reciprocity stage compares is equal for every odd n that the base does not divide, prime or not |
| ReciprocityTest.EulerRound | cpp/lib/BigPrime.h:96-116 | one base accepts exactly when its (n - 1) / 2-th power is its Jacobi symbol |
| ReciprocityTest.PrimePassesEuler | cpp/lib/BigPrime.h:114-116 | a prime passes Euler's test for every base that it does not divide |
| ReciprocityTest.FermatRounds | cpp/lib/BigPrime.h:119-123 | all of 2, 3, 5 and 7 to the n - 1 are 1 modulo n |
| ReciprocityTest.PrimePassesFermat | cpp/lib/BigPrime.h:119-123 | a prime above 2 passes Fermat's test for all four bases if and only if it is not one of them |
| ReciprocityTest.FermatCanErr | cpp/lib/BigPrime.h:119-123 | 29341 passes Fermat's test for all four bases and is composite |
| PrimeTests.NormalizedRemainder | cpp/lib/BigPrime.h:27-27 | taking the remainder, adding n and taking it again normalizes a negative argument |
| NumberTheory.FermatLittle | cpp/lib/BigPrime.h:153-154 | a to the p - 1 is 1 modulo a prime p that does not divide a |
| NumberTheory.SquareRootsOfOne | cpp/lib/BigPrime.h:157-160 | the only square roots of 1 modulo a prime are 1 and -1 |
| PrimeTable.Sieve | cpp/lib/BigPrime.h:9-23 | the result holds exactly the primes up to lim, in increasing order |
| PrimeTable.StrikeMultiples | cpp/lib/BigPrime.h:15-15 | exactly the multiples of i from i squared on are struck out, and nothing else changes |
| PrimeTable.Primality.InitPrimality | cpp/lib/BigPrime.h:68-72 | the table holds the least primes in order, at most sz of them and none above 10 sz, all of those if they are fewer, and maxPrime is the last |
| PrimeTable.Primality.ScanTable | cpp/lib/BigPrime.h:170-174 | an entry found is the least divisor; otherwise the table is exhausted or n is prime |
| PrimeTable.ScanOdd | cpp/lib/BigPrime.h:179-182 | the first odd divisor from start to the square root, or n when there is none |
| PrimeTable.Primality.FirstFactor | cpp/lib/BigPrime.h:166-183 | 0 below 2; the least divisor above 1 if and only if the table does not have exactly one entry, or n is even, 3, or no multiple of 3; in the other case what the scan from 5 finds |
| PrimeTable.Primality.IsPrimeTD | cpp/lib/BigPrime.h:185-190 | the answer is right if and only if it is not the case that the table has one entry and n is 27 or three times an odd prime |
| PrimeTable.ScanFromFive | cpp/lib/BigPrime.h:176-182 | the scan from 5 of an odd multiple of 3 above 3 ends with n itself if and only if n is 27 or n / 3 is prime |
| PrimeTable.NineIsMisjudged | cpp/lib/BigPrime.h:176-182 | 9 is such a number |
| PrimeTable.Primality.IsPrimeQRTrialStage | cpp/lib/BigPrime.h:74-88 | an answer of the trial-division stage is right; there is none exactly for odd n from 3 and from maxPrime squared on that no entry divides |
| PrimeTable.Primality.LaterStages | cpp/lib/BigPrime.h:90-124 | the answer is that Euler's test accepts n for the first entries of the table and Fermat's for 2, 3, 5 and 7 |
| PrimeTable.Primality.IsPrimeQR | cpp/lib/BigPrime.h:74-125 | exact below maxPrime squared; a prime is accepted if and only if it is below that or not 3, 5 or 7; beyond, an odd n is accepted if and only if nothing up to maxPrime divides it, each of the first numTests entries p (or all of them) has p to the n / 2 congruent to its Jacobi symbol, and 2, 3, 5 and 7 to the n - 1 are 1 |
| PrimeTable.PrimesPassQR | cpp/lib/BigPrime.h:74-125 | the same about the answer as a property of n, for every table of the least primes |
| PrimeTable.ReciprocityTestCanErr | cpp/lib/BigPrime.h:74-125 | without a table, the composite 29341 passes |
| PrimeTable.TestsDecide | cpp/lib/BigPrime.h:94-116 | with the table 2, 3, 5 the composite 29341 passes two tests and fails the third |
| Wheel.FirstDivisor0 | cpp/tests/prime.cc:7-13 | the least divisor above 1, and 2 and 1 for 0 and 1 |
| Wheel.Turn | cpp/tests/prime.cc:20-27 | the eight tests of a turn stop at the first spoke that divides n |
| Wheel.Spiral | cpp/tests/prime.cc:16-31 | for every n and every start above 0, the result is the first spoke that divides n in the turns that start by max, or n when there is none |
| Wheel.SpiralIsNext | cpp/tests/prime.cc:16-31 | for n without a factor 2, 3 or 5 and a start on the wheel, a divisor returned is the least from min on even past max; n means that nothing up to max divides n but n itself |
| Wheel.BetweenSpokes | cpp/tests/prime.cc:19-28 | every number between two spokes of a turn has a factor 2, 3 or 5 |
| Wheel.SpiralDivisor | cpp/tests/prime.cc:34-41 | without a limit the result is the least divisor, as for the plain scan; with one below the root, an n without a factor 2, 3 or 5 is returned itself if and only if nothing else below the end of the last turn that starts by the limit divides it, and otherwise its least divisor is |
| Wheel.BothScans | cpp/tests/prime.cc:7-41 | for every n the wheel and the plain scan return the same number, the least divisor above 1 |
| Limbs.DigitMul | cpp/lib/bign/BigDigit.h:109-109 | low word and overflow together are the product |
| Limbs.Normalize | cpp/lib/bign/BigNumberNaive.cpp:7-11 | the value stays and no leading zero is left, except the number 0 itself |
| Limbs.AddDigit | cpp/lib/bign/BigNumberNaive.cpp:13-21 | the value grows by d at the weight of position i, carries ripple, and the vector grows by at most one digit |
| Limbs.Add | cpp/lib/bign/BigNumberNaive.cpp:23-28 | the normalized exact sum of two vectors; a vector added to itself gives at least its double, and exactly that if and only if no digit is B / 2 or more |
| Limbs.MultiplyRow | cpp/lib/bign/BigNumberNaive.cpp:68-87 | a row adds a times one digit at its weight; its final carry always has room, so push_back is never reached |
| Limbs.CarryFits | cpp/lib/bign/BigNumberNaive.cpp:71-78 | the three overflows of a cell together fit in one digit |
| Limbs.Multiply | cpp/lib/bign/BigNumberNaive.cpp:57-91 | the normalized exact product, empty vectors counting as 0, also of a vector with itself |
| Limbs.Compare | cpp/lib/bign/BigNumberNaive.cpp:93-103 | vectors of different lengths are ordered by length, others by value; normalized vectors always by value; 0 only for identical vectors |
| NaiveSubtract.SubtractDigit | cpp/lib/bign/BigNumberNaive.cpp:30-40 | the digits left, or an exception, as the next two rows say; a borrow of 1 is exact or throws for want of digits, a larger one takes at least as much as it should |
| NaiveSubtract.ThrowsIff | cpp/lib/bign/BigNumberNaive.cpp:30-40 | d taken at digit i throws if and only if the digits from i on add up to less than d, or there are none |
| NaiveSubtract.DigitLeft | cpp/lib/bign/BigNumberNaive.cpp:30-40 | otherwise digit k from i on gives what d exceeds the digits from i to k - 1 by, with 2^64 added if it has less |
| NaiveSubtract.TakenIsExactIff | cpp/lib/bign/BigNumberNaive.cpp:42-55 | what is left is the difference less all that borrows exceed 1 by, at their weights; there is such a result without loss if and only if no digit falls short by more than 1 |
| NaiveSubtract.Subtract | cpp/lib/bign/BigNumberNaive.cpp:42-55 | never more than the difference; neither throws nor misses it if and only if no digit falls short by more than 1; while every digit has what the shortfall below takes from it, the result misses the difference by what the shortfalls exceed 1 by, each at its weight; a vector taken from itself leaves 0 |
| NaiveSubtract.TakenByDigits | cpp/lib/bign/BigDigit.h:112-112 | under that condition each digit left is what the digits of the operands and the shortfalls make it |
| NaiveSubtract.OneShortfall | cpp/lib/bign/BigDigit.h:112-112 | when only digit i falls short, by s, and the next one can give s, the result is too small by 2^(64 (i + 1)) (s - 1) |
| NaiveSubtract.SubtractionCanFail | cpp/lib/bign/BigDigit.h:112-112 | 2^64 - 5 does not satisfy that condition although it is positive |
| Karatsuba.SplitAt | cpp/lib/bign/BigNumberKaratsuba.cpp:13-44 | the trimmed parts hold the digits of the two halves, reassemble to the number and are no longer than their share |
| Karatsuba.SubtractExactly | cpp/lib/bign/IBigNumber.h:14-14 | the subtraction that the interface promises: the normalized exact difference, or an exception when it would be negative |
| Karatsuba.CrossProducts | cpp/lib/bign/BigNumberKaratsuba.cpp:102-104 | neither subtraction from z1 can underflow, and what is left is the sum of the cross products |
| Karatsuba.KaratsubaIdentity | cpp/lib/bign/BigNumberKaratsuba.cpp:106-124 | the three products at their weights make the whole product |
| Karatsuba.Assemble | cpp/lib/bign/BigNumberKaratsuba.cpp:102-124 | from the three products of the parts, whatever they are, the digits left or an exception; from the exact ones, the exact product if and only if both subtractions come out, with the coded one when no digit falls short by more than 1 |
| Karatsuba.PromisedIsClean | cpp/lib/bign/BigNumberKaratsuba.cpp:102-104 | with the promised subtraction everything comes out, at every level of the recursion |
| Karatsuba.MultiplyRecursive | cpp/lib/bign/BigNumberKaratsuba.cpp:46-125 | for all operands and both subtractions, the digits left or an exception; with the promised subtraction always the normalized exact product; with the coded one, exact when no subtraction of the recursion falls short by more than 1 in a digit, and, as long as the products of the parts come out, only then; the recursion ends for every threshold from 4 |
| Karatsuba.ErrorOfHalves | cpp/lib/bign/BigNumberKaratsuba.cpp:46-125 | for all operands that are split, the result misses the product by p(p - 1) times the error of z2, plus p times that of z1 and of what the subtractions take too much, less p - 1 times that of z0, p being the weight of the split |
| Karatsuba.ErrorsDoNotCancel | cpp/lib/bign/BigNumberKaratsuba.cpp:46-125 | when z0 is exact and z1 and z2 are not too large, the product is exact if and only if z1, z2 and both subtractions are |
| Karatsuba.Product | cpp/lib/bign/BigNumberKaratsuba.cpp:127-136 | the same with the threshold of 50, empty vectors counting as 0; with fewer than 50 digits in an operand, the exact product whichever subtraction it is |
| Karatsuba.ShortPartsAreClean | cpp/lib/bign/BigNumberKaratsuba.cpp:52-55 | the products of the parts come out when the parts are below the threshold |
| Karatsuba.LowestFallsShortFails | cpp/lib/bign/BigNumberKaratsuba.cpp:102-104 | operands whose four lowest digits of the parts make z0 end in a digit more than 1 above that of z1 do not satisfy the condition |
| Karatsuba.KaratsubaCanFail | cpp/lib/bign/BigNumberKaratsuba.cpp:102-104 | two numbers of 50 digits do not satisfy the condition although the products of their parts come out |
| Sha256Standard.PaddingIsLeast | cpp/lib/sha256.h:184-190 | one 1 bit and the least number of zero bits that bring the length to 448 modulo 512 |
| Sha256Standard.PaddedLength | cpp/lib/sha256.h:184-187 | padding ends the last block or fills one more, which happens exactly from 56 pending bytes on |
| Sha256Standard.BlocksJoin | cpp/lib/sha256.h:171-172 | hashing some blocks and going on with others is hashing all of them |
| Sha256Standard.BlocksContinue | cpp/lib/sha256.h:157-176 | the hash value depends only on the blocks, wherever they were buffered |
| Sha256Stream.SHA256.Init | cpp/lib/sha256.h:144-155 | the object stands for the empty message |
| Sha256Stream.SHA256.TransformBlock | cpp/lib/sha256.h:114-141 | one block moves the hash value as section 6.2.2 of FIPS 180-4 says |
| Sha256Parts.ChBit | cpp/lib/sha256.h:71-71 | each bit of x chooses between the bits of y and z |
| Sha256Parts.MajBit | cpp/lib/sha256.h:72-72 | each bit is that of at least two of the three words |
| Sha256Parts.BigSigmaBits | cpp/lib/sha256.h:73-74 | bit k is the parity of the bits k + 2, k + 13, k + 22 (k + 6, k + 11, k + 25), counted round the word |
| Sha256Parts.SmallSigmaBits | cpp/lib/sha256.h:75-76 | bit k is the parity of the bits k + 7 and k + 18 (k + 17 and k + 19), counted round the word, and k + 3 (k + 10), if there is one |
| Sha256Parts.AddBit | cpp/lib/sha256.h:127-137 | addition of words is that of 32-bit numbers, the carry going from bit to bit |
| Sha256Parts.WordIsNumeral | cpp/lib/sha256.h:84-88 | a word is the big-endian number of four bytes of the block |
| Sha256Parts.BytesAreNumeral | cpp/lib/sha256.h:77-83 | the bytes of a word are its big-endian numeral |
| Sha256Parts.BytesReadBack | cpp/lib/sha256.h:77-88 | unpacking a word and packing the bytes gives the word |
| Sha256Parts.LengthFieldIsNumeral | cpp/lib/sha256.h:186-190 | the length field is the length in bits, big-endian, for every message that the standard admits |
| Sha256Constants.ConstantsAreRoots | cpp/lib/sha256.h:94-155 | the round constants are the first 32 bits behind the point of the cube roots of the first 64 primes, the first hash value those of the square roots of the first eight; the list of primes is proved complete |
| Sha256Constants.FractionsAreUnique | cpp/lib/sha256.h:94-155 | no other words have that property |
| Sha256Example.ScheduleRule | cpp/lib/sha256.h:116-121 | a word of the schedule is one of the block, or from the seventeenth on the sum of the words 2, 7, 15 and 16 places before it, two of them mixed |
| Sha256Example.HashOfGrape | cpp/lib/sha256.h:214-216 | the hash of "grape" is the one of the source, through all 64 words and rounds |
| Sha256Stream.SHA256.Transform | cpp/lib/sha256.h:107-142 | the given number of blocks, in order, up to the 2^25 whose offsets fit in an int |
| Sha256Stream.SHA256.Update | cpp/lib/sha256.h:157-177 | the object stands for the message followed by the new data, whatever is pending, as long as pending and new bytes are fewer than 2^31 + 128; when their sum wraps around at 2^32, the data are lost and the hash value stays |
| Sha256Stream.SHA256.Final | cpp/lib/sha256.h:179-195 | the first 32 bytes written are the hash of everything given so far, padded with the low half of the length field, hence the standard's when the upper half is zero; no other byte of the output changes |
| Sha256Stream.LastBlocksAre | cpp/lib/sha256.h:184-190 | the buffer prepared by final is the end of the padded message, with the cut length field |
| Sha256Stream.CutFieldIsWhole | cpp/lib/sha256.h:186-190 | the 32-bit length with zeros above it is the standard's length field if and only if the upper half of that is zero |
| Sha256Stream.FitsBelowLimit | cpp/lib/sha256.h:186-186 | among the messages the standard admits, these are exactly the ones under 2^29 bytes |
| Sha256Stream.HashChunks | cpp/lib/sha256.h:144-195 | however a message is cut into updates of at most 2^31 + 64 bytes, the digest depends on the concatenation only, and is the standard's hash of it when the length field is |
| Sha256Example.CheckGrape | cpp/lib/sha256.h:214-216 | the streaming object gives that digest |
| Sha256Stream.Hash | cpp/lib/sha256.h:197-204 | the digest of a whole message, in one update |
| DigitText.Parse | cpp/lib/bign/BigDigit.h:44-57 | fails exactly on characters outside the base; the overflow callback fires exactly when the number does not fit; the text is cut into consecutive pieces, each fitting in a digit but not with the next character that is no space, and the callback gets the numbers of all but the last in order, the digit that of the last |
| DigitText.CutIsUnique | cpp/lib/bign/BigDigit.h:48-55 | there is one way to cut a text like that |
| DigitText.Format | cpp/lib/bign/BigDigit.h:59-67 | the digits of the value, most significant first, through the map |
| DigitText.SpellReadsBack | cpp/lib/bign/BigDigit.h:59-67 | over distinct characters without a space, the text stands for the value and is its shortest one |
| DigitText.RoundTripIffGoodMap | cpp/lib/bign/BigDigit.h:44-67 | every value reads back if and only if the characters in use are distinct and none is a space |
| DigitText.RoundTrip | cpp/lib/bign/BigDigit.h:44-67 | parsing what format wrote gives the value, and the overflow callback never fires |
| DigitText.CanonicalIsUnique | cpp/lib/bign/BigDigit.h:59-67 | a number has one shortest text |
| DigitText.WrittenBackIffCanonical | cpp/lib/bign/BigDigit.h:44-67 | over a good map, a text that is read is written back unchanged if and only if it is the shortest one |

## Left out

- Weak memory and the wrap-around of the 32-bit ticket counters: both queues are modelled with sequentially consistent
  memory and unbounded tickets; slot accesses are atomic, as `README.md` of the repository assumes.
- `js/uniq.js`, `csharp/UniQ.cs`, `pascal/uniq.pas` and `benchmarks/final.cpp` run the protocol of `nutshell/queue.h`;
  it is modelled once. `rust/queue.rs` and `ts/queue.ts` do not wait or skip as the C++ does.
- Item 0 in `nutshell/queue.h`: it marks a free slot, and the source asks callers not to push it, so the model does not.
- SkipZeroRefinement.RefinesFifo: capacity 1 and 2 are excluded, as exactly-once delivery fails there; so are they from
  the invariant and the other results of `SkipZeroInvariant` and `SkipZeroRefinement`.
- SkipZeroQueue.Queue.Step: `running()` is true throughout; a stop while a push waits bypasses the full test. The hooks
  `onfull` and `onempty`, and `size`, `counter`, `first` and `last`, are not modelled.
- Checksum.Main.Step: thread creation and joining, console output and the evaluation of `Items / pairs` are left out; the
  number of items of a producer is a parameter, and each call of `Step` is the scheduler's choice.
- PrimeTests.ModularPower: a shift right of the exponent is a division of its magnitude by 2 that drops the sign. Products
  are exact integers; `BigInteger` multiplication takes a factor of -1 for 1 (`cpp/lib/bign/BigInteger.h:189`), so with
  that type the result can differ once the base has remainder -1.
- PrimeTests.TestIsExact: beyond its bound, which composite numbers pass is not characterised.
- PrimeTable.Primality.IsPrimeQR: which composite numbers pass beyond the square of the largest entry is stated by the
  tests they pass, not by their factors.
- PrimeTests.IsPrimeMR: k is any integer; the sizes of `int` and the cost of big numbers play no part.
- Wheel.SpiralDivisor: `sqrt` on `double` and wrap-around of `u64` near 2^64 are not modelled; `paralelDivisor` is not.
- Karatsuba.MultiplyRecursive: when the product of some parts is wrong already, the condition on single digits is
  sufficient only. `Karatsuba.ErrorOfHalves` then says what the errors must satisfy to cancel, and
  `Karatsuba.ErrorsDoNotCancel` when they cannot; whether there are operands whose errors do is not decided.
- NaiveSubtract.Subtract: the value carried by the exception is not modelled, and after a throw only the failure is stated.
- `divide`, shifts, bitwise operations, multi-digit parsing and formatting, `BigInteger`, `BigDecimal`.
- Sha256Stream.SHA256.Update: calls with 2^31 + 128 to 2^32 - 1 pending and new bytes together, in which `i << 6` overflows
  (`cpp/lib/sha256.h:115`); `Sha256Stream.HashChunks` and `Hash` exclude them too. The hexadecimal text made by `sha256(string)`.
- DigitText.Parse: the callback is one that returns; the default one throws instead, at the first value recorded in
  `spilled`.
- `OpenQueue`, `Worker`, `pool`, `Event`, `Lazy`, `State`, `Json`, `Tree`, timers, logging, the terminal, graphics and
  browser code: wrappers and input or output.
