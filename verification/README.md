# Five components, modelled and proved in Dafny

The repository holds several independent network programs. This project models the five
components whose correctness rests on an argument, and proves that argument. Each `.dfy` file
is one module; `dafny verify dfyconfig.toml` checks them all.

**Erasure code (`ECC Code/`).** `GaloisField` is the table-driven field GF(2^8) with modulus
0x11B, the field of section 4.2 of FIPS 197. The laws are not enumerated: each entry of the
exponent table is three times the one before and the logarithm table inverts it, so a product by
x is log x multiplications by 3, and multiplication by 3 is linear over exclusive or. `Encoder`
is `dfs_encoder`, `LinearSystem` and `Decoder` are the Gaussian elimination and the survivor
selection, `CodeDistance` says what the codewords are and which surviving positions are enough. The
main result is the round trip: encode, lose any n - k symbols, decode, and the message is back.
`FftEncoder` is the radix-2 FFT over the integers modulo 257, for any `findW`; `FftClosedForm` says
what it computes whatever `findW` returns. `Algebra` holds the part the two codes share: a
polynomial with k coefficients and k roots is zero.

**Chord ring (`DHT_Chord/chord/chord.c`).** `ChordNode` has one member with its fields and
handlers. `ChordProtocol` has whole runs in which members only join; stabilize is split into
request, reply and adoption, notify into sending and delivery, so replies and notifications may be
arbitrarily stale, and a join may be told any member. `ChordInvariant` proves what every
reachable state keeps, `ChordConvergence` that a quiescent ring is the sorted ring,
`ChordTermination` that changes between joins run out, `ChordFairness` that every fair schedule
reaches the sorted ring and that such schedules exist. `ChordLookup` and `ChordHops` say where a
lookup ends and after how many forwards, `ChordFingers` what `fix_fingers` makes of arbitrary
fingers, `ChordEnds` what it does on rings with both keys 2^32 - 1 and 0, which are different, and
`ChordTight` has rings on which the bounds on forwards are reached. `ChordSystem` puts links and
fingers together in runs that start with the first member and its own fingers, and `ChordSettling`
goes from there through fair rounds and calls of `fix_fingers` to right lookups. `ChordHandlers`
shows that the handlers of the class and `fix_fingers` do what the steps of the runs say.

**SHA-1 (`DHT_Chord/chord/sha1.c`).** `Sha1Spec` states FIPS PUB 180-1; `Sha1` has the context
with its block buffer, counters and flags. However a message is cut into `SHA1Input` calls, the
result is the digest of the standard. `Sha1Bits` says what the functions do bit by bit, and
`Sha1Examples` derives two of the digests that the standard publishes.

**LRU cache (`Web Proxy_C/Proxy with Cache/`).** `Cache` has the map, the recency list, the
iterators from one to the other and the size counter; `Recency` says what they must hold, over whole
traces.

**Rio reader (`Web Proxy_C/simplified version/csapp.c`).** `Rio` has the reader, its buffer and a
descriptor whose calls are interrupted, fail or are short as an arbitrary schedule says.

## What the proofs found

- Evaluation point 255 repeats point 0. Any k symbols determine a message exactly when n <= 255
  or k <= 1 (`CodeDistance.AnyKSuffice`).
- The cast of `pow(3, 256/n)` in `findW` keeps its value exactly for n >= 16
  (`FftEncoder.CastIsFaithful`), while `recursive_FFT` computes the transform exactly when `w` runs
  through the powers of the intended root at every length (`FftEncoder.FftIsDftIff`): when `findW`
  returns that root, or -17 at length 4 (`FftClosedForm.RunsRightIff`). So its results depend on what
  an out-of-range cast yields for lengths 4 and 8.
- A lookup of the smallest member key is answered by the largest member, unless it starts at the
  smallest: the wrap test of `findClosestPort` uses `<` where the other test uses `<=`
  (`ChordLookup.FindCorrectIff`).
- `fix_fingers` makes the first finger the `postnode`, whatever it was, except for a member with key
  2^32 - 1 whose `postnode` has key 0 (`ChordHops.FirstFingerKeptIff`). That member loses its first
  finger. On a ring with both keys, the first fingers of all others the postnodes, all lookups of a hash
  are right exactly if the member 2^32 - 1 owns it, or it is 2^32 - 1, or some finger of that member lies
  below it (`ChordEnds.BothEndsAllIff`; `ChordEnds.BothEndsFindIff` has the condition for one start).
- Because of the exception for the smallest key some fingers that `fix_fingers` leaves are not exact.
  With exact fingers a lookup is forwarded at most 31 times, with those fingers at most 32 times, with
  both end keys too (`ChordHops.HopBound`, `ChordHops.HopBoundFixed`, `ChordEnds.HopBoundBothEnds`).
  No smaller bound holds (`ChordTight`).
- The decoder stops after k survivors. Beyond length 255 they may show fewer than k points, and then
  it cannot be right although later survivors would settle the message
  (`Decoder.TooFewPointsLookedAt`).

## Model

| member | source | states |
|---|---|---|
| GaloisField.ExpStep | ECC Code/galoisField.cpp:21-38 | every entry of the exponent table is three times the one before, in the field of FIPS 197 |
| GaloisField.LogExp | ECC Code/galoisField.cpp:40-57 | the logarithm table undoes the exponent table |
| GaloisField.ExpLog | ECC Code/galoisField.cpp:40-57 | the exponent table undoes the logarithm table, for every nonzero byte |
| GaloisField.InverseExp | ECC Code/galoisField.cpp:59-76 | the inverse table holds 3 to the complementary exponent |
| GaloisField.MultiplyIsTimes3 | ECC Code/galoisField.cpp:86-92 | the table product by x is log x multiplications by 3, both branches of the exponent reduction included |
| GaloisField.MultiplyIsFipsProduct | ECC Code/galoisField.cpp:86-92 | the table product is the polynomial product modulo 0x11B of section 4.2 of FIPS 197, for all bytes |
| GaloisField.FipsExamples | ECC Code/galoisField.cpp:78-92 | 57 + 83 = D4, 57 * 83 = C1 and 57 * 13 = FE, as sections 4.1 and 4.2 of FIPS 197 work them out |
| GaloisField.MultiplyDistributes | ECC Code/galoisField.cpp:78-92 | the product distributes over exclusive or |
| GaloisField.MultiplyAssociates | ECC Code/galoisField.cpp:86-92 | the product is associative |
| GaloisField.MultiplyInverse | ECC Code/galoisField.cpp:94-96 | x times inv28(x) is 1 for every nonzero x |
| GaloisField.InverseOfZero | ECC Code/galoisField.cpp:59-96 | a product by the table's inverse of 0 is 0 |
| GaloisField.ByteFieldIsLawful | ECC Code/galoisField.cpp:78-92 | add28 and multiply28 satisfy all laws of a field without zero divisors |
| GaloisField.PointsDiffer | ECC Code/encoder.cpp:25-36 | the first 255 evaluation points 3^i are all different |
| GaloisField.PointsRepeat | ECC Code/encoder.cpp:25-36 | evaluation point i + 255 is point i again |
| Algebra.RootBound | ECC Code/decoder.cpp:62-98 | the Vandermonde argument: a polynomial with k coefficients that vanishes at k points is zero |
| Algebra.AgreeBound | ECC Code/encoder.cpp:24-37 | two different polynomials with k coefficients agree at fewer than k points |
| Encoder.EvaluateAt | ECC Code/encoder.cpp:28-34 | the running-power loop and the sum loop give the value of the message polynomial at the base |
| Encoder.DfsEncoder | ECC Code/encoder.cpp:13-39 | symbol i of the codeword is the message polynomial at 3^i, for every n and k <= n |
| CodeDistance.DeterminesIff | ECC Code/encoder.cpp:24-37 | a set of positions determines a message of k symbols exactly when it shows k different points |
| CodeDistance.AnyKSuffice | ECC Code/encoder.cpp:24-37 | all sets of k positions determine the message exactly when n <= 255 or k <= 1 |
| CodeDistance.CodewordsDiffer | ECC Code/encoder.cpp:24-37 | different messages of k symbols have codewords that agree in at most k - 1 positions, n <= 255 |
| CodeDistance.EncodeAdds | ECC Code/encoder.cpp:13-39 | the codeword of an exclusive or of messages is that of their codewords |
| CodeDistance.EncodeScales | ECC Code/encoder.cpp:13-39 | the codeword of a scaled message is the scaled codeword |
| CodeDistance.UnitCodeword | ECC Code/encoder.cpp:24-37 | the codeword of the message with a single 1 at place j has 3^(i * j) at place i; with the two rows above this fixes every codeword |
| CodeDistance.SmallCodewords | ECC Code/encoder.cpp:13-39 | in numbers: the message 1 gives 1, 1, 1 and the message 0, 1 gives 1, 3, 5, 15 |
| Decoder.PivotRow | ECC Code/decoder.cpp:20-28 | the chosen row is the first with the largest entry of the column, among the rows not yet used |
| Decoder.SwapRows | ECC Code/decoder.cpp:30-35 | exactly the two rows are exchanged, from column i on |
| LinearSystem.ExchangeKeepsSolutions | ECC Code/decoder.cpp:30-35 | the partial exchange keeps the solution set and the zeros below the diagonal |
| LinearSystem.DotUnit | ECC Code/decoder.cpp:54-56 | in the product of a row with a candidate solution, unknown j has the entry in column j as its coefficient |
| Decoder.PivotClears | ECC Code/decoder.cpp:39-45 | the entry the code sets to zero is what the subtraction gives, even when the pivot is zero |
| Decoder.EliminateRow | ECC Code/decoder.cpp:39-46 | the row loses the multiple of the pivot row that clears its entry; no other row changes |
| LinearSystem.ReduceKeepsSolutions | ECC Code/decoder.cpp:39-46 | subtracting a multiple of a row keeps the solution set |
| Decoder.EliminateBelow | ECC Code/decoder.cpp:37-47 | one stage keeps the solution set and clears one more column |
| LinearSystem.FreeColumn | ECC Code/decoder.cpp:17-48 | a zero on the diagonal gives a nonzero kernel vector of the triangular system |
| LinearSystem.DiagonalsNonzero | ECC Code/decoder.cpp:17-48 | with trivial kernel every pivot is nonzero |
| LinearSystem.SolutionIsUnique | ECC Code/decoder.cpp:17-59 | with trivial kernel there is at most one solution |
| Decoder.SubtractColumn | ECC Code/decoder.cpp:54-56 | the known unknown is moved to the right-hand sides of the rows above, and nothing else changes |
| Decoder.BackSubstitute | ECC Code/decoder.cpp:50-58 | every unknown is what its row says given the later ones, a zero pivot giving 0; with a nonzero diagonal the result solves the triangular system |
| Decoder.GaussElimination | ECC Code/decoder.cpp:17-59 | for every augmented matrix with trivial kernel the result is the one solution of the original system; for any other it comes row by row from a triangular system with the same solutions |
| Decoder.PowerMatrix | ECC Code/decoder.cpp:66-74 | entry j of row i is (3^i)^j = 3^(i * j) |
| Decoder.SelectRows | ECC Code/decoder.cpp:76-92 | the system consists of the rows of the first k positions that were not lost |
| Decoder.SurvivorRowEntries | ECC Code/decoder.cpp:83-90 | the row of position i has 3^(i * j) in column j and the received symbol on the right-hand side |
| Decoder.FirstSurvivorsIff | ECC Code/decoder.cpp:78-84 | a position is used exactly when its symbol is at most 256 and fewer than k such positions come before it |
| Decoder.ReceivedIff | ECC Code/decoder.cpp:81 | the received words considered are all those without the symbol 256 |
| Decoder.VandermondeKernel | ECC Code/decoder.cpp:66-94 | the survivor system has a trivial kernel when the survivors determine a message |
| Decoder.EnoughSurvivors | ECC Code/decoder.cpp:76-92 | any k survivors are decodable for n <= 255 or k <= 1 |
| Decoder.Decode | ECC Code/decoder.cpp:62-98 | for every length, where the first k survivors show k points, the codeword of the result has the received symbols there, and the result is every message the word can come from; in any case its first unknowns come row by row from a triangular form of the survivors' system, the others are 0 |
| Decoder.RoundTrip | ECC Code/decoder.cpp:62-98 | encode, overwrite at most n - k symbols by values above 256, decode: the message comes back |
| Decoder.TooFewSurvivors | ECC Code/decoder.cpp:62-98 | with fewer than k survivors another message fits the received word as well |
| Decoder.TooFewPointsLookedAt | ECC Code/decoder.cpp:79-92 | where the first k survivors show fewer than k points, the decoder eliminates the same matrix for another message, whatever survives later |
| FftEncoder.Prime257 | ECC Code/fft_encoder.cpp:14-27 | 257 has no proper divisor |
| FftEncoder.FermatIsLawful | ECC Code/fft_encoder.cpp:14-27 | add257, sub257 and mult257 satisfy all laws of a ring without zero divisors |
| FftClosedForm.ModuloRing | ECC Code/fft_encoder.cpp:14-27 | add257, sub257 and mult257 are addition, subtraction and multiplication of integers modulo 257 |
| FftEncoder.CastIsFaithful | ECC Code/fft_encoder.cpp:29-32 | 3^(256/n) fits the int that findW casts it to exactly when n >= 16; the intended root is its remainder |
| FftEncoder.RootsFit | ECC Code/fft_encoder.cpp:29-40 | the root for half the length is the square, and its power n/2 is -1 |
| FftEncoder.SplitPlaces | ECC Code/fft_encoder.cpp:37-44 | the loop deals the even places to one half and the odd places to the other |
| FftEncoder.Butterfly | ECC Code/fft_encoder.cpp:48-52 | the values of a polynomial at u and -u from those of its even and odd halves at u^2 |
| FftEncoder.Combine | ECC Code/fft_encoder.cpp:47-53 | the loop with the running power of the root joins two half transforms |
| FftEncoder.RecursiveFFT | ECC Code/fft_encoder.cpp:34-54 | the vectors filled in the loops are the recursive transform, whatever int findW returns |
| FftClosedForm.RunningTurns | ECC Code/fft_encoder.cpp:34-53 | w starts at 1 and is multiplied by what findW returned modulo 2^32, then reduced by 257; a negative value does not run through powers |
| FftClosedForm.FftAdds | ECC Code/fft_encoder.cpp:34-54 | for every findW the output of a sum of vectors is the sum of their outputs |
| FftClosedForm.FftScales | ECC Code/fft_encoder.cpp:34-54 | for every findW the output of a multiple is the multiple of the output |
| FftClosedForm.UnitLevel | ECC Code/fft_encoder.cpp:37-53 | for every findW: a 1 at an even place gives the half transform twice; at an odd place the half transform times the running w, and then the same with the sign changed |
| FftClosedForm.FftOfUnit | ECC Code/fft_encoder.cpp:34-54 | for every findW, entry k for a single 1 at place p: the product, over the bits set in p, of w after k mod n/2^(l+1) turns at length n/2^l, the sign changed where k has the mirrored bit; with the two rows above this fixes every output |
| FftClosedForm.FourEntries | ECC Code/fft_encoder.cpp:48-52 | in numbers: with 129 for length 4 the vector 0, 1, 0, 0 gives 1, 129, 256, 128 |
| FftEncoder.FftIsDft | ECC Code/fft_encoder.cpp:34-54 | where w runs through the powers of the intended roots entry k is the sum of a[j] * w^(jk) modulo 257 |
| FftClosedForm.DftOfUnit | ECC Code/fft_encoder.cpp:34-54 | the transform of a single 1 at place j has 3^(256/n * j * k) at place k |
| FftEncoder.FftIsDftIff | ECC Code/fft_encoder.cpp:29-54 | it is the transform of all vectors of length n exactly when w runs through the right powers at all lengths up to n |
| FftClosedForm.RunsRightIff | ECC Code/fft_encoder.cpp:29-32 | among the values from -256 to 256 that a remainder by 257 can have, it does exactly for the intended root, for -17 at length 4, and for any value at length 2 |
| FftEncoder.FftEncode | ECC Code/fft_encoder.cpp:56-65 | the codeword is what recursive_FFT makes of the padded message, and lists the message polynomial at 3^0, ..., 3^255 where w runs right |
| FftClosedForm.UnitCodeword | ECC Code/fft_encoder.cpp:56-65 | the message with a single 1 at place j has 3^(j * k) at place k of the intended codeword |
| FftEncoder.OrderOf3 | ECC Code/fft_encoder.cpp:29-32 | no power of 3 below the 256th is 1 modulo 257 |
| FftEncoder.FftCodewordsDiffer | ECC Code/fft_encoder.cpp:56-65 | different messages of k <= 256 symbols have codewords that agree in at most k - 1 positions |
| ChordNode.Member.FindClosest | DHT_Chord/chord/chord.c:124-180 | the answer is the postnode exactly when one of the two tests on keys holds; else the question goes to the highest finger between the member and the hash, or is answered with the member itself if there is none |
| ChordKeys.InsideIff | DHT_Chord/chord/chord.c:134-139 | between two keys means clockwise between them, in differences modulo 2^32 and in comparisons |
| ChordKeys.AdoptedIff | DHT_Chord/chord/chord.c:270-284 | the reply replaces the postnode exactly when its distance is positive and below the postnode's, modulo 2^32 |
| ChordKeys.NotifiedIff | DHT_Chord/chord/chord.c:452-471 | the sender replaces the prenode exactly when none is known or it lies between the prenode and the member |
| ChordNode.Member.OnStableReply | DHT_Chord/chord/chord.c:267-284 | the reply is adopted exactly when it lies strictly between the member and its successor |
| ChordNode.Member.OnNotify | DHT_Chord/chord/chord.c:452-471 | the sender becomes predecessor exactly when none is known or it lies strictly closer |
| ChordNode.Member.OnJoin | DHT_Chord/chord/chord.c:383-408 | a member alone closes a ring of two, any other answers with a lookup and changes nothing |
| ChordHandlers.AdoptReply | DHT_Chord/chord/chord.c:267-284 | the code after the reply does to the member's fields what the adoption step of a run does |
| ChordHandlers.AnswerStable | DHT_Chord/chord/chord.c:438-451 | the reply the handler sends is the one the reply step of a run records |
| ChordHandlers.TakeNotify | DHT_Chord/chord/chord.c:452-471 | the notify handler does what the delivery step of a run does |
| ChordHandlers.JoinThrough | DHT_Chord/chord/chord.c:383-408 | the contact's handler and the newcomer's join do what the join step of a run does, to both members |
| ChordHandlers.FixFingers | DHT_Chord/chord/chord.c:183-191 | fix_fingers leaves the member's fingers as the fix_fingers step of a run does, whether it answers itself or passes the question on |
| ChordInvariant.InitHolds | DHT_Chord/chord/chord.c:488-494 | the ring of the first member has the invariant |
| ChordInvariant.ReplyFits | DHT_Chord/chord/chord.c:438-451 | a reply that would be adopted names a member with a clockwise path to the current successor |
| ChordInvariant.AdoptHolds | DHT_Chord/chord/chord.c:270-284 | adopting a stale or fresh reply keeps the invariant and cuts no path |
| ChordInvariant.DeliverHolds | DHT_Chord/chord/chord.c:452-471 | delivering a notify, however late or often, keeps the invariant |
| ChordInvariant.JoinHolds | DHT_Chord/chord/chord.c:383-408 | a join keeps the invariant whichever member the lookup names |
| ChordInvariant.StepHolds | DHT_Chord/chord/chord.c:230-286 | every step keeps the invariant, and every old link is still bridged by a path |
| ChordInvariant.RunHolds | DHT_Chord/chord/chord.c:373-471 | every state of every run has the invariant: predecessors have a clockwise path to their owners, one cycle contains the first member |
| ChordInvariant.ReachStays | DHT_Chord/chord/chord.c:230-286 | a member reachable through postnodes stays reachable for the rest of the run |
| ChordInvariant.CycleWindsOnce | DHT_Chord/chord/chord.c:270-284 | the cycle through the first member has total clockwise length 2^32 |
| ChordInvariant.NoOtherCycle | DHT_Chord/chord/chord.c:270-284 | whatever lies on a cycle of postnodes lies on that one |
| ChordInvariant.AloneMeansFirst | DHT_Chord/chord/chord.c:389-395 | a member that is its own successor is the first and only one, and has a predecessor to overwrite |
| ChordConvergence.QuietMeansSorted | DHT_Chord/chord/chord.c:270-284 | if no stabilize exchange and no notify would change anything, every postnode is the next member and every prenode the previous one |
| ChordConvergence.QuiescentIffSorted | DHT_Chord/chord/chord.c:452-471 | with two members or more the quiescent reachable states are exactly the sorted rings |
| ChordConvergence.SortedIsStable | DHT_Chord/chord/chord.c:452-471 | no message from any member, however late, changes a sorted ring |
| ChordTermination.AdoptLowers | DHT_Chord/chord/chord.c:274-284 | an effective stabilize strictly lowers the clockwise distance to the successor |
| ChordTermination.NotifyLowers | DHT_Chord/chord/chord.c:455-470 | an effective notify strictly lowers the distance from the predecessor, none counting as farthest |
| ChordTermination.ChangesBounded | DHT_Chord/chord/chord.c:230-286 | between joins at most 2 * 2^32 changes per member, however long the run |
| ChordTermination.CanSettle | DHT_Chord/chord/chord.c:230-286 | from every reachable state further exchanges without joins lead to the sorted ring |
| ChordFairness.SortedStays | DHT_Chord/chord/chord.c:270-284 | without joins nothing changes a sorted ring, however late the messages |
| ChordFairness.QuietRoundIsSorted | DHT_Chord/chord/chord.c:230-286 | if a round in which every member completes an exchange and has its notify delivered changes nothing, the ring is sorted |
| ChordFairness.EffectiveBounded | DHT_Chord/chord/chord.c:230-286 | of any number of such rounds at most 2 * 2^32 for each member change anything |
| ChordFairness.FairRunsSettle | DHT_Chord/chord/chord.c:351-362 | so every schedule of enough such rounds, in whatever interleaving, ends in the sorted ring |
| ChordFairness.RoundExists | DHT_Chord/chord/chord.c:230-286 | from every state with the invariant such a round without joins can be run |
| ChordLookup.ForwardIsCloser | DHT_Chord/chord/chord.c:134-176 | a forward goes to a member strictly between the sender and the hash, so every chain ends, sorted ring or not |
| ChordLookup.FindHop | DHT_Chord/chord/chord.c:124-180 | on any links and fingers, one hop: the postnode if one of the two tests holds, else what the highest finger before the hash finds, else the member itself |
| ChordLookup.FindEnds | DHT_Chord/chord/chord.c:124-180 | on any links and fingers a lookup ends at a member on the way that answers with its postnode, one of the two tests holding there, or with itself, neither holding and no finger leading on |
| ChordLookup.FindAnswers | DHT_Chord/chord/chord.c:124-180 | on a sorted ring, with the first fingers the postnodes, the answer is the owner, but the largest member for the smallest member key asked of another |
| ChordLookup.FindCorrectIff | DHT_Chord/chord/chord.c:124-180 | with the first fingers the postnodes the answer is the owner exactly unless the hash is the smallest member key and the start is another member |
| ChordHops.HopBound | DHT_Chord/chord/chord.c:124-180 | with every finger i the owner of key + 2^i a lookup is forwarded at most 31 times from anywhere |
| ChordHops.FixFingersAnswer | DHT_Chord/chord/chord.c:183-191 | what a lookup of a finger's start returns when the first fingers are the postnodes, whatever the others are |
| ChordHops.FirstFingerKeptIff | DHT_Chord/chord/chord.c:183-191 | whatever the fingers and links, fix_fingers makes the first finger the postnode exactly unless the member is 2^32 - 1 and its postnode 0 |
| ChordHops.HopBoundFixed | DHT_Chord/chord/chord.c:124-180 | with the first fingers the postnodes and every finger what fix_fingers leaves, a lookup is forwarded at most 32 times |
| ChordHops.ExactFingersExist | DHT_Chord/chord/chord.c:183-191 | every sorted ring has fingers as the 31-forward bound asks, the first of them the postnode |
| ChordFingers.FixesReachFixed | DHT_Chord/chord/chord.c:183-191 | on a sorted ring without both keys 2^32 - 1 and 0, from any fingers: once every member has fixed its first finger and after that every other, in any order, all fingers are of that kind |
| ChordFingers.EntryAnswers | DHT_Chord/chord/chord.c:183-191 | a finger fixed after all first fingers is, for good, what a lookup of its start answers |
| ChordTight.ExactBoundReached | DHT_Chord/chord/chord.c:124-180 | a sorted ring with exact fingers on which a lookup is forwarded 31 times |
| ChordTight.FixedBoundReached | DHT_Chord/chord/chord.c:124-180 | a sorted ring with fingers as fix_fingers leaves them on which a lookup is forwarded 32 times |
| ChordEnds.BothEndsNeverFixed | DHT_Chord/chord/chord.c:183-191 | on a sorted ring with both keys 2^32 - 1 and 0 no fingers are as the 32-forward bound asks |
| ChordEnds.LargestFindIff | DHT_Chord/chord/chord.c:124-180 | on such a ring, with the first fingers of all members but 2^32 - 1 the postnodes and any other fingers, a lookup from 2^32 - 1 is right exactly if it asks for 2^32 - 1 or a key that member owns, or one of its fingers lies below the hash |
| ChordEnds.BothEndsFindIff | DHT_Chord/chord/chord.c:124-180 | with the same first fingers, a lookup from any x is right exactly if it goes upwards, or crosses zero before 2^32 - 1, or gets there and 2^32 - 1 is right |
| ChordEnds.BothEndsAllIff | DHT_Chord/chord/chord.c:124-180 | with the same first fingers, the lookups of a hash are right from every member exactly if the one from 2^32 - 1 is, a condition on the fingers of that member alone |
| ChordEnds.HopBoundBothEnds | DHT_Chord/chord/chord.c:124-180 | with the fingers that fix_fingers leaves there, a lookup is forwarded at most 31 times upwards and 32 times otherwise |
| ChordEnds.FixesReachEnds | DHT_Chord/chord/chord.c:183-191 | from any fingers, once every member has fixed its first finger and after that every other, in any order, all fingers are of that kind: the owner of the start, or 2^32 - 1 where that member does not lead to a start across zero |
| ChordTight.EndsBoundReached | DHT_Chord/chord/chord.c:124-180 | a sorted ring with both end keys and such fingers on which a lookup is forwarded 32 times |
| ChordHops.StartDist | DHT_Chord/chord/chord.c:559-564 | the start of finger i lies 2^i clockwise of the member |
| ChordSystem.RunIsSound | DHT_Chord/chord/chord.c:351-362 | in every run of joins, stabilize, notify and fix_fingers from the first member on, fingers name members and the links keep their invariant |
| ChordSystem.SettledRun | DHT_Chord/chord/chord.c:351-362 | on settled links a run does to the fingers what its calls of fix_fingers do |
| ChordSystem.SettledRunFinds | DHT_Chord/chord/chord.c:124-180 | in such a run, once stabilize and notify change nothing and every member has then fixed its first finger, lookups are right with the one exception, if not both end keys are members |
| ChordSystem.SettledRunHops | DHT_Chord/chord/chord.c:183-191 | and once the other fingers are fixed after that, a lookup is forwarded at most 32 times |
| ChordSystem.SettledRunBothEnds | DHT_Chord/chord/chord.c:124-180 | with both end keys, keys from the start upwards are found, and every wrong answer is the member 2^32 - 1 |
| ChordSystem.SettledRunBothEndsIff | DHT_Chord/chord/chord.c:124-180 | with both end keys, whatever the other fingers were, exactly which lookups are right: those upwards, those that cross zero before 2^32 - 1, and those that get there when it is right |
| ChordSystem.SettledRunAllIff | DHT_Chord/chord/chord.c:124-180 | with both end keys the lookups of a hash are right from every member exactly if it is 2^32 - 1 or owned by 2^32 - 1, or a finger of that member lies below it |
| ChordSystem.SettledRunHopsBothEnds | DHT_Chord/chord/chord.c:183-191 | with both end keys, once the other fingers are fixed too, a lookup is forwarded at most 31 times upwards and 32 times otherwise |
| ChordSettling.LinksLead | DHT_Chord/chord/chord.c:351-362 | calls of fix_fingers between them do not disturb the steps of the links |
| ChordSettling.FairCutsSettle | DHT_Chord/chord/chord.c:351-362 | in every run from the first member, more than 2 * 2^32 rounds for each member without joins, calls of fix_fingers between them, end in the sorted ring |
| ChordSettling.FairRunFinds | DHT_Chord/chord/chord.c:351-362 | in every run from the first member, after that many fair rounds and then one call for each first finger, lookups are right with the one exception, if not both end keys are members |
| Sha1.FillSchedule | DHT_Chord/chord/sha1.c:222-236 | the word array is the message schedule of section 7 of FIPS PUB 180-1 |
| Sha1Bits.ScheduleBits | DHT_Chord/chord/sha1.c:231-236 | bit i + 1 of a word from the 17th on, around the word, is the exclusive or of bit i of the words 3, 8, 14 and 16 before |
| Sha1Bits.LogicalBits | DHT_Chord/chord/sha1.c:238-290 | each bit of the function of a round: a choice, a parity, a majority, a parity |
| Sha1Bits.ConstantsAreRoots | DHT_Chord/chord/sha1.c:210-216 | the constants are the integer parts of 2^30 times the square roots of 2, 3, 5 and 10 |
| Sha1.RunRounds | DHT_Chord/chord/sha1.c:238-290 | the four loops are the eighty rounds of the standard |
| Sha1.SHA1Context.ProcessMessageBlock | DHT_Chord/chord/sha1.c:207-301 | one block is compressed as the standard says |
| Sha1.SHA1Context.CountByte | DHT_Chord/chord/sha1.c:161-176 | the two words count 8 more bits; the context is corrupted exactly at 2^64 bits |
| Sha1.SHA1Context.TakeByte | DHT_Chord/chord/sha1.c:156-183 | one byte more: full blocks compressed, the rest buffered, the count right |
| Sha1.SHA1Context.PadTwoBlocks | DHT_Chord/chord/sha1.c:334-350 | the overflow branch: a block of padding is compressed and a second one is filled up to the length |
| Sha1.SHA1Context.PadMessage | DHT_Chord/chord/sha1.c:326-371 | both branches process exactly the blocks of the padded message of section 4 |
| Sha1Spec.FewestZeros | DHT_Chord/chord/sha1.c:326-371 | the padding takes the fewest zeros that complete a block |
| Sha1Spec.PaddedMeans | DHT_Chord/chord/sha1.c:326-371 | the padded message is the message, the byte 0x80, zeros, and the eight length bytes |
| Sha1Spec.LengthIsNumber | DHT_Chord/chord/sha1.c:358-368 | the length bytes, most significant first, are the number of bits |
| Sha1Spec.LengthFromWords | DHT_Chord/chord/sha1.c:358-368 | the eight length bytes from the two words are those of the 64-bit length |
| Sha1.SHA1Context.Reset | DHT_Chord/chord/sha1.c:71-85 | the context holds the empty message, whatever it was before |
| Sha1.SHA1Context.Input | DHT_Chord/chord/sha1.c:143-185 | the bytes are appended, or the context is poisoned by too many bits or by input after a result |
| Sha1.SHA1Context.Result | DHT_Chord/chord/sha1.c:104-119 | the digest is that of the standard for the bytes taken; a repeated call leaves it unchanged |
| Sha1.DoneStays | DHT_Chord/chord/sha1.c:104-154 | after a result only nonempty input changes anything, and it poisons the context |
| Sha1.LifeCycle | DHT_Chord/chord/sha1.c:71-185 | over every sequence of calls without a further reset: what the context holds, and exactly when it is poisoned |
| Sha1.RunCalls | DHT_Chord/chord/sha1.c:71-185 | a context goes through any sequence of calls as its status does |
| Sha1.RunFresh | DHT_Chord/chord/sha1.c:71-185 | a context reset once: the digest is that of the bytes before the first result, unless it is poisoned, and when it is |
| Sha1.HashChunks | DHT_Chord/chord/sha1.c:71-185 | any chunking of a message below 2^64 bits gives the digest of the standard; longer ones are refused |
| Sha1Examples.AbcDigest | DHT_Chord/chord/sha1.c:104-371 | the digest of abc is A9993E36 4706816A BA3E2571 7850C26C 9CD0D89D, as the standard publishes it |
| Sha1Examples.MessageDigest | DHT_Chord/chord/sha1.c:104-371 | the digest of the 56 bytes abcdbcdecdef...nopq, which need two blocks, is 84983E44 1C3BD26E BAAE4AA1 F95129E5 E54670F1 |
| Sha1.HashFunction | DHT_Chord/chord/chord.c:72-89 | the key is the exclusive or of the five digest words, and 0 on failure |
| Sha1Bits.FoldBits | DHT_Chord/chord/chord.c:72-89 | each bit of the key is the parity of that bit in the five words |
| Cache.Cache.EraseKey | Web Proxy_C/Proxy with Cache/cache.cpp:28-35 | map, list, iterators and size stay in agreement; exactly that key is gone |
| Cache.Cache.EraseNode | Web Proxy_C/Proxy with Cache/cache.cpp:37-48 | the same through the list; the key is always found in the map |
| Cache.Cache.Get | Web Proxy_C/Proxy with Cache/cache.cpp:50-71 | a hit moves the entry to the recent end with a fresh iterator, a miss changes nothing |
| Cache.Cache.Evict | Web Proxy_C/Proxy with Cache/cache.cpp:89-93 | exactly the longest recency suffix that fits stays; the list is never empty in the loop |
| Cache.Cache.Put | Web Proxy_C/Proxy with Cache/cache.cpp:73-96 | the new entry replaces one of its key, then the longest suffix that fits stays, even if that is nothing |
| Cache.MoveAgrees | Web Proxy_C/Proxy with Cache/cache.cpp:61-66 | moving an entry keeps the agreement of list and map and the total size |
| Cache.CachedSize | Web Proxy_C/Proxy with Cache/cacheinstance.cpp:35-43 | the size of a cached instance is the one its entry was counted with |
| Cache.CacheInstance.TotSize | Web Proxy_C/Proxy with Cache/cacheinstance.cpp:35-43 | header and body, or the header less one when the header declares no body size |
| Cache.PerformAll | Web Proxy_C/Proxy with Cache/cache.cpp:50-96 | after every sequence of gets and puts map, list, iterators and size agree, the contents are those of the recency list, and the capacity is kept |
| Recency.OpsFit | Web Proxy_C/Proxy with Cache/cache.cpp:73-96 | whatever the gets and puts, the recency list fits the capacity and holds no key twice |
| Cache.Serve | Web Proxy_C/Proxy with Cache/main.cpp:205-416 | get, and put on a miss, is one request of the recency model |
| Cache.Replay | Web Proxy_C/Proxy with Cache/cache.cpp:50-96 | after every trace the cache holds the longest suffix of the all-time recency order that fits |
| Recency.FitIsLongest | Web Proxy_C/Proxy with Cache/cache.cpp:89-93 | what is kept fits, and every longer suffix does not |
| Recency.CacheIsSuffix | Web Proxy_C/Proxy with Cache/cache.cpp:50-96 | the request-by-request contents are a function of the recency order alone |
| Recency.OrderIsByLastUse | Web Proxy_C/Proxy with Cache/cache.cpp:50-96 | that order lists the keys of the trace, each once with its size, the one requested last after the other |
| Recency.StackInclusion | Web Proxy_C/Proxy with Cache/cache.cpp:50-96 | on the same trace a larger cache holds all that a smaller one holds, in the same order |
| Rio.WriteN | Web Proxy_C/simplified version/csapp.c:493-510 | all bytes are written in order whatever is accepted at a time, with a stale errno too; a refusal leaves a proper prefix |
| Rio.Reader.ReadInitB | Web Proxy_C/simplified version/csapp.c:555-560 | the reader starts where the descriptor stands |
| Rio.Reader.Refill | Web Proxy_C/simplified version/csapp.c:527-538 | interruptions are retried; the logical position does not move |
| Rio.Reader.Read | Web Proxy_C/simplified version/csapp.c:523-548 | the next bytes of the stream go to their place in the caller's buffer, fewer than asked for only when the reader's buffer is empty afterwards; none exactly at the end or on failure; what is buffered costs no call of the kernel |
| Rio.Reader.ReadNB | Web Proxy_C/simplified version/csapp.c:567-586 | exactly the next n bytes or all that are left, at the head of the buffer, the rest of it untouched |
| Rio.LineEndIff | Web Proxy_C/simplified version/csapp.c:600-610 | where a line ends: at the first newline, the limit or the end of the stream, and nowhere else |
| Rio.LineFits | Web Proxy_C/simplified version/csapp.c:600-612 | a line has at most maxlen - 1 bytes, so its zero byte fits into maxlen, or 2^64 - 1 for maxlen 0; it is shorter only after a newline or at the end of the stream |
| Rio.Reader.ReadLineB | Web Proxy_C/simplified version/csapp.c:593-613 | exactly the bytes up to the end of the line, at most maxlen - 1, then a zero byte, the rest of the buffer untouched; a buffer of maxlen bytes is enough; the limit wraps around for maxlen 0 |
| Rio.NothingLost | Web Proxy_C/simplified version/csapp.c:567-613 | the results of any mix of requests, put together, are a stretch of the stream |
| Rio.EverythingArrives | Web Proxy_C/simplified version/csapp.c:567-613 | enough requests with room for a byte deliver all of the stream |
| Rio.ServeAll | Web Proxy_C/simplified version/csapp.c:523-613 | the results of any mix of calls do not depend on the schedule of short reads and interruptions |

## Left out

- Chord sockets, threads, message text, `atoi`/`sprintf` and the `kill` command: messages are abstract and each handler is atomic. That the text of a hash above 2^31 - 1 goes through `atoi` is not modelled.
- Chord failures (`postnode2`, `heartBeat`, `resetPreNode`): the convergence and safety results are for runs in which members only join.
- `translate`: taken to be injective, so a member is named by its key; port 0 is the absent predecessor.
- ChordHops.StartDist: reads `key + 2^i` modulo 2^32; the double in chord.c:560 is not modelled.
- ChordInvariant.JoinHolds: the join handler and the joiner's own assignment are one step, and the lookup of a join may return any member; the actual lookup results are in the lookup modules.
- Chord exchanges: a member has one stabilize exchange under way at a time, as the code waits for the reply.
- ChordHops.HopBoundFixed: not for a ring with both keys 2^32 - 1 and 0, where `fix_fingers` takes the first finger of the one away from the other; those rings have their own bound in ChordEnds.HopBoundBothEnds.
- Lookups while links still change: ChordLookup.FindEnds says where they end, but that the answer is the owner is stated for settled links; a lookup, also one inside `fix_fingers`, reads the links and fingers of one moment. Its retry when 0 comes back is a connection failure.
- Decoder.Decode: the unused parameter n is dropped; a received symbol equal to 256, which the loss test takes for present and which indexes the tables out of range, is excluded.
- Encoder.DfsEncoder: needs k <= n, since the source writes past its vectors otherwise.
- FftEncoder.RecursiveFFT: what `findW` returns is a parameter, any int; which value the out-of-range cast yields for n <= 8 is not modelled. The entries of the vector are below 257.
- FftEncoder.FftEncode: the polynomial values are promised where `w` runs right at the lengths from 4 up.
- FftEncoder.FftCodewordsDiffer: a statement on those polynomial values.
- FFT lengths that are not powers of two up to 256.
- SHA-1 words: the masks with 0xFFFFFFFF are no-ops on 32-bit words; `strlen` of the hashed key is the length of the byte sequence.
- Sha1.SHA1Context.constructor: models the uninitialised context as corrupted until its reset.
- Cache mutex, deallocation of evicted instances, and wrap-around of `size_t` sums: each public operation is atomic and sizes are natural numbers.
- Cache.Cache.Put: the instance is not cached under another key; an instance's sizes are fixed while it is cached, and a header has at least one byte.
- Cache.Serve: what the proxy does not cache (uncacheable or failed responses) is no request of it; arbitrary gets and puts are those of Cache.PerformAll.
- Rio.Reader.ReadLineB: overflow of the int that counts the bytes of a line is not modelled.
- Rio.ServeAll: for schedules without failures other than interruptions; what a failing call leaves is stated by the methods of the reader.
- `DHT_Chord/query`, both proxies' request loops, header parsing, `commclient`, `commserver`, the rest of `csapp.c` and MiniShell: input and output around code that would only add easy members.
