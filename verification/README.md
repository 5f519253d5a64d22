# ZKVote: parameter audit, Merkle trees, scheduling, quotas, fees and codecs

This project models the computational core of the ZKVote repository and proves what that code is for:

- **The Poseidon parameter audit** (`circuits/utils/poseidon_param_audit.js`). Arithmetic modulo an arbitrary prime with
  Fermat's little theorem proved; Gauss-Jordan elimination, subspaces as canonical bases, kernels, intersections and
  images as statements about sets of vectors; polynomials modulo a prime with division, gcd, powers modulo a polynomial and
  root finding with its deterministic randomiser; the Grain bit stream; the Cauchy matrix draw; the three matrix-security
  tests and the generator that combines them.
- **Merkle trees**: the sparse builder of the batch fixture, the dense padded builder of the input generator and the
  single-leaf fold of the proof generator, all proved against one reference tree for any pair hash and zero leaf.
- **The two-tier request scheduler**, as an object that refines a transition system over enqueue and completion events.
- **The bounded rate-limit store** with least-recently-used eviction, and the two **fixed-window budgets**.
- **Fee planning** under a spending cap that is checked when a plan is made and charged when it is recorded.
- **The proof and key codec** between snarkjs decimal coordinates and big-endian hex or bytes.

Code that updates state in place is modelled as methods and classes proved against functions; the theorems are lemmas about
those functions and about whole runs. A thrown error is a `None` or a named outcome.

Conventions. `p: Prime` is any prime; every statement of the field, vector and polynomial modules is about that `p`.
`Cong(p, a, b)` is congruence modulo `p`, `Span`, `Kernel` and `Image` are sets of integer vectors closed under congruence,
`Canon` says that entries lie in `[0, p)`. A polynomial is a list of coefficients, lowest degree first. Clock readings and the
pair hash are parameters.

Where the code and its own documentation differ, the model follows the code:

- `BoundedMemoryStore` describes its counts as a sliding window. They count a fixed window, which opens at a hit and ends at
  its reset time: hits plus the decrements since then are the increments in that window (`RateLimitStore.HitsCountWindow`,
  and `RateLimitStore.HitsSinceOpening` for every run). That agrees with the trailing window exactly when no earlier hit of
  the key lies in the trailing window but before the fixed one (`RateLimitStore.SlidingIff`); `RateLimitStore.NotSliding`
  gives a run, for every window of two milliseconds or more, on which the two counts differ.
- `RateLimitConfig.separateBudgets` is never read: the budgets are always separate.
- The surge surcharge of a fee plan can only be charged when the caller overrides the base fee
  (`FeeBudget.SurchargeOnlyForOverride`).
- `BudgetConfig.totalBudgetStroops` is documented as a hard ceiling on what may be spent. It is not one, for two reasons.
  A record may charge any amount above its plan, so no bound holds by itself (`FeeBudget.OverchargeBreaksAnything`). And with
  no charge above its plan, a plan is still checked only against what is already recorded: k plans of a fee that is accepted
  once are all accepted while they are open, and recording them spends k fees (`FeeBudget.OpenPlansOvershoot`).
  `FeeBudget.CeilingHoldsIff` is the exact condition: an accepted plan keeps the budget, and the hard stop, apart from what is
  charged above plan and however the open plans are settled, if and only if what is spent, what the open plans commit and the
  new fee together stay within it. `FeeBudget.BoundedOvershoot` bounds the overshoot, with the overcharges added.

The sparse builder and the fold start their zero chain from 0, the dense builder from a domain-separated hash. The agreement
theorem is about builders that are given the same zero leaf and the same leaf values. With an injective pair hash that is
necessary unless the tree is full: `MerkleTree.RootsAgreeIff` says that the roots over two zero leaves agree exactly when the
zero leaves are equal or every place is taken.

## Model

| member | source | states |
|---|---|---|
| PrimeField.ModIsEuclidean | circuits/utils/poseidon_param_audit.js:100 | Two truncating remainders give the remainder in [0, p), for negative operands too. |
| PrimeField.Mod | circuits/utils/poseidon_param_audit.js:100 | The reduced value lies in [0, p) and is congruent to its argument. |
| PrimeField.EuclidLemma | circuits/utils/poseidon_param_audit.js:114-119 | A prime that divides a product divides a factor; proved by descent, not assumed. |
| PrimeField.Fermat | circuits/utils/poseidon_param_audit.js:114-119 | Fermat's little theorem for every prime: the fact that inversion by exponentiation relies on. |
| PrimeField.FermatAll | circuits/utils/poseidon_param_audit.js:510-514 | x^p - x vanishes at every residue, zero included. |
| PrimeField.SquareStep | circuits/utils/poseidon_param_audit.js:106-110 | One round of square-and-multiply preserves result times base to the remaining exponent. |
| PrimeField.FPow | circuits/utils/poseidon_param_audit.js:102-112 | The loop returns the true power, reduced; a negative exponent gives 1. |
| PrimeField.FInv | circuits/utils/poseidon_param_audit.js:114-119 | Throws exactly on multiples of p; otherwise the result times a is congruent to 1. |
| Grain.NeverZero | circuits/utils/poseidon_param_audit.js:161-166 | No 80 consecutive bits of the register sequence are all zero, in any run. |
| Grain.SelectorWithin128 | circuits/utils/poseidon_param_audit.js:170-175 | Among any 128 consecutive pairs some selector bit is 1: the rejection loop always ends. |
| Grain.InitState | circuits/utils/poseidon_param_audit.js:138-152 | The initial state has 80 bits and ends in 30 ones, so it is not zero; its fields are those of InitialFields. |
| Grain.ToBitsValue | circuits/utils/poseidon_param_audit.js:125-131 | The bits of a number read back as the number, modulo two to the width. |
| Grain.HighBitFirst | circuits/utils/poseidon_param_audit.js:181-187 | Bits are read big-endian: the first one weighs most. |
| Grain.InitialFields | circuits/utils/poseidon_param_audit.js:138-152 | The slices of the initial state have the values 1, 0, 254, t, R_F and R_P, each modulo its width, and then come thirty ones. |
| Grain.Recurrence | circuits/utils/poseidon_param_audit.js:161-166 | Each further bit is the exclusive or of the bits at 62, 51, 38, 23, 13 and 0 of the last 80. |
| Grain.GrainStream.constructor | circuits/utils/poseidon_param_audit.js:159-168 | After exactly 160 discarded clockings the register is 160 places into the recurrence sequence of the initial state. |
| Grain.GrainStream.Clock | circuits/utils/poseidon_param_audit.js:161-166 | Shifting and pushing the feedback bit advances the register by one place of the recurrence sequence and leaves it nonzero. |
| Grain.GrainStream.Next | circuits/utils/poseidon_param_audit.js:170-177 | What has been yielded is always the second bits of exactly those pairs that start with 1. |
| Grain.EnoughPairs | circuits/utils/poseidon_param_audit.js:159-178 | Every 128 pairs yield at least one bit: the stream never dries up, so bit n of it is well defined. |
| Grain.YieldedBit | circuits/utils/poseidon_param_audit.js:170-177 | The n-th bit yielded is bit n of the infinite self-shrinking stream, however many pairs were read. |
| Grain.SelectedPartner | circuits/utils/poseidon_param_audit.js:168-177 | Bit n is the second bit of the pair that is the n-th one, after the 160 discarded clockings, to start with a 1. |
| Grain.BitOfPair | circuits/utils/poseidon_param_audit.js:168-177 | There is such a pair for every n, among the first 128 (n + 1). |
| Grain.ReadInt | circuits/utils/poseidon_param_audit.js:181-187 | Consumes exactly that many yielded bits and returns their big-endian value. |
| Grain.ReadRoundConstant | circuits/utils/poseidon_param_audit.js:193-197 | Returns the first 254-bit draw below p; every earlier draw was at least p. |
| Grain.ReadMdsPoint | circuits/utils/poseidon_param_audit.js:205-207 | Returns the next 254 bits of the stream as a big-endian number, reduced into the field. |
| Cauchy.CauchyKernel | circuits/utils/poseidon_param_audit.js:230-240 | A square Cauchy system on incongruent points has only the zero solution. |
| Cauchy.CauchyIsMds | circuits/utils/poseidon_param_audit.js:215-219 | Every square submatrix of a Cauchy matrix on incongruent points has a trivial kernel. |
| Cauchy.SizeCountsDistinct | circuits/utils/poseidon_param_audit.js:226 | The set of the points has full size exactly when the points are pairwise distinct. |
| Cauchy.TryPoints | circuits/utils/poseidon_param_audit.js:222-241 | An attempt succeeds exactly when its points are distinct and no x + y vanishes; the matrix then holds the inverses of x + y. |
| Cauchy.ReadPoints | circuits/utils/poseidon_param_audit.js:224-225 | The window: the next 2t reduced 254-bit draws of the stream. |
| Cauchy.WindowPlace | circuits/utils/poseidon_param_audit.js:222-225 | Window k begins 508 t k bits after window 0: 2t draws of 254 bits each, none skipped. |
| Cauchy.CreateMdsCandidate | circuits/utils/poseidon_param_audit.js:220-244 | Reads windows of 2t points from the stream: returns the Cauchy candidate of the first usable window, none before it being usable, or gives up after maxTries unusable ones. |
| RowReduction.FindPivot | circuits/utils/poseidon_param_audit.js:330-337 | The first row from r on with a nonzero entry in the column, or none if there is no such row. |
| RowReduction.ScaleRow | circuits/utils/poseidon_param_audit.js:339-340 | Scales the row from the pivot column on. |
| RowReduction.ClearColumn | circuits/utils/poseidon_param_audit.js:341-345 | Clears the pivot column in every other row, keeps the pivot row and the row space. |
| RowReduction.PivotStep | circuits/utils/poseidon_param_audit.js:338-347 | One pivot step extends the reduced part by one pivot and keeps the row space. |
| RowReduction.Rref | circuits/utils/poseidon_param_audit.js:323-350 | The result is a reduced row echelon form with the row space of the input. |
| Echelon.CanonicalUnique | circuits/utils/poseidon_param_audit.js:352-360 | Two reduced row echelon forms with the same row space are identical. |
| Echelon.DimensionInvariant | circuits/utils/poseidon_param_audit.js:362 | Any basis with unit columns of a subspace has as many rows as its canonical basis. |
| RowReduction.SpanBasis | circuits/utils/poseidon_param_audit.js:356-360 | The canonical basis of the span of the vectors, zero vectors and the empty list included. |
| RowReduction.SpanEqDecides | circuits/utils/poseidon_param_audit.js:364-367 | The structural comparison of two canonical bases holds exactly when they span the same subspace. |
| Subspaces.FreeColumns | circuits/utils/poseidon_param_audit.js:374-375 | The increasing list of exactly the columns without a pivot. |
| Subspaces.KernelVector | circuits/utils/poseidon_param_audit.js:377-383 | The vector that sets one free column to 1 and solves for the pivots. |
| Subspaces.RightKernel | circuits/utils/poseidon_param_audit.js:370-386 | The canonical basis of exactly the vectors that m annihilates; its size is the width minus the rank. |
| Subspaces.PairMatrix | circuits/utils/poseidon_param_audit.js:393-399 | Column by column, the rows of a next to the negated rows of b. |
| Subspaces.Recombine | circuits/utils/poseidon_param_audit.js:401-408 | The combination of the rows of a with the solution's coefficients. |
| Subspaces.SpanIntersect | circuits/utils/poseidon_param_audit.js:389-410 | The canonical basis of exactly the intersection of the two subspaces. |
| Subspaces.ImageOfSpan | circuits/utils/poseidon_param_audit.js:412-415 | The images of a basis span the image of the subspace. |
| Matrices.SpanTimesMatrix | circuits/utils/poseidon_param_audit.js:413-415 | The canonical basis of the image of the subspace under the matrix. |
| Matrices.MatVec | circuits/utils/poseidon_param_audit.js:302-304 | The reduced coordinates of the product of a matrix and a vector. |
| Matrices.MatMul | circuits/utils/poseidon_param_audit.js:284-299 | Every row of the result is the combination of the rows of b with the entries of a's row; zero entries may be skipped. |
| Matrices.ActsUnique | circuits/utils/poseidon_param_audit.js:306-316 | A reduced matrix that acts as the k-fold application of m is unique. |
| Matrices.PowerActs | circuits/utils/poseidon_param_audit.js:306-316 | The iterated product acts on every vector as k applications of m. |
| Matrices.MatPow | circuits/utils/poseidon_param_audit.js:306-316 | Square-and-multiply returns exactly the iterated product of e copies of m. |
| PolyAlgorithms.PolySub | circuits/utils/poseidon_param_audit.js:432-437 | The difference, coefficient by coefficient. |
| PolyAlgorithms.PolyMul | circuits/utils/poseidon_param_audit.js:439-446 | The product, coefficient by coefficient. |
| PolyAlgorithms.ProductEval | circuits/utils/poseidon_param_audit.js:439-446 | The value of a product is the product of the values. |
| Polynomials.DividesQuotRem | circuits/utils/poseidon_param_audit.js:448-461 | With a = q b + r a divisor of b divides a exactly when it divides r. |
| Polynomials.QuotRemEval | circuits/utils/poseidon_param_audit.js:448-461 | The value of a = q b + r at every point. |
| Polynomials.SmallMultipleZero | circuits/utils/poseidon_param_audit.js:448-461 | A multiple of b of smaller degree than b is zero. |
| PolyAlgorithms.PolyMod | circuits/utils/poseidon_param_audit.js:448-461 | Throws exactly on the zero divisor; otherwise the remainder of a division with a smaller degree than b. |
| PolyAlgorithms.PolyDivExact | circuits/utils/poseidon_param_audit.js:544-558 | The quotient of the division with remainder; monic when both are monic. |
| PolyAlgorithms.PolyGcd | circuits/utils/poseidon_param_audit.js:463-475 | The monic polynomial with exactly the common divisors of a and b as divisors and exactly their common roots as roots. |
| PolyPowers.MulCommutes | circuits/utils/poseidon_param_audit.js:439-446 | Products of polynomials commute. |
| PolyPowers.MulAssociates | circuits/utils/poseidon_param_audit.js:439-446 | Products of polynomials associate. |
| PolyPowers.EqModMul | circuits/utils/poseidon_param_audit.js:483-484 | Congruence modulo a polynomial respects products. |
| PolyPowers.PowerRound | circuits/utils/poseidon_param_audit.js:482-486 | One round of square-and-multiply preserves result times base to the remaining exponent, modulo the polynomial. |
| PolyPowers.PolyPowMod | circuits/utils/poseidon_param_audit.js:478-488 | Throws exactly on the zero modulus; otherwise congruent to the true power modulo it, and reduced unless the exponent is 0. |
| PolyPowers.PowerValue | circuits/utils/poseidon_param_audit.js:478-488 | At a root of the modulus the result takes the power of the base's value. |
| TotalSplitting.SyntheticEval | circuits/utils/poseidon_param_audit.js:509-512 | f(x) - f(c) is (x - c) times the value of the synthetic quotient. |
| TotalSplitting.RootBound | circuits/utils/poseidon_param_audit.js:509-512 | A polynomial with a nonzero leading coefficient has at most as many roots in F_p as its degree. |
| TotalSplitting.FrobeniusRoot | circuits/utils/poseidon_param_audit.js:510-514 | Every residue is a root of x^p - x. |
| TotalSplitting.CofactorDegree | circuits/utils/poseidon_param_audit.js:510-514 | The cofactor of a monic divisor of degree d of x^p - x has degree at most p - d. |
| TotalSplitting.TotallySplit | circuits/utils/poseidon_param_audit.js:510-512 | A monic divisor of x^p - x is squarefree and totally split: it has exactly as many distinct roots in F_p as its degree. |
| PolyRoots.SplitPart | circuits/utils/poseidon_param_audit.js:514 | The gcd with x^p - x is a monic divisor of both, so it is totally split, and has exactly the roots of the polynomial. |
| PolyRoots.SplitOff | circuits/utils/poseidon_param_audit.js:538-539 | Dividing by a proper divisor leaves a totally split quotient with exactly the other roots. |
| PolyRoots.TrySplit | circuits/utils/poseidon_param_audit.js:530-537 | Refused exactly when the shift leaves all roots on one side; otherwise the monic divisor whose roots are exactly the c with (a + c)^((p-1)/2) = 1. |
| PolyRoots.LinearRoot | circuits/utils/poseidon_param_audit.js:525-528 | A monic linear polynomial has the single root -f[0]. |
| PolyRoots.SplitPass | circuits/utils/poseidon_param_audit.js:520-540 | One pass does to the polynomials what the search does to their root sets, the new randomiser state included. |
| PolyRoots.SearchKeeps | circuits/utils/poseidon_param_audit.js:517-540 | In every pass the roots found and those on the stack are all the roots. |
| PolyRoots.UnfinishedMeansMisses | circuits/utils/poseidon_param_audit.js:519-537 | A search on r > 1 roots that is unfinished after n passes has had more than n - (2r - 1) of them wasted on unlucky shifts. |
| PolyRoots.PassUsesShift | circuits/utils/poseidon_param_audit.js:520-540 | Every pass uses the shift that follows those drawn so far, takes a lone root off the stack, and splits more roots into the residues' side and the others, on top, unless one is empty. |
| PolyRoots.StateIsShift | circuits/utils/poseidon_param_audit.js:529-530 | After a number of draws the search holds that iterate of the randomiser. |
| PolyRoots.SideMembers | circuits/utils/poseidon_param_audit.js:531-533 | The residues' side of a shift a: the roots c with (a + c)^((p - 1) / 2) = 1. |
| Randomiser.ClosedForm | circuits/utils/poseidon_param_audit.js:564-570 | (m - 1) times the n-th state is m^n ((m - 1) seed + c) - c modulo p, with the program's constants as numerals. |
| Randomiser.ShiftsAgreeIff | circuits/utils/poseidon_param_audit.js:560-570 | Two states agree exactly when the power of the multiplier between them is 1: the period is the order of the multiplier. |
| Randomiser.NextShiftDiffers | circuits/utils/poseidon_param_audit.js:560-570 | So two consecutive shifts always differ. |
| Randomiser.LargePrimeMoves | circuits/utils/poseidon_param_audit.js:560-570 | Both hold for every prime above a 127-bit bound, and for every prime that divides none of three numbers. |
| PolyRoots.SortUnique | circuits/utils/poseidon_param_audit.js:541 | The strictly ascending list of the distinct roots. |
| PolyRoots.PolyRootsInField | circuits/utils/poseidon_param_audit.js:513-542 | A returned list is strictly ascending and is exactly the set of roots in F_p. It throws exactly on the zero polynomial and when the search on the roots, with the shifts above, is unfinished after 4097 passes. |
| TrailTest.Eigenspace | circuits/utils/poseidon_param_audit.js:572-577 | The canonical basis of exactly the vectors with m v = ev v for the given ev. |
| InactiveSpace.InactiveIsKernel | circuits/utils/poseidon_param_audit.js:583-608 | A vector with first coordinate zero stays inactive exactly when its tail lies in the kernel of the stacked rows. |
| InactiveSpace.GenerateVectorspace | circuits/utils/poseidon_param_audit.js:591-609 | The canonical basis of exactly the vectors whose first coordinate stays zero for roundNum applications; its dimension is at least t - roundNum. |
| TrailTest.IntersectionBasis | circuits/utils/poseidon_param_audit.js:627-631 | Nonempty exactly when some listed eigenspace of m^i holds a nonzero inactive vector. |
| TrailTest.ProperSpan | circuits/utils/poseidon_param_audit.js:632-633 | The joined intersections are never the whole space, so the dimension test asks whether they are empty. |
| TrailTest.FixedTest | circuits/utils/poseidon_param_audit.js:637-641 | The first j up to i with m^j mapping the inactive space onto itself, if there is one. |
| TrailTest.RoundTest | circuits/utils/poseidon_param_audit.js:618-641 | One round accepts exactly when none of the three conditions holds, and otherwise reports the first of them, in order, that does. |
| TrailTest.Algorithm1 | circuits/utils/poseidon_param_audit.js:616-644 | Secure exactly when for every i below t: m^i is not scalar, no listed eigenspace meets the inactive space, no m^j with j at most i fixes it; a rejection names the first failing i and its first failing condition. |
| TrailTest.CompleteEigenvalues | circuits/utils/poseidon_param_audit.js:611-631 | If every eigenvalue is listed, the second condition is about all of F_p. |
| Krylov.Algorithm2 | circuits/utils/poseidon_param_audit.js:652-667 | Ends within t rounds; secure exactly when no proper invariant subspace contains e_0; a stall reports the dimension of the least one. |
| Krylov.Algorithm3 | circuits/utils/poseidon_param_audit.js:674-680 | Secure exactly when this holds for m^r for every r from 2 to 4t; a failure names the first r. |
| Krylov.FirstUnit | circuits/utils/poseidon_param_audit.js:652-655 | e_0 has a one in front and zeros elsewhere. |
| SecureMatrix.CandidateIsMds | circuits/utils/poseidon_param_audit.js:215-243 | Every candidate matrix is MDS: all its square submatrices are nonsingular. |
| SecureMatrix.PassTests | circuits/utils/poseidon_param_audit.js:256-259 | All three tests accept exactly when the matrix has all three properties. |
| SecureMatrix.GenerateSecureMds | circuits/utils/poseidon_param_audit.js:253-264 | Candidate k comes from the k-th usable window of the stream after the call, none is skipped; all before the returned one are MDS and fail a test, the returned one is MDS and passes all; it gives up exactly after 66, and runs out only after maxTries unusable windows in a row. |
| MerkleTree.UnoccupiedNode | circuits/utils/gen_batch_fixture.js:70-71 | Right of the occupied part every node is the all-zero subtree of its level. |
| MerkleTree.WidthCovers | circuits/utils/gen_batch_fixture.js:70-71 | A node counts as occupied exactly when the first leaf below it is a given one. |
| MerkleTree.ZeroChain | circuits/utils/gen_batch_fixture.js:67-68 | Entry l is the root of the all-zero subtree of height l. |
| MerkleTree.NextSparseLevel | circuits/utils/gen_batch_fixture.js:78-84 | The parents of the occupied nodes, with the level's zero value as a missing right child. |
| MerkleTree.BuildOccupied | circuits/utils/gen_batch_fixture.js:72-89 | Stored level l is exactly the nodes of the reference tree above some leaf. |
| MerkleTree.SparsePath | circuits/utils/gen_batch_fixture.js:93-107 | The path holds the reference tree's siblings and sides for any leaf index. |
| MerkleTree.BuildTree | circuits/utils/gen_batch_fixture.js:66-110 | Root, levels and paths are those of the reference tree; no root without leaves; depth 0 still hashes one level of several leaves. |
| MerkleTree.Pad | circuits/utils/generate_input.js:66-70 | Zero leaves are added up to the tree size; a longer list stays as it is. |
| MerkleTree.NextDenseLayer | circuits/utils/generate_input.js:74-84 | The parents of a layer; fails exactly on an odd layer, where the right child is missing. |
| MerkleTree.BuildMerkleTree | circuits/utils/generate_input.js:50-87 | Every layer and the root are those of the reference tree; fails exactly when 2^depth does not divide the padded size. |
| MerkleTree.GetMerkleProof | circuits/utils/generate_input.js:90-104 | The path holds the reference tree's siblings and sides. |
| MerkleTree.SparseAgreesWithDense | circuits/utils/gen_batch_fixture.js:66-110 | For 1 to 2^depth leaves and one zero leaf: equal roots, equal paths, and every stored sparse level is a prefix of the dense layer. |
| MerkleTree.NodesAgreeIff | circuits/utils/generate_input.js:72-86 | With an injective pair hash two nodes of one level agree exactly when the padded leaves below them are the same. |
| MerkleTree.RootsAgreeIff | circuits/utils/generate_input.js:58-70 | With an injective pair hash the roots over the same leaves and two zero leaves agree exactly when the zero leaves are equal or the tree is full. |
| MerkleTree.FoldReaches | circuits/generate_proof_instance.js:92-104 | Folding a leaf n levels along its path gives its ancestor on level n. |
| MerkleTree.BitsSpell | circuits/generate_proof_instance.js:91-92 | The side bits spell the leaf position. |
| MerkleTree.PathOpensRoot | circuits/generate_proof_instance.js:86-106 | Completeness: every leaf folds along its path to the root, and its bits spell its position. |
| MerkleTree.ThreeLeaves | circuits/utils/gen_batch_fixture.js:78-107 | The tree over three leaves and a zero leaf, spelled out: left hashed before right, side bit 0 for a left child. |
| MerkleTree.FoldBinds | circuits/generate_proof_instance.js:86-106 | With an injective pair hash a fold that reaches an ancestor of position k carries the tree's own leaf and siblings. |
| MerkleTree.SpelledSides | circuits/generate_proof_instance.js:91-104 | Bits that spell k are the sides of k's ancestors. |
| MerkleTree.RootBinds | circuits/generate_proof_instance.js:86-106 | Soundness: with an injective pair hash whatever folds to the root with bits that spell k is leaf k with its own path. |
| MerkleTree.FoldSingleLeaf | circuits/generate_proof_instance.js:78-106 | The loop returns the root and path of the tree that holds only this leaf, at this index. |
| PriorityQueues.DrainSettles | backend/src/priority/priorityQueue.ts:85-113 | A drain ends with an empty queue or a full pool and never exceeds the concurrency. |
| PriorityQueues.AlwaysSettled | backend/src/priority/priorityQueue.ts:85-113 | In every reachable state in-flight is at most the concurrency and a nonempty queue means a full pool. |
| PriorityQueues.SettledIsDrained | backend/src/priority/priorityQueue.ts:85-90 | Draining a settled tier does nothing, at any time. |
| PriorityQueues.TierIsolation | backend/src/priority/priorityQueue.ts:68-113 | Over all runs, deleting every event of the other tier changes neither the tier's state nor any start, wait or timeout of it. |
| PriorityQueues.FirstInFirstOut | backend/src/priority/priorityQueue.ts:68-113 | In every run the requests taken so far, in order, followed by the queue are the arrivals in order. |
| PriorityQueues.NothingLost | backend/src/priority/priorityQueue.ts:68-113 | In every run the arrivals are those queued, in flight, finished or timed out, with multiplicity. |
| PriorityQueues.SettledOnce | backend/src/priority/priorityQueue.ts:91-111 | With distinct requests each is in exactly one of those places, once. |
| PriorityQueues.AllOnTime | backend/src/priority/priorityQueue.ts:94-101 | In every run the recorded wait of a started request is within the limit, that of a timed-out one beyond it, and reports come from the threshold on. |
| PriorityQueues.WaitsAreRead | backend/src/priority/priorityQueue.ts:85-106 | Every call of every run was made by one event: the request was waiting then, its wait is the event's clock reading less its enqueue time, it is started exactly when that is within the limit of its own tier and reported exactly from the threshold on; the critical calls of an event come first. |
| PriorityQueues.DrainReadsClock | backend/src/priority/priorityQueue.ts:90-101 | Call k of a drain concerns the k-th request of the queue, with the wait read off the clock. |
| PriorityQueues.PromptStart | backend/src/priority/priorityQueue.ts:68-113 | While the pool has a free worker a new request starts in the event that enqueues it. |
| PriorityQueues.BoundedOvertaking | backend/src/priority/priorityQueue.ts:85-113 | While a request waits, every completion of its tier takes at least one request off the queue. |
| PriorityQueues.PriorityQueue.constructor | backend/src/priority/priorityQueue.ts:62-66 | Starts with empty queues, idle pools and no calls. |
| PriorityQueues.PriorityQueue.Enqueue | backend/src/priority/priorityQueue.ts:68-83 | Refines the enqueue event. |
| PriorityQueues.PriorityQueue.OnComplete | backend/src/priority/priorityQueue.ts:107-110 | Refines the completion event of a running task: one less in flight, then a drain. |
| PriorityQueues.PriorityQueue.Drain | backend/src/priority/priorityQueue.ts:85-113 | Drains both tiers, the critical one first. |
| PriorityQueues.PriorityQueue.DrainTier | backend/src/priority/priorityQueue.ts:86-112 | The loop refines the recursive drain of one tier and leaves the other alone. |
| PriorityQueues.PriorityQueue.TakeOne | backend/src/priority/priorityQueue.ts:91-111 | Takes the first request, reads its wait off the clock and rejects it beyond the limit, else starts it and counts it in flight. |
| PriorityQueues.PriorityQueue.GetQueueDepths | backend/src/priority/priorityQueue.ts:115-122 | Reports queue length, in-flight count and concurrency of both tiers in order. |
| RateLimitStore.EvictDropsOldest | backend/src/middleware/rateLimit.ts:68-77 | Eviction keeps exactly the newest maxKeys keys and their entries. |
| RateLimitStore.AlwaysBounded | backend/src/middleware/rateLimit.ts:59-127 | In every run the store holds at most maxKeys keys. |
| RateLimitStore.StackInclusion | backend/src/middleware/rateLimit.ts:59-127 | In every run a smaller store's key order is a suffix of a larger one's. |
| RateLimitStore.AgreesWithUnbounded | backend/src/middleware/rateLimit.ts:59-127 | On runs that increment at most maxKeys distinct keys the store equals the one that never evicts. |
| RateLimitStore.ResidentKeyAgrees | backend/src/middleware/rateLimit.ts:59-127 | A key that was never evicted has the unbounded store's hits and reset time, whatever happens to other keys. |
| RateLimitStore.HitsSinceOpening | backend/src/middleware/rateLimit.ts:93-127 | In every run, with evictions, resets and decrements: the window of a stored key was opened by an increment of it, and totalHits plus the decrements that took effect since is the number of its increments since. |
| RateLimitStore.DecrementTakesOne | backend/src/middleware/rateLimit.ts:119-122 | In every run a decrement takes one hit off a stored key, never below zero, and changes nothing else. |
| RateLimitStore.HitsCountWindow | backend/src/middleware/rateLimit.ts:93-117 | For a key that is neither reset nor evicted, with its clock not running back, totalHits plus the decrements that took effect since its window began is the number of its increments in the window that ends at resetTime. |
| RateLimitStore.SlidingIff | backend/src/middleware/rateLimit.ts:40-46 | Right after an increment, and with those decrements added back, the count is the trailing window's exactly when no earlier increment lies in the trailing window but before the window in force. |
| RateLimitStore.NotSliding | backend/src/middleware/rateLimit.ts:40-46 | For every window of two milliseconds or more a run on which one hit is reported and two lie in the trailing window. |
| RateLimitStore.OrderIsRecency | backend/src/middleware/rateLimit.ts:59-66 | In every run the keys are ordered by their last increment. |
| RateLimitStore.OnlyOldestEvicted | backend/src/middleware/rateLimit.ts:68-77 | A key disappears, unless reset, only when a new key enters a full store, and then it is the least recently incremented. |
| RateLimitStore.BoundedMemoryStore.Touch | backend/src/middleware/rateLimit.ts:59-66 | Re-inserting a present key makes it the newest; an absent one changes nothing. |
| RateLimitStore.BoundedMemoryStore.EvictIfNeeded | backend/src/middleware/rateLimit.ts:68-77 | Refines eviction and counts the evicted keys. |
| RateLimitStore.BoundedMemoryStore.Increment | backend/src/middleware/rateLimit.ts:93-117 | Refines the increment: a running window counts on and is touched, an ended or absent one is replaced and may evict. |
| RateLimitStore.BoundedMemoryStore.Decrement | backend/src/middleware/rateLimit.ts:119-122 | Lowers a positive count and changes neither order nor window. |
| RateLimitStore.BoundedMemoryStore.ResetKey | backend/src/middleware/rateLimit.ts:124-127 | Forgets the key. |
| RateBudget.AtMostTwice | backend/src/middleware/rateLimiter.ts:58-101 | With a clock that never runs back at most twice the limit of an operation is allowed per key in any interval as long as the window, from any earlier state. |
| RateBudget.TwiceIsReached | backend/src/middleware/rateLimiter.ts:58-101 | For every limit, window, key and operation a run that reaches the bound. |
| RateBudget.QuotaIsExact | backend/src/middleware/rateLimiter.ts:74-94 | In every run what is left of an operation's budget is its limit minus what was allowed of it since the window began. |
| RateBudget.RefusedOnlyWhenSpent | backend/src/middleware/rateLimiter.ts:79-86 | A check is refused exactly when the operation's whole quota was already allowed in the key's current window. |
| RateBudget.VotesAndQueries | backend/src/middleware/rateLimiter.ts:74-94 | Votes are counted against votesPerWindow and queries against queriesPerWindow, in any run. |
| RateBudget.KeyIsolation | backend/src/middleware/rateLimiter.ts:58-101 | Over all runs, deleting every event of other keys leaves a key's budget as it is. |
| RateBudget.ClearForgets | backend/src/middleware/rateLimiter.ts:127-136 | Whatever happened before and happens after, a cleared key is treated as if it had never been seen before the clear. |
| RateBudget.RateLimiter.CheckRateLimit | backend/src/middleware/rateLimiter.ts:58-101 | Refines the check and reports what is left and when the window ends. |
| RateBudget.RateLimiter.GetRateLimitStatus | backend/src/middleware/rateLimiter.ts:106-122 | Reports the budget that decides the next check at the same time, and changes nothing. |
| RateBudget.RateLimiter.ResetRateLimit | backend/src/middleware/rateLimiter.ts:127-129 | Forgets the key's budget. |
| RateBudget.BudgetTracker.CheckBudget | backend/src/middleware/budgetTracker.ts:23-56 | Refines the same check, so the same quotas hold. |
| RateBudget.BudgetTracker.ClearBudget | backend/src/middleware/budgetTracker.ts:61-63 | Forgets the key's budget. |
| FeeBudget.MultiplierMonotone | src/feeEstimator.ts:323-341 | The congestion multiplier lies between 1 and 3 and never falls when ledgers fill up or p99 rises. |
| FeeBudget.MultiplierTable | src/feeEstimator.ts:323-341 | The six values of the multiplier and the thresholds of fill and p99 to p50 at which each applies. |
| FeeBudget.PriorityFeeDue | src/feeEstimator.ts:275-285 | Surge at its thresholds; the priority fee is the least integer that covers 100 stroops and the percentile due. |
| FeeBudget.PlanIsPriced | src/feeEstimator.ts:389-427 | Every padded resource, the resource fee (margin and multiplier included) and the base fee is the least integer covering its amount; the surcharge lifts the base to the fee due under surge; the total is the sum. |
| FeeBudget.PlanNeedsNoBump | src/feeEstimator.ts:403-425 | A plan priced with given statistics needs no fee bump under the same statistics. |
| FeeBudget.BumpDue | src/feeEstimator.ts:359-363 | A bump is needed exactly under surge, for a fee below 100 stroops or the p99 fee. |
| FeeBudget.BumpSettles | src/feeEstimator.ts:359-383 | The bumped fee is the least one that adds a quarter and a tenth over the fee due, and needs no further bump under the same statistics. |
| FeeBudget.SurchargeOnlyForOverride | src/feeEstimator.ts:406-423 | The surcharge is positive exactly under surge when the caller's own base fee, scaled, stays below the priority fee. |
| FeeBudget.AlwaysCapped | src/feeEstimator.ts:389-444 | In every run spent plus committed fees stay below the hard stop plus k - 1 fees plus all that was charged above plan. |
| FeeBudget.BoundedOvershoot | src/feeEstimator.ts:484-521 | With at most k open plans, spending less what was charged above plan stays below the hard stop plus k - 1 fees, in all (for a positive budget) and per budgeted operation; with no charge above its plan, spending itself does. |
| FeeBudget.StaysWithinIff | src/feeEstimator.ts:484-521 | However the open plans are settled, spending, apart from what is charged above plan, stays within a bound exactly when spent and committed together do. |
| FeeBudget.CeilingHoldsIff | src/feeEstimator.ts:107-108 | The exact condition under which an accepted plan keeps the hard stop, and the documented budget, in all and per budgeted operation, apart from what is charged above plan. |
| FeeBudget.OverchargeBreaksAnything | src/feeEstimator.ts:524-533 | While a plan is open, one record with a large enough charge takes the total above any bound. |
| FeeBudget.OpenPlansOvershoot | src/feeEstimator.ts:484-533 | k open plans of a fee that is accepted once are all accepted and recording them, with no charge above plan, spends k fees, whatever the budget. |
| FeeBudget.NegativeBudgetNeverStops | src/feeEstimator.ts:488-491 | With a negative total budget a plan is refused exactly when its operation's own sub-budget refuses it. |
| FeeBudget.ReachesIff | src/feeEstimator.ts:488-503 | When a projected spend reaches a fraction of a positive, zero or negative budget. |
| FeeBudget.AcceptedIff | src/feeEstimator.ts:484-521 | Under a positive budget a plan is accepted exactly when the projected total and the operation's projected spend are both below their stops. |
| FeeBudget.SpendsSumToTotal | src/feeEstimator.ts:524-533 | In every run the spends by operation sum to the total. |
| FeeBudget.FeeEstimator.constructor | src/feeEstimator.ts:177-199 | Nothing spent; thresholds and margin as given, else 80 %, 98 % and 20 %. |
| FeeBudget.FeeEstimator.CheckBudget | src/feeEstimator.ts:484-521 | Refuses exactly when the projected total or the operation's projected spend reaches its stop, with the alerts due. |
| FeeBudget.FeeEstimator.BuildFeePlan | src/feeEstimator.ts:389-444 | Returns the plan priced as in PlanIsPriced, with the default margin unless one is given, or the refusal of exactly that plan. |
| FeeBudget.FeeEstimator.RecordActual | src/feeEstimator.ts:524-556 | Adds the actual fee, or the planned one, to the total and to the operation's spend, and logs the plan with the actual fee if one was given. |
| PointCodec.ValueNumeral | circuits/conversion-utils.js:19-21 | Reading a numeral gives its value back, in every base from 2 to 16. |
| PointCodec.NumeralValue | circuits/conversion-utils.js:113-118 | Writing a value back with the original number of digits gives the digits in lower case. |
| PointCodec.CanonicalDecimal | circuits/conversion-utils.js:127-134 | A decimal string survives reading and writing exactly when it has no leading zero. |
| PointCodec.FitsIff | circuits/conversion-utils.js:19-21 | A number has at most w hex digits exactly when it is below 16^w. |
| PointCodec.ValueConcat | circuits/conversion-utils.js:113-118 | Numerals are read big-endian: digits in front weigh more by the base for every digit behind them. |
| PointCodec.DigitValues | circuits/conversion-utils.js:113-118 | The sixteen digits, in lower and upper case. |
| PointCodec.WordRoundTrip | circuits/conversion-utils.js:113-118 | The hex word has 64 digits exactly below 2^256, and then decodes to the number. |
| PointCodec.G1Layout | circuits/conversion-utils.js:31-35 | 128 digits: the first 64 have the value of x, the others of y. |
| PointCodec.G2Layout | circuits/conversion-utils.js:46-54 | 256 digits in four words, the values of x.c1, x.c0, y.c1, y.c0: imaginary before real. |
| PointCodec.ProofLayout | circuits/conversion-utils.js:62-68 | The fields a, b, c lay out pi_a, pi_b, pi_c. |
| PointCodec.VKeyLayout | circuits/conversion-utils.js:76-87 | Each field of the encoded key lays out the point of the same name, the IC points in order. |
| PointCodec.G1RoundTrip | circuits/conversion-utils.js:31-35 | Decoding an encoded G1 point returns it exactly when it is affine with canonical coordinates below 2^256. |
| PointCodec.G2RoundTrip | circuits/conversion-utils.js:46-54 | The same for G2 points. |
| PointCodec.G1Back | circuits/conversion-utils.js:127-134 | Exactly the strings of 128 hex digits decode, and they encode back in lower case. |
| PointCodec.G2Back | circuits/conversion-utils.js:144-159 | Exactly the strings of 256 hex digits decode, and they encode back in lower case. |
| PointCodec.ProofRoundTrip | circuits/conversion-utils.js:62-68 | A proof survives the round trip exactly when its three points are canonical. |
| PointCodec.ProofBack | circuits/conversion-utils.js:169-178 | A decodable Soroban proof encodes back in lower case. |
| PointCodec.VKeyRoundTrip | circuits/conversion-utils.js:76-87 | A verification key survives exactly when all its points, those of IC included, are canonical. |
| PointCodec.VKeyBack | circuits/conversion-utils.js:188-199 | A decodable Soroban key encodes back in lower case. |
| PointCodec.EvenBack | circuits/utils/proof_to_soroban.js:54-56 | The bytes of an even number of hex digits print as those digits. |
| PointCodec.BytesKeepValue | circuits/utils/proof_to_soroban.js:5-12 | An even number of hex digits becomes half as many bytes with the same big-endian value. |
| PointCodec.BigintToBytes | circuits/utils/proof_to_soroban.js:5-12 | A number below 256^length is written big-endian on exactly that many bytes; the bytes print as the padded hex exactly when it has an even number of digits. |
| PointCodec.FittingIsEven | circuits/utils/proof_to_soroban.js:14-19 | That is so for all coordinates below 2^256. |
| PointCodec.G1ToBytes | circuits/utils/proof_to_soroban.js:14-19 | Fails where the hex encoder does; its bytes print as that encoder's output exactly when the hex lengths are even. Coordinates below 2^256 fill bytes 0 to 31 with x and 32 to 63 with y. |
| PointCodec.G2ToBytes | circuits/utils/vkey_to_soroban.js:22-40 | The same for G2 points, with x.c1, x.c0, y.c1, y.c0 on 32 bytes each. |

## Left out

Weaker than the source, or with a condition of the model's own:

- TrailTest.Algorithm1: the eigenvalue list of each power is given, because determinants and the characteristic polynomial are not modelled; `TrailTest.CompleteEigenvalues` says what a complete list gives.
- SecureMatrix.GenerateSecureMds: takes the same given eigenvalue lists, and a bound on the unusable windows per candidate, where the program reads on.
- Cauchy.CreateMdsCandidate: stops with `None` after a given number of unusable windows, where the program reads on; nothing is said about how soon a usable one comes.
- Grain.ReadRoundConstant: stops with `None` after a given number of rejected draws, where the program draws on.
- PolyRoots.PolyRootsInField: that 4097 passes suffice for the polynomials at hand depends on the shifts drawn and is not proved; the throw has its exact condition.
- Matrices.MatPow: the exponent is an unbounded natural number; the program's bit operators work on 32-bit integers, and its callers stay below 4t.
- MerkleTree.SparsePath: leaf indices are unbounded; the program's bit operators agree with division below 2^31.
- MerkleTree.GetMerkleProof: asks for a leaf index below 2^depth and no more leaves than that; outside it the program reads missing entries.
- PointCodec.G1RoundTrip: decimal strings are digit strings; signs, blanks, the empty string and the other radix prefixes that BigInt accepts are treated as errors.
- PriorityQueues.PriorityQueue.Enqueue: a task that throws synchronously, a task that enqueues another one before it first waits (its drain then runs inside the drain that started it), and a starvation callback that throws are not modelled; completions arrive as separate events.
- FeeBudget.BoundedOvershoot: the bound on the total needs a positive total budget; `FeeBudget.NegativeBudgetNeverStops` shows why.
- RateBudget.AtMostTwice: the limits and the window are the same in every check, the window is positive, and no administrator clears the key in the interval.
- RateLimitStore.HitsCountWindow: the window is positive and is not changed by a second `init`; a key that was reset or evicted is left to `RateLimitStore.HitsSinceOpening`, because its earlier increments may lie in the same window.
- RateLimitStore.SlidingIff: the same conditions.

Not modelled:

- That the BN254 modulus is prime: every statement takes a prime.
- The characteristic polynomial (Faddeev-LeVerrier) and its relation to eigenvalues.
- Round-number selection and everything that rests on floating-point logarithms; fee arithmetic is over exact reals with explicit ceilings.
- Poseidon, SHA-256, Groth16, pairings and the circuits: the pair hash is any function, injective only where a lemma says so.
- Hashing of leaves into the tree domain: leaves are values.
- Parsing of simulation responses, alert texts, timestamps, usage deltas and reports of the fee estimator.
- Metrics, logging, headers and cluster stores around the rate limiter; key derivation from addresses.
- The default settings of the scheduler's tiers and of the limiters: they are parameters.
- The clock as such: readings are parameters, one per event, and one per taken item in the scheduler.
- `reverseHexBytes`, command-line front ends and file handling of the converters.
- Contracts, ceremony, STARK prototype, authentication, routes, frontend and benchmarks.
