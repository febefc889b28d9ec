# Verified model of the confidential cost optimiser

The system picks one of three methods for every row of a cost table so that
`linear = (S - T) * C12 - T * C3 >= 0` and `C3 > 0`, where `C12` is the cost of the rows on methods 1
and 2, `C3` that of the rows on method 3, and `T / S` the public threshold. It minimises total cost,
then `C12`, then lexicographic order. The same problem is solved in plain text, on Paillier
ciphertexts whose costs nobody sees, by a structured cover search, and approximately by a genetic
optimiser with a repair step. This project models those solvers together with the cryptographic
protocols under them, and proves them against one exhaustive specification.

## How the parts fit

| file | what it models |
|---|---|
| `CostModel.dfy` | instances, the exhaustive search and its optimality, the two bound modes and their search trees |
| `Decimals.dfy` | the parser of decimal texts, against a grammar and the value of numerals |
| `PlainSearch.dfy` | the plain branch-and-bound solver on 64-bit and 128-bit integers, from the texts of the input |
| `Optimizer.dfy` | the optimizer of the single-party build: encrypt, solve, re-check on ciphertexts |
| `EncryptedCosts.dfy` | encrypted cost rows, the instance hidden in them, and the ranges of everything computed from it |
| `EncryptedSearch.dfy` | the encrypted solver, from real ciphertexts to the answer |
| `CoverModel.dfy`, `StructuredSearch.dfy` | the structured solver: compressed rows, covers, providers, the rational Lagrangian bound |
| `CoverExactness.dfy` | when its answer is a global optimum: the exact condition on a row |
| `CoverRanges.dfy` | the integer widths of the structured solver: no checked operation overflows |
| `SolversAgree.dfy` | the plain and the encrypted solver on one instance |
| `NumericDomain.dfy`, `LagrangianGrid.dfy` | the public bit budget and the multiplier grid |
| `NumberTheory.dfy`, `Paillier.dfy` | congruences, encryption, threshold decryption |
| `SecureProtocols.dfy`, `SecureOps.dfy`, `OffBackend.dfy` | masked multiplication and comparison, derived operations, the single-party backend and its division |
| `Garbling.dfy`, `FusedProtocol.dfy`, `PredicateEngine.dfy` | the predicate circuit, garbling, oblivious transfer, the server's transcript, the predicate engine |
| `Repair.dfy`, `ObliviousRepair.dfy` | the greedy repair and its oblivious rounds on ciphertexts |
| `RepairExactness.dfy` | when the rounds follow the repair: the exact condition on a row |
| `Ranking.dfy`, `ObliviousRanking.dfy` | the order of individuals, the insertion network of the elites and the running best, in plain and on ciphertexts |
| `Codec.dfy` | integers, ciphertexts and frames on the wire |

A ciphertext is an integer modulo the square of the modulus, and `Key.Holds(c, v)` says that it
carries the plaintext `v`. Every operation on ciphertexts is proved to carry the right value, so the
encrypted solver's theorem speaks about the hidden costs without any idealised operation in between.
The values carried along are ghost parameters; the code of the methods never reads them.

Masks, nonces, labels, orientations and oblivious-transfer nonces are arbitrary values in the range
that the code samples from, so each statement holds for all of them. Hash pads are arbitrary
functions. Two facts about keys are hypotheses: `r^(n * lambda) = 1` modulo `n^2` for every unit `r`
(part of `Key.Valid`), and `(k^e)^d = k` modulo the transfer modulus (part of `OtKey.Valid`).

## What the code does at its edges

- The structured solver completes a subtree at its first cover. At a positive threshold a free method 3
  in a row that may be upgraded can make it miss solutions, and so can keeping only the cheaper of
  methods 1 and 2 when they differ in price. `CoverExactness.RowIsSafe` proves that these two are exactly
  the rows that can do harm, and `StructuredSearches.Solve` states for every input what is answered: a
  cheapest frugal assignment (one that upgrades a row only while its earlier upgrades do not reach the
  ratio).
- A trimmed multiplier grid can exceed the requested size, up to three points, in exactly one case, which
  `LagrangianGrids.BuildGrid` states and `GridOutgrows` instantiates. The builder's final check can reject
  only a domain without declared cost bits, which the threshold backend has already refused.
- The comparison loop that draws its noise below the scale can end only for scales above 2^127, so for the
  value 2^127 it never does (`src/protocol/threshold_protocol.cpp:599-602`); in the same way the
  single-party comparison never ends for the scale 1 (`src/c_api.cpp:17-33`). See
  `SecureProtocols.NoiseExists`.
- A P request reveals a predicate bit for any session and operation, with no start and no replay check
  (`src/protocol/threshold_protocol.cpp:1124-1161`). So a key gets one decision for each readable P request
  that names it and at most one more from its circuit (`FusedProtocol.DecisionCount`); a run keeps it at one
  decision for certain only without such requests (`FusedProtocol.OneDecisionExactly`). A D request returns
  any plaintext and names no context at all.
- The server's replay key joins session and operation with a zero byte. Two acceptable pairs of names share a
  key exactly when a zero byte inside them can pass for the separator with both parts staying within 1 to 128
  bytes (`FusedProtocol.ReplayKeyShared`); a collision can only refuse a fresh request.
- The single-party comparison and division check no range. For operands less than n apart, every mask decides
  rightly exactly when their distance (one more when the first is not smaller) times 2^128 - 1 is at most
  n - n / 2 (`SecureProtocols.HalfTestExact`), and a quotient is right under every mask exactly when each of
  its comparisons has that room (`OffBackend.DivisionNeedsRoom`).
- The re-check of the optimizer reads the decrypted margin as a 64-bit integer when the comparison protocol is
  off, and would reject a larger one; the input check keeps the margin far below
  (`OffBackend.VerifyResult`, `Optimizers.ChecksFit`).
- The parser reads a lone sign or point as 0 (`+`, `.`, `+.`), and a threshold of 1 or more is an invalid
  argument while one beyond the safe range is a range error (`Decimals.NoDigitsIsZero`, `Decimals.ParseExact`).
- The signed readings of the single-party and of the threshold decryption differ at exactly n / 2.
- The oblivious repair follows the plain one move by move when no method 3 is free; next to such rows, a
  row with a free one makes the two differ, except at threshold 0 when its other methods are free as well
  (`RepairExactness.RowIsSteady`).
- The bit-length loop of the multiplier grid fails above 2^126, where its signed power wraps; the builder
  stays below (`LagrangianGrids.CoefficientBelow126Bits`).
- The frame sender accepts payloads up to 2^32 - 1 bytes, the receiver only up to 4 MiB.
- The operation counters of the encrypted solver are 64-bit, so freshness of names is stated for fewer
  than 2^64 visited nodes.

## Model

| member | source | states |
|---|---|---|
| CostModel.Instance.SearchSolves | src/encrypted_branch_bound.cpp:173-249 | the unpruned search in method order answers every instance: it returns the feasible assignment that is least by cost, then C12, then lexicographic order, and nothing exactly when none is feasible |
| CostModel.Instance.SolvesUnique | src/encrypted_branch_bound.cpp:249-268 | an instance has one right answer, including infeasibility |
| SolversAgree.SolveBoth | src/encrypted_branch_bound.cpp:249-268 | run on the same costs, given to one as texts and to the other as ciphertexts, the plain and the encrypted solver return the same assignment or both none, on every input that both accept, and with the suffix bound they visit the same nodes |
| CostModel.Instance.SearchImproves | src/encrypted_branch_bound.cpp:184-194 | below any node the incumbent ends as the best of its old value and the completions of the node, earlier candidates winning ties |
| CostModel.Instance.PruningIsSafe | src/encrypted_branch_bound.cpp:198-225 | a node that either prune rule cuts, in either bound mode, has no completion that would be accepted: neither the incumbent nor the sequence of accepted candidates changes |
| CostModel.Instance.SuffixBounds | src/encrypted_branch_bound.cpp:131-152 | prefix sum plus suffix minimum and maximum enclose the weighted sum of every completion, for any weight |
| CostModel.Instance.SumScore | src/encrypted_branch_bound.cpp:105-113 | the Lagrangian score of an assignment is Q times its cost minus mu times its linear margin |
| CostModel.Instance.LinearParts | src/optimization.cpp:91-100 | the linear margin of an assignment is scale times C12 minus threshold times the total |
| CostModel.Instance.ZeroMultiplier | src/encrypted_branch_bound.cpp:202-216 | a grid containing 0 prunes wherever the suffix bound prunes, and the grid {0} prunes nowhere else |
| CostModel.Instance.VisitsShrink | src/encrypted_branch_bound.cpp:198-247 | with 0 in the grid Lagrangian mode visits a subset of the nodes of suffix mode, never more in number, and with the grid {0} exactly the same nodes in the same order |
| EncryptedSearches.Optimize | src/encrypted_branch_bound.cpp:271-277 | end to end on ciphertexts: exactly the bad requests and the unbuildable grids are rejected, the grid with its own error; a returned result is the right answer to the hidden instance, its aggregates decrypt to the sums of that very solution, an infeasible one has no solution; the visited nodes are those of the pruned tree, and the predicate requests are, context by context, those of these nodes; with a server that does not know the session and fewer than 2^64 nodes a legal request fails only with the authorizer's denial |
| EncryptedSearches.NextRequest | src/encrypted_branch_bound.cpp:177-222 | the contexts of the requests, node by node: the session, a PRUNE name with its own counter at an inner node and an ACCEPT name with its own at a leaf, the depth, and the node's number |
| EncryptedSearches.Solve | src/encrypted_branch_bound.cpp:35-269 | rejects exactly the bad requests and the unbuildable grids; a predicate is refused only by a denial of the authorizer during this very solve, unless the session was used before or the nodes pass 2^64; a result solves the instance, its aggregates decrypt to the solution's sums, the visited nodes are those of the pruned tree, the predicate requests are those of these nodes, and the accepted candidates are those of the unpruned search in both bound modes |
| EncryptedSearches.RunSearch | src/encrypted_branch_bound.cpp:154-268 | preprocessing plus search from the root carry out the pruned search of the hidden instance; in a fresh session with fewer than 2^64 nodes the only failure is a denial made during this search |
| EncryptedSearches.Search.Visit | src/encrypted_branch_bound.cpp:175-249 | from any node the encrypted incumbent, the visited nodes and the accepted candidates become those of the specification, and the incumbent ciphertexts keep carrying its sums |
| EncryptedSearches.Search.PruneHere | src/encrypted_branch_bound.cpp:198-225 | the released PRUNE decision equals the plain prune rule on the node's hidden sums |
| EncryptedSearches.Search.Leaf | src/encrypted_branch_bound.cpp:179-196 | the candidate replaces the incumbent exactly when it is feasible and strictly better by cost and C12 |
| EncryptedSearches.Search.Extend | src/encrypted_branch_bound.cpp:230-238 | the child's four aggregates carry the sums of the extended assignment |
| EncryptedSearches.Preprocess | src/encrypted_branch_bound.cpp:90-152 | every entry of the suffix tables carries the plain suffix minimum or maximum of its weight |
| EncryptedSearches.RowLowerBounds | src/encrypted_branch_bound.cpp:115-124 | each row's Lagrangian lower bounds carry the least score over the available methods, for every multiplier of the grid |
| EncryptedSearches.RowLinear | src/encrypted_branch_bound.cpp:94-100 | the method contributions carry the linear terms, and the row maximum carries the largest of them |
| EncryptedCosts.SafeSums | src/protocol/threshold_protocol.cpp:783-806 | with the accepted bit budget every weighted prefix sum, lower bound and upper bound lies strictly within 2^127 in magnitude |
| EncryptedCosts.SafeTerms | src/protocol/threshold_protocol.cpp:783-806 | single terms of a row and their pairwise differences, which min and max multiply, lie strictly within 2^127 |
| EncryptedCosts.SafeScores | src/lagrangian_relaxation.cpp:55-72 | every multiplier the builder returns leaves the scores, and the incumbent scaled by Q, within the operand range |
| EncryptedCosts.ScaledSumInRange | src/encrypted_branch_bound.cpp:191-192 | the incumbent cost scaled by Q stays within the operand range |
| EncryptedSearches.NamesDistinct | src/encrypted_branch_bound.cpp:177-187 | two PRUNE or ACCEPT names are equal only for equal counters, and no PRUNE name is an ACCEPT name |
| EncryptedSearches.Search.NamesStayFree | src/encrypted_branch_bound.cpp:217-222 | after a predicate call under the newest name, all later names of the session are still unused in the engine and at the server |
| PlainSearches.OptimizePlain | src/optimization.cpp:128-139 | for any instance that the texts of the matrix and the threshold denote and the check admits: the right answer and its cost, on exactly the nodes the encrypted solver visits with its suffix bound, on 64-bit integers without overflow; for texts that denote no admitted instance, the first error of the input |
| PlainSearches.Encode | src/optimization.cpp:39-63 | the cost at every place is the value of the numeral written at that place and absent exactly where no text is, and so for the threshold; it fails exactly when the texts denote no instance with a non-empty matrix, a method in every row and a scaled sum of row maxima of at most LARGEST / 16, with the first error in the order of the input |
| PlainSearches.ReadsOnce | src/optimization.cpp:39-63 | texts denote at most one instance: its costs and threshold are what the numerals at their places are worth in millionths |
| PlainSearches.ParseReads | src/optimization.cpp:28-37 | a text is accepted exactly when it has a value within the limits, and that value is the result |
| Decimals.ValueUnique | src/fixed_point.hpp:29-67 | no text is worth two different numbers of millionths, whichever way it is read as a numeral |
| Decimals.Characters | src/fixed_point.hpp:22-50 | which characters are blanks, which are digits, and what a digit counts |
| Decimals.ParseExact | src/fixed_point.hpp:29-71 | the parser is exact: it returns v exactly for the inputs that some numeral (blanks, plus, digits, point, digits, blanks) writes and that is worth v millionths, up to LLONG_MAX / 16 and below 1 for a threshold; it reports the range exactly for numerals worth more, and calls every other input invalid |
| Decimals.NumeralParses | src/fixed_point.hpp:29-50 | every numeral of the grammar is split into its own digits, whatever blanks, sign and point it has |
| Decimals.ReadsNumeral | src/fixed_point.hpp:29-50 | whatever passes the checks of the form is a numeral of the grammar |
| Decimals.WorthIs | src/fixed_point.hpp:45-67 | digits have a value in whole millionths exactly when nothing but zeros is cut off, and it is the one computed |
| Optimizers.Optimize | src/optimization.cpp:183-239 | the single-party optimizer end to end: it encrypts the matrix, solves the plain model and re-checks the answer on ciphertexts; on every input it gives the right answer to the instance that the texts denote or the first error of the input, and its own re-check never fails |
| Optimizers.ChecksFit | src/optimization.cpp:221-227 | what the input check admits keeps the total and the margin that the re-check reads within 64 bits |
| PlainSearches.Solver.Visit | src/optimization.cpp:102-123 | the in-place search ends with the incumbent of the exhaustive search and restores its path; every addition fits 64 bits and every comparison 128 bits |
| PlainSearches.Solver.BetterTie | src/optimization.cpp:91-100 | the cross-multiplied comparison in 128 bits decides exactly whether the candidate beats the incumbent at equal cost |
| PlainSearches.Solver.Leaf | src/optimization.cpp:106-111 | a complete assignment updates the incumbent as the specification does |
| PlainSearches.LexicographicalCompare | src/optimization.cpp:99 | true exactly for a strictly smaller element after a common prefix, or a proper prefix |
| PlainSearches.RatioOrderIsC12Order | src/optimization.cpp:91-100 | between feasible assignments, cost then exact distance of the ratio from the threshold is the same order as cost then C12 |
| PlainSearches.BuildSuffixes | src/optimization.cpp:72-89 | the suffix arrays hold the minimum cost and the maximum contribution of the rows from each index on |
| PlainSearches.RowExtremes | src/optimization.cpp:76-86 | least cost and largest contribution of a row, from sentinel values that no cost reaches |
| PlainSearches.Magnitudes | src/fixed_point.hpp:16-20 | after the aggregate check, every prefix sum, suffix bound and their sum is at most LARGEST / 16 in magnitude, for cost, C12, C3 and the margin |
| PlainSearches.GapFits | src/optimization.cpp:94-97 | the gaps and products of the tie-break fit 128 bits |
| PlainSearches.ChildFits | src/optimization.cpp:114-122 | the aggregates passed to a child fit 64 bits |
| StructuredSearches.Solve | benchmark/structured_exact_solver.cpp:299-369 | the whole result on every input: both errors exactly; cheapest_global_optimum exactly when the cheapest choice is feasible; otherwise node_limit exactly when a limit is set and the tree has more nodes, with the best found on that many nodes; otherwise the answer of the exhaustive search over covers, optimal_verified with a solution and infeasible without, after all nodes. Every solution is feasible at the stated objective; without a hit limit both strategies agree and the answer is cheapest among the frugal kept solutions, cheapest over the compressed rows with positive method-3 prices, and cheapest of all when every row is safe, in particular at threshold 0 |
| CoverExactness.RowIsSafe | benchmark/structured_exact_solver.cpp:325-338 | the exact condition on a row: next to any plain rows the answer is a cheapest solution of all if and only if the threshold is 0, or its methods 1 and 2 do not differ in price and it has no free method 3 that may be upgraded |
| CoverExactness.SafeRowsSuffice | benchmark/structured_exact_solver.cpp:299-369 | when all rows meet that condition the answer is a cheapest solution of all, or there is none |
| CoverExactness.AnswerIsCheapest | benchmark/structured_exact_solver.cpp:299-369 | positive method-3 prices make the answer cheapest over the compressed rows, equal early prices as well cheapest of all; threshold 0 alone is enough for both |
| CoverExactness.AnswerIsCheapestFrugal | benchmark/structured_exact_solver.cpp:311-366 | on every input the answer is a cheapest frugal solution, and a global optimum when the cheapest assignment is feasible |
| CoverRanges.ChoiceFits | benchmark/structured_exact_solver.cpp:191-224 | while the largest costs sum to less than 2^63, no checked sum of a node overflows its 64 or 128 bits |
| CoverRanges.RowsFit | benchmark/structured_exact_solver.cpp:325-345 | neither do the numbers of decisions and dominated rows, nor the test for a provider |
| CoverRanges.OfferFits | benchmark/structured_exact_solver.cpp:138-163 | nor does the cost of a candidate, nor the objective of the solution |
| CoverRanges.SuffixGainFits | benchmark/structured_exact_solver.cpp:76-79 | nor do the suffix gains |
| CoverRanges.MultiplierFits | benchmark/structured_exact_solver.cpp:81-99 | nor does any product or sum of the Lagrangian tables and of the bound's numerator and denominator |
| CoverRanges.BoundFits | benchmark/structured_exact_solver.cpp:205-206 | nor does the node's cost plus its bound |
| CoverExactness.DearerIsLost | benchmark/structured_exact_solver.cpp:325-338 | for every row whose early prices differ and every positive threshold there are two plain rows next to which the only solutions use the dearer method, so the compressed rows have none |
| CoverExactness.FreeIsLost | benchmark/structured_exact_solver.cpp:188-193 | for every row with a free method 3 that may be upgraded and every positive threshold there are two plain rows next to which every solution upgrades past the first cover, so the search finds none |
| CoverExactness.EqualPricesSuffice | benchmark/structured_exact_solver.cpp:325-338 | when methods 1 and 2 never differ in price, or the threshold is 0, a cheapest answer of the compressed rows is cheapest of all |
| StructuredSearches.Search.Run | benchmark/structured_exact_solver.cpp:102-121 | when the limit leaves room for the whole cut tree all its nodes are visited and the candidates kept are those of the exhaustive search over covers, the same for both strategies; otherwise exactly as many nodes as the limit are visited, in order, the limit is reported, and the candidates are those found on these nodes |
| StructuredSearches.Search.Visit | benchmark/structured_exact_solver.cpp:182-226 | below any node, with either bound and any limit: the visited nodes, the kept candidates and whether the limit is reached are those of the cut tree and the room left, and the current choice is restored |
| StructuredSearches.Search.Submit | benchmark/structured_exact_solver.cpp:134-162 | a cover is completed with the cheapest admissible provider when no method-3 cost is left, and kept exactly when strictly cheaper |
| StructuredSearches.Search.FindProvider | benchmark/structured_exact_solver.cpp:141-149 | the loop finds the first of the cheapest dominated rows that have positive method-3 cost and keep the margin non-negative |
| StructuredSearches.Search.Seed | benchmark/structured_exact_solver.cpp:103-119 | the greedy first cover is the first candidate the search would reach anyway, so seeding changes no candidate; the choice is restored |
| StructuredSearches.Search.LagrangianLowerBound | benchmark/structured_exact_solver.cpp:167-181 | the loop over the 15 multipliers computes the largest floored bound, never below 0 |
| StructuredSearches.FloorDiv | benchmark/structured_exact_solver.cpp:43-49 | truncated division corrected for a negative remainder is the mathematical floor |
| StructuredSearches.SuffixReductions | benchmark/structured_exact_solver.cpp:81-98 | each table entry sums the negative parts of Q * scale * extra - P * gain from its depth on |
| StructuredSearches.Validate | benchmark/structured_exact_solver.cpp:371-383 | true exactly for a feasible assignment of the full problem with that total cost |
| StructuredSearches.CheapestChoice | benchmark/structured_exact_solver.cpp:304-310 | fails exactly when a row has no method; otherwise a pointwise cheapest assignment, which is the base of the search |
| StructuredSearches.BuildPlan | benchmark/structured_exact_solver.cpp:320-347 | the loop builds the plan of the instance: rows sorted into fixed, decision and dominated ones in index order, with their extra costs, gains, losses and the margin of the base |
| CoverModels.Plan.CutIsSafe | benchmark/structured_exact_solver.cpp:194-212 | the feasibility, cost and Lagrangian cuts each discard only subtrees in which the exhaustive search would keep nothing |
| CoverModels.Plan.BoundIsSafe | benchmark/structured_exact_solver.cpp:167-181 | the floored rational bound for the residual never exceeds the cost that any cover below the node adds |
| CoverModels.Plan.ReducedBound | benchmark/structured_exact_solver.cpp:81-98 | reduced costs of any choice of later rows are at least the suffix sum of their negative parts |
| CoverModels.Plan.KeptWithinAll | benchmark/structured_exact_solver.cpp:182-226 | a budget of at least all nodes keeps what the exhaustive search keeps |
| CoverModels.Plan.Branches | benchmark/structured_exact_solver.cpp:213-226 | a budget is spent on the node, then on the subtree with the upgrade, and what is left on the one without, which starts from what the first has kept |
| CoverModels.Plan.NodesShrink | benchmark/structured_exact_solver.cpp:194-226 | the Lagrangian strategy visits a subset of the nodes of the plain one, and never more in number |
| CoverModels.Plan.SeedChangesNothing | benchmark/structured_exact_solver.cpp:103-119 | starting from the seed incumbent and starting from none end with the same candidates |
| CoverModels.Plan.CoverLeast | benchmark/structured_exact_solver.cpp:182-226 | the search keeps a candidate at most as dear as the offer of every first cover, and what it keeps is such an offer |
| CoverModels.Plan.CoverAnswers | benchmark/structured_exact_solver.cpp:356-365 | the last candidate is a cheapest frugal solution of the compressed rows at base cost plus its extra, and none is kept exactly when there is no frugal solution |
| CoverModels.Plan.ApplySums | benchmark/structured_exact_solver.cpp:320-347 | gains and extra costs of chosen decisions are exactly what the upgrades add to margin and total cost of the base |
| CoverModels.Plan.OfferIsSolution | benchmark/structured_exact_solver.cpp:134-162 | every submitted candidate is a frugal feasible assignment at its stated cost |
| CoverModels.Plan.FrugalIsOffered | benchmark/structured_exact_solver.cpp:134-162 | every frugal feasible assignment is matched by a first cover whose offer is not dearer: one cheapest provider is enough |
| CoverModels.Plan.PositivePricesSuffice | benchmark/structured_exact_solver.cpp:188-193 | with positive method-3 prices on decision rows, a positive forced one, or threshold 0, every feasible kept assignment has a frugal one that costs no more, so completing at the first cover loses nothing |
| Paillier.Key.Decrypts | src/crypto.cpp:21-25 | decryption returns the carried value modulo n |
| Paillier.Key.DecryptsExactly | trusted/common/enclave_core.c:182-204 | exactly which items of a threshold decryption decrypt, and to what: both inputs strictly between 0 and n^2, and a product of shares that is 1 modulo n |
| Paillier.Key.HoldsIffDecrypts | src/crypto.cpp:17-25 | a valid ciphertext carries v if and only if it decrypts to v modulo n |
| Paillier.Key.HoldsEncrypt | src/crypto.cpp:17-20 | an encryption under a unit nonce carries its plaintext, also a negative one |
| Paillier.Key.HoldsAdd | src/protocol/threshold_protocol.cpp:507-510 | multiplying ciphertexts adds the carried values |
| Paillier.Key.HoldsPower | src/protocol/threshold_protocol.cpp:512-520 | a power scales the carried value |
| Paillier.Key.HoldsInverse | src/c_api.cpp:15 | a modular inverse carries the negated value |
| Paillier.Key.InverseExists | src/c_api.cpp:15 | every ciphertext that carries a value has an inverse, so that inversion cannot fail |
| Paillier.Key.ThresholdDecrypts | trusted/common/enclave_core.c:144-181 | the two partial decryptions under lambda1 + lambda2 = lambda always pass the divisibility check and combine to full decryption |
| Paillier.GeneratedMu | src/crypto.cpp:12-14 | the mu that key generation inverts satisfies the key equation that decryption needs |
| Paillier.SignedReadings | src/crypto.cpp:24 | both signed readings recover every value below half the modulus in magnitude |
| Paillier.SignedReadingsDiffer | src/protocol/threshold_protocol.cpp:706-707 | the two signed readings in the code disagree on exactly one residue, n / 2 |
| SecureProtocols.SecureMultiplyBatch | src/protocol/threshold_protocol.cpp:549-590 | for every batch size the protocol allows, all masks and all operands below 2^127, each result carries the product; other sizes are refused |
| SecureProtocols.GreaterThanBatch | src/protocol/threshold_protocol.cpp:632-656 | for all masks and both orientations each result carries 1 exactly when the first operand is greater; other sizes are refused |
| SecureProtocols.PackingSplits | src/protocol/threshold_protocol.cpp:1109 | the packed masked operands split back by division and remainder at 2^130, without wrapping modulo n |
| SecureProtocols.HalfTest | src/protocol/threshold_protocol.cpp:640-645 | for any modulus that leaves room for the masked difference, the blinded difference is at most n / 2 exactly when the comparison, flipped by the orientation, holds; nothing wraps |
| SecureProtocols.HalfTestExact | src/c_api.cpp:17-33 | for operands less than n apart, every mask and orientation reads the comparison right if and only if the distance (one more when x >= y) times 2^128 - 1 is at most n - n / 2 |
| SecureProtocols.NoiseExists | src/protocol/threshold_protocol.cpp:599-602 | the loops that draw noise below the scale can end exactly when the scale exceeds 2^127, in the single-party code exactly when it exceeds 1 |
| SecureProtocols.MaskAndPack | src/protocol/threshold_protocol.cpp:564-568 | the packed ciphertext carries (a + r1) * 2^130 + (b + r2) |
| SecureProtocols.Unmask | src/protocol/threshold_protocol.cpp:584 | subtracting the cross terms and the product of the masks leaves a * b |
| SecureProtocols.CspMultiplyBatch | src/protocol/threshold_protocol.cpp:1077-1115 | the server rejects exactly the requests with an illegal size, an item out of range, an illegal base, or shares that do not combine, each with its error; otherwise its replies carry the products of the halves that each plaintext has at its own base |
| SecureProtocols.CspCompareBatch | src/protocol/threshold_protocol.cpp:1077-1115 | the same rejections; otherwise its replies carry the half tests of the plaintexts |
| SecureProtocols.HonestItems | trusted/common/enclave_core.c:144-204 | ciphertexts that carry values, with honest shares, pass every check and decrypt to the values modulo n |
| SecureProtocols.ThresholdDecryptBatch | trusted/common/enclave_core.c:182-204 | for any items and shares the batch decrypts exactly when its size is legal and every item passes the range and divisibility checks, to their plaintexts in order; otherwise the whole call fails |
| SecureProtocols.CiphertextPower | src/protocol/threshold_protocol.cpp:512-520 | exponents of either sign scale the carried value |
| SecureProtocols.ComparisonMasks | src/protocol/threshold_protocol.cpp:599-602 | the blinding values are 128-bit masks, the noise strictly below the scale |
| SecureProtocols.BlindBatch | src/protocol/threshold_protocol.cpp:642-645 | every difference passes the client's own ciphertext check and half-tests to the comparison under its orientation |
| SecureOps.BitOr | src/secure_ops.cpp:53-57 | OR of carried bits is again a carried bit |
| SecureOps.BitOrExclusive | src/secure_ops.cpp:95-98 | addition of exclusive bits is a carried bit, their OR |
| SecureOps.BitOrBatch | src/secure_ops.cpp:72-86 | the batch carries the pairwise ORs and is refused exactly for illegal sizes |
| SecureOps.Select | src/secure_ops.cpp:100-105 | the multiplexer carries the chosen value whenever the difference is in range |
| SecureOps.Min | src/secure_ops.cpp:107-109 | carries the smaller value |
| SecureOps.Max | src/secure_ops.cpp:111-113 | carries the larger value |
| OffBackend.Less | src/c_api.cpp:17-33 | for all operands the bit is what the drawn mask reads, and for operands with room that is exactly whether the first is smaller, under every mask |
| OffBackend.Multiply | src/c_api.cpp:34-44 | for all masks and all operands the single-party product carries a * b |
| OffBackend.Abs | src/c_api.cpp:46-50 | for all masks carries the absolute value, for values that may be compared with 0 |
| OffBackend.Divide | src/c_api.cpp:51-62 | for all operands the loop carries the quotient and remainder that its masks read; for 0 <= x < y * 2^bits with room for every comparison that is x / y and x mod y |
| OffBackend.DivisionExact | src/c_api.cpp:51-62 | for any masks the quotient is right, as an integer and modulo n, if and only if every single comparison is read right |
| OffBackend.DivisionNeedsRoom | src/c_api.cpp:51-62 | for divisors whose shifts stay below n, the quotient is right under every mask if and only if every comparison, of x mod (y * 2^(i + 1)) with y * 2^i, has room |
| OffBackend.SecureDivide | src/c_api.cpp:103-109 | the divisor is compared with 1 first and refused exactly when it is smaller; otherwise quotient and remainder of 21 steps |
| OffBackend.RatioFits | src/optimization.cpp:229-234 | the scaled ratio of a part of a positive total always fits 21 quotient bits |
| OffBackend.RatioCheck | src/optimization.cpp:229-238 | for any carried costs the encrypted ratio check, with the test of the divisor, accepts exactly a positive total whose ratio in millionths is within one of the expected one |
| OffBackend.VerifyResult | src/optimization.cpp:195-239 | for ciphertexts that carry any costs, not only the expected ones, the re-check accepts exactly when the carried costs meet the ratio constraint, sum to the expected total and, with the comparison protocol, have the expected ratio up to one unit; without it exactly when also the decrypted margin fits 64 bits |
| OffBackend.HonestVerifies | src/optimization.cpp:195-239 | on its own ciphertexts a feasible solution meets these conditions |
| OffBackend.EncryptedTotals | src/optimization.cpp:195-204 | the summed ciphertexts carry total, C12 and C3 of the solution |
| NumericDomains.SumRange | src/protocol/threshold_protocol.cpp:783-806 | a weighted sum of k terms is at most k times the largest coefficient times the largest cost |
| NumericDomains.SuffixRange | src/protocol/threshold_protocol.cpp:783-806 | the same for suffix minima and maxima |
| NumericDomains.Budget | src/protocol/threshold_protocol.cpp:783-806 | counts, coefficients and costs within their bit widths multiply to less than two to the sum of the widths |
| LagrangianGrids.MaximumMu | src/lagrangian_relaxation.cpp:74-89 | fails exactly when 0 is unsupported; otherwise the binary search returns the largest supported 64-bit multiplier |
| LagrangianGrids.CoefficientBoundMonotone | src/lagrangian_relaxation.cpp:41-47 | the larger coefficient magnitude never falls as mu grows, although one of its two terms first does |
| LagrangianGrids.SupportedMonotone | src/lagrangian_relaxation.cpp:66-72 | support is downward closed in mu |
| LagrangianGrids.CoefficientFitsInt128 | src/lagrangian_relaxation.cpp:41-47 | no 128-bit intermediate overflows for any 64-bit arguments |
| LagrangianGrids.CoefficientBelow126Bits | src/lagrangian_relaxation.cpp:23-47 | for the builder's arguments the bit-length loop ends at 126 bits or fewer and cannot raise its overflow error |
| LagrangianGrids.CeilLog2ByDoubling | src/lagrangian_relaxation.cpp:23-33 | with the doubling in a signed 128-bit integer, the loop returns the least b with value <= 2^b and fails exactly for non-positive values and values above 2^126, where the power wraps |
| LagrangianGrids.DeriveBounds | src/lagrangian_relaxation.cpp:103-128 | accepts exactly the strictly increasing grids from 0 with the right Q whose last multiplier is supported; every rejection has the error of the first failing test, and the bits are those of the last multiplier |
| LagrangianGrids.Trim | src/lagrangian_relaxation.cpp:181-198 | 0 and the anchors stay; of the rest only what lies above everything that stays is dropped, as much as the request asks for and the spared points allow; so at most max(requested, 3) points stay |
| LagrangianGrids.CollectPoints | src/lagrangian_relaxation.cpp:164-179 | the collected points, in order, are exactly 0, the anchors that fit, and (upper * i + m / 2) / m for 1 <= i <= m with m = requested - 1 |
| LagrangianGrids.BuildGrid | src/lagrangian_relaxation.cpp:130-203 | the grid itself: for threshold 0 or one requested point {0}, otherwise the trimmed points up to the least of the largest supported multiplier, the span times the larger anchor and INT64_MAX; succeeds exactly for a legal configuration whose Q is supported and whose cost bits are declared, and every failure has its own error; it exceeds the request exactly when two points are asked for, the first anchor is below the second, and the second is the upper end |
| LagrangianGrids.GridUnique | src/lagrangian_relaxation.cpp:130-203 | these clauses leave one grid for every configuration |
| LagrangianGrids.TrimmedUnique | src/lagrangian_relaxation.cpp:181-198 | and one result of trimming |
| LagrangianGrids.SupportedExactly | src/lagrangian_relaxation.cpp:55-72 | a multiplier is supported exactly when the larger coefficient magnitude, times two to the declared widths, is within the operand width and the comparison width |
| LagrangianGrids.RequiredBitsAre | src/lagrangian_relaxation.cpp:49-64 | the bits of a score, of a difference and of a sum, from the least powers of two above the coefficient and the number of rows, and exactly when they are out of range |
| LagrangianGrids.GridOutgrows | src/lagrangian_relaxation.cpp:181-198 | a legal configuration for which the grid exceeds the request |
| Garbling.CircuitComputesFormula | src/protocol/threshold_protocol.cpp:49-75 | a PRUNE or ACCEPT circuit exists exactly for a legal number of comparisons, and then computes its Boolean formula, for any number of them |
| Garbling.BuildPredicateCircuit | src/protocol/threshold_protocol.cpp:49-75 | the appending builder produces that circuit, or nothing for an illegal comparison count |
| Garbling.GarbleGate | src/protocol/threshold_protocol.cpp:103-105 | for each pair of input labels the row selected by their last bits opens to the label of the AND |
| Garbling.Garble | src/protocol/threshold_protocol.cpp:94-107 | offset with last bit 1, free XOR and NOT on linear wires, and a correct table for every AND gate |
| Garbling.EvaluatorHolds | src/protocol/threshold_protocol.cpp:1044-1056 | at every wire the evaluator holds the zero label offset by delta exactly when the wire's value is 1 |
| Garbling.OffsetSeparates | src/protocol/threshold_protocol.cpp:1058-1060 | the two output labels differ, so the decision read off them is unambiguous |
| FusedProtocol.FusedPredicate | src/protocol/threshold_protocol.cpp:658-693 | for an acceptable batch, context and unused key the fused exchange returns the plain formula over the comparisons and consumes the key; otherwise it fails and consumes none |
| FusedProtocol.OtTransfers | src/protocol/threshold_protocol.cpp:1006-1012 | the client recovers the server's key under the chosen nonce |
| FusedProtocol.TransferWorks | src/protocol/threshold_protocol.cpp:685 | opening the chosen message yields the label of choice XOR orientation |
| FusedProtocol.FinishDecides | src/protocol/threshold_protocol.cpp:1034-1063 | with labels of the true bits the server decides the circuit's value |
| FusedProtocol.StartAccepted | src/protocol/threshold_protocol.cpp:968-1015 | a legal start is accepted, and its choices are the half tests of the blinded differences |
| FusedProtocol.CspServer.OnStart | src/protocol/threshold_protocol.cpp:968-1015 | the in-place handler is the start step: key consumed before anything later can fail, rejection drops what was pending |
| FusedProtocol.CspServer.OnFinish | src/protocol/threshold_protocol.cpp:1016-1063 | the in-place handler is the finish step: the pending start is used up whatever happens |
| FusedProtocol.CspServer.OnReveal | src/protocol/threshold_protocol.cpp:1124-1161 | the in-place handler is the reveal step: a bit is shown for any context, without a start and without a replay check, and the pending start is kept unless decryption fails |
| FusedProtocol.CspServer.Reject | src/protocol/threshold_protocol.cpp:1199-1206 | the error path drops the transcript and keeps the replay set |
| FusedProtocol.RunsAreSafe | src/protocol/threshold_protocol.cpp:968-1063 | over any run of F, G and P requests, other requests and failures: keys of accepted starts are consumed and distinct, and every decision of a circuit, labelled with the context that its G request itself names, follows, with nothing but revealed bits between, the accepted start of the same session, operation, type, depth and node |
| FusedProtocol.DecidesItsStart | src/protocol/threshold_protocol.cpp:1028-1031 | a frame that decides is a G request whose session, operation, type, depth and node are each those of the pending start |
| FusedProtocol.StartExactly | src/protocol/threshold_protocol.cpp:968-1015 | exactly which F requests are accepted: nothing pending, legal names and sizes, a 3072-bit transfer key with its exponent, a fresh key, a legal shape, and shares that all combine |
| FusedProtocol.FinishExactly | src/protocol/threshold_protocol.cpp:1016-1063 | exactly which G requests give which decision: the pending context and shape, and an output label that is the one offered for the bit; everything else is rejected, and the start is used up either way |
| FusedProtocol.RevealExactly | src/protocol/threshold_protocol.cpp:1124-1161 | exactly which P requests reveal which bit, and what the others do to the pending start |
| FusedProtocol.AtMostOneDecision | src/protocol/threshold_protocol.cpp:968-1063 | no two decisions of circuits share a replay key in any run; bits that P requests reveal are counted by DecisionCount |
| FusedProtocol.DecisionCount | src/protocol/threshold_protocol.cpp:968-1161 | over any run a key gets one decision for each readable P request that names it, and at most one more, from its circuit, which spends it |
| FusedProtocol.OneDecisionExactly | src/protocol/threshold_protocol.cpp:1124-1161 | the exact condition: for a given number of readable P requests naming a key, every run keeps the key at one decision if and only if that number is 0 |
| FusedProtocol.MostDecisions | src/protocol/threshold_protocol.cpp:968-1161 | for every acceptable context and every number of P requests some run reaches that number of decisions and one more |
| FusedProtocol.RevealDecidesAgain | src/protocol/threshold_protocol.cpp:1124-1161 | after any run one more readable P request releases one more decision for its key and leaves the state as it was |
| FusedProtocol.RejectionDropsTranscript | src/protocol/threshold_protocol.cpp:1199-1206 | after a rejection nothing is pending, no key is ever given back, and a legal start consumes its key even when it fails |
| FusedProtocol.SpentForever | src/protocol/threshold_protocol.cpp:997-999 | once a key is spent it stays so, no circuit decides for it any more, and the decisions of any later run are exactly its readable P requests |
| FusedProtocol.ReplayKeyInjective | src/protocol/threshold_protocol.cpp:997 | between sessions without zero bytes the server's key determines session and operation |
| FusedProtocol.ReplayKeyShared | src/protocol/threshold_protocol.cpp:396-406 | among the names that the server accepts, the exact condition for a shared key: a zero byte of the session behind its first character, or of the operation before its last, that leaves two names of at most 128 bytes when it is read as the separator |
| PredicateEngines.EngineKeyInjective | src/predicate_engine.cpp:37-43 | the length-prefixed key determines session and operation, for arbitrary strings |
| PredicateEngines.IdentifiersAre | src/predicate_engine.cpp:9-16 | the legal identifiers: 1 to 128 letters, digits, and the characters - _ . and : |
| PredicateEngines.FieldInjective | src/predicate_engine.cpp:18-23 | a length-prefixed field can be read back from the front of any text |
| PredicateEngines.PruneBit | src/predicate_engine.cpp:55-81 | the homomorphic PRUNE circuit carries a bit equal to the prune formula, for any number of bounds a batch allows |
| PredicateEngines.AcceptBit | src/predicate_engine.cpp:107-122 | the homomorphic ACCEPT circuit carries a bit equal to the accept formula; both exclusive additions stay bits |
| PredicateEngines.OrLayers | src/predicate_engine.cpp:69-78 | the pairwise folding of layers carries the OR of all bits |
| PredicateEngines.RevealFinalBit | src/protocol/threshold_protocol.cpp:710-737 | through the P request of the server a carried bit is revealed as itself for every context with legal names, and fails for any other |
| PredicateEngines.RevealShows | src/protocol/threshold_protocol.cpp:1124-1161 | with the client's honest share the P step shows the carried bit and changes nothing |
| PredicateEngines.PredicateEngine.PruneNode | src/predicate_engine.cpp:45-83 | both back ends release the same plain prune decision, once per session and operation, and only after authorisation; every failure is named with its cause, and a fresh context is refused exactly when this call's authorizer denies it |
| PredicateEngines.PredicateEngine.AcceptCandidate | src/predicate_engine.cpp:85-124 | the same for the accept decision |
| PredicateEngines.PredicateEngine.AuthorizeAndConsume | src/predicate_engine.cpp:133-145 | succeeds only for a valid authorised context of the right type whose pair was never used, and then marks the pair used |
| Repairs.Individual.Repair | src/scalable_optimizer.cpp:75-112 | in place: the genes become the result of the greedy climb with their aggregates recomputed, and the answer is true exactly when that is feasible; the loop terminates |
| Repairs.Individual.FindMove | src/scalable_optimizer.cpp:86-105 | the scan with exact ratios finds the first admitted move of least cost per margin gained |
| Repairs.Individual.Evaluate | src/scalable_optimizer.cpp:53-60 | the cached aggregates and feasibility are those of the genes |
| Repairs.BestIsLeast | src/scalable_optimizer.cpp:88-103 | no admitted move costs less per margin gained than the chosen one |
| Repairs.BetterByRatio | src/scalable_optimizer.cpp:95-102 | the cross-multiplied comparison of moves is that of the exact ratios of cost to margin gained |
| Repairs.AdmittedExactly | src/scalable_optimizer.cpp:86-97 | which moves the plain repair and the oblivious rounds admit, by what a move does to the sums: the margin rises, the last method 3 is not given up, and in the rounds some method-3 cost is there to be raised |
| Repairs.RepairSteps | src/scalable_optimizer.cpp:75-112 | the plain repair step by step: method 3 is brought in when it costs nothing, then best moves until the margin is met or none is left |
| Repairs.RoundExactly | src/confidential_scalable_optimizer.cpp:590-689 | what one oblivious round does: nothing to a feasible assignment, the best admitted move while method 3 costs something, and bringing method 3 in otherwise |
| Repairs.BestIsFirst | src/scalable_optimizer.cpp:99-102 | the chosen move strictly beats every admitted move numbered before it |
| Repairs.ThirdIsLeast | src/scalable_optimizer.cpp:77-84 | the row given method 3 is the first of those adding the least cost |
| Repairs.MovesBound | src/scalable_optimizer.cpp:85-110 | the margin rises with every move and the loop makes at most two moves a row |
| Repairs.ClimbEnds | src/scalable_optimizer.cpp:85-110 | the loop ends with a non-negative margin or with no admitted move, and never lowers the margin |
| Repairs.RoundsRepair | src/confidential_scalable_optimizer.cpp:585-689 | with positive method-3 costs k oblivious rounds are the plain repair stopped after k moves, for every k; as many rounds as it makes moves, and always three a row, reach its result and stay there |
| RepairExactness.RowIsSteady | src/confidential_scalable_optimizer.cpp:585-689 | the exact condition on a row: next to any rows without a free method 3 the default rounds reach the plain repair from everywhere if and only if its method 3 is not free, or the threshold is 0 and its other methods are free too; then the rounds follow the plain repair move by move |
| RepairExactness.SteadyRowsFollow | src/confidential_scalable_optimizer.cpp:585-689 | when all rows meet that condition, k rounds are the plain repair stopped after k moves, from every assignment and for every k |
| RepairExactness.FreeOscillates | src/confidential_scalable_optimizer.cpp:595-647 | for every row with a free method 3 and every positive threshold the rounds go back and forth next to one fixed row and miss the plain result |
| RepairExactness.FreeStops | src/confidential_scalable_optimizer.cpp:595-647 | for threshold 0 and every row with a free method 3 and a paid early one the plain repair stops at the free method while the rounds go on to another result |
| Repairs.MovesAgree | src/confidential_scalable_optimizer.cpp:612-629 | with method-3 cost present the oblivious scan admits exactly the plain moves, and without it none |
| ObliviousRepairs.Repair | src/confidential_scalable_optimizer.cpp:585-689 | on ciphertexts: after any number of rounds the individual carries the result of the plain rounds, with one-hot genes on available methods and every total and per-row cache equal to recomputation; with positive method-3 costs that is the plain repair stopped after as many moves, and the plain repair itself for the default number of rounds or enough of them |
| ObliviousRepairs.ChooseMove | src/confidential_scalable_optimizer.cpp:590-647 | the two oblivious scans carry the number of the plain round's move and whether it is made |
| ObliviousRepairs.ScanRow | src/confidential_scalable_optimizer.cpp:603-642 | scanning a row advances both running choices as the plain scans do |
| ObliviousRepairs.Admit | src/confidential_scalable_optimizer.cpp:612-629 | the validity bit carries exactly whether the move is admitted |
| ObliviousRepairs.ApplyNumber | src/confidential_scalable_optimizer.cpp:650-684 | the masked second scan changes exactly the chosen row |
| ObliviousRepairs.ApplyMove | src/confidential_scalable_optimizer.cpp:657-683 | one masked move keeps genes one-hot and all caches exact |
| ObliviousRepairs.Evaluate | src/confidential_scalable_optimizer.cpp:415-455 | one-hot genes are evaluated to exact totals and row caches |
| ObliviousRepairs.FeasibleBit | src/confidential_scalable_optimizer.cpp:457-464 | the feasibility bit is that of the hidden assignment |
| ObliviousRepairs.SmallInRange | src/confidential_scalable_optimizer.cpp:742-756 | changes of declared widths, their differences and their cross products stay within the operand range |
| Rankings.OrdersAgree | src/scalable_optimizer.cpp:53-73 | in exact arithmetic the plain order of individuals, by feasibility, cost, ratio distance or real-valued fitness, then genes, is the order of the integers that the confidential optimizer compares |
| Rankings.OrderIsTotal | src/scalable_optimizer.cpp:62-73 | that order is strict and total on complete assignments |
| Rankings.OptimalIsFirst | src/scalable_optimizer.cpp:62-73 | the exact solvers' answer comes before every other assignment |
| Rankings.PassRanks | src/confidential_scalable_optimizer.cpp:563-571 | a pass through ranked slots keeps them ranked, moves none of them up, and carries out nothing that belongs into them |
| Rankings.ElitesAreBest | src/confidential_scalable_optimizer.cpp:556-573 | the insertion network loses nobody and ends with the best individuals, as many as there is room for, in order; nothing left out comes before any of them |
| Rankings.OptimumIsKept | src/confidential_scalable_optimizer.cpp:556-573 | the exact answer, once it is in a population, is its first elite |
| Rankings.ChampionIsOptimum | src/confidential_scalable_optimizer.cpp:198-200 | the running best is the exact answer if and only if that has been seen; any other best comes after it |
| ObliviousRankings.Better | src/confidential_scalable_optimizer.cpp:504-531 | on ciphertexts the comparison bit carries the order of the two hidden assignments |
| ObliviousRankings.LexBit | src/confidential_scalable_optimizer.cpp:482-502 | the bit carries lexicographic order of the hidden genes |
| ObliviousRankings.FitnessOf | src/confidential_scalable_optimizer.cpp:466-480 | carries the fitness on the common integer scale |
| ObliviousRankings.FitnessFits | src/confidential_scalable_optimizer.cpp:742-776 | with the checked widths every part of a fitness and their sum stay within the operand range |
| ObliviousRankings.MaximumTotal | src/confidential_scalable_optimizer.cpp:358-371 | carries the sum of the rows' largest costs |
| ObliviousRankings.Choose | src/confidential_scalable_optimizer.cpp:533-554 | carries genes and sums of the chosen individual |
| ObliviousRankings.EliteSet | src/confidential_scalable_optimizer.cpp:556-573 | the slots of the encrypted network carry, in order, what the plain network keeps |
| ObliviousRankings.KeepBest | src/confidential_scalable_optimizer.cpp:245-246 | over any populations the encrypted running best carries the best of all the individuals seen |
| Codecs.EncodesTo | src/ciphertext_codec.hpp:12-27 | the bytes of an encoded ciphertext: the four letters, version, kind, mode, a zero, the size in four bytes, and the magnitude without leading zeros |
| Codecs.DecodeRefuses | src/ciphertext_codec.hpp:29-46 | exactly which bytes are refused with which error, in the order of the tests |
| Codecs.TakenExactly | src/protocol/threshold_wire.cpp:64-74 | exactly what taking an integer gives or refuses, and where it leaves the offset |
| Codecs.ReceivedExactly | src/protocol/threshold_wire.cpp:116-125 | exactly what a stream of bytes gives: a frame, an oversized length or a closed socket |
| Codecs.DecodesBack | src/ciphertext_codec.hpp:12-46 | encoding succeeds exactly for positive values, and decoding inverts it exactly when the size fits the 32-bit length field |
| Codecs.AcceptsOnlyCanonical | src/ciphertext_codec.hpp:29-46 | every accepted ciphertext re-encodes to the same bytes |
| Codecs.TakesAllBack | src/protocol/threshold_wire.cpp:52-74 | any list of non-negative integers is read back in order wherever it was written, with the offset at its end |
| Codecs.AppendInteger | src/protocol/threshold_wire.cpp:52-62 | appends size and bytes behind the output and fails exactly when a limit is exceeded |
| Codecs.SizesAgree | src/protocol/threshold_wire.cpp:53 | the size computed from the bit length is the number of bytes exported |
| Codecs.SendFrame | src/protocol/threshold_wire.cpp:89-114 | for every pattern of partial writes header and payload go out once and in order; it succeeds exactly when the payload is not oversized and the socket takes the whole frame; an oversized one is refused before anything is written; what has gone out is always a prefix of the frame |
| Codecs.FrameReceived | src/protocol/threshold_wire.cpp:116-125 | a frame is received whole exactly when it is within the receiver's 4 MiB limit, which is below the sender's |

## Left out

- OffBackend.DivisionNeedsRoom: is stated for divisors whose largest shift stays below the modulus; a shift that reaches it is compared as its residue.
- SecureProtocols.ComparisonMasks: the scale 2^127, for which the source's loop never ends, is not drawn; OffBackend.Less does not draw the scale 1 for the same reason.
- SecureProtocols.SecureMultiplyBatch: the single-item requests M and C of the server are modelled as batches of one.
- StructuredSearches.Solve: integers are unbounded. The checked additions and products throw on overflow; `CoverRanges.dfy` shows that none does while the largest costs of all rows sum to less than 2^63, and beyond that the overflow errors are not modelled. Metrics other than visited nodes are dropped.
- PlainSearches.OptimizePlain: the reported cost and ratio as doubles are not part of it; neither is the reading of CSV files.
- Repairs.Individual.Repair: ratios are exact rationals instead of long doubles.
- ObliviousRepairs.Evaluate: the products of one row are taken one by one instead of in a batch, with the same operands; so are the comparisons and selections in `ObliviousRanking.dfy`. Its memo caches are left out.
- EncryptedSearches.Solve: ciphertexts are integers, so the rejection of an available ciphertext without bytes is not modelled; statistics and timings are dropped; the authorizer's answer is arbitrary. A rejected frame makes the server close the client's only connection, and the client does not reconnect, so a later solve on the same client fails for that cause; connections are not modelled.
- FusedProtocol.CspServer.OnStart: works on decoded frames; byte parsing of requests is covered by the Broken frame, and a lost connection by the same frame.
- PredicateEngines.PredicateEngine.AuthorizeAndConsume: one call at a time; the mutex around the set of consumed keys is not modelled.
- Enclave entry points, sealing, key files, sockets, retries and the request loop's accept and close: input and output.
- Random generators, prime search, RSA key generation and SHA-256: arbitrary values, arbitrary functions and the two key hypotheses stand in for them.
- Secrecy, leakage and timing: only functional correctness is stated.
- The genetic schedule, crossover, mutation and tournaments of the two genetic optimisers, and the rounding of floating-point ratios and fitness: evaluation, repair, ranking, elites and the running best are modelled, in exact arithmetic.
- The exhaustive legacy `Optimizer::optimize_encrypted`, `RuntimeSecureOps` and the simple comparisons of `SecureOps` (lessThan, greaterEqual, lessEqual, equal): they would add only easy members.
- Buffer cursors of the enclave's batch entry points: their batches are sequences of integers; the integer codec is modelled once, in `Codec.dfy`.
- The thread pool of batch encryption: a sequential loop.
- The external solver baseline, scripts, bindings, servers and user interfaces.
