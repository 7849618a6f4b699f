# Verified models of the multiparty-computation library

The repository holds the parts of a system for secure multiparty computation: finite-field
arithmetic and the decoding of secret shares, the compilation of sorting networks into circuits, the
distributed evaluation of those circuits by quorums of parties, a discrete-event simulator, a
circuit converter, and the maintenance of quorums in a peer-to-peer network. This project models six
of these parts and proves what they promise, for all inputs or over all runs:

* **Unique decoding.** `Decode` runs Gaussian elimination, back substitution and polynomial division
  on the key equation of Welch and Berlekamp. It returns a word if and only if that word comes from a
  nonzero polynomial of low degree and differs from the received one in at most e places
  (`Residues`, `NumTheory`, `Sums`, `Polynomials`, `PolynomialCode`, `LinearSystems`, `ZpMatrix`,
  `LinearSolver`, `Decoding`, `WelchBerlekamp`). Beside it stand
  LU inversion, which gives a two-sided inverse exactly for regular matrices, and the recombination
  row taken from it (`MatrixAlgebra`, `LuTheory`, `ZpMatrix`, `Recombination`), and the Chinese
  remaindering of `FheWrapper` (`Crt`).
* **Sorting networks.** A network has three forms: the list of its gates (`WireOps`, where bitonic
  sorting, the tournament and tree insertion are proved correct in `SortingTheory`), the gate graph as a
  value (`Graphs`, `NetworkTheory`), and the circuit objects that the factories build in place
  (`Circuit`, `PermutationNetwork`, `SortingNetwork`). Appending, joining and cloning keep the three in
  agreement; collapsing permutation gates keeps what every remaining port carries; ranking gives a
  topological order (`Collapsing`, `Cloning`, `Ranking`, `EndGates`). `PermutationGates`, `SplitGate`,
  `BlockCorrection` and `CorrectionNetwork` treat the permutation gates of the approximate sorter.
* **Distributed evaluation.** Every party of every quorum runs a three-stage protocol for each of its
  gates (`GateEvaluation`). `CircuitEvaluation` composes them: in every delivery order the inputs are
  those of sequential evaluation, every gate is evaluated once, exactly the outputs for other quorums are
  reshared, no run is stuck, and runs are bounded.
  `Party` and `MajorityFilter` model the bookkeeping of sub-protocols and the voting receiver.
* **Scheduling.** An array heap with in-place sifting (`HeapTheory`, `BinaryHeap`), the stable heap and
  the event queue on it (`EventQueue`), and the simulator loop with arbitrary handlers
  (`EventSimulator`, `SchedulerRuns`, `SchedulerRerun`).
* **Gate lowering.** The pass that rewrites three-input gates into two-input gates and renumbers wires
  (`GateLowering`).
* **Quorums.** A binary search tree of linked nodes (`RangeTree` for values, `RangeNodes` for the links)
  and the network that keeps one quorum for each region of the unit interval
  (`Regions`, `Cuckoo`).

Conventions. The classes have the fields and loops of the source; `Value()` or a ghost field gives the
abstract value that the lemmas speak about. A null result is `None`. Congruence modulo p is stated with
`Residue`, the representative in [0, p); C#'s `%` and `/` are the truncating `Rem` and `Quot`. Where a
product or sum must fit into 32 or 64 bits, the method asserts it. A gate is a value with an identity, so
that two gate objects with equal contents differ.

Findings. Some promises fail. For each of them the exact condition under which it holds is proved:

* A range query can miss entries (`RangeTrees.RangeMisses`); `RangeTrees.RangeGives` says which, and
  `RangeTrees.RangeComplete` for which trees and bounds it is complete. With bounds that leave no room it
  still gives one node when there is one between them (`RangeTrees.RangeOfNothing`).
* A pass of the converter renumbers input wires above a lowered gate (`GateLowering.InputAboveGateIsLost`);
  `GateLowering.PassKeepsExactly` says for which files the outputs stay.
* Anyone's round message closes the vote; `MajorityFilter.ForeignRoundMessage` says with which result.
* The split gate is asked to bring the wires outside its group to the first wires. In their order it does
  so only when there is nothing to separate (`CorrectionNetworks.RestNeverFirst`). In any order it does so
  for exactly one group of each size if the smaller part is even, and for none if it is odd
  (`CorrectionNetworks.SplitSeparates`). Asked to move its group to the top, it is a
  permutation only when one part has at most one wire (`SplitGates.SplitToTop`).
* A gate made from an array can only be asked for the output of its first input
  (`SplitGates.UnpermuteGate`).
* Once its last node has been removed, every join and every removal in the network of quorums fails, from
  then on (`CuckooQuorums.CuckooNetwork.BootstrapJoin`, `Join`, `Remove`).
* A run starts by setting the clock to 0 although events may wait at later times. That is harmless if and
  only if it has something to handle or the clock was at 0 (`SchedulerReruns.RunsMerge`).

## Model

| member | source | states |
|---|---|---|
| NumTheory.Modulo | Libs/FiniteField/Zp.cs:213-217 | reducing a possibly negative number gives its representative in [0, p) |
| NumTheory.BezoutIdentity | Libs/FiniteField/NumTheoryUtils.cs:56-72 | the coefficients returned combine a and b to the returned divisor, which divides both |
| NumTheory.GreatestDivisor | Libs/FiniteField/NumTheoryUtils.cs:56-72 | every common divisor divides the returned one |
| NumTheory.BezoutBounds | Libs/FiniteField/NumTheoryUtils.cs:56-72 | for a >= 0 and b > 0, with g the returned divisor, the first coefficient is at most b/g in size and the second at most max(a, g)/g, which is a/g for a > 0 |
| NumTheory.InverseOfCoprime | Libs/FiniteField/NumTheoryUtils.cs:115-120 | for a coprime to m >= 2 the result is in [0, m) and inverts a modulo m |
| NumTheory.FieldInverse | Libs/FiniteField/NumTheoryUtils.cs:115-120 | modulo a prime every nonzero element gets its inverse |
| NumTheory.GetFieldInverse | Libs/FiniteField/NumTheoryUtils.cs:229-239 | the table holds the inverse of every element |
| NumTheory.ModPow | Libs/FiniteField/NumTheoryUtils.cs:276-285 | the loop computes the power modulo the prime |
| PolynomialCode.Init | Libs/FiniteField/Polynomial.cs:50-60 | leading zeros are dropped and nothing else |
| PolynomialCode.Sample | Libs/FiniteField/Polynomial.cs:64-87 | the value of the polynomial at the point, null exactly for no coefficients |
| PolynomialCode.LongDivision | Libs/FiniteField/Polynomial.cs:102-119 | dividend = quotient times divisor plus rest, coefficient by coefficient, with the rest shorter than the divisor |
| PolynomialCode.DivideWithRemainder | Libs/FiniteField/Polynomial.cs:89-129 | a returned quotient is exact and has no leading zero; null for nonzero operands means that no exact quotient exists |
| Polynomials.DivisionUnique | Libs/FiniteField/Polynomial.cs:89-129 | modulo a prime, quotient and remainder are unique |
| Polynomials.RootCount | Libs/SecretSharing/WelchBerlekampDecoder.cs:8-20 | a polynomial with as many distinct roots as coefficients is zero modulo the prime |
| ZpMatrices.ZpMatrix.GetVandermondeMatrix | Libs/FiniteField/ZpMatrix.cs:500-517 | entry (i, j) is the i-th power of the j-th value |
| ZpMatrices.ZpMatrix.GetIndexVandermondeMatrix | Libs/FiniteField/ZpMatrix.cs:479-498 | entry (i, j) is the i-th power of j + 1 |
| ZpMatrices.ZpMatrix.Transpose | Libs/FiniteField/ZpMatrix.cs:193-205 | entries change places across the diagonal |
| ZpMatrices.ZpMatrix.MulRowByScalar | Libs/FiniteField/ZpMatrix.cs:678-692 | one row is scaled in place, the others stay |
| ZpMatrices.ZpMatrix.MulMatrixByScalarsVector | Libs/FiniteField/ZpMatrix.cs:694-707 | a new matrix with every row scaled by its scalar |
| ZpMatrices.ZpMatrix.GetConcatenationMatrix | Libs/FiniteField/ZpMatrix.cs:739-771 | rows of the second matrix follow those of the first |
| ZpMatrices.ZpMatrix.SwapRows | Libs/FiniteField/ZpMatrix.cs:322-329 | two rows change places, the others stay |
| ZpMatrices.ZpMatrix.Gauss | Libs/FiniteField/ZpMatrix.cs:773-833 | in place, the augmented system keeps its solutions and ends in echelon form with unit pivots; the result counts nonzero rows |
| ZpMatrices.ZpMatrix.EliminateRow | Libs/FiniteField/ZpMatrix.cs:801-809 | one row minus a multiple of the pivot row, reduced, and no other row |
| LinearSystems.SwapEquivalent | Libs/FiniteField/ZpMatrix.cs:773-833 | exchanging two rows keeps the solutions |
| LinearSystems.ScaleEquivalent | Libs/FiniteField/ZpMatrix.cs:773-833 | scaling a row by a unit keeps the solutions, in both directions |
| LinearSystems.CombineEquivalent | Libs/FiniteField/ZpMatrix.cs:773-833 | subtracting a multiple of one row from another keeps the solutions |
| LinearSolver.RankDecides | Libs/SecretSharing/WelchBerlekampDecoder.cs:86-162 | in echelon form, more nonzero rows than pivots means no solution, and equally many leave only zero rows below |
| LinearSolver.BackSubstitute | Libs/SecretSharing/WelchBerlekampDecoder.cs:107-155 | the filled array solves the system with entries in [0, p), and every unknown that no row determines is 0; or the system has no solution |
| LinearSolver.LinearSolve | Libs/SecretSharing/WelchBerlekampDecoder.cs:86-162 | sound and complete for every square matrix: a result solves A x = b with entries in [0, p); null if and only if nothing does |
| Decoding.CloseWordSolves | Libs/SecretSharing/WelchBerlekampDecoder.cs:22-49 | a polynomial within distance e of Y gives a solution of the key equation |
| Decoding.QuotientIsClose | Libs/SecretSharing/WelchBerlekampDecoder.cs:22-49 | an exact quotient N / E of a solution is within distance e of Y |
| Decoding.DecodingUnique | Libs/SecretSharing/WelchBerlekampDecoder.cs:22-49 | whatever solution was found, its quotient agrees with the sent polynomial at every point |
| WelchBerlekampDecoder.GetWelchBerlekampMatrix | Libs/SecretSharing/WelchBerlekampDecoder.cs:51-64 | row i holds the coefficients of the key equation at point i |
| WelchBerlekampDecoder.GetWelchBerlekampConstraintVector | Libs/SecretSharing/WelchBerlekampDecoder.cs:66-73 | entry i is Y[i] times the e-th power of X[i] |
| WelchBerlekampDecoder.InterpolatePolynomial | Libs/SecretSharing/WelchBerlekampDecoder.cs:22-49 | a returned polynomial decodes Y; when any polynomial does, the result has the same word |
| WelchBerlekampDecoder.Decode | Libs/SecretSharing/WelchBerlekampDecoder.cs:8-20 | for a prime, distinct points and e > 0, the result is the word c if and only if c belongs to a nonzero polynomial of degree at most n - 2e - 1 and is within e places of Y; null when 2e > n or e < 0 |
| ZpMatrices.ZpMatrix.GetLUDecomposition | Libs/FiniteField/ZpMatrix.cs:374-442 | through every pivot exchange, the rows in the order of the returned permutation are the product of the unit lower and the upper factor |
| LuTheory.ExchangeRows | Libs/FiniteField/ZpMatrix.cs:409-428 | exchanging two rows of the working copy and of the permutation keeps the partial factorization |
| LuTheory.DoneIsFactored | Libs/FiniteField/ZpMatrix.cs:374-442 | after the last column the invariant of the loop is the factorization |
| ZpMatrices.ZpMatrix.Nonsingular | Libs/FiniteField/ZpMatrix.cs:53-64 | true exactly when the diagonal has no zero |
| ZpMatrices.ZpMatrix.GetSubMatrix | Libs/FiniteField/ZpMatrix.cs:290-301 | the listed rows, in that order |
| ZpMatrices.ZpMatrix.GetIdentityMatrix | Libs/FiniteField/ZpMatrix.cs:458-468 | ones on the diagonal, zeros elsewhere |
| ZpMatrices.ZpMatrix.ForwardSubstitute | Libs/FiniteField/ZpMatrix.cs:349-357 | the columns solve the lower system |
| ZpMatrices.ZpMatrix.BackSubstitute | Libs/FiniteField/ZpMatrix.cs:359-370 | the columns solve the upper system |
| ZpMatrices.ZpMatrix.SolveInv | Libs/FiniteField/ZpMatrix.cs:336-372 | null exactly when the upper factor has a zero on its diagonal; otherwise both substitutions were made on the permuted right hand side |
| LuTheory.LeftInverse | Libs/FiniteField/ZpMatrix.cs:40-51 | a right inverse of a factored regular matrix is also a left inverse |
| LuTheory.ZeroPivotIsSingular | Libs/FiniteField/ZpMatrix.cs:53-64 | a zero pivot gives a nonzero vector that the matrix sends to zero |
| ZpMatrices.ZpMatrix.Inverse | Libs/FiniteField/ZpMatrix.cs:40-51 | a result is a two-sided inverse modulo p; null means that the matrix is singular |
| Recombination.VandermondeRegular | Libs/BgwMpc/BgwProtocol.cs:238-245 | the matrix of powers of 1, .., n is regular for n < p |
| Recombination.InvertibleIsRegular | Libs/FiniteField/ZpMatrix.cs:40-51 | a matrix with a left inverse is not singular, so that a null result and an inverse exclude each other |
| Recombination.RecombinationRow | Libs/BgwMpc/BgwProtocol.cs:238-245 | the inverse exists, and its row 0 turns h(1), .., h(n) into h(0) for every h of degree below n |
| Crt.ProdSplit | Libs/FheWrapper/FheWrapper.cpp:101-114 | the product of all moduli is one of them times the product of the others |
| Crt.Cofactor | Libs/FheWrapper/FheWrapper.cpp:108-111 | the product of the other moduli is coprime to the modulus and zero modulo the others |
| Crt.AgreeModProduct | Libs/FheWrapper/FheWrapper.cpp:101-114 | divisible by pairwise coprime moduli means divisible by their product |
| Crt.FindMods | Libs/FheWrapper/FheWrapper.cpp:93-99 | the residues modulo every modulus |
| Crt.AddSummand | Libs/FheWrapper/FheWrapper.cpp:106-112 | one round makes the accumulator right modulo one more modulus, and the ten moduli of the header keep it within 64 bits |
| Crt.SolveCrt | Libs/FheWrapper/FheWrapper.cpp:101-114 | the result has the given residues and lies in [0, product) |
| Crt.TenModuli | Libs/FheWrapper/FheWrapper.h:26-29 | the ten moduli are pairwise coprime |
| Crt.CrtUnique | Libs/FheWrapper/FheWrapper.cpp:101-114 | a number in range with the residues of x is x modulo the product |
| Crt.RoundTrip | Libs/FheWrapper/FheWrapper.cpp:93-114 | splitting and solving gives x modulo the product, and x itself below 18050444111700 with the ten moduli |
| Graphs.AddConnectionInverse | Libs/Circuit/Circuit.cs:65-91 | the two counterparty maps stay mutually inverse |
| Graphs.AddConnectionPorts | Libs/Circuit/Circuit.cs:65-91 | the address sets stay exactly the unconnected ports |
| Circuits.Circuit.AddConnection | Libs/Circuit/Circuit.cs:65-91 | both tables and both address sets are those of the graph with one more connection; the cached order is dropped |
| Circuits.Circuit.AddGate | Libs/Circuit/Circuit.cs:46-62 | the graph with the gate, its ports and the given connections |
| Circuits.Circuit.JoinWith | Libs/Circuit/Circuit.cs:93-115 | the union of both graphs with the joins |
| Graphs.UnionWF | Libs/Circuit/Circuit.cs:93-115 | the union of two well-formed disjoint graphs is well formed |
| Graphs.JoinConsistent | Libs/Circuit/Circuit.cs:93-115 | values fit the joined graph if and only if they fit both parts and agree on the joins |
| Circuits.Circuit.Clone | Libs/Circuit/Circuit.cs:117-158 | new gates in one-to-one correspondence, with the same connections and unconnected ports |
| Cloning.ClonedWF | Libs/Circuit/Circuit.cs:117-158 | the clone's tables are mutually inverse and its address sets the unconnected ports |
| Cloning.CloneConsistent | Libs/Circuit/Circuit.cs:117-158 | values fit the clone if and only if they fit the original through the correspondence |
| Circuits.Circuit.RemoveGate | Libs/Circuit/Circuit.cs:247-264 | the gate and its unconnected ports leave the circuit |
| Circuits.Circuit.BypassGate | Libs/Circuit/Circuit.cs:233-243 | every connection through the gate is joined through it, and the gate is removed |
| Collapsing.BackOfPermute | Libs/Circuit/Gate.cs:233-248 | Unpermute takes back what Permute does |
| Collapsing.BypassedMeaning | Libs/Circuit/Circuit.cs:226-245 | without the gate, the remaining ports carry the same values in every evaluation, and every evaluation extends |
| Collapsing.BypassedRanked | Libs/Circuit/Circuit.cs:226-245 | removing the gate keeps the circuit acyclic |
| Circuits.Circuit.CollapsePermutationGates | Libs/Circuit/Circuit.cs:226-245 | on an acyclic circuit with fully connected bijective permutation gates: exactly those gates go, the tables stay mutually inverse, and the meaning is the same |
| Circuits.Circuit.AssignTopologicalRanks | Libs/Circuit/Circuit.cs:161-224 | terminates, and the list holds every gate once, at its rank, after its predecessors |
| Circuits.Circuit.TopologicalOrder | Libs/Circuit/Circuit.cs:25-33 | the cached list is a ranked order of the current circuit |
| Circuits.Circuit.RankFront | Libs/Circuit/Circuit.cs:174-221 | one turn of the worklist keeps its invariant and either ranks a gate or decreases the remaining work |
| Ranking.RankedOrderIsTopological | Libs/Circuit/Circuit.cs:161-224 | in a ranked order no gate repeats and every connection goes forward |
| Ranking.WorkDecreases | Libs/Circuit/Circuit.cs:188-201 | queueing unranked predecessors in front decreases the measure |
| Ranking.EndState | Libs/Circuit/Circuit.cs:161-224 | an empty worklist means that every gate is ranked, although the first enumerated input was dropped |
| PermutationNetworks.PermutationNetwork.constructor | Libs/Circuit/Circuit.cs:299-309 | a network with unused wires |
| PermutationNetworks.PermutationNetwork.AppendGate | Libs/Circuit/Circuit.cs:311-332 | the graph and both wire arrays are those of the gate at the end of its wires, and evaluating them is running the extended gate list |
| PermutationNetworks.ConnectOrder | Libs/Circuit/Circuit.cs:46-62 | a set of free connections gives the same graph in every enumeration order |
| NetworkTheory.AppendNetOk | Libs/Circuit/Circuit.cs:348-391 | appending keeps: inverse maps, first and last ports exactly the unconnected ones, append order topological, evaluation equal to running the gate list |
| PermutationNetworks.PermutationNetwork.AppendNetwork | Libs/Circuit/Circuit.cs:348-376 | wire i of the other network continues wires[i], for graph, arrays and gate list |
| PermutationNetworks.PermutationNetwork.AppendNetworkAt | Libs/Circuit/Circuit.cs:378-391 | the other network continues consecutive wires |
| PermutationNetworks.PermutationNetwork.Clone | Libs/Circuit/Circuit.cs:393-410 | a valid network of new gates with the same gate list |
| Cloning.ClonedNetOk | Libs/Circuit/Circuit.cs:393-410 | a cloned network has the ends and computes the gate list of the original |
| PermutationNetworks.PermutationNetwork.CollapsePermutationGates | Libs/Circuit/Circuit.cs:412-444 | the collapsed network has no permutation gate, the same ends, and still computes its gate list |
| PermutationNetworks.CollapsedNet | Libs/Circuit/Circuit.cs:412-444 | a graph of the same meaning serves the same wires |
| WireOps.RunConcat | Libs/Circuit/Circuit.cs:311-376 | running two gate lists one after the other is running their concatenation |
| WireOps.RenameRun | Libs/Circuit/Circuit.cs:348-376 | a gate list put on some wires does its work on them and leaves the others |
| SortingTheory.SplitBitonic | Libs/Circuit/SortingNetwork.cs:56-70 | on zeros and ones, the split makes two bitonic halves of which one is constant on the right side |
| SortingTheory.MergeSorts | Libs/Circuit/SortingNetwork.cs:72-87 | the merge sorts every bitonic sequence of zeros and ones |
| WireOps.ThresholdRun | Libs/Circuit/SortingNetwork.cs:56-104 | gates commute with thresholds, which reduces sorting to zeros and ones |
| SortingTheory.ZeroOnePrinciple | Libs/Circuit/SortingNetwork.cs:56-104 | a sequence is sorted when all its thresholds are |
| SortingTheory.BitonicSortSorts | Libs/Circuit/SortingNetwork.cs:89-104 | for every power of two, the gate list sorts every input in the direction asked for, and permutes it |
| SortingTheory.TournamentExtremes | Libs/Circuit/SortingNetwork.cs:20-54 | the minimum ends on wire 0 and the maximum on the last, and the input is permuted |
| SortingTheory.InsertionSorts | Libs/Circuit/SortingNetwork.cs:106-128 | wire 0 is inserted into the sorted other wires |
| SortingNetworks.SortingNetworkFactory.CreateBitonicSplit | Libs/Circuit/SortingNetwork.cs:56-70 | the built graph is valid, on new gates, with the gate list of the split |
| SortingNetworks.SortingNetworkFactory.CreateBitonicMerge | Libs/Circuit/SortingNetwork.cs:72-87 | the same for the recursive merge |
| SortingNetworks.SortingNetworkFactory.CreateBitonicSort | Libs/Circuit/SortingNetwork.cs:89-104 | the same for the recursive sort |
| SortingNetworks.SortingNetworkFactory.CreateButterflyTournamentRound | Libs/Circuit/SortingNetwork.cs:41-54 | the same for one tournament round |
| SortingNetworks.SortingNetworkFactory.CreateButterflyTournament | Libs/Circuit/SortingNetwork.cs:20-39 | the same for the tournament |
| SortingNetworks.SortingNetworkFactory.CreateBinaryTreeInsertion | Libs/Circuit/SortingNetwork.cs:106-128 | the same for tree insertion |
| SortingNetworks.BitonicNetworkSorts | Libs/Circuit/SortingNetwork.cs:89-104 | the graph has an evaluation on every input, and every evaluation delivers the sorted input |
| SortingNetworks.TournamentNetworkExtremes | Libs/Circuit/SortingNetwork.cs:20-54 | every evaluation of the graph delivers the extremes at the two ends |
| SortingNetworks.InsertionNetworkSorts | Libs/Circuit/SortingNetwork.cs:106-128 | every evaluation of the graph delivers the sorted input when the other wires were sorted |
| EndGates.PermutationsConnected | Libs/Circuit/Circuit.cs:226-245 | when all wires begin and end with compare-and-swap, every permutation gate is fully connected |
| SortingNetworks.BitonicCanCollapse | Libs/Circuit/SortingNetwork.cs:89-104 | the ascending bitonic sorter meets the precondition of collapsing |
| SortingNetworks.CollapsedSorter | Libs/Circuit/SortingNetwork.cs:89-104 | build and collapse: no permutation gates are left and every evaluation sorts |
| PermutationGates.ShuffleAndUnshuffle | Libs/Circuit/Gate.cs:299-339 | both gates are permutations and undo each other |
| PermutationGates.InserterIsBijective | Libs/Circuit/Gate.cs:311-326 | the inserter is a permutation with the stated inverse |
| PermutationGates.PlaceRun | Libs/Circuit/LPSorting.cs:170-174 | after unshuffle and inserter, every list starts with its new wire and continues with every numGroups-th wire |
| PermutationGates.EveryListSorted | Libs/Circuit/LPSorting.cs:170-182 | when the other wires were sorted, tree insertion leaves every list sorted with its new wire |
| BlockCorrection.AppendBlockCorrection | Libs/Circuit/LPSorting.cs:170-187 | the loop with clones of one tree builds a valid graph with that gate list |
| BlockCorrection.BlockNetworkInserts | Libs/Circuit/LPSorting.cs:170-187 | every evaluation of the graph inserts one wire into each list |
| CorrectionNetworks.CorrectionTurns | Libs/Circuit/LPSorting.cs:135-187 | the whole network: when the first wires are in order after the permutation and the split gate, the lists take turns on the outputs, each sorted with its new wire |
| CorrectionNetworks.CreateBlockCorrectionNetwork | Libs/Circuit/LPSorting.cs:135-187 | it builds a valid graph with that gate list, where the group of the split gate is the images of Y under the permutation, in ascending order |
| CorrectionNetworks.CorrectionInserts | Libs/Circuit/LPSorting.cs:135-187 | so does every evaluation of that graph |
| CorrectionNetworks.SplitScatters | Libs/Circuit/Gate.cs:279-297 | the split gate takes wire k to the k-th member of the group, and the further wires to the others |
| CorrectionNetworks.RestNeverFirst | Libs/Circuit/LPSorting.cs:153-168 | it brings the wires outside the group to the first wires in their order if and only if the group or the rest is empty |
| CorrectionNetworks.SplitSeparates | Libs/Circuit/LPSorting.cs:153-168 | in any order, it brings the wires outside the group to the first wires and the group to the last ones if and only if the smaller part has an even size 2s and the group is the wires from s up to its own size and the last s wires |
| SplitGates.UnpermuteGate | Libs/Circuit/Gate.cs:240-248 | the first input sent to the output; on a gate made from an array it answers only if the first entry matches |
| SplitGates.CreateSplitGate | Libs/Circuit/Gate.cs:279-297 | the table that the two indexes write, for both settings |
| SplitGates.SplitIsBijective | Libs/Circuit/Gate.cs:279-297 | without moveGroupToTop it is a permutation for every group |
| SplitGates.SplitToTop | Libs/Circuit/Gate.cs:279-297 | with moveGroupToTop it is one if and only if the group or the rest has at most one wire |
| SplitGates.SplitTopIs | Libs/Circuit/Gate.cs:279-297 | what it does then: the identity when one part is empty; otherwise the last output reads wire 0, the first one the single wire, or wire 1 when that is wire 0, and the outputs in between read the others in order |
| GateEvaluation.MultiQuorumGateEvaluation.Start | Libs/Circuit/CircuitEvaluationProtocol.cs:416-453 | the inputs known at the start, and the ports that come by resharing |
| GateEvaluation.MultiQuorumGateEvaluation.HandleMessage | Libs/Circuit/CircuitEvaluationProtocol.cs:276-308 | the new state, with the resharings started and what is put into them, and the loopbacks sent, for every stage and message |
| GateEvaluation.MultiQuorumGateEvaluation.ReceiveShareStage | Libs/Circuit/CircuitEvaluationProtocol.cs:311-329 | one port by loopback, or all awaited ports at once |
| GateEvaluation.MultiQuorumGateEvaluation.SendShareStage | Libs/Circuit/CircuitEvaluationProtocol.cs:344-414 | circuit outputs become results, an output to the own quorum is looped back now, every other one starts a resharing of its value; with no resharing the evaluation is complete (ResharesExactly and CompletedAfterResharing say which and when) |
| GateEvaluation.MultiQuorumGateEvaluation.LoopBack | Libs/Circuit/CircuitEvaluationProtocol.cs:294-307 | exactly one loopback for every input that still needs one |
| CircuitEvaluation.InitOk | Libs/Circuit/CircuitEvaluationProtocol.cs:168-207 | the invariant holds when every party has started |
| CircuitEvaluation.NextOk | Libs/Circuit/CircuitEvaluationProtocol.cs:276-454 | every step, in any order, keeps the invariant |
| CircuitEvaluation.Accepted | Libs/Circuit/CircuitEvaluationProtocol.cs:276-329 | a message that can arrive meets an evaluation in the stage that expects it, at an empty port |
| CircuitEvaluation.EveryRunIsSequential | Libs/Circuit/CircuitEvaluationProtocol.cs:187-207 | in every state of every run, a gate past collection has exactly the inputs, and past evaluation the outputs, of sequential evaluation |
| CircuitEvaluation.SequentialEvaluation | Libs/Circuit/CircuitEvaluationProtocol.cs:187-207 | evaluating gates in rank order fits all connections |
| CircuitEvaluation.EvaluatedOnce | Libs/Circuit/CircuitEvaluationProtocol.cs:276-308 | no gate is evaluated twice at one party |
| CircuitEvaluation.EachPortOnce | Libs/Circuit/CircuitEvaluationProtocol.cs:311-329 | a loopback on its way is the only one for its port, the port is empty, and it carries the sequential value |
| CircuitEvaluation.NoRunIsStuck | Libs/Circuit/CircuitEvaluationProtocol.cs:276-454 | on an acyclic circuit some step is possible until all evaluations are complete |
| CircuitEvaluation.RunsAreBounded | Libs/Circuit/CircuitEvaluationProtocol.cs:276-454 | the number of steps is bounded by a measure of the start |
| CircuitEvaluation.FinalResults | Libs/Circuit/CircuitEvaluationProtocol.cs:187-207 | a run that cannot go on has every evaluation complete; its result holds exactly the unconnected outputs of its gate, each with the sequential value |
| CircuitEvaluation.ResharesExactly | Libs/Circuit/CircuitEvaluationProtocol.cs:344-414 | in every run, a member that has reached the sending stage has started the resharing that feeds an input if and only if the input is connected to an output of its gate and its gate has another quorum, whether or not the quorums overlap, and it puts in the sequential value; before that stage it has started none |
| CircuitEvaluation.CompletedAfterResharing | Libs/Circuit/CircuitEvaluationProtocol.cs:276-414 | in every run, an evaluation with an output to another quorum is complete only after a step in which it handled the end of its resharings, and by then every member of its quorum had started that resharing |
| Parties.Party.RegisterProtocol | Libs/DistributedSystem/Party.cs:72-91 | the five dictionaries after a registration |
| Parties.Party.CheckCompleted | Libs/DistributedSystem/Party.cs:125-153 | what completion does, and that an unfinished protocol changes nothing |
| Parties.Party.ReportToParent | Libs/DistributedSystem/Party.cs:136-152 | the result joins the batch, and the last child makes the message and clears the batch (MessageResults says with which results) |
| Parties.DoKeeps | Libs/DistributedSystem/Party.cs:72-153 | every operation keeps: outstanding count = live children, submission order = completed and live children |
| Parties.RunOk | Libs/DistributedSystem/Party.cs:72-153 | so does every run |
| Parties.CompleteMessage | Libs/DistributedSystem/Protocol.cs:94-126 | a message is sent exactly when the last live child completes, with all results of the batch in submission order |
| Parties.EachChildOnce | Libs/DistributedSystem/Party.cs:72-153 | over a run, the submitted children are those reported, in order, followed by those of the open batch |
| Parties.MessageResults | Libs/DistributedSystem/Party.cs:125-153 | over a run, every message is made by one operation, and the result that it has for a child is the one with which that child, submitted to that parent, ended by then |
| Parties.RegisteredExactly | Libs/DistributedSystem/Party.cs:72-153 | after a run, a protocol is registered if and only if it was submitted and has not ended since |
| MajorityFilter.PerformTally | Libs/BasicProtocols/MajorityFilteringProtocol.cs:91-113 | a value with at least the threshold of votes, or none has that many |
| MajorityFilter.MajorityFilteringProtocol.HandleMessage | Libs/BasicProtocols/MajorityFilteringProtocol.cs:38-74 | only listed senders count, each once; the tally is scheduled once (ScheduledExactly says when) and made on the round message |
| MajorityFilter.ResultHasMajority | Libs/BasicProtocols/MajorityFilteringProtocol.cs:38-113 | in every run a result was voted for by a majority of distinct senders |
| MajorityFilter.DisagreementNeedsEquivocation | Libs/BasicProtocols/MajorityFilteringProtocol.cs:38-113 | two receivers with results share a sender that voted for both |
| MajorityFilter.NotScheduledEarly | Libs/BasicProtocols/MajorityFilteringProtocol.cs:38-74 | with fewer than 2n/5 faulty senders, their votes alone do not schedule the tally |
| MajorityFilter.ScheduledInTime | Libs/BasicProtocols/MajorityFilteringProtocol.cs:38-74 | once all honest votes have arrived the tally is scheduled |
| MajorityFilter.ScheduledExactly | Libs/BasicProtocols/MajorityFilteringProtocol.cs:38-61 | after any votes, in any order and from anyone, the tally is scheduled if and only if some vote has come and at least two fifths of the n listed senders have voted (two thirds of those still awaited) |
| MajorityFilter.VotesBeforeRound | Libs/BasicProtocols/MajorityFilteringProtocol.cs:38-74 | in time: with fewer than 2n/5 faulty senders, the honest votes at one time and round messages only from itself a tick after scheduling, every honest vote comes before the first round message |
| MajorityFilter.HonestRoundWins | Libs/BasicProtocols/MajorityFilteringProtocol.cs:38-113 | such a run ends with the first round message, after every honest vote, and its result is the honest value |
| MajorityFilter.ForeignRoundMessage | Libs/BasicProtocols/MajorityFilteringProtocol.cs:62-68 | whoever sends the round message, after any votes: the vote is closed, and the result is v if and only if a majority of the listed senders had voted for v first |
| HeapTheory.UpStep | Libs/BasicDataStructures/BinaryHeap.cs:124-137 | one move of the hole upwards keeps the heap but for the hole |
| HeapTheory.DownStep | Libs/BasicDataStructures/BinaryHeap.cs:142-173 | one move of the hole downwards keeps the heap but for the hole |
| HeapTheory.SortSeqInOrder | Libs/BasicDataStructures/BinaryHeap.cs:175-181 | sorting orders the items and permutes them |
| BinaryHeaps.BinaryHeap.SetCapacity | Libs/BasicDataStructures/BinaryHeap.cs:39-50 | never below the count; the items stay |
| BinaryHeaps.BinaryHeap.Peek | Libs/BasicDataStructures/BinaryHeap.cs:74-77 | a least item |
| BinaryHeaps.BinaryHeap.Clear | Libs/BasicDataStructures/BinaryHeap.cs:82-86 | an empty heap on a new array |
| BinaryHeaps.BinaryHeap.Add | Libs/BasicDataStructures/BinaryHeap.cs:92-101 | one more item, through growth of the array |
| BinaryHeaps.BinaryHeap.UpHeap | Libs/BasicDataStructures/BinaryHeap.cs:124-137 | a heap with one more item, the same items |
| BinaryHeaps.BinaryHeap.Remove | Libs/BasicDataStructures/BinaryHeap.cs:107-119 | a least item leaves, the others stay |
| BinaryHeaps.BinaryHeap.DownHeap | Libs/BasicDataStructures/BinaryHeap.cs:142-173 | the heap is restored below the root, the same items |
| BinaryHeaps.BinaryHeap.EnsureSort | Libs/BasicDataStructures/BinaryHeap.cs:175-181 | sorted in place and still a heap |
| BinaryHeaps.BinaryHeap.Contains | Libs/BasicDataStructures/BinaryHeap.cs:241-245 | true if and only if an equal item is there |
| BinaryHeaps.BinaryHeap.BinarySearch | Libs/BasicDataStructures/BinaryHeap.cs:241-245 | an index of an equal item, or a negative number when there is none |
| EventQueues.EnqueuedAt | Libs/BasicDataStructures/BinaryHeap.cs:307-344 | an event goes after all earlier or equal ones and before all later ones |
| EventQueues.StableBinaryHeap.Add | Libs/BasicDataStructures/BinaryHeap.cs:341-344 | the heap is the queue ordered by time and insertion with one more event |
| EventQueues.StableBinaryHeap.Peek | Libs/BasicDataStructures/BinaryHeap.cs:346-349 | the front of the queue |
| EventQueues.StableBinaryHeap.Remove | Libs/BasicDataStructures/BinaryHeap.cs:351-354 | the front leaves and the rest keeps its order |
| EventQueues.StableBinaryHeap.Contains | Libs/BasicDataStructures/BinaryHeap.cs:361-364 | membership, with the queue unchanged although the array is sorted in place |
| EventQueues.StableBinaryHeap.Clear | Libs/BasicDataStructures/BinaryHeap.cs:356-359 | the empty queue |
| EventQueues.UpToExact | Libs/Simulation/EventQueue.cs:45-52 | the prefix taken is exactly the events with time at most t |
| EventQueues.EventQueue.Enqueue | Libs/Simulation/EventQueue.cs:35-38 | the pending events with one more |
| EventQueues.EventQueue.Dequeue | Libs/Simulation/EventQueue.cs:40-43 | the first pending event |
| EventQueues.EventQueue.DequeueUpTo | Libs/Simulation/EventQueue.cs:45-52 | exactly the events with time at most t, in queue order |
| EventSimulators.EventSimulator.ScheduleEvent | Libs/Simulation/EventSimulator.cs:64-67 | an event at clock + delay |
| EventSimulators.EventSimulator.LoopbackEvent | Libs/Simulation/EventSimulator.cs:114-117 | a loopback at the clock |
| EventSimulators.EventSimulator.Run | Libs/Simulation/EventSimulator.cs:122-142 | the loop reaches the state and the history of the run of the model; having handled fewer events than the bound, it has come to its end |
| SchedulerRuns.DispatchKeeps | Libs/Simulation/EventSimulator.cs:122-142 | dispatching keeps the invariant, the clock becomes the event's time and never decreases, and stays for a loopback |
| SchedulerRuns.LoopbacksFirst | Libs/Simulation/EventSimulator.cs:122-142 | in every run, from the call of a loopback until it is handled only loopbacks are handled, all at the time of the call |
| SchedulerRuns.EveryRunInOrder | Libs/Simulation/EventSimulator.cs:122-142 | for arbitrary handlers: times never go back, each queue is handled by time and then by sending order, pending loopbacks are at the clock, and handled and waiting events together are those asked for |
| SchedulerRuns.NothingLost | Libs/Simulation/EventSimulator.cs:64-142 | in every run, of each kind, the events asked for are exactly those handled and those waiting, each once |
| SchedulerRuns.AskedOnce | Libs/Simulation/EventSimulator.cs:64-142 | the event of every call that a handler made is there exactly once, handled or waiting, at the clock of the call plus the delay |
| SchedulerRuns.AskedIsHandled | Libs/Simulation/EventSimulator.cs:122-142 | when nothing of its kind waits at the end, every event asked for was handled once, after the call, with the clock at its time |
| SchedulerRuns.EnoughFuel | Libs/Simulation/EventSimulator.cs:122-142 | once a run has come to its end, a larger bound on the events changes nothing, so that the result is that of the loop without a bound |
| SchedulerRuns.EndReached | Libs/Simulation/EventSimulator.cs:122-142 | a run that handles fewer events than the bound allows has come to its end |
| SchedulerRuns.RunEnds | Libs/Simulation/EventSimulator.cs:122-142 | a run stops at the first event whose handler asks to halt, and otherwise only when nothing waits |
| SchedulerRuns.MaxClockIs | Libs/Simulation/EventSimulator.cs:134-137 | after every run the largest clock is the largest time at which something was handled, 0 for none |
| SchedulerReruns.RunsMerge | Libs/Simulation/EventSimulator.cs:40-142 | a second run, after a halt or not, together with the first is one run of a new simulator, for arbitrary calls in between, if and only if it has something to handle or the clock was at 0; otherwise it puts the clock back |
| SchedulerReruns.SecondRunInOrder | Libs/Simulation/EventSimulator.cs:40-142 | then times never go back over both runs and each queue is handled in due order |
| SchedulerRuns.SentLater | Libs/DistributedSystem/NetSimulator.cs:84-90 | a message sent at t with delay d waits for t + d + 1, after everything handled so far |
| SchedulerRuns.SentIsHandled | Libs/DistributedSystem/NetSimulator.cs:84-90 | and in a run that ends with no scheduled event it was handled exactly once, with the clock at t + d + 1 |
| GateLowering.SplitValue | Libs/FairPlayMP/Convertor.rb:78-100 | the gates that replace a three-input gate compute its table on the last of them and leave lower wires |
| GateLowering.ShiftOutputs | Libs/FairPlayMP/Convertor.rb:104-121 | renumbering the references keeps the outputs |
| GateLowering.RunPass | Libs/FairPlayMP/Convertor.rb:64-128 | the loop over the lines with its flag, index and shift is one pass (PassKeeps, PassLabels and PassSize say what a pass does) |
| GateLowering.PassKeeps | Libs/FairPlayMP/Convertor.rb:64-128 | a pass keeps every output for every input, keeps indices increasing and references backward, and removes one three-input gate |
| GateLowering.PassKeepsExactly | Libs/FairPlayMP/Convertor.rb:64-128 | for every file with well-formed gates, a pass keeps all outputs for every input if and only if no output line after the first wide gate reads a wire at or above that gate that is not a gate in between |
| GateLowering.PassLabels | Libs/FairPlayMP/Convertor.rb:64-128 | for every file, a pass keeps the header lines, the input lines with their wires and the names of the outputs, in file order |
| GateLowering.PassSize | Libs/FairPlayMP/Convertor.rb:64-128 | a pass over a file with a wide gate adds two lines when the first wide gate has one of the two selecting tables and four otherwise |
| GateLowering.PassUnchanged | Libs/FairPlayMP/Convertor.rb:64-128 | a pass changes nothing in a file without three-input gates |
| GateLowering.NoneWide | Libs/FairPlayMP/Convertor.rb:64-128 | the count is zero if and only if no gate is wide |
| GateLowering.Lower | Libs/FairPlayMP/Convertor.rb:64-128 | the loop ends with at most two inputs at every gate, the same outputs for every input, and the header lines, input lines and output names of the given file |
| GateLowering.InputAboveGateIsLost | Libs/FairPlayMP/Convertor.rb:104-121 | the smallest file in which a pass loses an input wire |
| RangeTrees.InsertPlace | Libs/Cuckoo/rangebst.py:22-33 | the entry goes to its place in the order, behind those at the same position, and nothing else changes |
| RangeTrees.InsertLeaf | Libs/Cuckoo/rangebst.py:22-33 | in every tree, insertion puts a new node in the place of one empty subtree and changes nothing else in the shape |
| RangeTrees.DeleteExact | Libs/Cuckoo/rangebst.py:48-80 | exactly the first entry at the position goes; it fails if and only if there is none |
| RangeTrees.DeleteNode | Libs/Cuckoo/rangebst.py:48-80 | deletion changes one subtree, whose root is at the position: its only child takes its place, or the end of the left spine of its right subtree does |
| RangeTrees.FindExact | Libs/Cuckoo/rangebst.py:122-132 | the data at the position; it fails if and only if there is none |
| RangeTrees.RangeStretch | Libs/Cuckoo/rangebst.py:151-209 | a range is a contiguous stretch of entries inside the bounds, none twice |
| RangeTrees.RangeGives | Libs/Cuckoo/rangebst.py:151-209 | for low < high, a range is the entries in [low, high) in their order, without those that the two walks below the parting node skip: right of the first node too low, and left of the first node too high |
| RangeTrees.RangeOfNothing | Libs/Cuckoo/rangebst.py:154-162 | for high <= low, a range is not empty: it is the node at which the bounds part, if there is one |
| RangeTrees.RangeComplete | Libs/Cuckoo/rangebst.py:151-209 | a range is all entries in [low, high) if and only if, on both sides of the node where the bounds part, the first node outside the bounds on the way to the far end is a leaf or has nothing inside the bounds on its near side |
| RangeTrees.RangeMisses | Libs/Cuckoo/rangebst.py:188-209 | the smallest tree in which a range misses an entry |
| RangeNodes.InsertAt | Libs/Cuckoo/rangebst.py:22-33 | the links after the recursion are those of the tree with the entry |
| RangeNodes.FindFirst | Libs/Cuckoo/rangebst.py:65-71 | the loop ends at the leftmost node of the right subtree and at its parent |
| RangeNodes.Splice | Libs/Cuckoo/rangebst.py:72-75 | one changed link takes exactly the leftmost node out of the subtree |
| RangeNodes.ReplaceByFirst | Libs/Cuckoo/rangebst.py:64-79 | a node with two children is replaced by the leftmost node of its right subtree |
| RangeNodes.DeleteAt | Libs/Cuckoo/rangebst.py:48-80 | the links after the recursion are those of the tree without the entry; a failed search changes nothing |
| RangeNodes.RangeAt | Libs/Cuckoo/rangebst.py:154-162 | the recursion over links gives the range of the tree |
| RangeNodes.FindAt | Libs/Cuckoo/rangebst.py:122-132 | the recursion over links gives the lookup of the tree |
| RangeNodes.RangeBST.Lookup | Libs/Cuckoo/rangebst.py:148-149 | the lookup of the tree that the links form |
| RangeNodes.RangeBST.Add | Libs/Cuckoo/rangebst.py:108-113 | in place, the in-order sequence gets the entry behind those that are not above it and before the others |
| RangeNodes.RangeBST.Remove | Libs/Cuckoo/rangebst.py:115-120 | in place, exactly the entry at the position goes, and search order is kept |
| RangeNodes.RangeBST.Iterate | Libs/Cuckoo/rangebst.py:134-144 | the stack iterator yields the in-order sequence |
| Regions.TwoAboveExact | Libs/Cuckoo/cuckoo.py:52-63 | the smallest negative power of two that is not below the value, 1 from 1 on, and failure below the table |
| Regions.RegionsTile | Libs/Cuckoo/cuckoo.py:167-183 | every position lies in exactly one region of a size |
| Regions.OnlyRegion | Libs/Cuckoo/cuckoo.py:77-83 | a position lies in a region if and only if its index is the floor of the quotient |
| CuckooQuorums.PartitionByPosition | Libs/Cuckoo/cuckoo.py:167-183 | in a partition, a node is in the quorum of a region if and only if its position is in the region, and in some quorum |
| CuckooQuorums.CuckooNetwork.QuorumRegionSize | Libs/Cuckoo/cuckoo.py:153-163 | the size as a power of two (NetworkSizes says which) |
| CuckooQuorums.CuckooNetwork.NetworkSizes | Libs/Cuckoo/cuckoo.py:70-163 | with n > 0 nodes, 2^log <= n < 2^(log+1), the quorums are all regions of one size, and for log > 0 this is the least table size that is at least gamma * log times the least one that is at least k / 2^log; 1 from 1 on and for log = 0 |
| CuckooQuorums.CuckooNetwork.KRegion | Libs/Cuckoo/cuckoo.py:70-83 | the region that contains the position, of the least table size that is at least k / 2^log, 1 in the empty network |
| CuckooQuorums.CuckooNetwork.AddToQuorums | Libs/Cuckoo/cuckoo.py:102-104 | the partition of one more node; it fails if and only if there are no regions |
| CuckooQuorums.CuckooNetwork.RemoveFromQuorums | Libs/Cuckoo/cuckoo.py:98-100 | the partition of one node less; it fails if and only if there are no regions |
| CuckooQuorums.CuckooNetwork.RedoQuorums | Libs/Cuckoo/cuckoo.py:172-183 | the partition of all nodes by the regions of the current size (NetworkSizes says which) |
| CuckooQuorums.CuckooNetwork.EmptyQuorums | Libs/Cuckoo/cuckoo.py:173-178 | the loop over the interval ends with exactly its regions, all empty |
| CuckooQuorums.CuckooNetwork.BootstrapJoin | Libs/Cuckoo/cuckoo.py:106-114 | keeps: tree, positions and quorums agree, quorum keys tile the interval at the size of the current logarithm; it fails if and only if the last node had once been removed, and then it leaves the network without regions again |
| CuckooQuorums.CuckooNetwork.Join | Libs/Cuckoo/cuckoo.py:116-141 | keeps the same; the nodes that the tree finds in the k-region of the new position (as in KRegion) move to new positions and no other node moves; it fails in the same case, at the first evicted node or at the new one, and then changes nothing |
| CuckooQuorums.CuckooNetwork.Remove | Libs/Cuckoo/cuckoo.py:85-96 | keeps the same with one node less; the last node leaves a network without regions, in which every removal fails |

## Left out

- Polynomials: `Polynomial.init` fills a local that shadows the property; it is modelled as setting the property.
- WelchBerlekampDecoder.Decode: requires e != 0, because a Vandermonde matrix with no rows still indexes row 0.
- NumTheory.ModPow: the products fit 32 bits for primes up to 46341, which is asserted; wrap-around above that is not modelled.
- Crt.SolveCrt: the moduli are the parameter throughout; the source mixes the parameter with the static array of the same values.
- Zp objects are residues; the mutating operators of Zp are not modelled.
- ZpMatrices.ZpMatrix.SwapRows: rows are sequences stored in an array, so that two entries of the jagged array cannot be the same row object.
- Gate objects are values with an identity; the rank of a gate is kept in a table of the circuit. Gates whose port counts differ from those of their type are not modelled.
- Circuits.Circuit.AssignTopologicalRanks: requires unranked gates with at least two inputs where a connection comes from, because the first enumerated input is dropped and ranks are never reset.
- Circuits.Circuit.CollapsePermutationGates: requires all ports of permutation gates to be connected, because every one is looked up.
- PermutationNetworks.PermutationNetwork.CollapsePermutationGates: the loops that unwind permutation gates at the ends of wires are left out; they never run when those gates are fully connected.
- The bit trick for powers of two is the predicate PowerOfTwo; wire and gate lists used for drawing are left out.
- CorrectionNetworks.CreateBlockCorrectionNetwork: the permutation and the set Y are parameters, since they come from random search; the other networks of the approximate sorter depend on floating point and probability.
- SplitGates.CreateSplitGate: the group is given sorted and without repetitions, as the library sort leaves it.
- CircuitEvaluation.NextOk: resharing and gate evaluation among a quorum are abstracted as delivering the same secret, a resharing once every member of the source quorum has started it, shares are the secrets they share, sub-protocols are identified with what they compute, and all parties have started; secrecy is left out.
- Parties.RunOk: the loop that starts sub-protocols is any sequence of submissions and completions in which ids are not reused within a batch and a protocol with live children does not complete.
- MajorityFilter.HonestRoundWins: the only round messages are those that the party sends to itself; ForeignRoundMessage says what others bring about.
- BinaryHeaps.BinaryHeap.Remove: the overload that removes a given item, which reads past the array when the heap is full, is left out, as are Copy, CopyTo and the enumerators; equal items are events of equal time.
- EventQueues.StableBinaryHeap.Add: overflow of the insertion counter is not modelled.
- EventSimulators.EventSimulator.Run: stops after a given number of events, since handlers may schedule forever; SchedulerRuns.EnoughFuel shows that the number does not matter once the run has ended. Handlers are functions of what has been handled, and delays are not negative.
- GateLowering.Lower: reading and writing the text format (lines 1-60), and the removal of one-input gates there, are left out.
- RangeTrees.RangeStretch: does not state that a range is complete; RangeComplete says exactly when it is.
- CuckooQuorums.CuckooNetwork.Join: random positions are parameters, new ones differ from those in use, as random reals do, and there are enough of them for every node; floating-point numbers are reals and the logarithm is exact.
- CuckooQuorums.CuckooNetwork.Remove: the table of sizes has an answer for every logarithm that occurs.
- The BGW message flow, Shamir and verifiable sharing, the comparison protocol, the concurrent priority queue, prime generation, counters, viewers and console output are left out.
