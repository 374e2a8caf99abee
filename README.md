# Strict relations alias analysis, modelled in Dafny

The strict-relations alias analysis (sraa) proves that two pointers cannot alias because one is strictly smaller than the other. Its
pass works in five phases:

1. It collects less-than constraints from the program's additions, subtractions, GEPs, sigma nodes, phis and casts, using an
   integer range oracle.
2. It solves them with a work list. Each variable carries LT (the variables smaller than it) and GT (those larger). Resolving a
   constraint grows these sets. It requeues only the constraints of variables that changed.
3. It builds a dependence graph of GEPs. Each node is a must-alias class of variables, and each edge carries the offset range of
   a GEP from its base.
4. It collects one constraint for every pair of sibling edges and solves again.
5. It answers alias queries: NoAlias when one pointer is in the other's LT or GT set, and the fallback analysis's answer
   otherwise.

The model has these modules:

- `Ranges`: the oracle's integer ranges.
- `Constraints`: the five constraint kinds and what it means for each to hold.
- `Rules`: the constraint tables of phase 1.
- `Order` and `VariableArena.Variables`: the LT/GT sets, `insertLT`/`insertGT` and the five `resolve` functions.
- `Worklist`: the work-list engine.
- `Primitives`: primitive layouts and `processGEP`.
- `Compare`: `compareValues`/`compareGEPs`.
- `DepGraphs` and `DepNodes`: the dependence graph.
- `Collect`: `collectConstraintsFromDepGraph`.
- `Translation`: the bit-vector position translator and `VariableSet`.
- `Analysis`: the alias query.

Variables are handles (`nat`) into an arena, and the LT/GT sets are sets of handles. Each resolve method is proved against a
pure function (`Order.Resolve`), and the properties of the analysis are proved about that function: growth, mirroring,
soundness, the fixpoint reached and termination of the solver.

## Model

| member | source | states |
|---|---|---|
| Ranges.Add | StrictRelationsAliasAnalysis.cpp:705-721 | the sum of two ranges contains every sum of their members, unless a bound reaches the width's sentinel |
| Ranges.ClassifySound | StrictRelationsAliasAnalysis.cpp:63-107 | the sign class read off a range (exactly zero, positive, non-negative, negative, non-positive, unknown, tested in that order) holds of every value in the range |
| Ranges.ClassifyUnknownStraddles | StrictRelationsAliasAnalysis.cpp:63-107 | a non-empty range is classed unknown exactly when it has both a negative and a positive member |
| Rules.OffsetRule | StrictRelationsAliasAnalysis.cpp:63-107 | an offset of a known sign yields a constraint; an offset of unknown sign yields none (both directions) |
| Rules.OffsetRuleSound | StrictRelationsAliasAnalysis.cpp:63-107 | a = y + d with d of the classified sign makes the emitted REQ, LT or LE constraint hold |
| Rules.AddRuleSound | StrictRelationsAliasAnalysis.cpp:55-157 | every constraint emitted for a = x + y holds of all run-time values the operand ranges admit |
| Rules.SubRuleSound | StrictRelationsAliasAnalysis.cpp:158-407 | every constraint emitted for a = x - y holds of all run-time values the operand ranges admit |
| Rules.GepRuleSound | StrictRelationsAliasAnalysis.cpp:408-459 | the constraint emitted for a GEP relates pointer and base correctly for every offset in the GEP's range |
| Rules.FillMissing | StrictRelationsAliasAnalysis.cpp:544-553 | a missing sigma is filled from the comparison's operand only in the first applicable case; other slots are unchanged and at most one slot is filled |
| Rules.TrueSigmaSound | StrictRelationsAliasAnalysis.cpp:555-658 | the constraint emitted for the true-branch sigmas holds whenever the comparison is true |
| Rules.FalseSigmaSound | StrictRelationsAliasAnalysis.cpp:555-658 | the constraint emitted for the false-branch sigmas holds whenever the comparison is false |
| Rules.EqualitySigmas | StrictRelationsAliasAnalysis.cpp:636-657 | eq and ne comparisons emit at most one constraint each, and it is always an REQ |
| Order.AddLTs | StrictRelationsAliasAnalysis.cpp:985-996 | inserting a set into LT(x) keeps all sets within the arena and only grows them |
| Order.AddGTs | StrictRelationsAliasAnalysis.cpp:999-1010 | inserting a set into GT(x) keeps all sets within the arena and only grows them |
| Order.InsertLTEffect | StrictRelationsAliasAnalysis.cpp:985-996 | insertLT(x, y) with x != y puts y in LT(x) and x in GT(y); with x == y nothing changes; only x and y can change |
| Order.InsertGTEffect | StrictRelationsAliasAnalysis.cpp:999-1010 | insertGT(x, y) with x != y puts y in GT(x) and x in LT(y); with x == y nothing changes; only x and y can change |
| Order.AddLTsConsistent | StrictRelationsAliasAnalysis.cpp:985-996 | insertLT keeps LT and GT mirror images of each other and keeps every variable out of its own sets |
| Order.AddGTsConsistent | StrictRelationsAliasAnalysis.cpp:999-1010 | insertGT keeps LT and GT mirror images of each other and keeps every variable out of its own sets |
| Order.AddLTsStep | StrictRelationsAliasAnalysis.cpp:1024-1026 | inserting the members of a set one at a time, as the loop does, gives the same relation as inserting the set at once |
| Order.AddGTsStep | StrictRelationsAliasAnalysis.cpp:1029-1031 | inserting one at a time into GT gives the same relation as inserting the set at once |
| Order.AddLTsNone | StrictRelationsAliasAnalysis.cpp:1024-1026 | inserting no members changes nothing |
| Order.AddGTsNone | StrictRelationsAliasAnalysis.cpp:1029-1031 | inserting no members changes nothing |
| Order.MissingShrinks | StrictRelationsAliasAnalysis.cpp:1268-1276 | a step that changes a variable's sets strictly shrinks the set of facts still missing, so the solver terminates |
| Order.GrowsTrans | StrictRelationsAliasAnalysis.cpp:1268-1276 | growth of the sets composes over successive resolves |
| Order.DiffCompose | StrictRelationsAliasAnalysis.cpp:1032-1035 | the variables changed by two successive steps are those changed by either |
| Order.NoDiffSame | StrictRelationsAliasAnalysis.cpp:1032-1035 | a step that grows the sets and changes no variable leaves the relation as it was |
| Order.MeetMembers | StrictRelationsAliasAnalysis.cpp:1174-1178 | the intersection of the operands' sets holds exactly what every operand's set holds |
| Order.JoinDomMembers | StrictRelationsAliasAnalysis.cpp:1170-1171 | the union over operands that dominate the left variable holds exactly their members, besides the accumulator |
| Order.FirstDomFinds | StrictRelationsAliasAnalysis.cpp:1163-1167 | the search for the first dominating operand lands on one that dominates |
| Order.MeetNonDomWithin | StrictRelationsAliasAnalysis.cpp:1168-1169 | intersecting with the non-dominating operands only shrinks the accumulator |
| Order.PhiOneWayIsJoin | StrictRelationsAliasAnalysis.cpp:1160-1172 | the one-directional branch as written yields exactly the union of the sets of the operands that dominate the left variable |
| Order.PhiLT | StrictRelationsAliasAnalysis.cpp:1158-1179 | the bound a PHI adds to LT(x) names only variables of the arena |
| Order.PhiGT | StrictRelationsAliasAnalysis.cpp:1180-1201 | the bound a PHI adds to GT(x) names only variables of the arena |
| Order.Resolve | StrictRelationsAliasAnalysis.cpp:1012-1220 | resolving any constraint keeps the sets within the arena and only grows them |
| Order.ResolveConsistent | StrictRelationsAliasAnalysis.cpp:1012-1220 | resolving any constraint keeps LT/GT mirrored and irreflexive |
| Order.ResolveLTCloses | StrictRelationsAliasAnalysis.cpp:1019-1031 | after LT(x, y), LT(y) holds LT(x) and x, and GT(x) holds GT(y) and y |
| Order.ResolveLECopies | StrictRelationsAliasAnalysis.cpp:1041-1067 | after LE(x, y), LT(y) gains exactly LT(x) and GT(x) gains exactly GT(y); the pair itself is not related |
| Order.ResolveREQEqualizes | StrictRelationsAliasAnalysis.cpp:1068-1101 | after REQ(x, y), x and y have the same LT and GT sets apart from each other, and each gained the other's |
| Order.ResolveEQCopiesIntoLeft | StrictRelationsAliasAnalysis.cpp:1103-1127 | after EQ(x, y) only x changes, gaining exactly y's LT and GT sets |
| Order.ResolvePHILT | StrictRelationsAliasAnalysis.cpp:1146-1220 | after PHI(x, ops), LT(x) gains exactly the intersection of the operands' LT sets, or the union over dominating operands when x only grows up; x never enters its own set |
| Order.ResolvePHIGT | StrictRelationsAliasAnalysis.cpp:1146-1220 | the GT-side mirror of ResolvePHILT |
| Order.AddLTsSound | StrictRelationsAliasAnalysis.cpp:985-996 | inserting variables that are smaller at run time keeps every recorded fact true |
| Order.AddGTsSound | StrictRelationsAliasAnalysis.cpp:999-1010 | inserting variables that are larger at run time keeps every recorded fact true |
| Order.ResolveSound | StrictRelationsAliasAnalysis.cpp:1012-1220 | if the recorded facts and the constraint hold of run-time values, the facts after resolving hold too |
| Order.AddLTsNoop | StrictRelationsAliasAnalysis.cpp:985-996 | inserting variables already in LT(x) changes nothing |
| Order.AddGTsNoop | StrictRelationsAliasAnalysis.cpp:999-1010 | inserting variables already in GT(x) changes nothing |
| Order.SatisfiedStable | StrictRelationsAliasAnalysis.cpp:1012-1220 | resolving a constraint that is already satisfied changes nothing |
| Order.ResolveSatisfies | StrictRelationsAliasAnalysis.cpp:1012-1127 | after resolving an LT, LE, REQ or EQ constraint it is satisfied |
| Order.SatisfiedLocal | StrictRelationsAliasAnalysis.cpp:1032-1035 | whether a constraint is satisfied depends only on its own variables' sets, which is why only their constraints are requeued |
| VariableArena.Variables.NewVariable | StrictRelationsAliasAnalysis.h:197-200 | a new variable gets the next handle, empty LT, GT and constraint sets, and a must-alias class holding itself |
| VariableArena.Variables.InsertLT | StrictRelationsAliasAnalysis.cpp:985-996 | the new sets are AddLTs of the old ones, and the changed set gains exactly the variables that changed |
| VariableArena.Variables.InsertGT | StrictRelationsAliasAnalysis.cpp:999-1010 | the new sets are AddGTs of the old ones, and the changed set gains exactly the variables that changed |
| VariableArena.Variables.InsertAllLT | StrictRelationsAliasAnalysis.cpp:1024-1026 | the loop of insertLT calls yields AddLTs of the whole set and records exactly the changed variables |
| VariableArena.Variables.InsertAllGT | StrictRelationsAliasAnalysis.cpp:1029-1031 | the loop of insertGT calls yields AddGTs of the whole set and records exactly the changed variables |
| VariableArena.Variables.ApplyLT | StrictRelationsAliasAnalysis.cpp:1012-1040 | LT::resolve leaves the sets at Order.Resolve of the old ones and reports exactly the changed variables |
| VariableArena.Variables.ApplyLE | StrictRelationsAliasAnalysis.cpp:1041-1067 | LE::resolve leaves the sets at Order.Resolve of the old ones and reports exactly the changed variables |
| VariableArena.Variables.ApplyREQ | StrictRelationsAliasAnalysis.cpp:1068-1101 | REQ::resolve leaves the sets at Order.Resolve of the old ones and reports exactly the changed variables |
| VariableArena.Variables.ApplyEQ | StrictRelationsAliasAnalysis.cpp:1103-1127 | EQ::resolve leaves the sets at Order.Resolve of the old ones and reports exactly the changed variables |
| VariableArena.Variables.ApplyPHI | StrictRelationsAliasAnalysis.cpp:1146-1220 | PHI::resolve leaves the sets at Order.Resolve of the old ones and reports exactly the changed variables |
| VariableArena.Variables.Apply | StrictRelationsAliasAnalysis.cpp:1012-1220 | dispatch on the constraint kind leaves the sets at Order.Resolve of the old ones |
| VariableArena.Variables.GrowsUpCheck | StrictRelationsAliasAnalysis.cpp:1156 | the scan answers whether some operand has the left variable in its LT set |
| VariableArena.Variables.GrowsDownCheck | StrictRelationsAliasAnalysis.cpp:1157 | the scan answers whether some operand has the left variable in its GT set |
| VariableArena.Intersect | StrictRelationsAliasAnalysis.cpp:1129-1135 | the loop computes the intersection of the two sets |
| VariableArena.Unionize | StrictRelationsAliasAnalysis.cpp:1137-1144 | the loop computes the union of the two sets |
| VariableArena.PhiBoundOf | StrictRelationsAliasAnalysis.cpp:1158-1201 | the loop over the operands computes the PHI bound whose members ResolvePHILT/GT characterise |
| Worklist.NotWokenUntouched | StrictRelationsAliasAnalysis.cpp:1032-1035 | a constraint that is not requeued mentions no variable that changed |
| Worklist.StepSettles | StrictRelationsAliasAnalysis.cpp:1268-1276 | after one resolve and its requeues, every constraint off the queue is still satisfied |
| Worklist.WorkListEngine.Add | StrictRelationsAliasAnalysis.cpp:1278-1284 | a constraint not yet queued is appended and flagged; a queued one stays put; the flag is true exactly for queued constraints |
| Worklist.WorkListEngine.Requeue | StrictRelationsAliasAnalysis.cpp:1032-1035 | exactly the constraints of the changed variables, other than the one resolved, are added to the queue |
| Worklist.WorkListEngine.Resolve | StrictRelationsAliasAnalysis.cpp:1012-1035 | one resolve moves the sets to Order.Resolve of the old ones and requeues the constraints of exactly the changed variables |
| Worklist.WorkListEngine.Solve | StrictRelationsAliasAnalysis.cpp:1268-1276 | the loop terminates with an empty queue and sets that only grew; every non-PHI constraint is then a fixpoint |
| Worklist.WorkListEngine.NewConstraint | StrictRelationsAliasAnalysis.cpp:67-70 | a new constraint is recorded in the uses of each of its variables and queued |
| Primitives.NumPrimitives | StrictRelationsAliasAnalysis.cpp:1325-1360 | the number of primitive units of a type is never negative |
| Primitives.LayoutNonNegative | StrictRelationsAliasAnalysis.cpp:1363-1408 | every entry of a primitive layout is non-negative |
| Primitives.ArrayOffset | StrictRelationsAliasAnalysis.cpp:1363-1408 | in an array layout, the units before element c are c times the element's units |
| Primitives.StructOffset | StrictRelationsAliasAnalysis.cpp:1363-1408 | in a struct layout, the units before field c are the sum of the units of the fields before it |
| Primitives.LayoutSum | StrictRelationsAliasAnalysis.cpp:1325-1408 | a layout's entries add up to the type's number of primitives |
| Primitives.PrefixMonotone | StrictRelationsAliasAnalysis.cpp:1301-1308 | prefix sums over a non-negative layout are non-negative and do not decrease |
| Primitives.SumBehindMonotone | StrictRelationsAliasAnalysis.cpp:1301-1308 | getSumBehind over a non-negative layout is non-negative and does not decrease in its index |
| Primitives.Unsigned | StrictRelationsAliasAnalysis.cpp:1301 | the conversion to unsigned int yields a value below 2^32 |
| Primitives.ClampIndex | StrictRelationsAliasAnalysis.cpp:711-721 | the clamped bound is below 2^32 and equals the bound when it is already in range |
| Primitives.StepContains | StrictRelationsAliasAnalysis.cpp:711-721 | the corrected range added by a variable index contains the offset of every index in the oracle's range |
| Primitives.StepAsWrittenMisses | StrictRelationsAliasAnalysis.cpp:711-721 | as written, an index range [-1, 1] yields an empty range that misses the offset of index 0 |
| Primitives.ConstWalkGrows | StrictRelationsAliasAnalysis.cpp:695-710 | constant later indexes never move the offset below where it started |
| Primitives.ConstWalkSingleton | StrictRelationsAliasAnalysis.cpp:695-710 | with constant later indexes, a one-point range stays a one-point range at the constant offset |
| Primitives.ConstGepSingleton | StrictRelationsAliasAnalysis.cpp:663-727 | a GEP whose indexes are all constant gets the one-point range of its constant offset |
| Primitives.GepExample | StrictRelationsAliasAnalysis.cpp:663-727 | a struct {i1, [3 units]} indexed by 3, 1 has offset exactly 13 |
| Primitives.GetSumBehind | StrictRelationsAliasAnalysis.cpp:1301-1308 | the loop sums exactly the layout entries before the index |
| Primitives.PrimitivesCache.GetNumPrimitives | StrictRelationsAliasAnalysis.cpp:1325-1360 | returns the type's number of primitives; the cache only grows, and a cached type is answered without change |
| Primitives.PrimitivesCache.GetPrimitiveLayout | StrictRelationsAliasAnalysis.cpp:1363-1408 | returns the type's layout; the caches only grow, and a cached type is answered without change |
| Primitives.ProcessGEP | StrictRelationsAliasAnalysis.cpp:663-727 | the loop over the indexes computes GepOffset, the range of the GEP's offset from its base, with variable-index bounds clamped as in the corrected half of the cpp:711-721 finding |
| Primitives.WalkKeepsSentinels | StrictRelationsAliasAnalysis.cpp:695-724 | once a bound of the offset range is a sentinel, the later indexes keep it one |
| Primitives.StepNonNegative | StrictRelationsAliasAnalysis.cpp:702-723 | a later index never adds a negative lower bound |
| Primitives.WalkContains | StrictRelationsAliasAnalysis.cpp:695-724 | when the final range has no sentinel bound, the walk over the later indexes holds the exact offset of every choice of index values the ranges allow |
| Primitives.GepContains | StrictRelationsAliasAnalysis.cpp:660-727 | the promise of processGEP: when neither bound is a sentinel, the GEP's range holds the offset of every choice of index values the ranges allow |
| Compare.CompareValuesSound | StrictRelationsAliasAnalysis.cpp:778-802 | a verdict of L, G or E is true of the run-time values whenever the arena facts and oracle ranges hold |
| Compare.CompareValuesAsWrittenEqualRanges | StrictRelationsAliasAnalysis.cpp:794-795 | as written, two values with the same range [0, 10] get E although they may differ |
| Compare.FoldIsOverall | StrictRelationsAliasAnalysis.cpp:809-836 | folding the pair verdicts from a start verdict equals the overall verdict of the start verdict and the pairs |
| Compare.FoldSnoc | StrictRelationsAliasAnalysis.cpp:819-831 | one more loop iteration combines the verdict so far with the next pair's |
| Compare.PairVerdicts | StrictRelationsAliasAnalysis.cpp:812-834 | one verdict per position of the longer index list, each from the corrected compareValues |
| Compare.OverallN | StrictRelationsAliasAnalysis.cpp:829-830 | one N among the pair verdicts makes the whole comparison N |
| Compare.CompareGEPs | StrictRelationsAliasAnalysis.cpp:805-837 | the loop, with its early exit on N, returns the overall verdict of the pair verdicts of the corrected compareValues |
| Compare.CompareGEPsLess | StrictRelationsAliasAnalysis.cpp:805-837 | a verdict of L means no index of the first GEP is above the second's and one is below |
| Compare.CompareGEPsGreater | StrictRelationsAliasAnalysis.cpp:805-837 | a verdict of G means no index of the first GEP is below the second's and one is above |
| Compare.CompareGEPsAsWrittenUnsound | StrictRelationsAliasAnalysis.cpp:794-795 | as written, a pair E and L folds into L although the first index is larger at run time |
| Collect.Least | StrictRelationsAliasAnalysis.cpp:854-855 | the representative of a node is a member of its variables no larger than any other |
| Collect.FirstVariable | StrictRelationsAliasAnalysis.cpp:854-855 | the scan finds the least variable of a node |
| Collect.Enumerate | StrictRelationsAliasAnalysis.cpp:843-849 | the iteration visits each member of a set exactly once |
| Collect.EnumeratedSiblings | StrictRelationsAliasAnalysis.cpp:843-849 | in an intact graph, enumerating the out-edges of every node lists usable sibling edges |
| Collect.GepVerdict | StrictRelationsAliasAnalysis.cpp:860-874 | the corrected index test: N for GEPs over different element types, the compareGEPs verdict for GEPs over the same one |
| Collect.PairOf | StrictRelationsAliasAnalysis.cpp:853-881 | the constraint made for two sibling edges is the corrected PairConstraint: the source's order of tests, with compareGEPs consulted only for GEPs over the same element type |
| Collect.PairConstraintSound | StrictRelationsAliasAnalysis.cpp:853-881 | the corrected constraint of two sibling edges holds of the addresses when edge ranges hold the offsets and the addresses of GEPs over the same element type follow their indexes |
| Collect.PairConstraintAsWrittenCastMix | StrictRelationsAliasAnalysis.cpp:853-866 | as written, `gep i32* p, 1` and `gep i8* q, 2` with q a cast of p get LT(j, k) although j's address is the larger, with every premise of CollectedSound holding; the corrected test emits LT(k, j) |
| Collect.RowSound | StrictRelationsAliasAnalysis.cpp:850-882 | every constraint of one edge against its later siblings holds |
| Collect.RowsSound | StrictRelationsAliasAnalysis.cpp:846-883 | every constraint of one node's edge pairs holds |
| Collect.GroupSound | StrictRelationsAliasAnalysis.cpp:846-883 | every pair of one node's out-edges yields a constraint that holds |
| Collect.CollectedSound | StrictRelationsAliasAnalysis.cpp:842-885 | every constraint the corrected pair test collects from the graph holds of the addresses, under three premises: each edge's range holds the offset of its target from its source (`Offsets`), a node's variables share its address (`Laid`), and the addresses of GEPs over the same element type follow their indexes (`GepMonotone`) |
| Collect.CollectedPrefix | StrictRelationsAliasAnalysis.cpp:842-885 | the constraints of the first nodes do not depend on the nodes visited later |
| Collect.ListedEnumerates | StrictRelationsAliasAnalysis.cpp:843-849 | when the loop has visited every node, the groups it listed enumerate the graph's out-edges |
| Collect.CollectConstraints | StrictRelationsAliasAnalysis.cpp:842-885 | the nested loops register exactly the constraints of the corrected pair test, in iteration order, and the engine stays valid |
| Collect.CollectGroup | StrictRelationsAliasAnalysis.cpp:845-883 | one node's iteration registers exactly the constraints of its edge pairs |
| Collect.CollectNode | StrictRelationsAliasAnalysis.cpp:846-883 | the two loops over one node's out-edges register exactly that node's pair constraints |
| Collect.CollectRow | StrictRelationsAliasAnalysis.cpp:850-882 | the inner loop registers exactly the constraints of one edge against its later siblings |
| Collect.CollectPair | StrictRelationsAliasAnalysis.cpp:853-881 | one pair registers its constraint if it has one, and nothing otherwise |
| DepGraphs.WithVariable | StrictRelationsAliasAnalysis.cpp:1411-1416 | a variable without a node gets a fresh one; every other variable and edge is unchanged |
| DepGraphs.Redirect | StrictRelationsAliasAnalysis.cpp:1433-1434 | exactly the listed edges now point to the new target; the rest are unchanged |
| DepGraphs.WithVariableValid | StrictRelationsAliasAnalysis.cpp:1411-1416 | addVariable keeps the graph intact: variables map to live nodes, and edges and in-edge lists agree |
| DepGraphs.MergeValid | StrictRelationsAliasAnalysis.cpp:1429-1436 | folding one node into another keeps the graph intact |
| DepGraphs.MergeJoins | StrictRelationsAliasAnalysis.cpp:1429-1436 | folding node a into b joins exactly the variables of a and b |
| DepGraphs.AddedClass | StrictRelationsAliasAnalysis.cpp:1420-1427 | adding two variables leaves every old variable where it was |
| DepGraphs.CoalescedValid | StrictRelationsAliasAnalysis.cpp:1418-1437 | the corrected coalesce keeps the graph intact, so no variable is left on a deleted node |
| DepGraphs.CoalescedShape | StrictRelationsAliasAnalysis.cpp:1418-1437 | after coalesce(V1, V2) both variables share a node and every edge keeps its range |
| DepGraphs.CoalescedJoins | StrictRelationsAliasAnalysis.cpp:1418-1437 | after coalesce two old variables share a node exactly when they did before or each shared one with V1 or V2 |
| DepGraphs.CoalescedIdempotent | StrictRelationsAliasAnalysis.cpp:1418-1437 | coalescing the same pair twice changes nothing the second time |
| DepGraphs.WithEdgeValid | StrictRelationsAliasAnalysis.cpp:1439-1457 | addEdge, with the corrected coalesce on a [0, 0] range, keeps the graph intact |
| DepGraphs.WithEdgeEffect | StrictRelationsAliasAnalysis.cpp:1439-1457 | addEdge is a no-op within one node, applies the corrected coalesce on a [0, 0] range, and otherwise adds one edge from B's node to A's |
| DepGraphs.CoalesceChainDangles | StrictRelationsAliasAnalysis.cpp:1429-1436 | as written, coalesce(A, B) then coalesce(B, C) leaves A on a deleted node |
| DepGraphs.CoalesceTwiceDeletesLive | StrictRelationsAliasAnalysis.cpp:1429-1436 | as written, coalescing the same pair twice deletes the node both variables are on |
| DepGraphs.DepGraph.AddVariable | StrictRelationsAliasAnalysis.cpp:1411-1416 | the object's graph becomes WithVariable of the old one and stays intact |
| DepGraphs.DepGraph.Coalesce | StrictRelationsAliasAnalysis.cpp:1418-1437 | the object's graph becomes the corrected Coalesced of the old one and stays intact |
| DepGraphs.DepGraph.Fold | StrictRelationsAliasAnalysis.cpp:1429-1436 | the loops of the corrected coalesce move all of a's variables (not only V1) and a's in-edges onto b, adding the in-edges to b's in-edge set, and delete a, giving Merge of the old graph |
| DepGraphs.DepGraph.AddEdge | StrictRelationsAliasAnalysis.cpp:1439-1457 | the object's graph becomes WithEdge of the old one, which calls the corrected coalesce, and stays intact |
| DepNodes.DepNode.constructor | StrictRelationsAliasAnalysis.h:224-228 | a new node has no edges, no provenance flags and a must-alias class of its own |
| DepNodes.DepNode.AddEdge | StrictRelationsAliasAnalysis.h:230-239 | the fresh edge joins exactly in's in-edges and out's out-edges |
| DepNodes.DepEdge.constructor | StrictRelationsAliasAnalysis.h:258-260 | the edge records its endpoints, range and offset |
| DepNodes.DepEdge.DeleteEdge | StrictRelationsAliasAnalysis.h:262-266 | the edge leaves exactly its two endpoints' edge sets |
| Translation.PositionsInjective | StrictRelationsAliasAnalysis.h:66-80 | two values share a position exactly when they are the same value |
| Translation.BijectionCount | StrictRelationsAliasAnalysis.h:60-75 | the translator holds exactly as many values as positions handed out |
| Translation.DecodeStable | StrictRelationsAliasAnalysis.h:157-160 | a set's members are undisturbed when the shared translator hands out new positions |
| Translation.DecodeIntersects | StrictRelationsAliasAnalysis.h:186-188 | two bit sets share a bit exactly when the sets share a member |
| Translation.DecodeMember | StrictRelationsAliasAnalysis.h:161-165 | a value is a member exactly when its position is set |
| Translation.Translator.AddValue | StrictRelationsAliasAnalysis.h:66-75 | a new value gets the next position in both tables; a known value changes nothing |
| Translation.Translator.GetPosition | StrictRelationsAliasAnalysis.h:77-80 | returns the value's position, stable for known values and the next one for new values |
| Translation.Translator.GetValue | StrictRelationsAliasAnalysis.h:82-85 | returns the value at a handed-out position, and NULL exactly for positions not handed out |
| Translation.VariableSet.constructor | StrictRelationsAliasAnalysis.h:180-182 | a new set over a translator has no members |
| Translation.VariableSet.Insert | StrictRelationsAliasAnalysis.h:157-160 | insert adds exactly v to the members; the translator keeps every old position and registers v and no other value |
| Translation.VariableSet.Erase | StrictRelationsAliasAnalysis.h:175-178 | erase removes exactly v from the members; the translator keeps every old position and registers v and no other value |
| Translation.VariableSet.Count | StrictRelationsAliasAnalysis.h:161-165 | count is 1 for a member and 0 otherwise, and the members are unchanged; the translator keeps every old position and registers v and no other value |
| Translation.VariableSet.Empty | StrictRelationsAliasAnalysis.h:184 | empty is true exactly when there are no members |
| Translation.VariableSet.Intersects | StrictRelationsAliasAnalysis.h:186-188 | intersects is true exactly when the two sets share a member |
| Analysis.OrderedSymmetric | StrictRelationsAliasAnalysis.cpp:975 | the NoAlias test gives the same answer with the pointers swapped |
| Analysis.OrderedDistinct | StrictRelationsAliasAnalysis.cpp:975-977 | when the facts are sound, pointers the test separates hold different addresses |
| Analysis.StrictRelations.VariableOf | StrictRelationsAliasAnalysis.cpp:971-974 | a pointer without a variable gets a fresh one with empty sets; a known pointer changes nothing |
| Analysis.StrictRelations.Alias | StrictRelationsAliasAnalysis.cpp:966-980 | NoAlias exactly when one pointer is in the other's LT or GT set, else the fallback; the query and NoAlias counters count; no old fact changes |

## Left out

- IR traversal: the walk over instructions and basic blocks that collects constraints (StrictRelationsAliasAnalysis.cpp:43-537) and builds the dependence graph (cpp:731-774) is not modelled. The rule tables are functions from operand ranges and handles to constraints, and the graph is built through `AddVariable`/`AddEdge`. LLVM's IR cannot be modelled here.
- The range oracle is a parameter: a map from values to ranges (`Facts.ra` in `Compare`, the ranges passed to `Rules`). The range analysis itself is not part of this model.
- `Ranges.Add`: APInt wrap-around at MAX_BIT_INT bits is not modelled. Bounds are unbounded integers, with sentinels Min/Max for -2^(w-1) and 2^(w-1)-1, and the sum is only stated away from the sentinels.
- `Primitives.FirstOffset`: fixed-width arithmetic is not modelled; bounds are products of unbounded integers. In the source:
  - the constant index is truncated to a 32-bit `int` at cpp:676;
  - at cpp:678-679 the `int` product wraps at 32 bits;
  - `APInt(MAX_BIT_INT, uint64_t)` then reads that product as unsigned, so a negative product becomes a large positive bound when MAX_BIT_INT exceeds 64;
  - at cpp:686 and 690 the products are APInt products that wrap at MAX_BIT_INT bits.
- `Primitives.NumPrimitives`: the `int` products at cpp:1337 and 1349 and the `int` sum at cpp:1343 wrap at 32 bits in the source. The model's counts are unbounded, and so are getSumBehind's `int` sum at cpp:1306 and the constant index truncated at cpp:703.
- `Primitives.GepOffset`: the model returns None in three cases where the source has no result. These are a GEP without indexes, a walk that reaches a type for which getTypeInside answers NULL, and a struct field index out of range. In the source, the first reads past the index list, the second passes NULL to getPrimitiveLayout, and the third trips getStructElementType's assertion.
- `Primitives.ProcessGEP`: it is built on `Step`, which clamps the bounds of a variable index (`ClampIndex`). At cpp:716-719 the source passes getSExtValue to getSumBehind's unsigned parameter instead. For [2 x i1] indexed by 0 and then [-1, 1], the model gives [0, 1] and the source gives [2, 1] (`Primitives.StepAsWrittenMisses`).
- `Compare.PairVerdicts`: it is built on the corrected `CompareValues`, not on `CompareValuesAsWritten` (cpp:794-795).
- `Compare.CompareGEPs`: it folds the corrected `CompareValues`. On the facts of `Compare.CompareGEPsAsWrittenUnsound` the source returns L and the model returns N.
- `Collect.PairOf`: its verdict comes from the corrected `CompareGEPs`, consulted only for GEPs over the same element type (`GepVerdict`). Where the source's compareValues says E for distinct values with equal ranges, or compares GEPs over different types, the source may emit an LT that the model does not.
- `Collect.CollectedSound`: it is proved for the corrected pair test (`PairConstraint`), not for the source's (`PairConstraintAsWritten`), which is unsound (`Compare.CompareGEPsAsWrittenUnsound`, `Collect.PairConstraintAsWrittenCastMix`).
- `Collect.CollectedSound`: `Offsets` is a premise, not derived. processGEP measures offsets in primitive units: a pointer counts as 1 (cpp:1354-1356), and alignment padding is never counted (cpp:1325-1360). So the premise holds only where those units track the addresses, which excludes structs with a pointer field or padding. The addresses of the lemma are therefore in the same units as the edge ranges, not bits.
- `DepGraphs.WithEdge`: on a [0, 0] range it calls the corrected `Coalesced`, where cpp:1446 calls coalesce as written (`CoalescedAsWritten`).
- `DepGraphs.WithEdgeValid`: validity is promised for addEdge with the corrected coalesce only. With coalesce as written, addEdge on a [0, 0] range can leave A's node-mates on a deleted node (`DepGraphs.CoalesceChainDangles`).
- The SparseBitVector behind `VariableSet` is the set of its one bits.
- Printing (`print`, `printStrictRelations`, `printConstraints`), pass registration, `getAnalysisUsage` and the LLVM statistics are not modelled. `numQueries`/`numNoAlias` stand for the two statistics `alias` updates.
- Members declared in the header but not defined in either file are not modelled (`getPathToRoot`, `local_root`, `DepGraph` node printing).
- `delete`: destructors and freeing are not modelled. `DepEdge.DeleteEdge` only unregisters the edge.
- Pointer order: the source takes the first element of a `std::set<Variable*>`, the least pointer. The model uses the least handle (`Collect.Least`).
- Set iteration order: `std::set` and `std::map` iterate in pointer order. The model iterates in an order of its choosing (`Collect.Enumerate`), and the proofs hold for any order.
- `Collect.CollectConstraints`: `idx` maps each GEP to the element type its base points to and to its index operands. The link between the addresses and the indexes of GEPs over the same element type (`GepMonotone`) is a premise of `CollectedSound`, not derived from LLVM semantics. The constraints registered are those of the corrected pair test (`PairConstraint`): compareValues is the corrected one, and GEPs over different element types are ordered by their ranges alone.
- `DepNodes`: the header's DepNode/DepEdge classes differ from the dependence graph the .cpp file builds (`DepGraph` with `nodes`/`edges` maps). The two are modelled separately (`DepNodes`, `DepGraphs`).
- `Translation.Translator`: `next_i` is unbounded, so its wrap-around is not modelled. The source gives `next_i` no initial value and never allocates the global translator; the model's translator starts empty at position 0.
- `DepGraphs.DepGraph.AddEdge`: the overloads with and without an offset value are one method taking the GEP handle. On a [0, 0] range it runs the corrected `Coalesce`, not coalesce as written.
- `Order.ResolveSound`: soundness is shown for PHI only when the left variable does not grow in exactly one direction. The one-directional branch as written takes the union of the dominating operands' sets (`Order.PhiOneWayIsJoin`). The model states no soundness property of that branch.
- `Order.PhiOneWayIsJoin`: the comment at cpp:1161 describes the intersection of the non-dominating operands' sets joined with the union of the dominating operands' sets. The code starts that intersection from a dominating operand's set, so the union absorbs it. The model follows the code.
- `Worklist.WorkListEngine.Add`: the header declares `add(Constraint*)` with a default `isnew` of true. The .cpp definition is modelled.
- `Rules.TrueSigmaRule`/`FalseSigmaRule`: unsigned and signed predicates share one table in the source, and both are read as signed comparisons.
- `Variable::constraints` is the arena's `uses` sequence of constraint ids.
- `runOnModule` (cpp:887-911): the phase ordering is not a member of the model. Each phase is modelled on its own.
- `Worklist.WorkListEngine.Solve`: the fixpoint is stated for non-PHI constraints only. The model does not prove that resolving a PHI a second time adds nothing.

## Findings

| source | as written | input that shows it | evidently intended | confidence | as-written member | corrected member |
|---|---|---|---|---|---|---|
| StrictRelationsAliasAnalysis.cpp:711-721 | a variable index's lower bound goes through `getSExtValue` into getSumBehind's unsigned parameter, so a negative bound becomes huge | index range [-1, 1] into [2 x i1] gives the range [2, 1], which does not contain the offset 0 of index 0 | negative bounds count as index 0, so the range holds every reachable offset | not executed | Primitives.StepAsWrittenMisses | Primitives.GepContains |
| StrictRelationsAliasAnalysis.cpp:794-795 | compareValues returns E whenever the two ranges are equal | two indexes both in [0, 10] holding 1 and 0 get E; in a GEP pair, E then L folds to L although the first address is larger | E only for values known to be equal (the same value, or the same one-point range) | not executed | Compare.CompareValuesAsWrittenEqualRanges | Compare.CompareValuesSound |
| StrictRelationsAliasAnalysis.cpp:853-866 | compareGEPs is consulted for any two sibling GEPs, although coalescing casts (cpp:752-761) lets GEPs over different element types share a base node | `gep i32* p, 1` (range [32, 32]) and `gep i8* q, 2` with q a bitcast of p (range [16, 16]): the ranges do not order j below k, the indexes 1 < 2 give L, and LT(j, k) is emitted although j's address is p + 32 and k's is p + 16 | compare the indexes only of GEPs over the same element type, and order the others by their ranges alone; this is sound only where the ranges hold the address offsets (`Offsets`), which processGEP's primitive units (a pointer is 1, no padding) do not give for every type | not executed | Collect.PairConstraintAsWrittenCastMix | Collect.CollectedSound |
| StrictRelationsAliasAnalysis.cpp:1429-1436 | coalesce copies V1's node's variables and edges into V2's node, but remaps only V1 itself, and deletes V1's node even when it is V2's | coalesce(A, B) then coalesce(B, C) leaves A on a deleted node; coalesce(A, B) twice deletes the node A and B share | every variable of the deleted node moves to the surviving node, and a pair already together is left alone | not executed | DepGraphs.CoalesceChainDangles | DepGraphs.CoalescedValid |
