# Verified models of bsim

bsim reads a flat gate netlist and recovers higher-level components from it. This project models the
parts of it that carry hard claims, and proves the claims: that cleaning up the netlist keeps
exactly its solutions, that covers are classified by function up to the order of their inputs, that overlaps
among the recovered modules are eliminated by any solution of the constraints, that the counter checks
and the search that uses them find the counters, and that groups, chains and bit functions are what they
are meant to be.

The files follow the program's parts.

| file | part |
|---|---|
| `Sequences.dfy`, `BoolFunctions.dfy`, `Permutations.dfy` | repetition-free lists; Boolean functions with extensional equality, one family per number of arguments (standing for decision diagrams); permutations in the order `std::next_permutation` visits them |
| `Netlists.dfy` | gate graphs, library cells, and the value every node takes |
| `Rewriting.dfy`, `MergeCycles.dfy` | the clean-up of the netlist: inverter merging, buffer bypassing, dead nodes; and when the merge closes a loop or does not end |
| `Covers.dfy`, `CoverLists.dfy`, `CoverChoices.dfy`, `FunctionTables.dfy` | covers of gates, the lists of covers kept for every node and which choices of covers they stand for, the table of their functions up to permutation, and the slices lined up by it |
| `Cones.dfy`, `Slices.dfy`, `Encodings.dfy`, `Overlaps.dfy`, `OverlapElimination.dfy` | modules cut into slices, the 0/1 constraints made from them, and what carrying out a solution leaves |
| `CounterChecks.dfy`, `CounterArithmetic.dfy`, `CounterQueries.dfy`, `CounterWirings.dfy`, `CounterLists.dfy`, `CounterGaps.dfy`, `CounterSearch.dfy` | the counter checks as they are meant and as the queries are posed, counting modulo 2^n, the wirings on which both agree whatever the cells, and the search |
| `Groupings.dfy`, `Chains.dfy` | the two union-find groupings; chains of bit slices |
| `BitArithmetic.dfy`, `PopCounts.dfy` | demultiplexer bits and population counts |

Nodes are positions in a node table, and a netlist is the table together with the list of inputs of each
node. Where a property needs a netlist without loops, the absence of loops is a stated precondition,
witnessed by a ranking of the nodes; the clean-up is about the solutions of netlists that may have loops, and
the cones of modules are computed on any wiring, with loops too.

Four results say that the code does something other than its description:

* The cover that opens a class of the function table keeps the permutation visited last
  (verilog/flat_module.cpp:4304), so its slice is lined up with the class exactly when the function does
  not depend on the order of its inputs at all (`OpeningCoverAlignedIff`).
* Inverter merging can close a loop when an inverter has a second, unused pin, as the cell at
  verilog/library.cpp:972 has. `MergeSafeIff` gives the exact condition: some ranking of the nodes puts
  inverters of equal chain bottom and chain depth on one rank if and only if no order of the gate list makes
  the merging run close a loop; netlists whose inverters have one pin all meet it (`SinglePinsAreSafe`).
  `TwoPinMergeClosesLoop` is a run that closes one. The solutions of the netlist stay the same even then.
* Counter checks t2 and t3 do not rename the gates inside the two copies of a fanin cone
  (verilog/counter.cpp:556-665, verilog/sat.cpp:245-275). They accept everything their comments describe
  (`CountsAreAccepted`), and `QueryHoldIff` and `QueryAlikeIff` say exactly what else: assignments that a
  gate with a shared literal tells apart are not compared. For every choice of cells the four queries are right
  about a position exactly when no gate common to the cones of that latch input and the one below reads a
  counter latch (`AcceptedIffWiring`); where they share a carry chain, cells exist that are accepted and do
  not count, also in a netlist of library cells and plain flip-flops (`QueriesAcceptMore`).
* `analyzeCommonInputs` skips latch gates as the first of two nodes but not as the second; the groups are
  the classes of equal support exactly when every latch gate in the list comes first in its class
  (`Groupings.CommonInputs`).

Both rewrites repeat passes until one changes nothing. Buffer bypassing ends on every netlist
(`RewriteBuffers`), inverter merging on every netlist in which no loop runs through first inputs of inverters
only (`RewriteInverters`); with such a loop it may go on for ever (`MergeNeedNotEnd`).

## Model

| member | source | states |
|---|---|---|
| Netlists.LibraryCell | verilog/library.cpp:365-395 | the buffer and inverter flags are set exactly when the whole cell function is that of the first input or of its complement, the NOR2XB flag exactly when it is the negated or of two inputs, one of them complemented |
| Netlists.BufferAndInverterValues | verilog/library.cpp:365-395 | the flags justify the rewrites: a flagged gate has its first input's value or the complement |
| Rewriting.RedirectKeepsSolution | verilog/flat_module.cpp:2715-2738 | if two nodes have the same value in an assignment, letting the readers of one read the other makes it neither a solution nor stops it from being one |
| Rewriting.RedirectKeepsInverse | verilog/flat_module.cpp:2715-2738 | moving the fanouts along with the readers keeps fanouts the exact inverse of inputs |
| Rewriting.FlatModule.RewriteNodes | verilog/flat_module.cpp:2715-2738 | whoever read the old node reads the new one at the same input, all other inputs stay; the fanouts move, and the result says whether there were any |
| Rewriting.BypassKeepsSolutions | verilog/flat_module.cpp:2669-2695 | on any netlist, loops or not, bypassing a gate keeps exactly the solutions: the gate still has the same source afterwards |
| Rewriting.OwnSourceIsLoop | verilog/flat_module.cpp:2669-2695 | a bypassable gate is its own source only in a netlist with a loop |
| Rewriting.FlatModule.BypassGate | verilog/flat_module.cpp:2669-2695 | one step of buffer rewriting keeps all solutions and every ranking, and leaves one read node less whenever it changes something; otherwise the gate is not read as a buffer or double inverter, or is its own source |
| Rewriting.FlatModule.RewriteBuffers | verilog/flat_module.cpp:2669-2695 | on every netlist, loops or not, the fixpoint is reached and exactly the solutions are kept, and with them, where there are no loops, all meanings; every ranking stays one; a read only ever moves across buffers and pairs of inverters, and a read of a latch gate never; afterwards nobody reads a buffer, or an inverter of an inverter, outside the latch gates, unless it reads itself that way |
| Rewriting.SkipKeepsValue | verilog/flat_module.cpp:2669-2695 | along a way through buffers and inverters the value is complemented as often as an inverter is passed, so skipping an even number changes nothing |
| Rewriting.BypassSkips | verilog/flat_module.cpp:2669-2695 | bypassing a gate whose inputs have moved already still moves its readers across an even number of inverters only |
| Rewriting.ChainValue | verilog/flat_module.cpp:2637-2667 | where inverter chains end, a node has the value of its chain bottom in every solution, complemented once per inverter |
| Rewriting.RecordedHasSameValue | verilog/flat_module.cpp:2637-2667 | an entry of the memo map that has gone stale still names an inverter of the same chain bottom and depth as the inverter to be merged, whose value is the same in every solution |
| Rewriting.TwinKeepsSolutions | verilog/flat_module.cpp:2637-2667 | reading an inverter of the same chain bottom and depth instead keeps exactly the solutions, whatever other loops there are |
| Rewriting.MergeStepMeaning | verilog/flat_module.cpp:2637-2667 | merging an inverter into the recorded one keeps exactly the solutions and the memo map good, whether or not a loop is closed |
| Rewriting.PassCompletesDepth | verilog/flat_module.cpp:2637-2667 | each pass settles the inverters of one more chain depth, which bounds the number of passes |
| Rewriting.FlatModule.MergeInverter | verilog/flat_module.cpp:2637-2667 | one gate of a merging pass: solutions and memo invariant kept, and the pass goes on exactly as the functional run does |
| Rewriting.FlatModule.RewriteInverters | verilog/flat_module.cpp:2637-2667 | on every netlist in which inverter chains end, inverters with any number of pins and other loops or not, the fixpoint is reached and exactly the solutions are kept, even if a loop is closed, which a safe netlist rules out; a loop-free netlist keeps its meaning exactly if no loop is closed; reads only move from one inverter to another, latch gates aside, and two of those that are read have different inputs |
| Rewriting.SinglePinsAreSafe | verilog/flat_module.cpp:2637-2667 | in a loop-free netlist whose inverters have one pin the merge is always safe |
| Rewriting.SafeRunIsAcyclic | verilog/flat_module.cpp:2637-2667 | from a safe netlist no number of merging passes closes a loop |
| Rewriting.DeadIsReadByDead | verilog/flat_module.cpp:2740-2757 | whoever reads a dead node is dead |
| Rewriting.FlatModule.RemoveDeadNodes | verilog/flat_module.cpp:2740-2757 | the single backward sweep takes exactly the gates that are no outputs, have one input or, if asked for, are NOR2XB gates, and whose readers all come later in the list, died, and read them first; only gates die; fanouts stay but for those readers; whatever an output or a node that is no gate depends on stays alive, and no live node reads a dead one |
| Rewriting.DeadMeans | verilog/flat_module.cpp:2740-2757 | the sweep, described step by step, loses exactly those gates and those fanouts and nothing that is needed |
| Rewriting.FlatModule.CreateFanouts | verilog/flat_module.cpp:2777-2790 | from empty lists, the fanouts of a node become exactly those that read it, without repetition |
| Rewriting.FlatModule.CleanUp | verilog/flat_module.cpp:95-115 | on every netlist in which inverter chains end the whole clean-up keeps exactly the solutions: first inverters are merged, as the functional run does, then reads move across buffers and inverter pairs, then exactly the gates that die are marked, none of them an output or needed by one; a loop-free netlist keeps its meaning exactly if it ends up loop-free, which a safe one does; no bypassable gate is read unless it is its own source, and no live node reads a dead one |
| MergeCycles.RedirectKeepsAcyclicIff | verilog/flat_module.cpp:2715-2738 | redirecting from an old to a new node keeps a loop-free netlist loop-free if and only if no reader of the old node feeds the new one |
| MergeCycles.TwoPinMergeClosesLoop | verilog/flat_module.cpp:2637-2667 | a loop-free netlist with two-pin inverters on which the merging run with the gates in the order 2, 1 closes a loop, after any number of passes |
| MergeCycles.UnsafeMergeClosesLoop | verilog/flat_module.cpp:2637-2667 | for every unsafe netlist there is an order of the gate list in which the run closes a loop in its first pass and never opens it again |
| MergeCycles.MergeSafeIff | verilog/flat_module.cpp:2637-2667 | a loop-free netlist is safe if and only if the run closes no loop for any order of the gate list |
| MergeCycles.MergeRunKeepsSolution | verilog/flat_module.cpp:2637-2667 | on any netlist, inverters in a loop or not, no number of passes loses a solution, and every entry of the memo map pairs opposite values in it |
| MergeCycles.MergeNeedNotEnd | verilog/flat_module.cpp:2637-2667 | three inverters, one of them reading itself, on which every pass changes the netlist |
| Permutations.AllPermutationsComplete | verilog/flat_module.cpp:4285-4312 | the permutations visited are all permutations, each once |
| Permutations.AllPermutationsInOrder | verilog/flat_module.cpp:4285-4312 | the identity comes first, and of two of them the earlier one has the smaller element where they first differ |
| Permutations.PermuteCompose | verilog/flat_module.cpp:4285-4312 | permuting a function twice is permuting it once by the composition, which closes the table under permutation |
| Covers.CutValueIsNodeValue | verilog/kcover.cpp:182-215 | the function of a cover applied to the values of its leaves is the value of its root |
| Covers.GatherGetFn | verilog/kcover.cpp:182-194 | reordering the leaves of a cover permutes its function accordingly |
| Covers.KCover.AddLeaf | verilog/kcover.cpp:12-17 | the leaves gain the node and nothing else, keep their order and stay without repetition |
| Covers.MergedCount | verilog/kcover.cpp:53-80 | the count of common leaves, subtracted from both sizes, is the exact number of leaves of the merged cover before it is built |
| Covers.KCover.SimpleMergeInternal | verilog/kcover.cpp:53-111 | null exactly when the merged cover would exceed the threshold; otherwise its leaves and internals are the merged ones and disjoint, the leaves being those of the one cover and then the new ones of the other, each in its order and without what became internal |
| Covers.KCover.SimpleMerge | verilog/kcover.cpp:20-51 | null exactly when both covers together have too many leaves; otherwise the leaves of this one followed by the new ones of the other |
| Covers.ExtendedAppends | verilog/kcover.cpp:20-111 | the leaves added are exactly those neither internal nor listed before, in the order of the other cover |
| Covers.MergeKeepsEnclosed | verilog/kcover.cpp:53-111 | in the merged cover every internal node but the root has its inputs among internals and leaves |
| Covers.EnclosedIsCutOff | verilog/kcover.cpp:182-194 | if every gate inside reads only nodes inside or leaves, every way down ends in a leaf |
| Covers.MergedCutsOff | verilog/kcover.cpp:53-120 | merging with internals, at a gate whose inputs the two covers enclose, gives a cover that cuts off the gate |
| CoverLists.KeptCutOff | verilog/kcover.cpp:233-314 | what one of the merged covers cuts off is still cut off when leaves internal to another of them are dropped |
| CoverLists.Prune | verilog/kcover.cpp:233-254 | a merged cover is left as it is if for every leaf some values of the leaves make flipping that leaf alone change the value; otherwise exactly the leaves go that lie between the root and the leaves of a cover it was merged from, the others keep their order, and the internals are those inner nodes and the gate |
| CoverLists.PrunedIsCut | verilog/kcover.cpp:233-314 | merging one cover of each input of a gate gives, pruned or not, a cover without repetition that cuts off the gate |
| CoverLists.CoverMaker.ComputeCovers | verilog/node.cpp:498-535 | the recursion adds exactly the pruned merges of one cover from each list that never exceed kcoverTh leaves on the way and end with at most kcoverSize, no set of leaves twice |
| CoverLists.CoverMaker.GetKCovers | verilog/node.cpp:395-411 | the lists are made once; the list of a gate is complete in that sense over the lists of its inputs and ends with the gate itself, that of anything else is the node itself |
| CoverLists.CoverMaker.EntryIsCuts | verilog/node.cpp:395-411 | every cover in a list cuts off its node, without repetition; all but the last have at most kcoverSize leaves, and either every leaf matters or no leaf is an internal |
| CoverChoices.ChoiceIsListed | verilog/node.cpp:498-535 | for every choice of one cover for each input of a gate whose leaves never exceed kcoverTh, taken from the first input on, the list has a cover with the leaves that pruning it leaves, unless these are more than kcoverSize |
| CoverChoices.ListedIsChoice | verilog/node.cpp:498-535 | every cover in the list of a gate but the last comes from such a choice, pruned |
| CoverChoices.ListedIsExact | verilog/kcover.cpp:299-314 | where every gate has inputs, the internals computed for a listed cover, pruned at whatever depth, are exactly the nodes between its root and its leaves |
| CoverLists.AnalyzeGate | verilog/flat_module.cpp:3942-3956 | every cover in the list of a gate is entered into the function table: an entry gains exactly those covers whose function is, up to a permutation, the canonical one it stands for |
| FunctionTables.SameClassIff | verilog/flat_module.cpp:4259-4314 | in the table two functions have the same canonical entry if and only if they are equal up to a permutation of inputs |
| FunctionTables.OpenedTableOk | verilog/flat_module.cpp:4281-4314 | opening a class leaves a table in which every form of the function has an entry with a permutation that really gives it |
| FunctionTables.FunctionTable.CreateFunction | verilog/flat_module.cpp:4259-4314 | the table stays closed under permutation, entries keep their permutation; the entry of the canonical function gains exactly the cover and its root, every other entry gains nothing; the permutation of the cover is the stored one or, for the opening cover, the one visited last |
| FunctionTables.FunctionTable.CreateFunctions | verilog/flat_module.cpp:3948-3955 | afterwards two covers have the same canonical function exactly when theirs are equal up to a permutation; a canonical entry has its former covers and exactly those entered whose function is a form of it, and with them their roots; a cover whose function was in the table or is a form of an earlier one carries the permutation stored for it, and the one that opens a class the permutation visited last |
| FunctionTables.KnownIff | verilog/flat_module.cpp:4259-4313 | a function is found in the table exactly if it was there before or is a form of an earlier cover's |
| FunctionTables.Bitslice.constructor | verilog/aggr.cpp:1844-1855 | the double loop lists the leaves in the order the permutation spreads them |
| FunctionTables.SliceGivesRoot | verilog/aggr.cpp:1844-1855 | the class's canonical function of the slice inputs is the value of the cover's root |
| FunctionTables.SliceIsAligned | verilog/aggr.cpp:3357-3369 | for every cover that joins a class and every query in it, the query applied to the slice inputs in the query's stored order is the value of the root |
| FunctionTables.EnterAndSlice | verilog/flat_module.cpp:4259-4313 | a cover taken through the table and made into a slice serves every query of its class, if its function was known or is symmetric |
| FunctionTables.SlicesServe | verilog/flat_module.cpp:3948-3955 | after a whole run, with the table as it is then, the slice of every cover serves every query of its class for all values, except a cover that opened the class with a function that is not symmetric |
| FunctionTables.OpeningCoverAlignedIff | verilog/flat_module.cpp:4300-4307 | with the overwritten permutation the opening cover is lined up if and only if its function is symmetric |
| FunctionTables.OpeningCoverMisaligned | verilog/flat_module.cpp:4300-4307 | any two-input function that tells its inputs apart is a counterexample |
| Cones.ConeLeast | verilog/aggr.cpp:778-790 | the cone behind a node is the least set that has it and everything its members read up to the module inputs |
| Cones.SupportMeans | verilog/aggr.cpp:498-518 | the inputs an output depends on are those that some node of its cone reads |
| Cones.ComputeInternals | verilog/aggr.cpp:778-790 | the depth-first walk over any wiring adds exactly the cone to a closed set |
| Cones.DroppedInputsKeepCone | verilog/aggr.cpp:675-690 | inputs that a cone does not touch can be dropped without changing it |
| Slices.IdModule.ComputeInternals | verilog/aggr.cpp:351-381 | the internals are the union of the cones of the outputs |
| Slices.ReadingStep | verilog/aggr.cpp:498-518 | reading one more input keeps the memo map sound, and exact where the wiring has no loop |
| Slices.IdModule.ComputeInputmap | verilog/aggr.cpp:498-518 | recorded inputs are always true ones; without loops they are all of them; with loops every input found on the way is recorded for the node asked for |
| Slices.GatheredAll | verilog/aggr.cpp:656-673 | the inputs gathered over all outputs are complete even when single entries are not |
| Slices.IdModule.CheckOutputBit | verilog/aggr.cpp:542-554 | an output bit passes when it depends on as many inputs as the ones before |
| Slices.MarkedIndexOk | verilog/aggr.cpp:575-589 | entering the cone of one more output keeps every index right, and no node already has the new index |
| Slices.IdModule.UpdateSliceIndex | verilog/aggr.cpp:575-589 | new nodes get the index, nodes met before get 0 |
| Slices.IndexMeans | verilog/aggr.cpp:575-589 | a node's index is k > 0 if and only if it lies in the cone of slice k alone, and 0 if and only if it lies in two or more |
| Slices.IdModule.UpdateSliceSizes | verilog/aggr.cpp:709-716 | the size at each index is the number of nodes that have it |
| Slices.SliceSizesAddUp | verilog/aggr.cpp:709-716 | the slice sizes add up to the number of internals |
| Slices.IdModule.ComputeNumSlices | verilog/aggr.cpp:718-768 | without loops a module becomes sliceable if and only if it has several outputs that depend on equally many inputs; its index and sizes are then right |
| Slices.IdModule.GetNumSlices | verilog/aggr.cpp:525-540 | the decision is made once; only a sliceable module has more than one slice |
| Slices.IdModule.SetUnsliceable | verilog/aggr.h:528-538 | only a module not found sliceable is fixed as unsliceable |
| Slices.IdModule.SetILPVars | verilog/aggr.h:522-526 | one variable for the module and one more for each slice |
| Slices.Part.VarInRange | verilog/aggr.cpp:556-573 | the variable of every internal node is one of its module's |
| Slices.PruningKeepsCones | verilog/aggr.cpp:601-707 | keeping the inputs some kept output depends on changes neither the cones nor the inputs they touch |
| Slices.NeededInputs | verilog/aggr.cpp:675-690 | kept are, in their order and each as often as listed, exactly the inputs that some node behind the outputs reads |
| Slices.IdModule.PruneSlices | verilog/aggr.cpp:601-654 | exactly the chosen outputs stay; inputs are those they depend on, in order; their cones are unchanged and the recomputed internals are the union of those cones |
| Encodings.SumOfOnes | verilog/flat_module.cpp:6204-6221 | a sum of 0/1 variables is at most 1 if and only if at most one of them is 1 |
| Encodings.SliceRangeMeans | verilog/flat_module.cpp:6224-6238 | the slice constraint says that no slice is chosen without its module |
| Encodings.SizeRangeMeans | verilog/flat_module.cpp:6239-6247 | the size constraint says that a chosen module has at least two chosen slices |
| Overlaps.ConflictMeans | verilog/flat_module.cpp:6204-6221 | the conflict constraint of a node holds if and only if no two modules take the node |
| Overlaps.LeftIsTaken | verilog/flat_module.cpp:6329-6356 | every node left in a kept module is one whose variable is 1 |
| Overlaps.TakenIsLeft | verilog/flat_module.cpp:6329-6356 | and of a kept sliced module every node whose variable is 1 is left, if it lies behind one output only |
| Overlaps.SlicedInternals | verilog/flat_module.cpp:6329-6356 | the internals of a kept sliced module are exactly the nodes behind the outputs whose variables are 1 |
| Overlaps.SliceRulesMean | verilog/flat_module.cpp:6224-6247 | the slice rules allow exactly the vectors that choose no slice without its module and no module with fewer than two slices |
| Overlaps.SlicedOutputs | verilog/flat_module.cpp:6329-6356 | a kept sliceable module keeps, in order and each once, exactly the outputs whose variables are 1, two at least |
| Overlaps.LeftDisjoint | verilog/flat_module.cpp:6329-6356 | what is left of two kept modules has no node in common, for every consistent 0/1 vector |
| Overlaps.WeightCounts | verilog/flat_module.cpp:6189-6202 | the slice sizes of the variables that are 1 add up to the number of nodes the module takes |
| Overlaps.TotalCounts | verilog/flat_module.cpp:6189-6202 | the total weight is the number of pairs of a module and a node it takes |
| Overlaps.DroppedHasNoWeight | verilog/flat_module.cpp:6301-6318 | a module whose own variable is 0 adds nothing to the coverage |
| Overlaps.WeightCoversLeft | verilog/flat_module.cpp:6301-6318 | the coverage of a consistent solution is at least the number of nodes left in kept modules |
| Overlaps.CoverageMeans | verilog/flat_module.cpp:6189-6202 | the coverage constraint sums the sizes of exactly what is chosen |
| OverlapElimination.FlatModule.ComputeSliceability | verilog/flat_module.cpp:5892-5916 | afterwards a module is sliceable if and only if that was still to be decided, it shares a node with another one, and it has several outputs that depend on equally many inputs |
| OverlapElimination.FlatModule.SetVariables | verilog/flat_module.cpp:6130-6145 | each module gets the variable after the last one of the module before it, and one more for every output if it is sliceable |
| OverlapElimination.FlatModule.Constraints | verilog/flat_module.cpp:6189-6248 | a 0/1 vector meets all constraints if and only if no node is taken twice, every module obeys the slice rules, and the coverage asked for is reached |
| OverlapElimination.WantedMeans | verilog/flat_module.cpp:6189-6248 | the vectors wanted are those by which no two modules take a node, every sliceable module chosen has two slices chosen and no other one any, and as many nodes are taken as asked for |
| OverlapElimination.FlatModule.Measure | verilog/flat_module.cpp:6301-6318 | the coverage reported is the weight of the solution |
| OverlapElimination.FlatModule.CarryOutAt | verilog/flat_module.cpp:6329-6357 | a module is dropped, kept or pruned as its variables say: a sliced one that is kept ends up with exactly the outputs whose variables are 1, in order, and the nodes behind them, another one with all it had; cones stay as they were |
| OverlapElimination.FlatModule.EliminateOverlaps | verilog/flat_module.cpp:6114-6366 | what becomes of every module is decided by the solver's answer to constraints that hold of exactly the wanted vectors; whatever the answer, a module is dropped exactly if its variable is 0, a sliced one that is kept has exactly the outputs whose variables are 1, two at least and in order, with unchanged cones and exactly the nodes behind them, another one all it had; the modules kept are pairwise disjoint; the coverage reported is the number of pairs of a module and a node it takes, no less than the nodes covered, and reaches the target |
| CounterChecks.ShapePasses | verilog/counter.cpp:481-665 | latches whose next values have the shape of a counter pass all four checks at every position |
| CounterChecks.ChecksIffShape | verilog/counter.cpp:880-908 | the checks, as described, pass at every position from 1 up if and only if there are functions of the non-counter inputs alone that tell what the lowest 0, the bits below it and the 1s above it become; for up and down counters |
| CounterArithmetic.CountersPass | verilog/counter.cpp:481-878 | for every width, latches that count up or down modulo 2^n with synchronous reset and enable pass the checks of their direction |
| CounterQueries.QuerySameIff | verilog/counter.cpp:481-554 | the queries of t0 and t1 accept exactly when the two cofactors are equal |
| CounterQueries.CountsAreAccepted | verilog/counter.cpp:481-665 | no position that the checks are meant to accept is turned down by the queries |
| CounterQueries.QueryHoldIsBlind | verilog/counter.cpp:556-601 | t2 accepts any latch input whose own gate reads no lower latch directly |
| CounterQueries.QueryHoldIff | verilog/counter.cpp:556-601 | t2 accepts exactly if the held value does not vary with the lower latches as far as every gate below the latch input's own keeps its value |
| CounterQueries.QueryAlikeIff | verilog/counter.cpp:603-665 | t3 accepts exactly if the two latches are held alike as far as the gates common to both cones keep their values |
| CounterQueries.LatchGateIsTop | verilog/flat_module.cpp:1057-1090 | the gate made for a latch is in no fanin cone but its own, so t0 and t1 look up the literal of the first latch input that its clauses use |
| CounterQueries.AcceptedIff | verilog/counter.cpp:481-665 | what the four queries accept at a position, without literals |
| CounterWirings.SecondIsHeldConstant | verilog/counter.cpp:556-601 | at position 1 t2 has nothing to find: latch 1 is held by latch 0 alone |
| CounterWirings.AlikeIsConstant | verilog/counter.cpp:556-665 | from position 2 on, t3 as it is meant implies t2 as it is meant |
| CounterWirings.QueryHoldIffWiring | verilog/counter.cpp:556-601 | from position 2 on, t2 is right for every choice of cells exactly on wirings where no gate below the latch input's own reads a lower latch |
| CounterWirings.QueryAlikeIffWiring | verilog/counter.cpp:603-665 | t3 is right for every choice of cells exactly on wirings where no gate common to both cones reads a counter latch |
| CounterWirings.AcceptedIffWiring | verilog/counter.cpp:481-665 | the four queries together are right about a position, for every choice of cells, exactly on those wirings |
| CounterWirings.AcceptedIffShape | verilog/counter.cpp:880-908 | on such wirings the queries accept at every position exactly the designs of counter shape |
| CounterLists.AheadIsJudged | verilog/counter.cpp:880-908 | three latches, the gates shared by the second and third cone reading latch 2 at most, latch 2 not behind latch input 0 nor latch 0 behind latch input 1: the queries accept at both positions exactly the designs of counter shape, whatever the cells |
| CounterLists.ListNeedsLess | verilog/counter.cpp:880-908 | a wiring on which some cells mislead the queries about a position but none about the whole list |
| CounterGaps.CountersAreAccepted | verilog/counter.cpp:880-908 | latches that count modulo 2^n are accepted by the queries at every position |
| CounterGaps.QueriesAcceptMore | verilog/counter.cpp:556-665 | a netlist of library cells with three plain flip-flops is accepted at every position and is no counter |
| CounterSearch.CounterState.Head | verilog/counter.cpp:299-321 | the latches that may follow the head: others driven by it and not ignored, on its clock, the reset marks at most 1 apart, with fewer than 16 latches driving only one of the two |
| CounterSearch.CounterState.Extended | verilog/counter.cpp:323-355 | the latches that may follow a longer list are new, driven by all of it and by themselves, not ignored, and on the clock of the last one, the reset marks at most 1 apart, with fewer than 16 latches driving only one of the two |
| CounterSearch.Search.Lengthen | verilog/counter.cpp:388-430 | the recursion ends and records, each once, exactly the continuations of the list that pass the checks in a direction still possible |
| CounterSearch.FindCounters | verilog/counter.cpp:215-226 | the search over all heads records, each once, exactly the lists of 2 to caMaxCounterSize+1 latches from one of them on, each on the clock of the one before, with reset mark and drivers close to its, driven by all earlier ones, that passed the checks of their direction; a recorded counter has one clock |
| CounterSearch.GrownIffContinues | verilog/counter.cpp:388-430 | what the recursion builds latch by latch from the lists of latches available is the same as what these conditions on pairs of latches describe |
| CounterSearch.CountDiffIs | verilog/counter.cpp:1126-1140 | the difference counted is the number of latches that drive exactly one of the two |
| CounterSearch.RecordedIff | verilog/counter.cpp:388-430 | recorded are exactly the lists of 2 to caMaxCounterSize+1 distinct latches, each driven by all earlier ones and like the one before in clock, reset mark and drivers, that passed the checks of their direction at every position from 1 up |
| CounterSearch.RecordedIffAccepted | verilog/counter.cpp:388-430 | with the queries as checks, recorded are exactly the linked lists whose whole design is accepted at every position |
| CounterSearch.CountersAreLinked | verilog/node.cpp:619-641 | in a counter that can count, every latch drives itself and all higher ones through its fanin cone, scan inputs not followed |
| CounterSearch.CountersAreRecorded | verilog/counter.cpp:388-430 | latches that count modulo 2^n, up or down, whose counting can be enabled, and that agree in clock, reset and drivers are recorded; the links the search asks for need not be assumed |
| Groupings.LinkMoves | verilog/aggr.h:547-556 | a link from an element to a later one sends exactly the elements whose way passes the first to the representative of the second: a whole group if the first is a representative, otherwise a part that is detached |
| Groupings.ModuleSets.GetRep | verilog/aggr.h:559-564 | compression changes no representative |
| Groupings.CompareStep | verilog/flat_module.cpp:4837-4856 | the invariant of the double loop that links modules which are no representatives, detaching members for a while |
| Groupings.GroupModules | verilog/flat_module.cpp:4837-4856 | two modules end up with the same representative if and only if their ungrouped inputs are equal, and it is the last such module |
| Groupings.NodeSets.FindSet | verilog/flat_module.h:718-724 | path compression never changes a root |
| Groupings.LinkStep | verilog/flat_module.cpp:7259-7300 | linking a node to an earlier one of equal support keeps the earlier groups |
| Groupings.GroupsIff | verilog/flat_module.cpp:7259-7300 | the groups are the classes of equal support if and only if latch gates come first in their classes |
| Groupings.CommonInputs | verilog/flat_module.cpp:7259-7300 | the roots have the support of their nodes; under that condition, and only then, the partition is that by support, each root being the first node of its class |
| Chains.BitsliceGraph.AddEdge | verilog/aggr.cpp:3891-3895 | adds the edge to both maps and no other |
| Chains.BitsliceGraph.RemoveEdge | verilog/aggr.cpp:3897-3903 | says whether there is such an edge, which the code asserts, and takes it from both maps; its ends stay as keys |
| Chains.ListedTwice | verilog/aggr.cpp:3905-3927 | the edges listed for removal repeat one exactly if the node feeds itself |
| Chains.BitsliceGraph.RemoveNode | verilog/aggr.cpp:3905-3940 | succeeds exactly if the node does not feed itself; then exactly its edges and its key go and the maps stay transposes |
| Chains.CompletesByOne | verilog/aggr.cpp:3965-3983 | a chain is completed by going on to one of the successors of its last node and completing that |
| Chains.ChainCanEnd | verilog/aggr.cpp:3965-3983 | without loops every chain can be continued to an end |
| Chains.BitsliceGraph.EnumerateChains | verilog/aggr.cpp:3948-3983 | on a loop-free graph the user gets, each once, exactly the sequences that start at a key without incoming edge, follow an edge at every step and end at a node without outgoing edge |
| BitArithmetic.RemoveBit | verilog/aggr.cpp:2753-2767 | the bits below the one removed stay, those above move down by one, the result has one bit less, and putting a 1 back gives the number if that bit was set |
| BitArithmetic.ReinsertedIsBack | verilog/aggr.cpp:2753-2767 | removing a set bit is undone by putting a 1 back |
| BitArithmetic.ComputeDemuxedVar | verilog/aggr.cpp:2769-2794 | the result is the lowest bit set in all indices, or -1 if and only if there is none; then every index loses that bit, the others keeping their order; the indices stay below 2^(vars-1) and distinct, and can be restored |
| PopCounts.ClearsLowestOne | verilog/aggr.cpp:4454-4461 | num & (num-1) has one 1 less |
| PopCounts.BitAndIs | verilog/aggr.cpp:4454-4461 | a bit of num & other is set exactly if it is set in both |
| PopCounts.CountOnes | verilog/aggr.cpp:4454-4461 | the loop counts the ones |
| PopCounts.GetCube | verilog/aggr.cpp:4463-4475 | the cube holds for the bits of the number only |
| PopCounts.GetBitsReq | verilog/aggr.cpp:4488-4499 | the exact number of bits needed to write n |
| PopCounts.ComputePopCountBDDs | verilog/aggr.cpp:4513-4537 | as many functions as n has binary digits, and for every argument vector the value of each is the binary digit, at its position, of the number of arguments that are 1 |

## Left out

- CPLEX, GLPK, the decision diagram package and the SAT solver: any 0/1 vector that meets the constraints,
  extensional Boolean functions, and for-all statements over assignments stand for them. Tolerances, time
  limits, the objective function and the warm start of the second pass are not modelled.
- CounterChecks and CounterQueries state the checks t0 to t3 as predicates over assignments; the maps of
  cofactors and the clauses that the code builds step by step for a query are not modelled, nor are the
  pruning of common cones and check t4, which no search uses.
- Nodes are positions in tables, so aliasing between node objects is not modelled; neither is `set_orig`,
  which remembers the replacement of a merged gate, nor the assertion in it.
- Rewriting.FlatModule.RewriteInverters: netlists with a loop through first inputs of inverters only, on which the
  run need not end (MergeCycles.MergeNeedNotEnd); on which of them it does end is not stated. What it keeps there
  is MergeCycles.MergeRunKeepsSolution.
- Rewriting.FlatModule.CleanUp: the same netlists, for the same reason.
- MergeCycles.MergeSafeIff: the gate list of an unsafe netlist may be in a harmless order; the condition is
  exact over all orders.
- CoverLists.CoverMaker: covers in the lists are values, turned into cover objects when their functions are
  entered; the lists of the inputs are asked for before the merging instead of on the way; the counts of
  covers and of prunings are left out. Covers.KCover.SimpleMergeInternal is not called by the enumeration.
- CoverChoices.ListedIsExact: netlists with gates without inputs, where a cover may have no leaves and the code
  then lists no internals for it.
- FunctionTables: statistics, hashing and the deletion of covers.
- Slices.IdModule: words count only as the bits they list; modules whose outputs are inputs, sibling gates
  added afterwards, and the marking of modules as bad because of latch gates are not modelled.
- Slices.IdModule.ComputeInputmap: on wiring with loops only soundness and completeness over all outputs
  are stated; single entries can be incomplete there, depending on the order of the walk.
- OverlapElimination.FlatModule: a node's set of modules is computed from the modules' internals instead of
  being kept at the node; an unsolvable model ends the program, which is the result `solved` being false.
- Groupings: sets of inputs of different size are compared as sets, where the code calls `std::equal` on
  the first range's length.
- Groupings.CommonInputs: the support of a node is given; the fanin cones it comes from are not computed.
- Chains.BitsliceGraph.RemoveNode: how far the maps are changed when an assertion fails; the one caller never
  adds an edge from a node to itself (verilog/aggr.cpp:3613).
- PopCounts.ComputePopCountBDDs: n up to 30, where 1 << n is a machine integer; the code allows up to
  16384, which overflows.
- CounterWirings.AcceptedIffShape: the condition is sufficient for a whole list and exact for each position
  (CounterWirings.AcceptedIffWiring); it is not exact for a whole list, where a position that could be misjudged
  may be kept from it by the positions around it (CounterLists.ListNeedsLess).
- CounterWirings: the choice of cells ranges over all Boolean functions of the pins, not over one library.
- CounterSearch.CountersAreRecorded: the driving latches, clock and reset marks that are compared are given,
  and the latches must not be behind the scan inputs of each other's gates.
- CounterSearch: merging and dominance of recorded counters, which run after the search; the iteration that
  computes the driven latches, of which the fixpoint is modelled.
- Word propagation, RAM, shift register and frame-buffer analyses, crossbars, module merging, Verilog
  output, parsing, options and timers.
