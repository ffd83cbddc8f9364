# Verified models of the emulator, its configuration tool and its guest programs

A Dafny model of the parts of the repository whose correctness is hard to see from one function. Every
loop and every update in place of the sources is a Dafny method over arrays or fields, proved against a
specification; what the specification is worth is proved as lemmas.

* **The configuration tool** (`Kconfig*.dfy`, `DependencyCheck.dfy`, `SymbolValues.dfy`, `Menu*.dfy`).
  Dependencies are trees over symbols, valued in no < mod < yes. The tool rewrites these trees in place,
  through slots (`struct expr **`) and a global change counter. The rewrites appear twice: as functions on
  trees, about which meaning, termination and the form of the results are proved, and as methods on a mutable
  tree that compute exactly those functions. Around them: the search for recursive dependencies, and the
  restructuring of the linked menu nodes with the walk that writes the configuration.
* **The emulated core and a device** (`PageTables.dfy`, `PageWalk.dfy`, `Tlb.dfy`, `StatusWord.dfy`, `Traps.dfy`,
  `TrapRecords.dfy`, `HartRuns.dfy`, `Hart.dfy`, `Virtqueue.dfy`). A run on the core with its TLB, which writes entries back into the
  very tables a walk reads, gives the answers of a machine without one; nested traps and returns restore what they
  interrupted; the split virtqueue's 16-bit rings go through a run as an unbounded queue does.
* **The decoder generator** (`Decoder.dfy`): patterns to masked switches.
* **Guest programs**: linear-time suffix sorting (`RadixSort.dfy`, `Suffix*.dfy`), maximum flow
  (`FlowNetwork.dfy`, `LevelGraph.dfy`, `Dinic.dfy`), 64-bit division from 32-bit halves (`Int64*.dfy`), a
  Brainf**k compiler and the loop that runs its output (`Bf*.dfy`), bitmask N-queens (`Queens.dfy`), the sliding
  puzzle (`Inversions.dfy`, `SlidingPuzzle.dfy`, and in `TileTurns.dfy`, `SnakeOrder.dfy` and
  `PuzzleSolvability.dfy` the proof that its solvability test is exact), and matrix powers modulo 2^32
  (`MatrixPower.dfy`).

`DivMod.dfy`, `Bits.dfy`, `Digits.dfy`, `Permutations.dfy` and `Options.dfy` hold arithmetic, the bitwise
operations on unsigned words, and the facts about permutations that several of these need.

Words are natural numbers with the width written out: 8-, 16-, 32- and 64-bit words wrap where the sources' do.
Several proofs carry a loop's invariant as a value of a subset type (`Division`, `Search`, `Work`, ...), a ghost
snapshot of the variables for which the invariant holds. Verify everything with `dafny verify dfyconfig.toml`.

## Where the sources fall short of their own promises

These are theorems about the code as it is, each with the exact condition or a concrete input.

* `expr_eq` is documented (tools/kconfig/expr.c:246-251) to find two AND or OR expressions equal if every operand of
  each equals some operand of the other. For expressions without operands y and n it does so exactly when, besides,
  every operand occurs equally often on both sides (`KconfigEqExact.CommentExact`, from `KconfigEqExact.ExprEqExact`);
  `A && A && B` against `A && B` is an instance that fails (`KconfigEqComplete.RepeatedOperandIsUnequal`). Transformed
  and folded expressions have no such operands (`KconfigEqExact.FoldedHasNoConst`). With them the rule is another,
  since constants are folded after the sweep: `(A || n) && B` is found equal to `A && B`
  (`KconfigEqExact.ConstantOperandFoldsLate`), and the answer is not even transitive (`KconfigEqExact.NotTransitive`).
* Joining `FOO=b && FOO!=c` is right exactly when no value is denoted by two different constants; numeric
  constants break it (`KconfigJoin.JoinEqualUnequalExact`, `KconfigJoin.NumericConstantBreaksJoin`).
* `expr_trans_compare` turns a negation into the opposite comparison, as if its operand were never m: where FOO is m,
  what it makes of `!FOO` is equal to y, and not different from n. `KconfigTransform.Mistaken` says where its answer
  is wrong, from the values of the operands, and `KconfigTransform.TransCompareExact` that it is wrong there and
  nowhere else. At a negation it is right exactly when the operand is either not m and judged rightly, or m and
  misjudged, as in `!!FOO` (`KconfigTransform.NegatedCompare`). An item taken by the superset test is visible where its
  parent is not exactly where its condition is `Missed`, not n but taken for n, and the parent's is n
  (`KconfigTransform.SupersetExact`). Hence an item can go into the submenu of a parent that is invisible where the
  item is visible: `!FOO && S!=y` below a symbol S that is visible if `FOO=n`
  (`KconfigTransform.NegatedTristateMisplaced`).
* The interrupt scan reads copies of the enables that traps and returns do not refresh (`HartRuns.StaysFresh` says
  exactly which steps leave right copies right). It decides as the enables would exactly under the condition of
  `Traps.StaleEnables`, and interrupts no handler into its own level exactly when the copy of the innermost
  handler's level is off (`HartRuns.ScanKeepsNesting`); `Traps.HandlerInterrupted` is an M handler for which it is not.
* A delegated trap taken in M mode returns to S mode; a trap into S saves the mode, and its return restores it,
  exactly when it is U or S (`Traps.TrapSaves`).
* Against the comment above `mret` (src/cpu/riscv/inst/privileged.cpp:27-30), a return to a mode below M clears MPRV
  exactly when it was clear already; `sret` always clears it (`Traps.ReturnMprv`, and `Traps.MprvSurvives` for a hart
  that reaches user mode with MPRV set).
* An exception goes to the base of its trap vector, as section 3.1.7 of the RISC-V Privileged Architecture has it
  for every mode of the vector, exactly when the vector is not vectored or the cause is 0 (`Traps.ExceptionTarget`).
* Virtqueue slots in flight are distinct exactly when the queue size divides 65536; the device's default of
  twelve does not (`Virtqueue.SlotsDistinctExactly`, `Virtqueue.TwelveSlotsCollide`).
* Grouping patterns by mask can change which of two overlapping patterns wins. The decoder takes the first match in
  file order exactly when no pattern of its group that decodes the word has a mask that came into use before that
  of the first match (`Decoder.TableKeepsChoice`, `Decoder.DecodeIsFirstMatch`); over all words, exactly when no pair
  of patterns is reordered (`Decoder.KeptForAllWords`). `Decoder.KeptWithoutReversedPairs` tests pairs by masks and
  keys, and `Decoder.GroupingReorders` is a group that fails.
* Signed 64-bit division is right exactly when it is not the least number by -1 (`Int64Signed.Divdi3`).

## Model

| member | source | states |
|---|---|---|
| `KconfigExpr.CompareConst` | tools/kconfig/expr.c:1044-1102 | a boolean or tristate symbol compares equal to a constant exactly when the constant denotes its value, whether the comparison is by number or by text |
| `KconfigExpr.StrCmpOrder` | tools/kconfig/expr.c:1081-1083 | texts compare by the first character that differs, a proper prefix first |
| `KconfigExpr.RelationTests` | tools/kconfig/expr.c:1065-1102 | each of the six relations holds if and only if the numbers, or unless both are numbers the texts, are so ordered |
| `KconfigEq.EliminateYnKeepsValue` | tools/kconfig/expr.c:316-397 | folding y and n keeps the value under every valuation |
| `KconfigEq.EliminateYnIsComplete` | tools/kconfig/expr.c:316-397 | no AND or OR with a constant y or n operand is left |
| `KconfigEq.EliminateYnFixpoint` | tools/kconfig/expr.c:316-397 | exactly the expressions free of such operands are left alone |
| `KconfigEq.EliminatePairsCommon` | tools/kconfig/expr.c:150-190 | one sweep takes one and the same operand value out of both sides, under every valuation |
| `KconfigEq.EliminatePairsCount` | tools/kconfig/expr.c:150-190 | the change counter is zero only if nothing changed, and a side that is no list is replaced by the neutral constant if it is positive |
| `KconfigEq.EliminateEqCommon` | tools/kconfig/expr.c:221-241 | the whole elimination takes a common part out of both sides, so both values are that part combined with what is left |
| `KconfigEq.EliminateEqImplies` | tools/kconfig/expr.c:221-241 | if the second side is reduced to y the first implies it, and the other way round; if both sides end equal they had equal values |
| `KconfigEq.ExprEqSound` | tools/kconfig/expr.c:252-303 | expressions found equal have equal values under every valuation |
| `KconfigEqComplete.EliminatePairsComplete` | tools/kconfig/expr.c:150-190 | after a sweep no operand of one side equals one of the other |
| `KconfigEqComplete.ExprEqRefl` | tools/kconfig/expr.c:252-303 | every expression is found equal to itself |
| `KconfigEqComplete.RepeatedOperandIsUnequal` | tools/kconfig/expr.c:246-303 | a repeated operand makes equivalent expressions unequal, against the comment |
| `KconfigEqExact.SweepIsDifference` | tools/kconfig/expr.c:150-190 | a sweep leaves each side the operands it has beyond the other's, counted with multiplicity |
| `KconfigEqExact.ExprEqExact` | tools/kconfig/expr.c:252-303 | without operands y and n, expressions are found equal if and only if their operands agree with multiplicity, recursively |
| `KconfigEqExact.ExprEqEquivalence` | tools/kconfig/expr.c:252-303 | so the answer is symmetric and transitive |
| `KconfigEqExact.ExprEqCounts` | tools/kconfig/expr.c:246-303 | two lists are found equal if and only if every operand of either equals equally many operands of both |
| `KconfigEqExact.CommentExact` | tools/kconfig/expr.c:246-251 | when the comment's rule is right: always one way, the other way with equal multiplicities, so wherever neither side repeats an operand |
| `KconfigEqExact.FoldedHasNoConst` | tools/kconfig/expr.c:316-397 | transformed and folded expressions have no operand y or n at any depth |
| `KconfigEqExact.ConstantOperandFoldsLate` | tools/kconfig/expr.c:221-241 | why constants are excluded: folding after the sweep makes expressions equal whose operands differ |
| `KconfigEqExact.NotTransitive` | tools/kconfig/expr.c:252-303 | with operands y and n the answer is not transitive, for any two symbols, so that no canonical form decides it |
| `KconfigJoin.JoinOrSound` | tools/kconfig/expr.c:431-493 | a joined OR pair has the value of the two, for every valuation |
| `KconfigJoin.JoinAndSound` | tools/kconfig/expr.c:495-587 | a joined AND pair has the value of the two, for constants y, m and n |
| `KconfigJoin.JoinSound` | tools/kconfig/expr.c:431-587 | a join is smaller than the two operands together, keeps the kind of constants, and is no list of the same kind |
| `KconfigJoin.JoinExactly` | tools/kconfig/expr.c:431-587 | exactly when a pair is joined and into what: equal operands into one of them, and each pair of the tables, in either order, into its entry; no other pair is joined |
| `KconfigJoin.JoinEqualUnequalExact` | tools/kconfig/expr.c:540-553 | joining an equality with an inequality, in either order, is right if and only if no value is denoted by both of two different constants |
| `KconfigJoin.NumericConstantBreaksJoin` | tools/kconfig/expr.c:540-553 | the constant 2 next to y gives a wrong join |
| `KconfigDups.SweepSound` | tools/kconfig/expr.c:596-651 | a sweep over aliased slots of one tree keeps its value under every valuation |
| `KconfigDups.SweepLeavesNeutral` | tools/kconfig/expr.c:596-651 | a sweep that counts no join changes nothing, one that counts any leaves a neutral operand behind |
| `KconfigDups.PassShrinks` | tools/kconfig/expr.c:664-686 | a pass that joins anything makes the folded tree strictly smaller, which is why the loop ends |
| `KconfigDups.EliminateDupsSound` | tools/kconfig/expr.c:664-686 | the simplified expression has the value of the original under every valuation |
| `KconfigDups.SweepQuiet` | tools/kconfig/expr.c:596-651 | a sweep joins nothing exactly when every pair of operands it compares is unjoinable |
| `KconfigDups.QuietIsIrreducible` | tools/kconfig/expr.c:596-686 | a sweep that joins nothing says that no two operands at any depth can be joined in either order, and conversely |
| `KconfigDups.EliminateDupsIrreducible` | tools/kconfig/expr.c:664-686 | no two operands of the result can be joined, the result is no larger, and exactly irreducible expressions are left alone |
| `KconfigDups.IrreducibleIsTidy` | tools/kconfig/expr.c:431-651 | nothing can be joined if and only if no two operands of a list, at any depth, are equal or form a pair of the tables |
| `KconfigDups.EliminateDupsTidy` | tools/kconfig/expr.c:664-686 | in the simplified expression no two operands are equal or form a pair of the tables |
| `KconfigTransform.TransformNormal` | tools/kconfig/expr.c:694-849 | the result has NOT only above symbols other than y, m and n, and no boolean symbol compared with one of them |
| `KconfigTransform.TransformFixpoint` | tools/kconfig/expr.c:694-849 | exactly the expressions of that form are left alone |
| `KconfigTransform.TransformSound` | tools/kconfig/expr.c:694-849 | transforming keeps the value under every valuation |
| `KconfigTransform.TransBoolKeepsTruth` | tools/kconfig/expr.c:402-426 | unless `!= n` of a tristate symbol is negated, as in no transformed expression, the result is no exactly when the original is, and never larger |
| `KconfigTransform.NegatedTest` | tools/kconfig/expr.c:402-426 | why: negated, such a test keeps its truth exactly where the symbol is not m |
| `KconfigTransform.DependsSymbolSound` | tools/kconfig/expr.c:879-906 | an expression found to depend on a symbol is no whenever the symbol is |
| `KconfigEqExact.DependsExactly` | tools/kconfig/expr.c:879-906 | an expression depends on a symbol if and only if one of the operands it is the conjunction of is the symbol, or has it equal to y, equal to m or different from n |
| `KconfigTransform.ContainsExactly` | tools/kconfig/expr.c:851-877 | and contains it if and only if it stands at some slot, alone or on either side of a comparison |
| `KconfigTransform.TransCompareExact` | tools/kconfig/expr.c:922-985 | the rewritten comparison with y or n is y or n, and as the comparison holds exactly unless it is mistaken there |
| `KconfigTransform.TransCompareSound` | tools/kconfig/expr.c:922-985 | it is never mistaken where nothing that is m is negated |
| `KconfigTransform.NegatesTwoValuedOnly` | tools/kconfig/expr.c:953-954 | an expression whose negations stand above boolean symbols and comparisons meets that under every valuation |
| `KconfigTransform.NegatedCompare` | tools/kconfig/expr.c:953-954 | at a negation it is right if and only if the operand is not m and judged rightly, or m and misjudged |
| `KconfigTransform.MissedIsMistaken` | tools/kconfig/expr.c:922-985 | on transformed expressions a comparison with n is mistaken only where what is not n is taken for n |
| `KconfigTransform.NoIsFound` | tools/kconfig/expr.c:922-985 | so it answers as if exactly what is missed were n |
| `KconfigTransform.ConditionExact` | tools/kconfig/menu.c:456-458 | the visibility condition that menu_finalize compares is y exactly when the dependency is not n, the other way round exactly where the comparison is mistaken |
| `KconfigTransform.ConditionSound` | tools/kconfig/menu.c:456-458 | for transformed dependencies it is y if and only if the dependency is not n and not missed |
| `KconfigTransform.SupersetExact` | tools/kconfig/menu.c:479-489 | an item taken by the superset test is visible only where the parent's condition holds, if and only if its own condition is not missed where the parent's fails |
| `KconfigTransform.SubmenuImplies` | tools/kconfig/menu.c:462-496 | so a node put in a symbol's submenu is visible only if the symbol is set or, where the node's condition negates nothing that is m, its own prompt is visible |
| `KconfigTransform.NegatedTristateMisplaced` | tools/kconfig/menu.c:462-489 | a node that all three tests put in the submenu and that is visible while the parent is not, because it negates a symbol that is m |
| `KconfigInPlace.Simplifier.ExprEliminateYn` | tools/kconfig/expr.c:316-397 | the rewriting through a slot leaves the folded tree in that slot and the rest of the tree alone |
| `KconfigInPlace.Simplifier.EliminateEqSlots` | tools/kconfig/expr.c:150-190 | the recursion over two slots computes the sweep and its count |
| `KconfigInPlace.Simplifier.ExprEliminateEq` | tools/kconfig/expr.c:221-241 | both trees become what the elimination leaves of them |
| `KconfigInPlace.Simplifier.ExprEqual` | tools/kconfig/expr.c:252-303 | the answer is that of the specification, and the change counter is restored |
| `KconfigInPlace.Simplifier.EliminateDupsSlots` | tools/kconfig/expr.c:596-651 | the recursion over two slots of one tree computes the sweep |
| `KconfigInPlace.Simplifier.ExprEliminateDups` | tools/kconfig/expr.c:664-686 | the repeat-until-no-change loop ends, with an equivalent tree in which no two operands of a list are equal or form a pair of the tables, and the counter restored |
| `KconfigInPlace.Simplifier.ExprTransform` | tools/kconfig/expr.c:694-849 | the slot holds the transformed tree |
| `KconfigInPlace.Simplifier.ExprTransBool` | tools/kconfig/expr.c:402-426 | the slot holds the tree rewritten for boolean use |
| `KconfigPropagate.EliminateDupsNormal` | tools/kconfig/expr.c:596-686 | simplification keeps the transformed form, through joins in aliased slots and folding |
| `KconfigPropagate.PropagateSound` | tools/kconfig/menu.c:351-360 | a propagated dependency is the minimum of the parent's and the child's own, in transformed form again |
| `KconfigPropagate.PropagateConditionSound` | tools/kconfig/menu.c:395-406 | a property's condition is no exactly when the propagated dependency is, and equal to it for tristate symbols |
| `KconfigPropagate.NestedIsLeast` | tools/kconfig/menu.c:346-360 | at any depth the dependency is the minimum of all those on the way down |
| `KconfigPropagate.PropagateConditionNormal` | tools/kconfig/menu.c:395-406 | conditions are in transformed form, which the submenu test needs of the parent's |
| `KconfigPropagate.RewriteMValue` | tools/kconfig/menu.c:78-105 | without modules every bare m counts as n; with modules rewriting m changes no value |
| `DependencyCheck.MentionsSuffice` | tools/kconfig/symbol.c:1130-1163 | the symbols checked for an expression are all its value depends on |
| `SymbolValues.VisibleExactly` | tools/kconfig/symbol.c:177-201 | the visibility reaches a level if and only if the condition of some prompt does |
| `SymbolValues.DefaultExactly` | tools/kconfig/symbol.c:83-92 | the default taken is the first whose condition is not n, and there is none only if all are n |
| `SymbolValues.CalculatedLimits` | tools/kconfig/symbol.c:325-450 | a select is a lower limit and a boolean symbol is never m; a visible symbol has the user's value if and only if that lies between the limits; otherwise a default, or an imply that its own dependency allows, is all that raises it above a select |
| `SymbolValues.NeedsSuffice` | tools/kconfig/symbol.c:325-450 | the calculated value of a symbol, from its prompts, defaults, own, reverse and weak dependencies, is the same under all values that agree on the symbols it needs |
| `SymbolValues.NeedsExactly` | tools/kconfig/symbol.c:1170-1211 | a symbol needs another if and only if that occurs in a dependency, in the condition of a prompt or default, or in the value of a default |
| `SymbolValues.ValuesDetermined` | tools/kconfig/symbol.c:325-450 | if the needs can be put in an order, as when the sweep finds no cycle, the calculated values are unique |
| `DependencyCheck.OrderedIsAcyclic` | tools/kconfig/symbol.c:1250-1279 | a list in which each symbol comes after those it needs leaves no cycle |
| `DependencyCheck.PopSymbol` | tools/kconfig/symbol.c:1170-1211 | a symbol whose needs are all done extends that list when it leaves the path |
| `DependencyCheck.Closes` | tools/kconfig/symbol.c:1255-1258 | meeting a symbol of the path closes a cycle through symbols of the path |
| `DependencyCheck.Checker.CheckDeps` | tools/kconfig/symbol.c:1250-1279 | NULL means everything the symbol needs is done; a symbol means a real cycle through it, and if it was marked CHECK a cycle through marked symbols |
| `DependencyCheck.Checker.CheckExprDeps` | tools/kconfig/symbol.c:1130-1163 | the same for all symbols an expression mentions |
| `DependencyCheck.Checker.CheckSymDeps` | tools/kconfig/symbol.c:1165-1211 | the same for all dependencies and properties of a symbol, with the stack restored |
| `DependencyCheck.Checker.CheckAll` | tools/kconfig/parser.y:514-517 | the sweep finds a symbol if and only if there is a cycle; otherwise it leaves an order of all symbols in which values can be calculated |
| `MenuForest.FinalizeFirst` | tools/kconfig/menu.c:433-584 | automatic submenus and flattening keep the nodes, each once, and their order |
| `MenuForest.Absorb` | tools/kconfig/menu.c:460-502 | the nodes taken into a submenu and those left behind are the old list, in order |
| `MenuPlacement.AbsorbTakes` | tools/kconfig/menu.c:460-502 | a symbol takes exactly the longest run: every node taken joins it, and the first one left does not |
| `MenuForest.Flatten` | tools/kconfig/menu.c:575-584 | moving children of promptless nodes behind them keeps the order |
| `MenuForest.FinalizeSettles` | tools/kconfig/menu.c:433-584 | below a finalized node only nodes with a prompt have children, at every depth |
| `MenuForest.FinalizedRoot` | tools/kconfig/menu.c:307-584 | the same for the whole tree, with unchanged preorder |
| `MenuPlacement.RootPlaced` | tools/kconfig/menu.c:307-584 | a node is directly below another after finalizing if and only if one pass over the file puts it there: below the innermost open symbol it joins, or the one above it in the file, up to the nearest prompt |
| `MenuTree.Menus.Finalize` | tools/kconfig/menu.c:307-584 | next, list and parent pointers show the restructured forest where the old one stood; no other node is touched |
| `MenuTree.Menus.FlattenOne` | tools/kconfig/menu.c:575-584 | one round of the flattening loop |
| `MenuTree.Menus.AbsorbFollowing` | tools/kconfig/menu.c:461-496 | the loop over the nodes after a symbol moves those that depend on it below it, with correct parent links |
| `MenuTree.Menus.TakeSubmenu` | tools/kconfig/menu.c:456-502 | splicing the submenu in leaves both lists well linked |
| `MenuTree.Menus.FinalizeRoot` | tools/kconfig/menu.c:307-584 | the whole tree is well linked, in the order of the file, with children only below prompts, and every node's parent is the one that the pass over the file gives it |
| `MenuTree.Menus.Walk` | tools/kconfig/confdata.c:868-912 | the parent-pointer walk ends and visits every node once, in the order of the file |
| `PageTables.SameFindLeaf` | src/cpu/riscv/memory.cpp:71-144 | memories that differ in A and D bits only lead the walk to the same entry |
| `PageTables.SamePageLookup` | src/cpu/riscv/memory.cpp:71-144 | all addresses of a 4 KiB page lead to the same entry, superpages included |
| `PageTables.SamePagePhys` | src/cpu/riscv/memory.cpp:128-138 | within a page physical addresses differ as the virtual ones do |
| `PageTables.VpnsMakeAddress` | include/cpu/riscv/addr.hpp:63-65 | the virtual page numbers and the offset make up the translated part of the address |
| `PageTables.PhysAddrFields` | src/cpu/riscv/memory.cpp:128-134 | the offset and the page numbers below the leaf's level come from the virtual address, the others from the entry |
| `PageTables.StoreKeepsLookup` | src/cpu/riscv/memory.cpp:71-144 | a store outside the entries a walk reads keeps its result |
| `PageWalk.EntryDigits` | src/device/bus.cpp:37-46 | digit i of the byte j places on is digit 8j + i of the entry |
| `PageWalk.VpnDigits` | include/cpu/riscv/addr.hpp:63-65 | the page number of a level is the 9, or 10, digits of the address from its place on |
| `PageWalk.CanonicalDigits` | src/cpu/riscv/memory.cpp:76-80 | an Sv39 address is accepted if and only if its digits 39 to 63 repeat digit 38 |
| `PageWalk.EndsOnce` | src/cpu/riscv/memory.cpp:85-144 | the walk ends at exactly one level |
| `PageWalk.PhysAddrIsAddress` | src/cpu/riscv/memory.cpp:128-138 | digit by digit, which digits of the physical address come from the virtual one and which from the entry |
| `PageWalk.TranslatesExactly` | src/cpu/riscv/memory.cpp:66-147 | the translation of a canonical address is an address if and only if the entry where the walk ends is an aligned leaf with those of the digits R, W and X that the access needs, whose U suits the mode; it is an access fault if and only if the entry lies outside memory, and otherwise a page fault, except at a pointer in a lowest table |
| `PageWalk.MaskTestIs` | include/cpu/riscv/core.hpp:52-58 | the mask test of flags and access type asks digit 1 of loads, 2 of stores, 3 of fetches, and 1 and 2 of atomic accesses |
| `PageWalk.HitFlagDigits` | src/cpu/riscv/memory.cpp:197-204 | a hit sets A, and D for stores and atomic accesses, and no other digit |
| `Tlb.SetAndTag` | include/cpu/riscv/addr.hpp:47-61 | set and tag together determine the page |
| `Tlb.NeighboursApart` | include/cpu/riscv/addr.hpp:51-53 | as many pages in a row as there are sets do not displace each other |
| `Tlb.WalkAgrees` | src/cpu/riscv/memory.cpp:66-147 | the walk over the core's memory finds the leaf and the address of the machine without a cache |
| `Tlb.EvictKeeps` | src/cpu/riscv/memory.cpp:22-26 | writing a correct block back changes A and D bits of its own entry only |
| `Tlb.HitReachesTable` | src/cpu/riscv/memory.cpp:22-26 | what a hit set, A and for stores D, is in the entry once the block is replaced, and no other byte changes |
| `Tlb.NewBlockCorrect` | src/cpu/riscv/memory.cpp:27-32 | a block filled from a walk answers for its whole page |
| `Tlb.HitCorrect` | src/cpu/riscv/memory.cpp:193-205 | a hit gives the address or the fault of the uncached walk, for every access type, mode and SUM |
| `Tlb.StoreKeepsTlb` | src/cpu/riscv/memory.cpp:34-42 | a store that leaves the tables alone keeps every cached block correct |
| `Tlb.Core.TlbPush` | src/cpu/riscv/memory.cpp:22-32 | what the push writes to memory and to the cache, and that agreement survives it |
| `Tlb.Core.WalkTables` | src/cpu/riscv/memory.cpp:71-144 | the loop finds the entry of the recursive walk or its fault |
| `Tlb.Core.VaddrTranslateSv` | src/cpu/riscv/memory.cpp:66-171 | the filling walk returns the result of the machine without a cache, and a result that is an address is cached from then on |
| `Tlb.Core.VaddrTranslateCore` | src/cpu/riscv/memory.cpp:191-212 | hit or miss, the result is that of the machine without a cache; a hit changes nothing but A and D of its block, a miss with an address fills one, and with translation off the address itself is the result |
| `Tlb.Core.TlbFence` | src/cpu/riscv/memory.cpp:44-48 | every block is dropped |
| `Tlb.Core.PmWrite` | src/device/bus.cpp:48-58 | a store writes its bytes and no others |
| `Tlb.Core.Run` | src/cpu/riscv/memory.cpp:22-212 | over any run that fences after stores into tables, all translations are those of the machine without a cache |
| `StatusWord.WithFlagDigits` | include/cpu/riscv/csr-field.hpp:129-135 | writing a flag by masking changes that digit and no other |
| `StatusWord.WithPairDigits` | include/cpu/riscv/csr-field.hpp:134 | writing MPP changes its two digits and no other |
| `Traps.TrapSaves` | src/cpu/riscv/privileged/trap.cpp:27-51 | a trap saves the enable, the address and, exactly for U and S or into M, the mode, and leaves the other level alone |
| `Traps.ReturnRestores` | src/cpu/riscv/inst/privileged.cpp:31-70 | a return takes enable, mode and address from the saved fields and leaves the other level alone |
| `Traps.ReturnMprv` | src/cpu/riscv/inst/privileged.cpp:27-70 | mret to a mode below M leaves MPRV clear if and only if it was clear; sret always does |
| `Traps.MprvSurvives` | src/cpu/riscv/inst/privileged.cpp:31-48 | a hart that mret takes to user mode with MPRV set |
| `Traps.ExceptionTarget` | src/cpu/riscv/privileged/trap.cpp:59-64 | an exception goes to the base of its vector if and only if the vector is not vectored or the cause is 0 |
| `Traps.StepHolds` | src/cpu/riscv/privileged/trap.cpp:13-65 | every allowed step keeps the saved fields equal to the frames of the active traps |
| `Traps.RunHolds` | src/cpu/riscv/privileged/trap.cpp:13-65 | so does every legal run |
| `Traps.BalancedRestores` | src/cpu/riscv/inst/privileged.cpp:27-70 | whatever runs between a trap and its return, the return restores the mode, the level's enable and the resume address |
| `Traps.AtMostTwoFrames` | src/cpu/riscv/privileged/trap.cpp:8-12 | at most a trap into S and one into M above it are active |
| `Traps.ChosenFromBelow` | src/cpu/riscv/privileged/interrupt.cpp:168-178 | an interrupt into S is taken only from U or S |
| `TrapRecords.ChoosesExactly` | src/cpu/riscv/privileged/interrupt.cpp:138-181 | from the digits of mip, mie and mideleg: the interrupt into M that comes first in the order MEI, MSI, MTI, SEI, SSI, STI is taken, or if none is, the first of those into S, each if and only if mode and enable allow it |
| `Traps.StaleEnables` | src/cpu/riscv/privileged/interrupt.cpp:138-181 | exactly when the unrefreshed copies of the enables decide as the enables would |
| `Traps.HandlerInterrupted` | src/cpu/riscv/privileged/interrupt.cpp:150-160 | with a stale copy an M handler is interrupted although its trap cleared MIE |
| `HartRuns.StaysFresh` | src/cpu/riscv/privileged/csr.cpp:25-30 | right copies of the enables stay right exactly when a trap, an interrupt into M or a return keeps the value of the enable it writes |
| `HartRuns.NestedStep` | src/cpu/riscv/privileged/trap.cpp:13-65 | allowed steps keep the saved fields right and the enables of active levels off |
| `HartRuns.StaleScan` | src/cpu/riscv/privileged/interrupt.cpp:138-181 | which pending interrupts re-enter the innermost handler's level when its copy is on |
| `HartRuns.ScanKeepsNesting` | src/cpu/riscv/privileged/interrupt.cpp:138-181 | whatever is pending, the scan re-enters no level, if and only if the copy of the innermost handler's level is off |
| `HartRuns.MoveNested` | src/cpu/riscv/privileged/interrupt.cpp:79-181 | a step keeps traps nested, and leaves the copies of active levels off exactly when it entered no level whose copy is on |
| `HartRuns.RunNested` | src/cpu/riscv/execute.cpp:37-51 | every run of faults, scans, returns and software in which levels are entered with their copy off is a legal one, with the saved fields right at its end |
| `Harts.VectorTargetIs` | include/cpu/riscv/csr-field.hpp:263-264 | the masks of the trap vector give its base, the vector without its two lowest digits, and if the lowest is set add four times the code |
| `Harts.Hart.EnterTrap` | src/cpu/riscv/privileged/trap.cpp:13-65 | the register updates by masks are the trap of the specification, with delegation by medeleg; of the level entered, xepc, xcause, xtval and xtinst are the address, the cause, the value and the instruction, the digits of mstatus change as section 3.1.6.1 of the RISC-V Privileged Architecture says, and the other level's registers stay |
| `Harts.Hart.InterruptM` | src/cpu/riscv/privileged/interrupt.cpp:79-98 | the same for an interrupt into M: mcause is the code with the top digit set, mtval is 0 and mepc the address to resume at |
| `Harts.Hart.InterruptS` | src/cpu/riscv/privileged/interrupt.cpp:100-119 | the same for an interrupt into S, which refreshes the copies of the enables |
| `Harts.Hart.DoMret` | src/cpu/riscv/inst/privileged.cpp:31-48 | mret is the return from M: MIE, MPIE and MPP are digits 3, 7, 11 and 12, and the mode and the address come from MPP and mepc |
| `Harts.Hart.DoSret` | src/cpu/riscv/inst/privileged.cpp:50-70 | sret is the return from S, with SIE, SPIE and SPP at digits 1, 5 and 8, and clears MPRV |
| `Harts.Hart.WriteMstatus` | src/cpu/riscv/privileged/csr.cpp:21-30 | a write of mstatus refreshes the copies of the enables from digits 3 and 1 |
| `Harts.Hart.ScanInterrupt` | src/cpu/riscv/privileged/interrupt.cpp:138-181 | the scan takes exactly the interrupt that comes first among those pending, enabled and allowed by the copies of the enables, or none, and records it |
| `Virtqueue.SlotsDistinctExactly` | src/device/virtio/virtio.cpp:106-109 | n entries in a row have different slots if and only if n divides 65536 |
| `Virtqueue.TwelveSlotsCollide` | include/device/virtio/virtio.hpp:84 | with the default size two entries in flight share a slot where the index wraps |
| `Virtqueue.LinksDistinct` | src/device/virtio/virtio.cpp:116-129 | a chain that ends visits no descriptor twice |
| `Virtqueue.ChainFitsTable` | src/device/virtio/virtio.cpp:116-129 | and is no longer than the table |
| `Virtqueue.ChainExactly` | src/device/virtio/virtio.cpp:116-129 | a chain ends if and only if it can be listed by its next fields, and its buffers are the addresses, lengths and write flags of all descriptors listed, the last included, in order |
| `Virtqueue.EmptyByIndex` | src/device/virtio/virtio.cpp:106 | equal indices mean an empty queue while fewer than 65536 entries are in flight |
| `Virtqueue.PublishShows` | src/device/virtio/virtio.cpp:97-109 | publishing overwrites no entry in flight |
| `Virtqueue.DoneShows` | src/device/virtio/virtio.cpp:163-168 | adding a used entry keeps the last n of them in the ring |
| `Virtqueue.Queue.Collect` | src/device/virtio/virtio.cpp:116-129 | the loop ends and collects the buffers of the chain in order, one for every descriptor of it |
| `Virtqueue.Queue.HandleDone` | src/device/virtio/virtio.cpp:142-173 | the used ring gains the entry, and the interrupt is raised unless suppressed |
| `Virtqueue.Queue.Notify` | src/device/virtio/virtio.cpp:78-140 | a notification ends and handles every pending head, across 16-bit wrap-around |
| `Virtqueue.Run` | src/device/virtio/virtio.cpp:78-173 | over any run of driver and device the rings show the unbounded queue |
| `Virtqueue.HandledInOrder` | src/device/virtio/virtio.cpp:106-139 | over a run every published head is handled at most once, in order, and none is skipped |
| `Virtqueue.DrainReplies` | src/device/virtio/virtio.cpp:131-136 | the used entries a notification adds are those of the requests that succeed, in order |
| `Virtqueue.RepliesExactly` | src/device/virtio/virtio.cpp:131-136 | each request that succeeds has one used entry, with its head and its length, behind those of the earlier successes, and there are no others |
| `Virtqueue.DrainInterrupts` | src/device/virtio/virtio.cpp:170-172 | a notification raises the interrupt if and only if it adds a used entry and the driver wants notifications |
| `Virtqueue.RunHandles` | src/device/virtio/virtio.cpp:106-139 | over a run the requests handled, followed by those that wait, are all that were published, in order |
| `Virtqueue.RunReplies` | src/device/virtio/virtio.cpp:131-173 | over a run the used entries added are the replies to the requests handled, in order, each with the buffers its chain had at the time |
| `Decoder.MaskedIsAgreement` | scripts/riscv-decoder-gen/instpat.py:15-37 | (w & mask) == key exactly when the word agrees with every fixed character |
| `Decoder.ParsePattern` | scripts/riscv-decoder-gen/instpat.py:10-37 | the loop fails exactly on invalid characters and else yields a pattern that matches exactly the words that agree with it, with the key inside the mask |
| `Decoder.BuildTable` | scripts/riscv-decoder-gen/gen.py:52-62 | the dictionary holds under each mask the patterns with that mask in file order, masks in order of first use |
| `Decoder.BuildDecodeTable` | scripts/riscv-decoder-gen/gen.py:52-62 | one such dictionary per group |
| `Decoder.DecodeFinds` | scripts/riscv-decoder-gen/gen.py:151-175 | the generated decoder finds an instruction exactly when some pattern matches, and one of the first group that has one |
| `Decoder.TableKeepsChoice` | scripts/riscv-decoder-gen/gen.py:52-62 | the switches of a group take its first match in file order if and only if no pattern that decodes the word has a mask listed before that of the first match |
| `Decoder.DecodeIsFirstMatch` | scripts/riscv-decoder-gen/gen.py:151-175 | the decoder takes the first match in file order if and only if this holds for the first group with a match |
| `Decoder.KeptForAllWords` | scripts/riscv-decoder-gen/gen.py:52-62 | the same for all words at once, over pairs of patterns with a word that nothing before them decodes |
| `Decoder.KeptWithoutReversedPairs` | scripts/riscv-decoder-gen/gen.py:52-62 | a test on masks and keys alone: enough for every group, and exact where no word is decoded at three places |
| `Decoder.UnambiguousKeepsChoices` | scripts/riscv-decoder-gen/gen.py:52-62 | where patterns of a group share no word the choice is always kept |
| `Decoder.SharedWord` | scripts/riscv-decoder-gen/instpat.py:10-37 | two patterns share a word exactly when they agree where both fix a digit |
| `Decoder.GroupingReorders` | scripts/riscv-decoder-gen/gen.py:52-62 | overlapping patterns for which grouping changes the choice |
| `RadixSort.RankMono` | tests/benchmarks/microbench/src/ssort/ssort.cc:13-23 | ranks order the keys, and equal keys by place |
| `RadixSort.RanksPermutation` | tests/benchmarks/microbench/src/ssort/ssort.cc:13-23 | ranks are a permutation of the places |
| `RadixSort.RadixPass` | tests/benchmarks/microbench/src/ssort/ssort.cc:14-23 | the counting pass is a stable sort of its input |
| `RadixSort.StableOrder` | tests/benchmarks/microbench/src/ssort/ssort.cc:38-41 | a stable pass keeps any order among equal keys |
| `SuffixOrder.NamesOrder` | tests/benchmarks/microbench/src/ssort/ssort.cc:43-56 | names of triples order the sampled suffixes as their texts do |
| `SuffixOrder.MergeDecides` | tests/benchmarks/microbench/src/ssort/ssort.cc:67-72 | comparing one or two characters and ranks decides between a sampled and an unsampled suffix |
| `SuffixSample.NamesAreTriples` | tests/benchmarks/microbench/src/ssort/ssort.cc:43-51 | the names written are equal and ordered as the triples are |
| `SuffixSample.SampleFromRecursion` | tests/benchmarks/microbench/src/ssort/ssort.cc:54-57 | the recursive suffix array of the names lists the sampled suffixes in order |
| `SuffixSample.SortedIsSuffixArray` | tests/benchmarks/microbench/src/ssort/ssort.cc:25-27 | places in strictly increasing suffix order are the suffix array |
| `SuffixArray.NameTriples` | tests/benchmarks/microbench/src/ssort/ssort.cc:43-51 | the naming loop |
| `SuffixArray.SortMultiples` | tests/benchmarks/microbench/src/ssort/ssort.cc:61-63 | the unsampled suffixes end up sorted |
| `SuffixArray.Merge` | tests/benchmarks/microbench/src/ssort/ssort.cc:65-84 | the merge lists all suffixes in order |
| `SuffixArray.BuildSuffixArray` | tests/benchmarks/microbench/src/ssort/ssort.cc:25-85 | for every text of at least two characters followed by three zeros the result is its suffix array |
| `FlowNetwork.CutBound` | tests/benchmarks/microbench/src/dinic/dinic.cc:93-102 | no flow exceeds a cut, and it reaches it exactly when the cut is full |
| `FlowNetwork.FullCutIsMaximum` | tests/benchmarks/microbench/src/dinic/dinic.cc:93-102 | a flow that fills a cut is maximum |
| `FlowNetwork.PushFeasible` | tests/benchmarks/microbench/src/dinic/dinic.cc:83-84 | a push within the residual keeps capacities and paired edges opposite |
| `FlowNetwork.PushOut` | tests/benchmarks/microbench/src/dinic/dinic.cc:83-84 | it moves the net outflow of its two ends and of no other vertex |
| `LevelGraph.EffectPush` | tests/benchmarks/microbench/src/dinic/dinic.cc:82-86 | a child's flow followed by the push is a flow from the parent |
| `LevelGraph.EnteredReach` | tests/benchmarks/microbench/src/dinic/dinic.cc:57-75 | a search that reached the sink leaves a residual path along levels |
| `Dinic.Solver.AddEdge` | tests/benchmarks/microbench/src/dinic/dinic.cc:47-55 | an edge and its empty reverse are added, zero capacities are not, and the lists stay correct |
| `Dinic.NoFlowYet` | tests/benchmarks/microbench/src/dinic/dinic.cc:47-55 | edges as added carry the empty flow, so that what Maxflow returns is the whole flow |
| `LevelGraph.LevelsAreDistances` | tests/benchmarks/microbench/src/dinic/dinic.cc:57-75 | levels that no residual edge skips are the lengths of shortest residual paths, and unmarked vertices have none |
| `LevelGraph.PhaseLengthens` | tests/benchmarks/microbench/src/dinic/dinic.cc:77-91 | after a phase no path to the sink is shorter than before, and if none is left along the levels all are longer |
| `Dinic.Solver.Bfs` | tests/benchmarks/microbench/src/dinic/dinic.cc:57-75 | the search ends with the distances of all vertices that can be reached, the others unmarked, and a level edge into each |
| `Dinic.Solver.Dfs` | tests/benchmarks/microbench/src/dinic/dinic.cc:77-91 | the recursion sends a conserved flow of at most a; if it sends less, no residual level path is left |
| `Dinic.PhaseImproves` | tests/benchmarks/microbench/src/dinic/dinic.cc:96-100 | a phase after a successful search sends something, bounded by the source's capacity |
| `Dinic.Solver.Maxflow` | tests/benchmarks/microbench/src/dinic/dinic.cc:93-102 | the loop ends, after at most n - 1 + flow / INF phases, with a flow that no other exceeds, equal to the cut of the marked vertices, and returns what was added |
| `Int64.ClzSi2` | tests/abstract-machine/klib/src/int64.c:626-656 | the number of leading zeros, 32 for zero |
| `Int64.CtzSi2` | tests/abstract-machine/klib/src/int64.c:661-696 | the number of trailing zeros of a word that is not zero |
| `Int64.ClzDi2` | tests/abstract-machine/klib/src/int64.c:711-717 | the same for 64 bits |
| `Int64.CtzDi2` | tests/abstract-machine/klib/src/int64.c:703-709 | the same for 64 bits |
| `Int64Division.ShrDwordValue` | tests/abstract-machine/klib/src/int64.c:504-506 | the two-word right shift is the quotient by a power of two |
| `Int64Division.Estimate` | tests/abstract-machine/klib/src/int64.c:490-499 | the difference of leading zeros plus one is a shift that brings the dividend below the divisor |
| `Int64Division.CompareBySign` | tests/abstract-machine/klib/src/int64.c:605-614 | the sign of d - r - 1 tells whether to subtract, also for divisors with the top bit set |
| `Int64Division.NextRound` | tests/abstract-machine/klib/src/int64.c:598-615 | a round of the loop keeps quotient and remainder of what has been shifted in |
| `Int64Division.ShiftSubtract` | tests/abstract-machine/klib/src/int64.c:597-619 | the loop ends with quotient and remainder |
| `Int64Division.Udivmoddi4` | tests/abstract-machine/klib/src/int64.c:412-620 | a == b * q + r and r < b for all 64-bit a and b other than zero, through every special case |
| `Int64Signed.TruncatedUnique` | tests/abstract-machine/klib/src/int64.c:355-390 | quotient and remainder rounded toward zero are unique |
| `Int64Signed.Divdi3` | tests/abstract-machine/klib/src/int64.c:355-365 | the truncated quotient, if and only if it is not the least number by -1, where it wraps |
| `Int64Signed.Moddi3` | tests/abstract-machine/klib/src/int64.c:379-390 | the remainder of the truncated quotient, always |
| `Int64Signed.Divmoddi4` | tests/abstract-machine/klib/src/int64.c:369-375 | both, and the remainder is right even where the quotient wraps |
| `BfSource.ScansFindPartners` | tests/benchmarks/microbench/src/bf/bf.c:77-92 | scanning with a counter finds the bracket matched by depth, both ways |
| `BfSource.InputByteIs` | tests/benchmarks/microbench/src/bf/bf.c:118 | a byte read keeps its value as a char in 16-bit two's complement, and comes out as the same byte |
| `BfCompiler.ClosesTop` | tests/benchmarks/microbench/src/bf/bf.c:84-92 | a closing bracket closes the one on top of the stack and no other |
| `BfCompiler.Bf.Compile` | tests/benchmarks/microbench/src/bf/bf.c:65-102 | succeeds exactly on balanced sources within the program and stack sizes, with every jump led to its partner |
| `BfCompiler.StepAgrees` | tests/benchmarks/microbench/src/bf/bf.c:108-124 | an instruction does what its command does in the source |
| `BfCompiler.RunAgrees` | tests/benchmarks/microbench/src/bf/bf.c:108-124 | for every number of steps the compiled program is in the state of the directly interpreted source |
| `BfCompiler.StopsTogether` | tests/benchmarks/microbench/src/bf/bf.c:110 | the program stops exactly where the source has no command left or its pointer has left the cells |
| `BfCompiler.Bf.ExecuteOne` | tests/benchmarks/microbench/src/bf/bf.c:111-123 | a round of the loop is a step of the specification |
| `BfCompiler.Bf.Execute` | tests/benchmarks/microbench/src/bf/bf.c:108-124 | the loop takes every program that stops to where it stops |
| `BfCompiler.Bf.CompileAndFinish` | tests/benchmarks/microbench/src/bf/bf.c:143-146 | compiling and running a source that ends leaves what interpreting it to its end leaves |
| `BfCompiler.Bf.CompileAndRun` | tests/benchmarks/microbench/src/bf/bf.c:143-146 | and so after any number of instructions, whether or not the program ends |
| `Queens.ThroughNext` | tests/benchmarks/microbench/src/queen/queen.c:10-14 | placements through one more column are disjoint from those counted |
| `Queens.ThroughAll` | tests/benchmarks/microbench/src/queen/queen.c:9-15 | all placements go through the free columns |
| `Queens.AttacksNext` | tests/benchmarks/microbench/src/queen/queen.c:13 | the shifted words hold the columns attacked in the next row |
| `Queens.FreeColumns` | tests/benchmarks/microbench/src/queen/queen.c:9 | the mask holds exactly the columns that attack nobody |
| `Digits.LowestOne` | tests/benchmarks/microbench/src/queen/queen.c:11 | x & (~x + 1) is the lowest one of x |
| `Queens.Search.Dfs` | tests/benchmarks/microbench/src/queen/queen.c:5-17 | the count modulo 2^32 of the placements that extend the rows filled so far |
| `Queens.CountPlacements` | tests/benchmarks/microbench/src/queen/queen.c:26-28 | dfs(0, 0, 0) counts the placements of n non-attacking queens, modulo 2^32 |
| `Inversions.ExchangeParity` | tests/benchmarks/microbench/src/15pz/puzzle.h:336-342 | exchanging two of distinct numbers changes the parity of the inversions |
| `SlidingPuzzle.MoveKeeps` | tests/benchmarks/microbench/src/15pz/puzzle.h:203-305 | each move keeps the tiles, the solvability and the stored distance right, and changes the distance by one |
| `SlidingPuzzle.TileMoves` | tests/benchmarks/microbench/src/15pz/puzzle.h:169-305 | a move takes the tile below, above, right or left of the blank into the blank's cell and the blank into the tile's, and nothing else; it is possible if and only if there is such a tile |
| `SlidingPuzzle.MoveUndone` | tests/benchmarks/microbench/src/15pz/puzzle.h:169-305 | the opposite move takes the puzzle back, its stored distance included |
| `SlidingPuzzle.ImpossibleMove` | tests/benchmarks/microbench/src/15pz/puzzle.h:205-214 | an impossible move only makes the puzzle invalid |
| `SlidingPuzzle.RunKeeps` | tests/benchmarks/microbench/src/15pz/puzzle.h:203-305 | so does every run of moves, and the distance falls by at most one a move |
| `SlidingPuzzle.LowerBoundHolds` | tests/benchmarks/microbench/src/15pz/puzzle.h:360-362 | only solvable puzzles reach the solution, in no fewer moves than lower_bound(), also where its byte wraps |
| `SlidingPuzzle.LowerBoundExact` | tests/benchmarks/microbench/src/15pz/puzzle.h:360-362 | the bound is the Manhattan distance if and only if that is below 128, and so always on boards of up to four rows |
| `TileTurns.ShareBoth` | tests/benchmarks/microbench/src/15pz/puzzle.h:317-347 | two turns of three tiles that share two places give the turns of the other places with either |
| `TileTurns.WindowFree` | tests/benchmarks/microbench/src/15pz/puzzle.h:317-347 | around a bend of the snake any three tiles can be turned |
| `TileTurns.Sorted` | tests/benchmarks/microbench/src/15pz/puzzle.h:317-347 | turns bring the tiles into any order, up to an exchange of the last two |
| `SnakeOrder.StepsAcross` | tests/benchmarks/microbench/src/15pz/puzzle.h:203-305 | a step of the blank between rows takes one tile across a stretch of the snake |
| `SnakeOrder.AnyOrder` | tests/benchmarks/microbench/src/15pz/puzzle.h:203-305 | steps of the blank reach any order of the tiles, up to that exchange, with the blank anywhere |
| `PuzzleSolvability.WalkIsRun` | tests/benchmarks/microbench/src/15pz/puzzle.h:203-305 | such steps are legal moves |
| `PuzzleSolvability.SolvableIsSolved` | tests/benchmarks/microbench/src/15pz/puzzle.h:317-347 | every solvable puzzle, of any size, has a run of moves to the solution |
| `PuzzleSolvability.SolvableExactly` | tests/benchmarks/microbench/src/15pz/puzzle.h:317-347 | a puzzle is solvable if and only if some run of moves leads to the solution |
| `SlidingPuzzle.CountInversions` | tests/benchmarks/microbench/src/15pz/puzzle.h:336-342 | the double loop counts the inversions |
| `SlidingPuzzle.IsSolvable` | tests/benchmarks/microbench/src/15pz/puzzle.h:317-347 | the test is the parity of the specification |
| `SlidingPuzzle.FromList` | tests/benchmarks/microbench/src/15pz/puzzle.h:79-115 | a list gives a valid puzzle exactly when it holds every tile, with the right distance; it is a good one, with the tiles of the list and the right blank, if and only if it has at most 11 rows, since tiles are kept in signed bytes |
| `MatrixPower.MulAssociative` | tests/benchmarks/microbench/src/fib/fib.c:16-24 | multiplication is associative, from its sums |
| `MatrixPower.RoundKeeps` | tests/benchmarks/microbench/src/fib/fib.c:52-59 | a round of square-and-multiply keeps ans * T^n |
| `MatrixPower.Fib.MultEntry` | tests/benchmarks/microbench/src/fib/fib.c:19-22 | the innermost loop leaves the sum of products modulo 2^32 in one cell |
| `MatrixPower.Fib.Mult` | tests/benchmarks/microbench/src/fib/fib.c:16-24 | the loops leave the product modulo 2^32 |
| `MatrixPower.Fib.Run` | tests/benchmarks/microbench/src/fib/fib.c:43-60 | for every exponent and size the result is the true power of the step matrix, modulo 2^32 |
| `MatrixPower.PowerIsSequence` | tests/benchmarks/microbench/src/fib/fib.c:3 | whose last column lists the sequence in which each number is the sum of the m before it |

## Left out

* Expression slots are paths into a tree object, so freeing and sharing of nodes is not modelled; NULL expressions
  (which stand for yes), E_LIST and E_RANGE are not part of the trees.
* How int, hex and string symbols are parsed is a parameter of the valuation; choice groups and their implied
  dependencies are left out, and `modules_sym` is a symbol of the model.
* KconfigEqExact.ExprEqExact: not stated for operands y and n, with which the answer has no canonical form (`KconfigEqExact.NotTransitive`); what holds for them is `KconfigEq.ExprEqSound` and `KconfigEqComplete.ExprEqRefl`.
* KconfigTransform.TransCompareExact: stated for y and n, the constants menu.c uses, and not for m.
* The tests by which a node joins a submenu are a parameter of `MenuForest`; what they imply is `KconfigTransform.SubmenuImplies`.
* In the cycle search and in the calculated values: choice symbols, the printed report, warnings, and range bounds, which the search does not check either. Texts of int, hex and string symbols are taken over from the symbol of their default.
* Sv48 and Sv57, entries of valid pointers at level 0 (the source has undefined behaviour; the model returns `Unreachable`), tables in memory-mapped devices, several memory blocks, and accesses that wrap at the end of the address space.
* The exact A and D bits the guest sees: fences drop blocks without writing them back, and the model claims translation results only.
* Floating point, PMP, WARL masking of CSR writes, medelegh (no cause reaches it), the PLIC and the ACLINT.
* HartRuns.RunNested: handlers cause no exception that goes to their own level and leave its enable off; a handler that saves its registers and opens the level again is not covered. The third copy that a write of mstatus refreshes, SUM, is a parameter of the translation.
* Virtqueue.Queue.Notify: rings and descriptors are arrays that requests do not overwrite, the request handler is an arbitrary function of the request's number and buffers, INDIRECT descriptors (not implemented in the source), the null checks of bus pointers and the index equal to the queue count are left out.
* The text of the generated decoder (it is modelled as a list of switches, and duplicate labels, which a C++ compiler rejects, take the first case) and the AVX variant, which is never emitted.
* Dinic.Solver.Maxflow: capacities and flows are unbounded, so overflow of 32-bit sums is not modelled.
* SuffixArray.BuildSuffixArray: texts are over 1..K as the source requires, memory for the work arrays is always there.
* Division by zero, which traps in the source, and signed overflow, taken to wrap as the source's own header assumes.
* BfCompiler.Bf.Execute: takes programs that stop, with the number of steps as a ghost; `ExecuteSome` cuts the loop off for the others. Input reads zeros beyond its end and output grows without bound where the source would leave its buffers.
* Moves on boards of more than 11 rows, whose tiles do not fit their bytes; `SlidingPuzzle.FromList` builds such boards as the source does.
* The hash of the sliding puzzle and its priority queue, and the random constructor.
* Lexers, parsers, dialogs, file and terminal I/O, sockets, threads and clocks, the LoongArch core, ALU instruction bodies, and the textbook programs among the guests.
