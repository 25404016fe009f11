# Kconfig, OTA boot selection, partition tables and alarms: a verified model

This project models the parts of the repository whose correctness is least obvious, and proves
what they are for. It has six groups of modules.

**The three-valued expression optimiser of the C Kconfig engine.** `KconfigExpr` holds
expressions over {n, m, y} and their meaning (`expr_calc_value`). `KconfigTransform`,
`KconfigEq`, `KconfigJoin` and `KconfigDups` model the rewriting passes and prove that they keep
the meaning, reach their normal forms and terminate. `KconfigDups` keeps the aliasing of
`expr_eliminate_dups1`: a double pointer is a path from the root of one tree to a slot, and both
arguments may be the same slot. `KconfigInPlace` has the passes on allocated nodes, with
overwritten types and children, nodes that take over the contents of a child, and new nodes; each
is proved to leave the tree that the function on values computes. `KconfigDupsInPlace` does the
same for `expr_eliminate_dups` with double pointers into one tree: a place is a variable or a field
of a node, and both arguments may be one place. `KconfigForms` says what comparing and cancelling
decide on expressions without duplicates. `KconfigMenu` puts the passes together as `menu_finalize`
uses them, `KconfigMenuInPlace` does so on nodes; `KconfigTests` follows single tests of symbols
through the passes, `KconfigSubmenu` says which entries the test for submenus finds, and
`KconfigMissed` has two that it judges wrongly. An environment (`WellFormed`) gives every symbol a
value and a string: boolean symbols are never m, a bool or tristate symbol's string agrees with its
value, constant symbols are interned by name.

**The lazy value cache of `kconfiglib.py`.** In `KconfiglibModel` every getter is a small program
whose effects are its reads, in the order and with the short cuts of the source.
`KconfiglibValues` gives the recomputed value of every property (`Eval`) and the set of inputs a
computation really looked at (`Reads`). `KconfiglibCache` has the mutable cache with all setters
and the early-stopping invalidation. `KconfiglibPromptless` treats the one setter that can leave
the cache stale, `KconfiglibChoice` the exclusivity of choices, `KconfiglibAssignable` what
`assignable` promises about assignments, `KconfiglibParser` the printer and parser of expressions.
`KconfiglibMeaning` says what the getters yield in the words of the Kconfig language: the first default
whose condition holds, the highest prompt, the range in effect. `KconfiglibGrammar` has the grammar of
expressions, and what the parser makes of any line of tokens in either of its modes.
`KconfiglibExamples` has a small configuration in which two comments of the source do not hold.
`rank` is a ghost witness that value dependencies are acyclic.

**The menu tree.** `MenuForest` says what finalization makes of a tree and proves that document
order is kept. `MenuTree` has the passes that relink `list`, `next` and `parent` in place, and
`walk_menu`. `MenuShape` says who stands below whom in the finished tree. `KconfiglibAutoMenu` has the
test behind implicit submenus, and what the finished tree is in terms of items and conditions.

**OTA updates.** `OtaSearch`: sequence numbers and the search for the next one, in 32-bit
arithmetic. `OtaBoot`: two flash records, power loss anywhere in an update, whole runs. `OtaWrite`:
the block-buffered stream of an encrypted image.

**Checks and codecs.** `DependencyCheck` (depth-first cycle search), `ConfigStrings` (escaping and
in-place unescaping), `PartitionLayout` and `PartitionBinary`.

**The alarm table.** `AlarmTable`: a compacting array stored as packed words.

`Basics` has what the groups share. Every lemma to which the verifier would add an induction
hypothesis of its own carries `{:induction false}`: those hypotheses are not guarded by types, and
no proof here rests on them.

## Where the code and its own words differ

The model follows the code.

- `tools/kconfig_new/kconfiglib.py:2922-2930` says that an item without a cached visibility has no
  dependents with cached values. `expr_value` short-circuits, so an item that was registered as a
  dependency need not have been read: after `KconfiglibExamples.BesideUncached` the value of a symbol
  with `default n && B` is cached and nothing of B is. A value can be cached beside an item without a
  cached visibility if and only if nothing of the item but constants was read on the way to the value
  (`KconfiglibCache.CachedBesideUncached`). The invariant that holds, `KconfiglibCache.Coherent`,
  speaks of the inputs that were read, and is enough for the early stop.
- `Symbol.set_value` on a choice symbol without a prompt changes the user selection and skips the
  invalidation. `KconfiglibPromptless.StaleRun` ends with a wrong cached selection, and
  `KconfiglibPromptless.PromptlessChoiceSymbol` says exactly when the cache is still right.
- `assignable` is described as the values that would be respected. A symbol that is visible at m
  and selected to m while an imply holds it at y has m listed, although every assignment leaves it
  at y (`KconfiglibAssignable.AssignableRespected`, and `KconfiglibExamples.OfferedInVain` for a
  configuration).
- `_expr_depends_on` is described as looking for `sym = m/y` and `sym != n`. By operator precedence
  it accepts `sym != y` too, which holds while `sym` is n (`KconfiglibAutoMenu.UnequalYesBreaks`). A
  conjunction of items and comparisons keeps its entry invisible while `sym` is n if and only if some
  operand was accepted otherwise than as `sym != y` (`KconfiglibAutoMenu.AutoMenuExact`).
- `_remove_ifs` is described as removing `if` nodes. Of two adjacent ones behind another node the
  second stays (`MenuForest.IfsRemain`, and `KconfiglibAutoMenu.IfBlockStays` for a tree).
- `menu_finalize` looks for entries whose condition repeats the parent's. It compares the conditions
  after making them two-valued, and that can merge two tests of one symbol: an entry that depends on
  A and on A != y is not found to repeat A (`KconfigMissed.SubmenuMissed`). Which entries are found,
  for all conditions, is `KconfigSubmenu.SubmenuExact`; for entries that say no more about the
  parent's symbols than the parent does, `KconfigSubmenu.SubmenuComplete` puts it in terms of the
  entry alone.
- The submenu made of those entries is meant to be visible only below its parent. The two-valued form
  takes a negated tristate symbol for n where it is m, so an entry with `!a` can be visible with a at
  m although the parent is not (`KconfigMissed.SubmenuUnsafe`). For conditions in normal form
  that is the only way (`KconfigMenu.SubmenuStrict`), and no negated part is m, under any values, if and
  only if boolean symbols only are negated (`KconfigMenu.TwoValuedAlways`).
- `sym_check_deps` returns NULL from the outermost call on every symbol, even after it has reported
  a cycle, so the loop of `conf_parse` never counts an error (`DependencyCheck.Checker.CheckAll`).
- `esp_ota_write` tests the magic byte as long as nothing has reached the flash, so a first chunk
  of less than 16 bytes makes the next chunk be tested as well (`OtaWrite.SecondChunkTested`).
- A completed selection of an OTA slot takes effect if and only if a sequence number that selects it
  is left below the erased pattern (`OtaBoot.StepExact`). A number that comes out as the pattern is
  written and then not valid, and the old partition stays selected (`OtaBoot.ErasedInput`). Where no
  number is left in 32 bits, the sum in the search wraps around. The search ends if and only if some
  number from the highest one on has the right residue modulo the power of two in the number of slots
  (`OtaSearch.EndsExactly`): never with a power of two (`OtaSearch.SearchStuck`), and with 7 slots it
  can end in a number that selects neither the old slot nor the requested one
  (`OtaBoot.NeitherSlot`).
- `expr_trans_bool` is described as `FOO!=n => FOO`. It keeps whether a value is n, not the value
  (`KconfigTransform.TransBoolLimits`).

## Model

| member | source | states |
|---|---|---|
| KconfigExpr.CompareTri | tools/kconfig/expr.c:885-995 | a bool or tristate symbol is compared with a constant by strings, whatever the constant looks like as a number |
| KconfigExpr.CompareNumbers | tools/kconfig/expr.c:955-995 | symbols whose values are numbers compare as numbers, with a hex symbol among them as unsigned 64-bit numbers; what each of the six comparisons then says |
| KconfigExpr.NumberOf | tools/kconfig/expr.c:885-917 | which values are numbers: int symbols in base 10, hex symbols in base 16, strings and constants in any, bool and tristate symbols never |
| KconfigExpr.CompareStrings | tools/kconfig/expr.c:960-966 | two strings, or values of which one is no number, compare by the dictionary |
| KconfigExpr.CompareOther | tools/kconfig/expr.c:967-972 | symbols of a type without values are equal or unequal by their strings, and never ordered |
| KconfigTransform.TransformValue | tools/kconfig/expr.c:594-749 | the transformed expression has the same value in every well-formed environment in which its ordered comparisons have comparable operands, and those stay comparable |
| KconfigTransform.NegatedComparison | tools/kconfig/expr.c:669-684 | turning a negated ordered comparison into the opposite one is right if and only if the operands can be compared |
| KconfigTransform.TransformNormal | tools/kconfig/expr.c:594-749 | the result is in negation normal form: negations only over non-constant symbols, no boolean symbol tested against y, m or n |
| KconfigTransform.TransformOfNormal | tools/kconfig/expr.c:594-749 | an expression in normal form is left as it is |
| KconfigTransform.TransformIdempotent | tools/kconfig/expr.c:594-749 | a second transformation changes nothing |
| KconfigTransform.DeMorganWeight | tools/kconfig/expr.c:685-702 | the expression that De Morgan's step hands back to the function is lighter, although it is longer: the recursion ends |
| KconfigTransform.TransBoolVisibility | tools/kconfig/expr.c:332-356 | with negations over symbols only, the value is n afterwards if and only if it was before, and never grows |
| KconfigTransform.TransBoolLimits | tools/kconfig/expr.c:332-356 | a test "s != n" keeps its value, and its negation its visibility, exactly when s is not m |
| KconfigTransform.TransBoolExact | tools/kconfig/expr.c:332-356 | no test "s != n" of a tristate symbol is left at any depth; the expression is unchanged if and only if it had none; and its value is the one it would have if each such test had the value of its symbol |
| KconfigTransform.TransBoolKeeps | tools/kconfig/expr.c:332-356 | the value is kept whenever no symbol of such a test is m |
| KconfigTransform.TransCompareValue | tools/kconfig/expr.c:808-871 | the comparison against y or n is a two-valued expression that is y exactly when the comparison holds, given bool or tristate leaves and two-valued negated parts |
| KconfigTransform.TransCompareOptValue | tools/kconfig/expr.c:808-819 | the same with a NULL expression, which counts as y |
| KconfigTransform.TransCompareOfNot | tools/kconfig/expr.c:835-836 | over a negated symbol the comparison is right exactly when the symbol is not m |
| KconfigTransform.DependsSymbolImplies | tools/kconfig/expr.c:779-806 | an expression that depends on a symbol is n while the symbol is n |
| KconfigTransform.DependsContains | tools/kconfig/expr.c:751-806 | an expression that depends on a symbol contains it |
| KconfigTransform.ContainsSymbolFrame | tools/kconfig/expr.c:751-777 | a symbol that is not contained has no influence on the value |
| KconfigTransform.ContainsRenamed | tools/kconfig/expr.c:751-777 | a symbol is contained if and only if putting another one for it changes the expression |
| KconfigEq.EliminateYnValue | tools/kconfig/expr.c:246-327 | removing y and n operands keeps the value |
| KconfigEq.EliminateYnFree | tools/kconfig/expr.c:246-327 | afterwards no y or n operand is left in any reachable and/or node; the tree shrinks if and only if there was one |
| KconfigEq.CancelChainFactor | tools/kconfig/expr.c:141-173 | one cancelling pass takes one and the same expression out of both sides, in every environment |
| KconfigEq.EliminateEqImplies | tools/kconfig/expr.c:175-195 | if the second expression ends as y, the first one was never above it, also when the two passes ran with different operators |
| KconfigEq.ExprEqSound | tools/kconfig/expr.c:200-244 | expressions found equal have equal values everywhere |
| KconfigEq.ExprEqReflexive | tools/kconfig/expr.c:200-244 | every expression is found equal to itself |
| KconfigJoin.JoinOrValue | tools/kconfig/expr.c:361-423 | a merged pair of or-operands has the value of their disjunction |
| KconfigJoin.JoinAndValue | tools/kconfig/expr.c:425-517 | a merged pair of and-operands has the value of their conjunction |
| KconfigJoin.JoinSound | tools/kconfig/expr.c:361-517 | a merge stands for both operands, is shorter than both together, keeps the normal form and does not continue the chain |
| KconfigJoin.JoinTestsComplete | tools/kconfig/expr.c:386-415 | which pairs of tests of one tristate symbol against y, m and n are merged, and that all others are not |
| KconfigJoin.JoinAndExactly | tools/kconfig/expr.c:425-517 | which pairs of and-operands are merged: equal ones, a bool or tristate symbol with its test for y, not n or not m, and tests of one tristate symbol that are opposite or both exclude a value |
| KconfigJoin.JoinOrExactly | tools/kconfig/expr.c:361-423 | which pairs of or-operands are merged: equal ones, two tests of one tristate symbol for different values, and a boolean symbol with its negation |
| KconfigDups.EliminateDups1 | tools/kconfig/expr.c:519-569 | one pass over aliased slots keeps the meaning and the chain, never lengthens the tree, counts nothing if and only if there was nothing to rewrite, and leaves a y or n behind otherwise |
| KconfigDups.MergeStep | tools/kconfig/expr.c:542-565 | replacing two operands by the unit and their join keeps value, chain and normal form of the whole tree |
| KconfigDups.WithoutDups | tools/kconfig/expr.c:571-592 | the fixpoint has the same value everywhere, holds no duplicates, and every round before it shrank the tree |
| KconfigDups.EliminateDups | tools/kconfig/expr.c:571-592 | the loop ends and yields that fixpoint |
| KconfigDups.NoDupsMeans | tools/kconfig/expr.c:519-592 | in a result no two operands of a chain are identical or can be merged, at any depth of alternating chains |
| KconfigDups.TakeOut | tools/kconfig/expr.c:519-569 | an operand at any depth of a chain can be taken out of it, leaving the unit in its slot |
| KconfigInPlace.TransformInPlace | tools/kconfig/expr.c:594-749 | the pass on allocated nodes, which reuses, drops and adds nodes, leaves a tree without sharing that holds the transformed expression |
| KconfigInPlace.PushNot | tools/kconfig/expr.c:685-702 | De Morgan's step reuses both nodes and adds one negation |
| KconfigInPlace.EliminateYnInPlace | tools/kconfig/expr.c:246-327 | the root keeps its place, takes over what is left, and holds the simplified expression |
| KconfigInPlace.TransBoolInPlace | tools/kconfig/expr.c:332-356 | only contents of nodes change, and they then hold the result of the pass |
| KconfigInPlace.Copy | tools/kconfig/expr.c:65-104 | a copy holds the same expression in nodes that did not exist before |
| KconfigInPlace.Equal | tools/kconfig/expr.c:200-244 | the comparison on nodes changes none of them and agrees with the one on values |
| KconfigInPlace.Cancel | tools/kconfig/expr.c:141-173 | cancelling through double pointers into two separate trees leaves two separate trees that hold the cancelled expressions |
| KconfigInPlace.EliminateEqInPlace | tools/kconfig/expr.c:175-195 | both passes and the clean-up, in place, on two trees |
| KconfigDupsInPlace.Dups1InPlace | tools/kconfig/expr.c:519-569 | with both double pointers anywhere in one chain, also at the same place, the nodes end up holding the result of the pass and the count is the same; the nodes of the chain and their places stay, everything else is dropped or new, and nothing is shared |
| KconfigDupsInPlace.MergeNodes | tools/kconfig/expr.c:545-565 | two operands are replaced by the unit and their join exactly when they can be joined |
| KconfigDupsInPlace.JoinNodes | tools/kconfig/expr.c:361-517 | the join of two trees is allocated beside them and leaves them alone |
| KconfigDupsInPlace.EliminateDupsInPlace | tools/kconfig/expr.c:571-592 | the loop ends, with the expression without duplicates under the same root |
| KconfigDupsInPlace.Regrown | tools/kconfig/expr.c:545-565 | a tree whose only change is one slot holds the expression with that slot replaced |
| KconfigMenu.PropagateDependency | tools/kconfig/menu.c:315-330 | the propagated condition is in normal form and has the value of both conditions together; where it is made boolean it is n exactly when one of them is, and no test "s != n" of a tristate symbol is left |
| KconfigMenu.NotNoValue | tools/kconfig/menu.c:339-341 | where leaves are bool or tristate, operands of ordered comparisons comparable, and no negated part is m, "is not n" becomes a duplicate-free expression that is y or n accordingly |
| KconfigMenu.NotNoStrict | tools/kconfig/menu.c:339-341 | for conditions in normal form with bool or tristate leaves, and all values: it says whether the condition is not n when a negated symbol at m counts as n |
| KconfigMenu.TwoValuedAlways | tools/kconfig/expr.c:835-836 | no negated part of a normal condition with bool or tristate leaves is m under any values, if and only if it negates boolean symbols only |
| KconfigMenu.JoinsSubmenu | tools/kconfig/menu.c:339-362 | the test of one of the following entries |
| KconfigMenu.SubmenuVisibility | tools/kconfig/menu.c:343-360 | where leaves are bool or tristate, operands of ordered comparisons comparable, and no negated part of the two conditions is m, an entry that was taken in is visible only if its new parent is visible or its symbol set |
| KconfigMenu.SubmenuStrict | tools/kconfig/menu.c:343-360 | for conditions in normal form with bool or tristate leaves, and all values: the same, unless the entry is visible only through a negated symbol at m |
| KconfigTests.PresentTest | tools/kconfig/expr.c:808-871 | "is not n", and the negation of "is n", of an expression in normal form transform to one and the same expression, operand by operand |
| KconfigTests.DupsKeep | tools/kconfig/expr.c:519-592 | removing duplicates keeps every test that is all its chain says about its symbol, unless the chain collapses to n; and what consists of such tests only, never collapses |
| KconfigForms.ExprEqExact | tools/kconfig/expr.c:200-244 | expressions without duplicates, and without y and n in their chains, are found equal if and only if they are equal up to the order and the bracketing of chains, at every depth |
| KconfigForms.NoDupsClean | tools/kconfig/expr.c:519-592 | what the removal of duplicates yields has no two operands in a chain that are equal in that sense |
| KconfigForms.AllByForm | tools/kconfig/expr.c:141-173 | cancelling such chains blanks, on both sides, exactly the operands that the other side has too |
| KconfigForms.PassesExactly | tools/kconfig/expr.c:141-195 | the second of two such expressions is used up if and only if the first is an and-chain that has all its operands, up to order and bracketing |
| KconfigSubmenu.DependsOperand | tools/kconfig/expr.c:779-806 | a condition depends on s if and only if one operand of its conjunction is s, s = y, s = m or s != n |
| KconfigSubmenu.SubmenuExact | tools/kconfig/menu.c:339-362 | for all conditions in normal form, NULL included: an entry is taken in if and only if it contains the symbol, and one of its operands is s, s = y, s = m or s != n, or the parent's two-valued condition is y, or is not n and has all its operands in the entry's |
| KconfigSubmenu.SubmenuComplete | tools/kconfig/menu.c:339-362 | an entry whose condition has each of the parent's tests as an operand, and says nothing else about their symbols, is taken in if and only if one of its operands is s, s = y, s = m or s != n, or its two-valued condition is still a conjunction |
| KconfigSubmenu.SubmenuNoCondition | tools/kconfig/menu.c:339-362 | without a condition of the parent's prompt every entry that contains the symbol is taken in |
| KconfigMissed.SubmenuMissed | tools/kconfig/menu.c:339-362 | an entry that has the parent's condition as an operand, in normal form and without duplicates, and is not taken in |
| KconfigMissed.SubmenuUnsafe | tools/kconfig/menu.c:339-362 | an entry that is taken in, and values with which it is visible while its parent is not and the symbol is n |
| KconfigMenuInPlace.TransCompareNodes | tools/kconfig/expr.c:808-871 | the comparison with y or n is a new tree; the old one is left alone |
| KconfigMenuInPlace.JoinsNodes | tools/kconfig/menu.c:346-360 | the test on nodes agrees with the one on values, and changes neither the entry's condition nor the parent's two-valued one, which it copies |
| KconfigMenuInPlace.TakeEntries | tools/kconfig/menu.c:341-366 | the loop takes the longest run of following entries that pass the test, and leaves their conditions as they are |
| KconfigMenuInPlace.PropagateNodes | tools/kconfig/menu.c:315-331 | propagation on nodes: the child's condition is used up, the parent's is copied and stays, and the result is the propagated condition |
| KconfiglibValues.BodyReads | tools/kconfig_new/kconfiglib.py:2022-2077 | whatever a getter reads belongs to its own item, to an item it was registered with as a dependent, or to MODULES |
| KconfiglibValues.VisibilityRead | tools/kconfig_new/kconfiglib.py:2922-2926 | every getter that reads anything reads the visibility of its item, possibly by way of the tristate value |
| KconfiglibValues.RunFrame | tools/kconfig_new/kconfiglib.py:3549-3611 | a computation depends on nothing but the inputs it looked at, short cuts included |
| KconfiglibValues.PromptlessUnread | tools/kconfig_new/kconfiglib.py:2885-2902 | no computation at all looks at the user value of a symbol without prompt |
| KconfiglibValues.ChosenUnread | tools/kconfig_new/kconfiglib.py:3313-3338 | the user's selection is looked at for the selection of that choice only |
| KconfiglibCache.SurvivorInput | tools/kconfig_new/kconfiglib.py:2911-2941 | no input of a value that survives an invalidation belongs to an invalidated item, although the invalidation stops early |
| KconfiglibCache.SurvivorsCoherent | tools/kconfig_new/kconfiglib.py:2911-2941 | surviving values are still the recomputed ones under the new settings |
| KconfiglibCache.ChangeAndInvalidate | tools/kconfig_new/kconfiglib.py:2619-2715 | changing the settings of an item and invalidating it keeps every cached value right |
| KconfiglibCache.PromptlessChange | tools/kconfig_new/kconfiglib.py:2700-2703 | the user value of a symbol without prompt may change without any invalidation |
| KconfiglibCache.Kconfig.constructor | tools/kconfig_new/kconfiglib.py:2799-2835 | a fresh configuration has nothing cached or set |
| KconfiglibCache.Kconfig.Read | tools/kconfig_new/kconfiglib.py:2386-2588 | a property read gives what recomputation would give (what that is, KconfiglibMeaning says), keeps the cache coherent, and caches exactly the property and what is read on the way to it |
| KconfiglibCache.Kconfig.Evaluate | tools/kconfig_new/kconfiglib.py:3549-3611 | running a getter against the cache gives the value without it, and caches exactly what it needs |
| KconfiglibMeaning.ExprLevel | tools/kconfig_new/kconfiglib.py:3549-3611 | the value of an expression is the minimum, maximum or complement of those of its parts, all parts taken at once; a leaf has the value of its symbol or the mode of its choice |
| KconfiglibMeaning.RelationLevel | tools/kconfig_new/kconfiglib.py:3577-3607 | what each comparison says: by numbers in the bases of the two types, unless both are strings or one is no number, then by the dictionary |
| KconfiglibMeaning.FirstExists | tools/kconfig_new/kconfiglib.py:2528-2533 | of a list of conditions exactly one is the first that holds, or none does |
| KconfiglibMeaning.TriDefaultMeans | tools/kconfig_new/kconfiglib.py:2528-2533 | the default of a bool or tristate symbol is the minimum of value and condition of the first default whose condition is not n, and n if there is none |
| KconfiglibMeaning.UnassignedValue | tools/kconfig_new/kconfiglib.py:2500-2565 | the value of a bool or tristate symbol outside of choices that has no user value or is invisible: the maximum of that default, of the implies if the direct dependencies are met, and of the selects, with m raised to y for a symbol that counts as bool or is implied to y |
| KconfiglibMeaning.CountsAsBoolMeans | tools/kconfig_new/kconfiglib.py:2375-2384 | a tristate symbol counts as bool if and only if modules are off or its choice is in y mode |
| KconfiglibMeaning.PromptsMean | tools/kconfig_new/kconfiglib.py:3680-3684 | the highest of the levels of the prompt conditions, n without prompts |
| KconfiglibMeaning.SymbolVisibility | tools/kconfig_new/kconfiglib.py:3673-3701 | a symbol outside of choices is as visible as its highest prompt, with m raised to y unless it counts as tristate |
| KconfiglibMeaning.ChoiceVisibility | tools/kconfig_new/kconfiglib.py:3673-3701 | the same for a choice |
| KconfiglibMeaning.ModeMeans | tools/kconfig_new/kconfiglib.py:3116-3133 | the mode of a choice: at least m unless it is optional, at least the user's mode, at most its visibility, and m raised to y for a bool choice |
| KconfiglibMeaning.SelectionMeans | tools/kconfig_new/kconfiglib.py:3313-3338 | in y mode, in this order: the user's selection if it is visible at y, the first default whose condition holds and that is visible, the first visible symbol |
| KconfiglibMeaning.ChoiceAssignableMeans | tools/kconfig_new/kconfiglib.py:3293-3311 | the modes that can be assigned to a choice, from its visibility, its type and whether it is optional |
| KconfiglibMeaning.ChoiceSymAssignable | tools/kconfig_new/kconfiglib.py:2837-2883 | to a choice symbol that is visible at y only y can be assigned |
| KconfiglibMeaning.TriText | tools/kconfig_new/kconfiglib.py:2394-2397 | the text of a bool or tristate symbol is n, m or y by its value |
| KconfiglibMeaning.NameText | tools/kconfig_new/kconfiglib.py:2399-2404 | constants and undefined symbols have their names for texts |
| KconfiglibMeaning.StringValue | tools/kconfig_new/kconfiglib.py:2480-2490 | the user value of a visible string symbol counts, else the text of its first default whose condition holds |
| KconfiglibMeaning.RangeMeans | tools/kconfig_new/kconfiglib.py:2421-2435 | the range in effect is that of the first range whose condition holds; what is no number counts as 0 |
| KconfiglibMeaning.NumberValue | tools/kconfig_new/kconfiglib.py:2413-2478 | the user value of a visible int or hex symbol counts if it is a number within the range in effect; else the default in effect, lifted to the low end of the range or lowered to the high end |
| KconfiglibMeaning.PlainValues | tools/kconfig_new/kconfiglib.py:2505-2510 | constants have their value and are invisible, symbols that are neither bool nor tristate are n, and neither has anything to assign |
| KconfiglibMeaning.AcceptedValues | tools/kconfig_new/kconfiglib.py:2661-2669 | the values that set_value accepts for each type |
| KconfiglibMeaning.OfferedIsAccepted | tools/kconfig_new/kconfiglib.py:2837-2883 | what assignable lists for a symbol is accepted by set_value |
| KconfiglibMeaning.ItemsRenamed | tools/kconfig_new/kconfiglib.py:3703-3726 | an item is in an expression if and only if putting another one for it changes the expression |
| KconfiglibMeaning.DependentsExactly | tools/kconfig_new/kconfiglib.py:2022-2077 | an item is registered with exactly the defined items in whose prompts, defaults, ranges, selects, implies or dependencies it occurs, and constants with none |
| KconfiglibCache.CachedBesideUncached | tools/kconfig_new/kconfiglib.py:2922-2930 | a coherent cache can have a value and not the visibility of an item if and only if nothing of the item but constants is read on the way to the value |
| KconfiglibCache.CoherentClosure | tools/kconfig_new/kconfiglib.py:2922-2930 | a cache that has a value has everything that was read on the way to it |
| KconfiglibExamples.BesideUncached | tools/kconfig_new/kconfiglib.py:2922-2930 | a configuration and a run after which a value is cached and nothing is of B, on which it depends |
| KconfiglibExamples.AOnB | tools/kconfig_new/kconfiglib.py:2022-2077 | the symbol with that value is registered as a dependent of B |
| KconfiglibCache.Kconfig.Invalidate | tools/kconfig_new/kconfiglib.py:2904-2909 | exactly the cached values of the item go |
| KconfiglibCache.Kconfig.InvalidateAll | tools/kconfig_new/kconfiglib.py:2088-2096 | no defined symbol and no choice keeps a cached value |
| KconfiglibCache.Kconfig.RecInvalidate | tools/kconfig_new/kconfiglib.py:2911-2941 | ends on the cyclic graph of choices and their symbols; every item is either untouched or has lost its values along with all its dependents |
| KconfiglibCache.Kconfig.SetSymbol | tools/kconfig_new/kconfiglib.py:2619-2705 | accepts exactly the values of the symbol's type, says what is set, keeps every cached value right except in the promptless choice case, and leaves the cache alone for a symbol without prompt |
| KconfiglibCache.Kconfig.UnsetSymbol | tools/kconfig_new/kconfiglib.py:2707-2715 | forgets the user value only, and keeps the cache coherent |
| KconfiglibCache.Kconfig.SetChoice | tools/kconfig_new/kconfiglib.py:3168-3197 | the same for a choice's mode |
| KconfiglibCache.Kconfig.UnsetChoice | tools/kconfig_new/kconfiglib.py:3199-3206 | forgets mode and selection, and keeps the cache coherent |
| KconfiglibPromptless.PromptlessSelection | tools/kconfig_new/kconfiglib.py:3313-3338 | with a promptless symbol selected, a choice shows what it shows with nothing selected |
| KconfiglibPromptless.PromptlessChoiceSymbol | tools/kconfig_new/kconfiglib.py:2690-2698 | setting a promptless choice symbol to y leaves all cached values right if and only if no selection is cached or the cached one is the unselected one |
| KconfiglibPromptless.StaleRun | tools/kconfig_new/kconfiglib.py:2690-2698 | a run on a concrete configuration, of setting a choice symbol, reading the selection and setting a promptless one, after which the cached selection is not the recomputed one |
| KconfiglibChoice.ValuesAreTri | tools/kconfig_new/kconfiglib.py:2500-2565 | every visibility and tristate value is 0, 1 or 2 |
| KconfiglibChoice.ChoiceSymVisibility | tools/kconfig_new/kconfiglib.py:3673-3701 | the visibility of a choice symbol from its prompts, the mode and MODULES |
| KconfiglibChoice.VisibilityByMode | tools/kconfig_new/kconfiglib.py:3673-3701 | the mode bounds the visibility of the symbols, and in y mode a symbol is fully visible or not at all |
| KconfiglibChoice.ModeM | tools/kconfig_new/kconfiglib.py:3116-3133 | a choice is in m mode only if it is tristate and modules are on |
| KconfiglibChoice.ChoiceSymValue | tools/kconfig_new/kconfiglib.py:2554-2565 | the value of a choice symbol from its visibility, the selection and its user value |
| KconfiglibChoice.SelectionPicks | tools/kconfig_new/kconfiglib.py:3313-3338 | in y mode the selection is a visible symbol of the choice, or there is no visible one |
| KconfiglibChoice.ChoiceExclusive | tools/kconfig_new/kconfiglib.py:2554-2565 | y mode: one symbol y and all others n as soon as any is visible; m mode: all n or m; n mode: all n |
| KconfiglibAssignable.AssignableRespected | tools/kconfig_new/kconfiglib.py:2202-2206 | for a visible symbol outside of choices, `assignable` lists a value exactly when assigning it makes it the symbol's value, except in one stated combination of visibility, select and imply |
| KconfiglibExamples.OfferedInVain | tools/kconfig_new/kconfiglib.py:2202-2206 | a configuration with that combination, in which the one listed value is not what assigning it gives |
| KconfiglibAssignable.AssignedValue | tools/kconfig_new/kconfiglib.py:2516-2552 | the value of a visible symbol from its user value, visibility, select and imply |
| KconfiglibAssignable.AssignableTuple | tools/kconfig_new/kconfiglib.py:2837-2883 | the listed values from visibility, select and imply |
| KconfiglibAssignable.AssigningFrame | tools/kconfig_new/kconfiglib.py:2619-2705 | assigning to a symbol changes neither its visibility nor what selects and imply say about it |
| KconfiglibParser.PrintParse | tools/kconfig_new/kconfiglib.py:1933-2016 | parsing a printed expression uses up all tokens and gives it with its chains bracketed to the right |
| KconfiglibParser.ParsePrinted | tools/kconfig_new/kconfiglib.py:1933-2016 | the same in the middle of a longer token line |
| KconfiglibParser.NormalValue | tools/kconfig_new/kconfiglib.py:3549-3611 | that bracketing has the same value under all symbol values and comparison outcomes |
| KconfiglibParser.NormalIsIdentity | tools/kconfig_new/kconfiglib.py:3613-3648 | it is the expression itself exactly when no && (or \|\|) has an && (or \|\|) on its left |
| KconfiglibParser.RoundTrip | tools/kconfig_new/kconfiglib.py:3613-3648 | printing and parsing a choice-free expression keeps its value, and gives it back unchanged exactly when it nests to the right |
| KconfiglibGrammar.ParsesGrammar | tools/kconfig_new/kconfiglib.py:1933-2016 | for every line of tokens: the parser returns an expression and stops at a place if and only if the tokens up to there spell the expression in the grammar and no operator follows |
| KconfiglibGrammar.ExprModes | tools/kconfig_new/kconfiglib.py:1933-2016 | for every line of tokens: the mode for conditions fails where the other one fails and stops where it stops, and its expression has, under all values, the value of the other one with m lowered to MODULES, comparisons unchanged |
| KconfiglibGrammar.FactorModes | tools/kconfig_new/kconfiglib.py:1985-2016 | the same for factors |
| KconfiglibGrammar.PrintedParens | tools/kconfig_new/kconfiglib.py:3613-3648 | a printed expression has one pair of parentheses for each disjunction in a conjunction and for each negation of anything but a symbol, and no others |
| KconfiglibMeaning.ValueAgrees | tools/kconfig_new/kconfiglib.py:3549-3611 | the value that these laws speak of is the one the getters compute |
| KconfiglibParser.Parser.Check | tools/kconfig_new/kconfiglib.py:1433-1440 | the cursor moves on exactly when the token is there |
| KconfiglibParser.Parser.Expression | tools/kconfig_new/kconfiglib.py:1933-1973 | recursive descent with a cursor agrees with the grammar and leaves the cursor behind the last token used |
| KconfiglibParser.Parser.Conjunction | tools/kconfig_new/kconfiglib.py:1975-1983 | the same for conjunctions |
| KconfiglibParser.Parser.Factor | tools/kconfig_new/kconfiglib.py:1985-2016 | the same for factors, with m read as m && MODULES where that is asked for |
| MenuForest.FinalizedOrder | tools/kconfig_new/kconfiglib.py:4014-4046 | finalization keeps the document order of all nodes that are not if blocks; without the removal of if blocks, that of all nodes |
| MenuForest.FlattenedOrder | tools/kconfig_new/kconfiglib.py:3944-3965 | flattening keeps the document order |
| MenuForest.TakenOrder | tools/kconfig_new/kconfiglib.py:3927-3942 | an implicit submenu takes a run of following nodes, finalized, and leaves the rest in order |
| MenuForest.TakenRun | tools/kconfig_new/kconfiglib.py:3927-3942 | it takes a maximal run: every node taken depends on its item, the node that then follows does not |
| MenuForest.FinalizedTidy | tools/kconfig_new/kconfiglib.py:4014-4046 | below a finalized node no node without a prompt has children, at any depth |
| MenuForest.IfsRemain | tools/kconfig_new/kconfiglib.py:3967-3984 | an if block remains in a row if and only if two are adjacent behind the first node that is something else |
| KconfiglibAutoMenu.IfBlockStays | tools/kconfig_new/kconfiglib.py:3967-3984 | finalizing a menu of an entry and two empty if blocks leaves the entry and one if block |
| MenuTree.Flatten | tools/kconfig_new/kconfiglib.py:3944-3965 | the relinked nodes spell out the flattened row under consistent parent links |
| MenuTree.RemoveIfs | tools/kconfig_new/kconfiglib.py:3967-3984 | the list of the node spells out the row without the if blocks that are removed |
| MenuTree.CheckAutoMenu | tools/kconfig_new/kconfiglib.py:3927-3942 | node, new children and remaining siblings are linked up as the tree says, through recursive finalization |
| MenuTree.FinalizeTree | tools/kconfig_new/kconfiglib.py:4014-4046 | the whole relinking in place yields the finalized tree with consistent parent links |
| MenuTree.FinalizeChildren | tools/kconfig_new/kconfiglib.py:4025-4030 | the loop over the children, whose next links change under it |
| MenuTree.MoveUp | tools/kconfig/menu.c:415-424 | the children of a node without prompt come to stand behind it, under its parent |
| MenuTree.WalkMenu | tools/kconfig_new/kconfiglib.py:939-976 | the walk ends and visits every node below the top exactly in document order |
| MenuTree.PreOrderOnce | tools/kconfig_new/kconfiglib.py:939-976 | that order has every node of the tree once and no other |
| MenuShape.FinalizeAndWalk | tools/kconfig_new/kconfiglib.py:660-660 | finalizing a parsed tree and walking it visits the nodes that are not if blocks in the order of the Kconfig files, none twice; the submenus are maximal runs of joining nodes, and each node's parent in the end is the closest one above it that is not hidden |
| MenuShape.DrawnAllShape | tools/kconfig_new/kconfiglib.py:3927-3942 | drawing nodes into submenus only regroups: dissolving the submenus gives back the parsed tree, and each submenu is a longest run of nodes that join, at every depth |
| MenuShape.FinalizedShown | tools/kconfig_new/kconfiglib.py:3944-3984 | flattening and the removal of if blocks leave every other node below the closest node above it that is not hidden |
| KconfiglibAutoMenu.FinalizeMenu | tools/kconfig_new/kconfiglib.py:3884-3984 | the finished tree, in terms of items and conditions: below an entry that was parsed without children stand exactly the longest run of nodes whose condition, the prompt's or else the dependencies, depends on the entry's item; other nodes keep their parsed children; dissolving the submenus gives back the parsed tree; and the parent of each node is the closest one above that is not hidden |
| KconfiglibAutoMenu.AutoMenuDepends | tools/kconfig_new/kconfiglib.py:3884-3925 | an entry of which some operand was accepted otherwise than as "s != y" is part of the submenu, and invisible while its parent's item is n |
| KconfiglibAutoMenu.AutoMenuExact | tools/kconfig_new/kconfiglib.py:3884-3913 | for a conjunction of items and comparisons, that is guaranteed for all values if and only if there is such an operand |
| KconfiglibAutoMenu.UnequalYesBreaks | tools/kconfig_new/kconfiglib.py:3884-3913 | a test "s != y" is accepted and breaks that rule |
| KconfiglibAutoMenu.DependsExactly | tools/kconfig_new/kconfiglib.py:3884-3913 | for every expression: it is accepted if and only if one of its conjuncts is the item, or a comparison that cannot hold while the item is n, or a test "s != y" |
| KconfiglibAutoMenu.DrawnDepends | tools/kconfig_new/kconfiglib.py:3915-3942 | every node in the submenu of an entry has a condition that depends on the item of the entry |
| KconfiglibAutoMenu.SubmenuInvisible | tools/kconfig_new/kconfiglib.py:3915-3942 | in the finished tree a node in the submenu of an entry is invisible while the item of the entry is n, unless it is there by a test "s != y" only |
| OtaSearch.NextSeq | components/app_update/esp_ota_ops.c:386-409 | the least number from the current one on that selects the requested slot, less than one round away |
| OtaSearch.SearchSeq | components/app_update/esp_ota_ops.c:386-390 | wherever the search loop ends, in wrapping 32-bit arithmetic, it finds the first sum that is not below the current number |
| OtaSearch.HitIsNext | components/app_update/esp_ota_ops.c:386-390 | if a number that selects the slot is left in 32 bits, the loop ends with the least one |
| OtaSearch.HitIsWrong | components/app_update/esp_ota_ops.c:386-390 | if none is left, whatever the loop ends with selects another slot |
| OtaSearch.EndsExactly | components/app_update/esp_ota_ops.c:386-390 | the loop ends if and only if some number from the current one on has the residue of the slot modulo the greatest power of two in the number of slots |
| OtaSearch.SearchStuck | components/app_update/esp_ota_ops.c:386-390 | if no number that selects the slot is left and the number of slots divides 2^32, the condition of the loop holds for every counter |
| OtaSearch.SevenSlots | components/app_update/esp_ota_ops.c:386-390 | with 7 slots the loop can end on the second lap, after 1227133512 rounds |
| OtaSearch.ReadBack | components/app_update/esp_ota_ops.c:533-557 | reading back a number congruent to slot + 1 selects the slot |
| OtaBoot.StepBoots | components/app_update/esp_ota_ops.c:300-417 | one selection, cut short anywhere, leaves the boot slot as it was; completed, the slot of the number that was written boots, or the old one if that is the erased pattern |
| OtaBoot.StepExact | components/app_update/esp_ota_ops.c:300-417 | a completed selection takes effect if and only if a number that selects the slot is left below the erased pattern |
| OtaBoot.StepSafe | components/app_update/esp_ota_ops.c:300-417 | with such a number left, one selection, cut short anywhere, leaves the boot slot as it was or as requested; completed, as requested; numbers stay at least 1 and the highest never falls |
| OtaBoot.RunAtomic | components/app_update/esp_ota_ops.c:300-417 | the same for every selection in every run from erased flash, with power loss anywhere |
| OtaBoot.ErasedInput | components/app_update/esp_ota_ops.c:295-298 | records and a selection that writes the erased pattern and leaves the old slot selected |
| OtaBoot.NeitherSlot | components/app_update/esp_ota_ops.c:386-398 | records and a completed selection after which neither the old slot nor the requested one boots |
| OtaBoot.OtaData.RewriteOtaSeq | components/app_update/esp_ota_ops.c:300-316 | only the named sector changes, through erase and write |
| OtaBoot.OtaData.RewriteOtaData | components/app_update/esp_ota_ops.c:328-417 | wherever the search ends: which record is rewritten with which number, or the error |
| OtaBoot.OtaData.GetBoot | components/app_update/esp_ota_ops.c:492-563 | the partition that boots |
| OtaWrite.OtaEntry.constructor | components/app_update/esp_ota_ops.c:103-153 | a new entry has an empty stream |
| OtaWrite.OtaEntry.Write | components/app_update/esp_ota_ops.c:155-222 | an accepted chunk is appended to flash plus buffer; a chunk that fails the magic test changes nothing; fewer than 16 bytes wait, and flash holds whole blocks |
| OtaWrite.OtaEntry.TopUp | components/app_update/esp_ota_ops.c:187-203 | a block begun earlier is filled up, and written exactly if it is complete, after which the buffer is all ones |
| OtaWrite.OtaEntry.HoldBack | components/app_update/esp_ota_ops.c:204-209 | what does not make up a block is kept, the rest is whole blocks |
| OtaWrite.OtaEntry.End | components/app_update/esp_ota_ops.c:224-260 | the stream ends up in flash, padded to a block with what fills the buffer |
| OtaWrite.WriteAll | components/app_update/esp_ota_ops.c:155-222 | over any run of writes that goes on after refused chunks, flash plus buffer is the concatenation of the accepted chunks, or that does not fit into the partition; the buffer behind it is zeros until a block that was begun has been completed, and ones from then on |
| OtaWrite.WriteImage | components/app_update/esp_ota_ops.c:155-260 | a whole update: flash holds exactly the accepted chunks, an encrypted image padded to whole blocks with that filler; it is refused only if nothing reached the flash, and fails only if the padded image does not fit |
| OtaWrite.AcceptedWhole | components/app_update/esp_ota_ops.c:172-185 | once a first chunk starts with the magic byte and makes up a block, nothing is refused |
| OtaWrite.SecondChunkTested | components/app_update/esp_ota_ops.c:172-185 | the second chunk is tested for the magic byte exactly when the first one was shorter than a block |
| DependencyCheck.RanksFall | tools/kconfig/symbol.c:1154-1221 | ranks fall along every path from a finished symbol |
| DependencyCheck.BackEdge | tools/kconfig/symbol.c:1265-1268 | an edge back onto the symbols under examination closes a cycle |
| DependencyCheck.SuccExactly | tools/kconfig/symbol.c:1189-1221 | which edges the graph has: to every symbol in the reverse dependencies, in the condition of a property that is no select and no choice, and in the value of a default |
| DependencyCheck.Checker.CheckDeps | tools/kconfig/symbol.c:1260-1292 | without a report everything reachable is finished; a returned symbol is still under examination; flags are restored |
| DependencyCheck.Checker.CheckSymDeps | tools/kconfig/symbol.c:1189-1221 | all edges of the symbol have been followed, or a cycle was reported |
| DependencyCheck.Checker.CheckTreeDeps | tools/kconfig/symbol.c:1154-1186 | the same for the symbols of an expression |
| DependencyCheck.Checker.CheckAll | tools/kconfig/zconf.y:519-522 | a recursive dependency is reported if and only if the graph has a cycle; no error is ever counted |
| ConfigStrings.UnescapeEscape | tools/kconfig/symbol.c:914-955 | reading an escaped string gives the string back, whatever follows its closing quote |
| ConfigStrings.EscapeString | tools/kconfig/symbol.c:914-955 | the written form, and that the allocated size is exactly what is used |
| ConfigStrings.EscapedSize | tools/kconfig/symbol.c:923-932 | the counted size |
| ConfigStrings.EscapedExactly | tools/kconfig/symbol.c:914-955 | a string is written as it is if and only if neither quotes nor backslashes are in it |
| ConfigStrings.UnescapeExactly | tools/kconfig/confdata.c:161-176 | what is read, if anything: the text that the characters up to some quote stand for, each for itself or behind a backslash |
| ConfigStrings.UnescapeInPlace | tools/kconfig/confdata.c:161-176 | the loop over the buffer leaves the unescaped text in place, or finds no closing quote, for every string, a final backslash included |
| ConfigStrings.CloseGap | tools/kconfig/confdata.c:169-169 | the tail of the buffer, terminator included, moves down by one |
| ConfigStrings.StringRoundTrip | tools/kconfig/confdata.c:161-176 | a string without NUL that is written and read back is unchanged |
| PartitionLayout.FixUp | components/partition_table/gen_esp32part.py:82-97 | every row gets the place and size that the rows before it imply |
| PartitionLayout.PlacedMeans | components/partition_table/gen_esp32part.py:82-97 | a given offset is kept unless it is below the end of the row before, else the first multiple of 0x10000 for apps and of 4 for others from there on; a negative size names the end |
| PartitionLayout.LayoutSafe | components/partition_table/gen_esp32part.py:82-97 | with a table offset and sizes that did not come out negative: above the table, ascending, disjoint, and where filled in a multiple of 0x10000 for apps and of 4 for others |
| PartitionLayout.AlignUp | components/partition_table/gen_esp32part.py:89-92 | the least multiple from the given offset on |
| PartitionLayout.Verify | components/partition_table/gen_esp32part.py:142-153 | nothing is raised exactly when all offsets, and in secure mode all sizes, are multiples of 0x1000 for apps and of 4 for others, all partitions lie above the table and no sorted neighbours overlap; what is raised holds of some partition |
| PartitionLayout.NeighboursSuffice | components/partition_table/gen_esp32part.py:146-153 | for positive sizes the check of sorted neighbours passes exactly when no two partitions overlap |
| PartitionLayout.SortedStable | components/partition_table/gen_esp32part.py:146-146 | partitions at the same offset are compared in the order in which they are listed |
| PartitionLayout.FlashSizeIsEnd | components/partition_table/gen_esp32part.py:155-163 | without overlaps the flash size is the highest end of any partition |
| PartitionLayout.LatestFirst | components/partition_table/gen_esp32part.py:155-163 | of several partitions that start last the one listed first counts |
| PartitionBinary.EntryRoundTrip | components/partition_table/gen_esp32part.py:334-366 | an entry survives its binary form exactly when its name has at most 16 bytes and no NUL |
| PartitionBinary.EntryLayout | components/partition_table/gen_esp32part.py:330-366 | where each field of a written entry is, byte by byte |
| PartitionBinary.EntryRead | components/partition_table/gen_esp32part.py:334-353 | what is read from any block of 32 bytes, with wrong magic bytes, unknown flags or an unterminated name as well |
| PartitionBinary.TableRoundTrip | components/partition_table/gen_esp32part.py:165-192 | every table of storable entries that fits is accepted, and reading it back returns every entry with its flags, with or without checksum, up to the end marker |
| PartitionBinary.TableFits | components/partition_table/gen_esp32part.py:185-192 | tables of up to 95 entries are accepted, 94 with a checksum, and no others |
| PartitionBinary.TableLayout | components/partition_table/gen_esp32part.py:185-192 | a written table has 0xC00 bytes: the entries in order, the checksum over them if there is one, and ones |
| PartitionBinary.ParseExactly | components/partition_table/gen_esp32part.py:165-183 | for every binary: a table is returned if and only if the blocks before the first block of ones are read as its entries, with every checksum among them right; what follows is not looked at |
| PartitionBinary.FromBinary | components/partition_table/gen_esp32part.py:165-183 | the loop over blocks agrees with the block grammar, failures included |
| AlarmTable.UnpackPack | app/components/common/csro_datetime.c:7-58 | an alarm survives its packed word exactly when its fields fit into 7, 11 and 14 bits |
| AlarmTable.PackUnpack | app/components/common/csro_datetime.c:7-58 | every stored word survives loading and saving |
| AlarmTable.PackedBits | app/components/common/csro_datetime.c:34-58 | where the fields are in the word, and that the word is their sum modulo 2^32 whatever they are |
| AlarmTable.AddKeepsDistinct | app/components/common/csro_datetime.c:60-87 | no two alarms get the same time, an added alarm is found at its time, adding twice is adding once |
| AlarmTable.AddedMap | app/components/common/csro_datetime.c:60-87 | adding sets the action at one time and no other, if the time is known or there is room for it among 20 |
| AlarmTable.RemovedMap | app/components/common/csro_datetime.c:104-126 | deleting frees the time of the entry and leaves all others, and times stay distinct |
| AlarmTable.ModifiedDistinct | app/components/common/csro_datetime.c:89-102 | after a change times are distinct if and only if the new time was not that of another entry |
| AlarmTable.ModifiedMap | app/components/common/csro_datetime.c:89-102 | then the change sets the action at the new time, frees the old one and leaves all others |
| AlarmTable.Table.Load | app/components/common/csro_datetime.c:7-32 | the table after a restart, equal to the one before exactly when all fields fit |
| AlarmTable.Table.Save | app/components/common/csro_datetime.c:34-58 | storage holds the valid prefix |
| AlarmTable.Table.Add | app/components/common/csro_datetime.c:60-87 | the first alarm at that time is overwritten, else one is appended, else a full table stays |
| AlarmTable.Table.Modify | app/components/common/csro_datetime.c:89-102 | one valid entry is overwritten |
| AlarmTable.Table.Delete | app/components/common/csro_datetime.c:104-126 | one entry goes, the others keep their order, the valid ones still form a prefix |
| AlarmTable.Table.Clear | app/components/common/csro_datetime.c:128-135 | the table is empty in memory and storage |

## Left out

- expr.c: freeing memory (dropped nodes are just not used again), allocation failure, list and range nodes, printing, `expr_simplify_unmet_dep`, and `expr_trans_compare` against m.
- KconfigDups.EliminateDups1: the counter is a result instead of the global `trans_count`; node identity is the subject of KconfigDupsInPlace.Dups1InPlace.
- KconfigDupsInPlace.Dups1InPlace: trees without shared nodes; the two join functions read their operands as values.
- KconfigInPlace.Cancel: the two double pointers are in- and out-parameters, because the two trees never share nodes; the counter is not kept.
- KconfigTransform.TransformValue: asks that ordered comparisons have comparable operands; KconfigTransform.NegatedComparison shows that this is needed at the place where it matters.
- KconfigTransform.TransBoolVisibility: states visibility, not the value, because the value is not kept; KconfigTransform.TransBoolLimits is the exact condition, KconfigTransform.TransBoolExact the value it becomes.
- KconfigMenuInPlace.TakeEntries: the recursive finalization of every entry that is taken, which can draw entries behind it into its own list.
- KconfigMenu.PropagateDependency: select properties and reverse dependencies, default types of choices and warnings of menu_finalize.
- menu_finalize evaluates its submenu test while it runs; the tree passes take the test as a parameter and hold for every test.
- MenuTree.WalkMenu: `skip_duplicates` on.
- MenuTree.FinalizeTree: `_finalize_choice`, which marks the symbols of a choice and fills in types; the configurations of the value model are taken after it.
- kconfiglib.py: files, tokenising of characters, help texts, warnings, environment variables, writing of configurations, and `_make_and` / `_make_or` simplification during parsing.
- KconfiglibParser.RoundTrip: for the parser mode that leaves m alone; in the other mode m is read as m && MODULES on purpose, and KconfiglibGrammar.ExprModes says what that changes.
- KconfiglibParser.Parser.Factor: a relation whose right side is not a symbol is a syntax error in the model; the source puts whatever token follows into the tuple.
- KconfiglibCache.Kconfig.SetSymbol: coherence is not claimed for a choice symbol without prompt that is set to y; KconfiglibPromptless.PromptlessChoiceSymbol says when it holds.
- KconfiglibCache.Kconfig.Read: choice symbols whose conditions were all folded to n, so that the choice is not among their registered dependencies; for configurations with acyclic value dependencies and choice defaults among the choice's own symbols; number parsing and number formats are parameters.
- KconfiglibChoice.ChoiceExclusive: choice symbols with a second definition outside of the choice, whose prompt the choice does not limit.
- KconfiglibChoice.VisibilityByMode: the same.
- KconfiglibAssignable.AssignableRespected: choice symbols and choices, whose assignable values are modelled but not related to assignments.
- KconfiglibCache.Kconfig.Evaluate: `_get_selection` reads the visibility of the user's selection by going through the symbols of the choice.
- OtaBoot.StepSafe: the factory partition, whose selection erases both records in one call, and image verification; the checksum is a flag that an interrupted write fails.
- OtaBoot.OtaData.RewriteOtaData: nothing is stated where the search does not end; OtaSearch.EndsExactly says when that is.
- OtaWrite.WriteAll: nothing is stated about the entry after a failed flash write.
- OtaWrite.OtaEntry.Write: after a failed flash write nothing is stated about the entry; the lookup of the handle and the size check against the erased size are not modelled.
- OtaWrite.OtaEntry.End: image verification and removal of the entry.
- DependencyCheck.Checker.CheckDeps: choices and choice values, and the printing of the cycle.
- ConfigStrings.UnescapeInPlace: the surrounding parsing of a configuration line; a closing quote is followed by anything.
- PartitionLayout.Verify: missing type, subtype, offset or size; expansion of variables and parsing of CSV fields.
- PartitionBinary.EntryRoundTrip: names are their encoded bytes, flag bits other than the known one are dropped as in the source, and decoding failures of names are not modelled.
- PartitionBinary.TableRoundTrip: MD5 is any function with 16-byte results.
- AlarmTable.Table.Save: NVS failures; opening and committing storage.
- Ringing of alarms, time synchronisation, networking, user interfaces, build and documentation scripts.
