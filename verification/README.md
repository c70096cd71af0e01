# The configuration engine and the loaders, in Dafny

The boot loader carries the Kconfig engine under `scripts/kconfig`, the dependency
scanner `scripts/basic/fixdep.c`, a PE loader in `main/parse.c` and the
self-relocators of its run-time. This project models them and proves what they are
for. Modules follow the source:

- `Tristates`, `NumText`, `Exprs`: the values n < m < y, the C library's number
  parsing and printing, dependency expressions and their value under a valuation.
- `Cancellation`, `Joins`, `Spines`, `Completeness`, `Duplicates`, `Transformation`: the
  expression optimiser of `expr.c`. Its passes keep the value of every condition under
  every consistent valuation and end in a normal form, in which nothing is left that they
  ought to have found; what negation push-down computes is stated for orderings it cannot
  keep, too. `ExprHeap` runs the passes on nodes in memory, rewritten and freed in place as
  in the source, and proves that they build the tree the value-level pass computes, touch nothing else, and free each dropped node
  exactly once, apart from negations, which `expr_free` leaks: how many is stated for
  every pass. Duplicate elimination works in place on the row of operand slots that the
  source addresses with `struct expr **`.
- `SymbolEquations`, `Layering`, `Solutions`, `Choices`, `UserValues`, `TextValues`,
  `TextSetting`:
  what the value of a symbol ought to be (visibility, selects, defaults, ranges,
  choices), the uniqueness of that on acyclic tables, choice groups, and what setting a
  value does. `Comparing` says what comparisons mean in the numbers and texts compared,
  and `ValueRules` reads the value of a symbol off its properties, index by index.
  `Evaluation` is the demand-driven, memoising evaluator of `symbol.c` as a class; it
  terminates on every table, cyclic ones included, and is exact on acyclic ones.
- `Dependencies`, `Recursion`, `Acyclicity`, `CycleExamples`: the flag-based search for
  recursive dependencies, what it reports on tables with choices, and what a table needs
  beyond a search without a report to be one the evaluator is exact on.
- `Quoting`, `ConfText`, `LineRules`, `Ranges`, `Saving`, `SavedChoices`, `Configurations`,
  `SaveExamples`, `ConfigFiles`, `AutoConf`: configuration files. What a save and a load
  do to a configuration, full and minimal, choices included, and which files a split
  touches.
- `Forests`, `MenuConditions`, `Menus`: the restructuring of the menu tree and the walk
  over it that needs no stack.
- `Fixdep`, `Memory`, `Relocators`, `PeLoader`: the scanner and the loaders.

A valuation is consistent (`Exprs.Consistent`) when a boolean symbol is never m, a
boolean or tristate symbol's string spells its value and constants mean what they
spell. A table is layered (`Layering.Layered`) when some ranking shows it acyclic and
nothing that decides whether modules are enabled depends on modules being enabled; a
choice comes before its values. Symbols are numbered; 0, 1 and 2 are n, m and y.

## Where the code falls short of its promise

- `expr_free` returns from a negation without freeing its node
  (`scripts/kconfig/expr.c:114-116`). `ExprHeap.Store.FreeTree` leaves exactly the
  negations of a tree allocated; a comparison leaks nothing if and only if what it
  copies holds no negation (`ExprHeap.ComparisonLeaks`), and comparing `!A && B` with
  itself does leak (`ExprHeap.ComparedNegationLeaks`).
- `expr_transform` turns `!(a < b)` into `a >= b`. When the operands cannot be put in
  order both read n, so the value changes: `Transformation.NegatedOrderingExact` says
  exactly when, `Transformation.NegatedOrderingLost` gives such operands, and
  `Transformation.TransformMeans` says what is computed for any condition.
- `expr_trans_compare(!a, !=, n)` is right if and only if `a` is not m:
  `Transformation.NegationLiftExact`. Of a symbol on its own it is right if and only if
  its string is "n" exactly when it is n, which an int, hex or string symbol may fail:
  `Transformation.LeafLiftExact`.
- `expr_trans_compare` compares a conjunction or disjunction with m by leaving it as it is
  (`Transformation.TransCompareModule`); nothing in this engine asks for that.
- The comment at `scripts/kconfig/expr.c:499` disagrees with line 500; the model follows
  the code (`a='y'`).
- A full save is lossless if and only if every value is within reach of what the save
  leaves of it (`Configurations.FullRoundTrip`): no boolean or tristate value
  exceeds both its prompt and its selects, no range moves its value a second time,
  environment symbols, which have no line, have their defaults, no text printed
  behind the line of a symbol reads as that symbol, and a choice worth m has a value
  worth m or selects that say so. `SaveExamples.DefaultAboveVisibilityLost`
  is a table on which "default y" under a prompt worth m comes back as m,
  `SaveExamples.OptionalChoiceLost` one with a choice that comes back as n.
- A menu titled `CONFIG_A is not set` prints a comment that reads back as a value:
  `SaveExamples.TitledSymbolLost` loses A=y to one. `Configurations.SavedReadsBack` says
  what reading leaves with any titles.
- A minimal save is lossless if and only if every visible symbol that counts as not
  changeable, or comes from the environment, has its default, and no range moves the
  value of another one a second time, and choices are as in a full save and selected as y
  where the pick was left out (`Configurations.MinimalRoundTrip`).
  `SaveExamples.SelectedNumberLost` is a table with a selected int symbol whose number
  is lost. For boolean symbols and their choices, and for strings and numbers nothing
  selects, it is always lossless (`Configurations.MinimalLossless`), as long as visible
  environment symbols have their defaults.
- A value moved into an empty range, or to a negative hexadecimal lower bound, may be
  moved again the next time: `Ranges.ClampTwice` says exactly when, `Ranges.NegativeHexBound`
  follows one such value.
- A text that spells a negative end of a hexadecimal range in two's complement is refused,
  although evaluation would show it: `TextValues.AcceptedTextExactly` says exactly when a
  refused text would be shown, `TextValues.NegativeEndShown` is one.
- `sym_set_string_value` accepts a text that is stored already without invalidating
  anything. What it accepts for a visible symbol shows next if and only if the text is
  new, or the symbol counted as set by the user, or the text is its value anyway
  (`TextSetting.SetTextAndCalc`); `TextSetting.StoredTextNotShown` is a state in which it
  does not show.
- The search for recursive dependencies does not look at range bounds
  (`CycleExamples.BoundUnseen`), nor at whether the modules symbol depends on tristate
  symbols: what a table needs beyond a search without a report to be one evaluation is
  exact on is stated in both directions (`Acyclicity.RankedIsLayered`,
  `Acyclicity.LayeredIsRanked`).
- With choices the search reports more than cycles of symbols and less than cycles of
  choices taken as one with their values, and which depends on where it begins. Values are
  looked into together, so that one that depends on another of its choice is reported
  (`CycleExamples.SiblingsNeedThemselves`). The flag of a choice is cleared before its
  values are looked into, so that a value that depends on a symbol that depends on the
  choice is reported if the search begins with that symbol (`CycleExamples.EarlyIsCaught`)
  and is not if it begins with the choice (`CycleExamples.RoundIsSilent`).
  `Recursion.Checker.Sweep` says what is reported for certain and what a report means.
- What the search reports never counts as an error: `sym_check_deps` comes back with NULL
  to `conf_parse` (`scripts/kconfig/zconf.y:519-524`), whatever it reported, so a recursive
  dependency is printed and the configuration used all the same
  (`Recursion.Checker.Sweep`).
- A split touches the file of an int symbol without a value every time, and does not
  touch it when the symbol is no longer written: `AutoConf.TouchExact`.
- `fixdep` does not see a symbol at offset 0 of a file: the name is lost if and only if it
  stands nowhere else (`Fixdep.StartMissed`); `Fixdep.LoneSymbolMissed` is such a file.

## Model

| member | source | states |
|---|---|---|
| Cancellation.EliminateYnSound | scripts/kconfig/expr.c:246-330 | y/n elimination keeps the value of every expression |
| Cancellation.EliminateYnShrinks | scripts/kconfig/expr.c:246-330 | its result has no y or n operand, never grows, and is smaller as soon as there was a neutral operand |
| Cancellation.EliminateYnFixpoint | scripts/kconfig/expr.c:246-330 | it leaves what is free of y and n operands alone |
| Cancellation.CancelOperandsSound | scripts/kconfig/expr.c:141-173 | joining the removed common part back gives both sides their original value |
| Cancellation.ExprEqSound | scripts/kconfig/expr.c:200-244 | expr_eq = 1 means equal values under every valuation |
| Cancellation.EliminateEqSound | scripts/kconfig/expr.c:175-198 | both sides equal their originals once what two passes removed is joined back |
| Cancellation.EliminateEqImplies | scripts/kconfig/expr.c:175-198 | if only y is left of the second side, the first is at most the second everywhere |
| Cancellation.EliminateEqShrinks | scripts/kconfig/expr.c:175-198 | what is left is free of y and n operands and no larger |
| Completeness.EqualItself | scripts/kconfig/expr.c:200-244 | expr_eq finds every condition equal to itself, however nested |
| Completeness.NothingLeftOfEqual | scripts/kconfig/expr.c:175-198 | cancelling a conjunction or disjunction against itself leaves the same constant on both sides |
| Completeness.NothingShared | scripts/kconfig/expr.c:141-173 | after cancellation no operand of one side equals an operand of the other, y and n apart |
| Completeness.NothingSharedByBoth | scripts/kconfig/expr.c:175-198 | after both passes the two conditions share no operand of the kind of either, y and n apart |
| Completeness.AbsorbingStays | scripts/kconfig/expr.c:158-163 | n in a conjunction and y in a disjunction are never cancelled |
| Completeness.CoveredLeavesYes | scripts/kconfig/expr.c:141-198 | only y is left of a condition all of whose operands, none of them n and no two equal, occur in a conjunction |
| Joins.MergeOrSound | scripts/kconfig/expr.c:361-423 | a joined disjunction has the value of the two operands under every consistent valuation |
| Joins.MergeAndSound | scripts/kconfig/expr.c:425-517 | the same for a conjunction |
| Joins.JoinSound | scripts/kconfig/expr.c:361-517 | the same including equal operands |
| Completeness.UnjoinedReduced | scripts/kconfig/expr.c:361-592 | in a condition a pass leaves alone, at any depth, no operand stands twice, no disjunction holds two values of a tristate symbol or a boolean symbol and its negation, and no conjunction holds a symbol with s=y, s!=n or s!=m, a value a tristate symbol has and one it has not, or two it has not |
| Duplicates.Optimiser.Dups1 | scripts/kconfig/expr.c:519-569 | one pass over two sets of operands keeps the value, never grows, counts something exactly when some pair joins, and then leaves a neutral leaf |
| Duplicates.Optimiser.DupsSelf | scripts/kconfig/expr.c:578-585 | the pass over a whole expression, nested junctions included |
| Duplicates.Optimiser.EliminateDups | scripts/kconfig/expr.c:571-592 | the loop ends, keeps the value under every consistent valuation and restores trans_count; in the result, at any depth, no operand of a conjunction or disjunction stands twice and no pair of tests is left that can be put as one |
| Duplicates.Optimiser.EliminateDupsTwice | scripts/kconfig/expr.c:571-592 | running it on its own result changes nothing |
| Transformation.TransformSound | scripts/kconfig/expr.c:594-749 | negation push-down keeps the value wherever orderings under an odd number of negations have comparable operands |
| Transformation.TransformMeans | scripts/kconfig/expr.c:594-749 | what the result is worth under every consistent valuation: the condition read with its negations pushed down to turned-around comparisons |
| Transformation.TransformNormal | scripts/kconfig/expr.c:594-749 | the result has NOT only directly above a symbol other than y, m, n and compares no boolean symbol with y, m or n |
| Transformation.TransformRemoves | scripts/kconfig/expr.c:594-749 | nowhere in the result is a negation above anything but a symbol other than y, m, n, nor a boolean symbol compared for = or != with y, m or n |
| Transformation.TransformFixpoint | scripts/kconfig/expr.c:594-749 | normal forms are exactly what it leaves alone |
| Transformation.NegatedOrderingExact | scripts/kconfig/expr.c:679-692 | a negated ordering keeps its value if and only if the operands are comparable |
| Transformation.NegatedOrderingLost | scripts/kconfig/expr.c:679-692 | a consistent valuation under which a negated ordering changes from y to n |
| Transformation.TransBoolSound | scripts/kconfig/expr.c:332-356 | on negation-normal input the boolean weakening never changes whether the value is n, and never raises it |
| Transformation.TransBoolRemoves | scripts/kconfig/expr.c:346-351 | nowhere in the result is a tristate symbol compared with n for being different |
| Transformation.TransBoolFixpoint | scripts/kconfig/expr.c:332-356 | a condition without such a comparison stays as it is |
| Transformation.TransCompareIsPossible | scripts/kconfig/expr.c:808-871 | what the lifted comparison with n computes, for every condition: two-valued logic in which a symbol counts unless its string is "n" |
| Transformation.TransCompareIsCertain | scripts/kconfig/expr.c:808-871 | the same for the comparison with y, where a symbol counts if its string is "y" |
| Transformation.TransCompareModule | scripts/kconfig/expr.c:808-871 | what a comparison with m comes to: a symbol is asked, a comparison is never m, and a conjunction or disjunction stays what it was |
| Transformation.TransCompareLifts | scripts/kconfig/expr.c:808-871 | it is y exactly where the condition is not n, if no negation has an operand worth m and every symbol reads "n" exactly when it is n |
| Transformation.LogicalLeavesTell | scripts/kconfig/symbol.c:773-797 | boolean and tristate symbols and y, m, n always read "n" exactly when they are n |
| Transformation.LeafLiftExact | scripts/kconfig/expr.c:863-864 | a lifted symbol is right if and only if it reads "n" exactly when it is n |
| Transformation.NegationLiftExact | scripts/kconfig/expr.c:839-840 | a lifted negation is right if and only if its operand is not m |
| ExprHeap.Store.FreeTree | scripts/kconfig/expr.c:106-128 | of the tree exactly the negations stay allocated, every other node is freed once, nothing else changes |
| ExprHeap.FreedWhole | scripts/kconfig/expr.c:114-116 | the whole tree is freed if and only if it holds no negation |
| ExprHeap.Store.CopyTree | scripts/kconfig/expr.c:65-104 | an equal tree of fresh nodes |
| ExprHeap.Store.EliminateYnInPlace | scripts/kconfig/expr.c:246-330 | in place: the node stays the root, the tree is the simplified one, dropped nodes are freed once but for negations, and as many of these are leaked as the result has less |
| ExprHeap.Store.TransBoolInPlace | scripts/kconfig/expr.c:332-356 | the same for the boolean weakening |
| ExprHeap.Store.TransformInPlace | scripts/kconfig/expr.c:594-749 | the same for negation push-down, with the nodes De Morgan adds |
| ExprHeap.Store.CancelInPlace | scripts/kconfig/expr.c:141-173 | the same for cancellation on two trees at once; trans_count grows by the number of cancelled pairs, and the negations of dropped operands and of the copies compared are what is leaked |
| ExprHeap.Store.EqInPlace | scripts/kconfig/expr.c:200-244 | the comparison restores the counter and leaves memory as it was, except that the negations of its copies stay allocated |
| ExprHeap.ComparisonLeaks | scripts/kconfig/expr.c:219-230 | a comparison leaks nothing if and only if what it copies holds no negation |
| ExprHeap.CancellationLeaks | scripts/kconfig/expr.c:141-173 | a cancellation leaks nothing if and only if, of the operands it compares in turn, those that are equal and those that are copied to be compared hold no negation |
| ExprHeap.ComparedNegationLeaks | scripts/kconfig/expr.c:219-230 | comparing !A && B with itself leaks two nodes or more |
| ExprHeap.Store.EliminateEqInPlace | scripts/kconfig/expr.c:175-198 | both passes and the final simplification, on two trees that share no node, with what they leak |
| Layering.ComputeCongruent | scripts/kconfig/symbol.c:327-474 | what a symbol computes to depends only on symbols ranked below it |
| Comparing.NumbersCompare | scripts/kconfig/expr.c:885-995 | operands that spell numbers compare as these numbers, for each of the six relations; next to a hexadecimal symbol a negative number counts as its two's complement |
| Comparing.TextsCompare | scripts/kconfig/expr.c:960-995 | two strings, and anything with an operand that is read as text, compare by the first character they differ in |
| Comparing.OthersCompare | scripts/kconfig/expr.c:967-973 | symbols of no printable type are told apart by their strings and never ordered |
| Comparing.LogicalCompare | scripts/kconfig/expr.c:957-995 | a boolean or tristate symbol tested for y, m or n; m reads as n while modules are off |
| Comparing.CompareTextMeans | scripts/kconfig/expr.c:965-966 | strcmp is negative, zero or positive as the first text comes before the second, is it, or comes after it |
| Comparing.StrtollMeans | scripts/kconfig/expr.c:898 | strtoll passes over white space, reads digits up to the first character that is none, and stays within 64 bits |
| Comparing.DigitValues | scripts/kconfig/expr.c:898-907 | digits above nine are letters, small or capital |
| Comparing.OctalRead | scripts/kconfig/expr.c:905-908 | where no base is given a leading zero means octal |
| Comparing.MagnitudeMeans | scripts/kconfig/expr.c:898-907 | of the digits read each counts the base times what the next one does |
| Comparing.DecimalDigits | scripts/kconfig/symbol.c:183 | "%lld" prints the highest digit first, and a minus in front of a negative number |
| Comparing.HexDigits | scripts/kconfig/symbol.c:185 | "0x%llx" prints the highest digit first behind "0x" |
| Comparing.NegativeHexDigits | scripts/kconfig/symbol.c:185 | it prints a negative number as its two's complement |
| Solutions.BooleanNeverMod | scripts/kconfig/symbol.c:414-415 | a boolean symbol never computes to m |
| Solutions.SolvedIsSolution | scripts/kconfig/symbol.c:327-474 | the level-by-level valuation solves every symbol's equation |
| Solutions.SolutionUnique | scripts/kconfig/symbol.c:327-474 | an acyclic table has one solution |
| Solutions.SolutionsAgree | scripts/kconfig/symbol.c:327-474 | users who agree below a rank get equal values below it |
| ValueRules.VisibilityRule | scripts/kconfig/symbol.c:209-239 | a symbol is as visible as its most visible prompt; m counts as y unless the symbol is a tristate and modules are on, and does not count for a tristate value of a choice worth y |
| ValueRules.SelectRule | scripts/kconfig/symbol.c:240-261 | the selects are what the collected condition is worth, m rounded up for booleans and while modules are off, and nothing for a value of a choice |
| ValueRules.UserRule | scripts/kconfig/symbol.c:380-417 | in every solution a visible boolean or tristate symbol the user set has the lower of that and its visibility, raised by the selects |
| ValueRules.DefaultRule | scripts/kconfig/symbol.c:114-125 | in every solution one the user did not set, or an invisible one, has the lower of default i and its condition, raised by the selects, where that condition is not n and those of all earlier defaults are |
| ValueRules.NoDefaultRule | scripts/kconfig/symbol.c:392-417 | where all those conditions are n it has what the selects say |
| ValueRules.PickedRule | scripts/kconfig/symbol.c:376-379 | a value of a choice whose visibility is y is y if the choice picks it and n if not |
| ValueRules.UserTextRule | scripts/kconfig/symbol.c:418-426 | in every solution a visible string or number the user set has the user's text, moved into its range |
| ValueRules.DefaultTextRule | scripts/kconfig/symbol.c:427-438 | any other has the string of the symbol named by the first default whose condition is not n, moved into its range |
| ValueRules.NoDefaultTextRule | scripts/kconfig/symbol.c:366-370 | without such a default it is empty, moved into its range |
| ValueRules.RangeRule | scripts/kconfig/symbol.c:127-187 | the first range whose condition is not n keeps a number inside it as it is spelled and replaces any other by the bound it is beyond, printed by type; without one nothing is moved |
| ValueRules.BoundRule | scripts/kconfig/symbol.c:139-153 | a bound is the number its own type says it spells, or if it has no number type that of the symbol it bounds |
| ValueRules.ChoiceRule | scripts/kconfig/symbol.c:380-417 | a choice takes no defaults for its own value; it picks only as y, and is n then if and only if none of its values would be visible |
| ValueRules.WrittenRule | scripts/kconfig/symbol.c:380-470 | a symbol is marked for writing if and only if it does not come from the environment and is visible, selected, or has a default that applies |
| ValueRules.ConstantRule | scripts/kconfig/symbol.c:371-374 | a symbol without a type has its name for a string, and only y and m have a value |
| Choices.MemberValue | scripts/kconfig/symbol.c:376-379 | a member of a choice worth y is y exactly when visible and picked |
| Choices.ChoiceExclusive | scripts/kconfig/symbol.c:376-379 | in a choice worth y whose values have no defaults exactly one value is y and the rest are n |
| Choices.ChoiceWinner | scripts/kconfig/symbol.c:269-325 | the winner is the user's pick if visible, else the first visible default, else the first visible value |
| UserValues.AcceptedSticks | scripts/kconfig/symbol.c:487-540 | an accepted tristate value is what the next evaluation computes, between selects and visibility; a choice set to y sticks if and only if it has something to pick |
| UserValues.AcceptedExactly | scripts/kconfig/symbol.c:487-540 | a value is within range if and only if the visibility exceeds the selects and the next evaluation would compute that value; of a choice, whatever would be computed is within range |
| UserValues.MemberAccepts | scripts/kconfig/symbol.c:501-502 | a value of a choice accepts y where its visibility is y, and n and m where it is m |
| UserValues.AcceptedIsLocal | scripts/kconfig/symbol.c:506-540 | nothing ranked below the symbol changes |
| UserValues.AcceptedPickSticks | scripts/kconfig/symbol.c:517-533 | setting a visible value of an open choice makes it the winner |
| TextValues.PrefixNeutral | scripts/kconfig/symbol.c:682-686 | the "0x" added to a hex number changes neither its value nor its validity |
| TextValues.AcceptedTextSticks | scripts/kconfig/symbol.c:650-697 | an accepted text of a visible symbol is what evaluation of the new users' values computes |
| TextValues.AcceptedTextExactly | scripts/kconfig/symbol.c:608-648 | a valid text of a visible symbol is what the next evaluation would show if and only if it is within range, or spells a negative end of a hexadecimal range; without such an end, if and only if it is within range |
| TextValues.NegativeEndShown | scripts/kconfig/symbol.c:636-638 | the text of all sixteen digits f is outside the range from -2 to -1 and would be shown all the same |
| TextSetting.WithinRangeNow | scripts/kconfig/symbol.c:608-648 | sym_string_within_range, evaluating what the range asks for, accepts exactly the valid texts inside the active range |
| TextSetting.SetStringValue | scripts/kconfig/symbol.c:669-697 | accepts exactly the texts within range, which, unless a hexadecimal range ends below zero, are the valid texts that evaluation would show for a visible symbol; a new text is stored and invalidates everything, one stored already only counts as set |
| TextSetting.SetTextAndCalc | scripts/kconfig/symbol.c:669-697 | an accepted text of a visible symbol is the next value if and only if it is new, the symbol was set by the user, or it is the value anyway |
| TextSetting.StoredTextNotShown | scripts/kconfig/symbol.c:676-689 | a state in which an accepted text does not become the value |
| Evaluation.Evaluator.CalcExpr | scripts/kconfig/expr.c:917-992 | evaluating a condition evaluates the symbols it mentions and gives its value in the solution; what comparisons mean in the numbers and texts compared is in `Comparing` |
| Evaluation.Evaluator.CalcVisibility | scripts/kconfig/symbol.c:209-261 | visibility and selects as in the solution |
| Evaluation.Evaluator.ValidateRange | scripts/kconfig/symbol.c:155-187 | the adjusted number as in the solution |
| Evaluation.Evaluator.CalcChoice | scripts/kconfig/symbol.c:295-325 | the pick of a choice under evaluation as in the solution |
| Evaluation.Evaluator.SetAllChoiceValues | scripts/kconfig/confdata.c:1103-1121 | exactly the values nobody set become n, the choice counts as set, and one NEED_SET flag goes with the VALID flag it clears |
| Evaluation.Evaluator.UnsetMeans | scripts/kconfig/confdata.c:1109-1113 | a value nobody set becomes n with its text and pick as they were, and every other stays what it was |
| Evaluation.Evaluator.CalcValue | scripts/kconfig/symbol.c:327-474 | it ends on every table, keeps the state well formed, and on acyclic tables leaves every finished symbol exact and every WRITE flag as specified; which prompt, default, range and pick that takes is in `ValueRules` |
| Evaluation.Evaluator.ClearAllValid | scripts/kconfig/symbol.c:476-485 | evaluation starts afresh, the modules symbol first |
| Evaluation.Evaluator.Recalculate | scripts/kconfig/symbol.c:327-485 | after clearing, any sequence of evaluations leaves every valid symbol with the value, visibility and selects of evaluation from scratch |
| Evaluation.Evaluator.TristateWithinRange | scripts/kconfig/symbol.c:487-504 | accepts exactly what is within range of the configuration evaluated last, which `UserValues.AcceptedExactly` and `MemberAccepts` say is what would stick |
| Evaluation.Evaluator.SetTristateValue | scripts/kconfig/symbol.c:506-540 | accepts exactly the present value and, where the visibility exceeds the selects, the value that the solution for the users' values with it stored has; invalidates everything on a change |
| Evaluation.Evaluator.SetAndCalc | scripts/kconfig/symbol.c:506-540 | an accepted change is what is computed next |
| Evaluation.Evaluator.SetChoiceValue | scripts/kconfig/symbol.c:506-540 | a value of a choice accepts its present value, y where its visibility is y, and n and m where it is m, which is then what the solution has; y makes it the pick and marks exactly the visible siblings, even where it is y already; only a change invalidates |
| Dependencies.OrderedIsAcyclic | scripts/kconfig/symbol.c:1274-1306 | an order in which everything follows what it needs excludes cycles |
| Dependencies.CheckedExactly | scripts/kconfig/symbol.c:1203-1235 | a condition is looked into if and only if it is the reverse dependency, the condition of a property, or the value of a default, of a choice not; bounds of ranges never are |
| Dependencies.NoGroups | scripts/kconfig/symbol.c:1237-1272 | without choices, cycles of groups are cycles |
| Dependencies.CaughtAtOnce | scripts/kconfig/symbol.c:1237-1306 | a group the sweep begins comes back to itself no matter what unrelated symbols were looked into before |
| Dependencies.ReportsAreGroupCycles | scripts/kconfig/symbol.c:1237-1306 | coming back to a flagged symbol takes a cycle of choices taken as one with their values |
| Acyclicity.RankedIsLayered | scripts/kconfig/symbol.c:1203-1235 | an acyclic table is one evaluation is exact on, if range bounds and what direct dependencies mention come before and nothing the modules symbol depends on is tristate |
| Acyclicity.LayeredIsRanked | scripts/kconfig/symbol.c:1203-1235 | these conditions are needed: every table evaluation is exact on meets them |
| Acyclicity.SweptIsLayered | scripts/kconfig/symbol.c:1203-1235 | a sweep without a report is enough when range bounds depend on nothing, such as constants |
| Recursion.ReportIsCaught | scripts/kconfig/symbol.c:1279-1282 | where the search comes to a symbol flagged CHECK, some group is caught |
| Recursion.Uncaught | scripts/kconfig/symbol.c:1237-1272 | a group looked into without a report is not caught |
| Recursion.Checker.Report | scripts/kconfig/symbol.c:1093-1114 | the entry looked for on the stack is always found |
| Recursion.Checker.CheckDeps | scripts/kconfig/symbol.c:1274-1306 | the search from one symbol, a choice or its value included, keeps flags and stack, looks into nothing the symbol does not lead to, returns only symbols still flagged, and ends with a report or with a group that is not caught |
| Recursion.Checker.CheckChoiceDeps | scripts/kconfig/symbol.c:1237-1272 | the choice first and then its values, flagged together and finished together |
| Recursion.Checker.CheckSymDeps | scripts/kconfig/symbol.c:1203-1235 | the same over all conditions of a symbol, those of properties without a text included |
| Recursion.Checker.CheckExpr | scripts/kconfig/symbol.c:1168-1201 | the same over the symbols of one condition |
| Recursion.Checker.Sweep | scripts/kconfig/symbol.c:1072-1306 | whatever needs itself is reported, and every group the sweep begins that is caught; a report means that some group is caught in a way the search may come to it; without choices it reports if and only if there is a cycle; no CHECK flag, an empty stack and no error are left |
| Recursion.CheckTable | scripts/kconfig/zconf.y:518-525 | the same for the check after parsing |
| CycleExamples.RoundIsSilent | scripts/kconfig/symbol.c:1237-1272 | a recursion through a choice that no search reports |
| CycleExamples.CheckRound | scripts/kconfig/symbol.c:1237-1306 | checked, that table gives no report |
| CycleExamples.EarlyIsCaught | scripts/kconfig/symbol.c:1237-1272 | the same recursion, numbered so that the search begins with the symbol outside the choice, is reported and is no cycle of symbols |
| CycleExamples.SiblingsNeedThemselves | scripts/kconfig/symbol.c:1255-1259 | a value that depends on another value of its choice needs itself, and is no cycle of symbols |
| CycleExamples.CheckEarly | scripts/kconfig/symbol.c:1237-1306 | checked, the table that begins with the symbol outside the choice gives a report |
| CycleExamples.CheckSiblings | scripts/kconfig/symbol.c:1237-1306 | checked, the table whose value depends on another gives a report |
| CycleExamples.CondCloses | scripts/kconfig/symbol.c:1217-1223 | the condition of a menu entry without prompt and default closes a cycle |
| CycleExamples.BoundUnseen | scripts/kconfig/symbol.c:1217-1232 | a range bounded by its own symbol: nothing for the search to report, and no ranking for evaluation |
| Quoting.UnescapeEscape | scripts/kconfig/symbol.c:928-969 | unescaping inverts escaping for every string and whatever follows the quote |
| LineRules.EscapesOne | scripts/kconfig/symbol.c:928-969 | a quote or a backslash is written behind a backslash, any other character as it is |
| LineRules.EscapesEach | scripts/kconfig/symbol.c:928-969 | the characters of a string are escaped one after the other |
| Quoting.EscapeInjective | scripts/kconfig/symbol.c:928-969 | different strings have different escaped forms |
| Quoting.UnescapeInPlace | scripts/kconfig/confdata.c:161-177 | the memmove loop leaves exactly the unescaped string, and fails exactly when the quote is missing |
| ConfText.ParseUnset | scripts/kconfig/confdata.c:316-325 | the "is not set" line of a name parses as that name unset |
| LineRules.LineWritten | scripts/kconfig/confdata.c:488-508 | the exact line of a symbol, by its type and value |
| LineRules.CommentsWritten | scripts/kconfig/confdata.c:650-662 | the exact lines in front of a file and in front of a menu |
| LineRules.ParsesExactly | scripts/kconfig/confdata.c:314-379 | a line is taken for an assignment or for "is not set" if and only if it has that shape, with the name up to the first '=' or space; any other line is passed over |
| LineRules.LineEnds | scripts/kconfig/confdata.c:344-349 | a text ends at the first line end, and a carriage return in front of it is dropped |
| LineRules.LettersTaken | scripts/kconfig/confdata.c:126-151 | of the text for a boolean or tristate symbol only the first letter counts; m is refused for a boolean |
| LineRules.StringsTaken | scripts/kconfig/confdata.c:161-177 | a string is taken between its quotes; without an opening quote nothing happens, without a closing one it is refused |
| LineRules.DecimalsTaken | scripts/kconfig/symbol.c:570-584 | the texts an int symbol takes are those numbers are printed as, and "-0" |
| LineRules.HexesTaken | scripts/kconfig/symbol.c:585-592 | the texts a hex symbol takes are those strtoll reads to their end without a sign or a space |
| LineRules.OthersTaken | scripts/kconfig/confdata.c:152-159 | a symbol of no printable type takes an unquoted text as it is and refuses a quoted one, one without a type takes nothing |
| LineRules.FoundExactly | scripts/kconfig/symbol.c:852-876 | a name stands for y, m or n, else for the first symbol of that name that is not constant |
| LineRules.NothingRead | scripts/kconfig/confdata.c:314-379 | a line that is no assignment, names nothing, or whose text is refused leaves the users' values as they were |
| LineRules.LineRead | scripts/kconfig/confdata.c:352-402 | what any other line does to the symbol it names and to its choice, and that it does nothing else |
| LineRules.LinesCover | scripts/kconfig/confdata.c:217-249 | a text is cut into lines without losing anything; each ends with the one line end it has, but for the last, which may have none |
| ConfText.AssignmentReadsBack | scripts/kconfig/confdata.c:488-508 | the line printed for a value parses to its name and is accepted as that value, or refused exactly when the text is not valid |
| Ranges.DecReadsBack | scripts/kconfig/symbol.c:173-186 | strtoll reads back what "%lld" printed, for every long long |
| Ranges.HexReadsBack | scripts/kconfig/symbol.c:173-186 | the same for "0x%llx" and numbers that are not negative |
| Ranges.ClampTwice | scripts/kconfig/symbol.c:155-187 | moving a value into its range twice is the same as once if and only if the range settles it; without negative hexadecimal bounds, if and only if the range is not empty |
| Ranges.NegativeHexBound | scripts/kconfig/symbol.c:182-186 | -2 in the hexadecimal range from -1 to 10 becomes -1 and then 10 |
| Saving.StringDefaultAgrees | scripts/kconfig/symbol.c:706-771 | sym_get_string_default agrees with evaluation without a user value, up to the range |
| Saving.OfferedTriSurvives | scripts/kconfig/symbol.c:380-417 | set to its own value, a visible boolean or tristate symbol keeps it if and only if it exceeds neither visibility nor selects |
| Saving.OfferedTextSurvives | scripts/kconfig/symbol.c:418-438 | set to its own text, a visible symbol keeps it if and only if its range settles what the text was adjusted from |
| Saving.BlankedSurvives | scripts/kconfig/symbol.c:380-417 | set to n, a visible boolean or tristate symbol keeps its value if and only if that is what the selects say |
| Saving.BooleanKeeps | scripts/kconfig/confdata.c:694-696 | a boolean symbol that cannot be changed has its default |
| Saving.MinimalNeeds | scripts/kconfig/confdata.c:694-700 | of the symbols that can be changed a minimal save prints exactly those that would lose their value unset; numbers, where no range applies |
| SavedChoices.ChoiceSurvives | scripts/kconfig/confdata.c:383-402 | a choice that has learnt of its values keeps its own if and only if it is y, or m with a value or selects worth m, or n without selects worth m |
| SavedChoices.ValueSurvives | scripts/kconfig/symbol.c:376-385 | a value of a choice keeps its own if and only if no text overwrites the m it is set to |
| SavedChoices.MinimalChoiceSurvives | scripts/kconfig/confdata.c:702-719 | the same where the value the choice picks anyway was left out: then the choice must be selected as y |
| SavedChoices.SkippedRule | scripts/kconfig/confdata.c:702-719 | the value left out is a boolean worth y, of a choice that is not optional, that the first default to apply to a visible value names, or that is the first visible one if none does |
| SavedChoices.FullExact | scripts/kconfig/symbol.c:327-474 | users' values restored from a full save solve the table as before exactly when every value is within reach of what the save leaves of it |
| SavedChoices.MinimalExact | scripts/kconfig/confdata.c:690-719 | the same for a minimal save: unchangeable and environment symbols have their defaults, ranges settle and choices keep theirs |
| Configurations.LinesOfConcat | scripts/kconfig/confdata.c:217-249 | complete lines written one after the other are the lines read |
| LineRules.EntryLinesMore | scripts/kconfig/confdata.c:790-808 | the lines of a save entry by entry: four for a visible title, and one for a symbol to be printed the first time it comes by |
| Configurations.SymbolLineReadsBack | scripts/kconfig/confdata.c:314-402 | the line of a symbol stores its value for that symbol and tells its choice |
| Configurations.ChoiceLearns | scripts/kconfig/confdata.c:383-402 | line by line a choice has the highest value told and picks one told as y |
| Configurations.OtherTitle | scripts/kconfig/confdata.c:316-325 | a comment not beginning like a symbol is skipped |
| Configurations.NothingBlanked | scripts/kconfig/confdata.c:796-806 | titles the reader skips overwrite nothing |
| Configurations.SavedReadsBack | scripts/kconfig/confdata.c:314-403 | reading a save leaves the printed values in the users' values, n for symbols a later text overwrites, in choices what their values told them, and nothing else |
| Configurations.FullRoundTrip | scripts/kconfig/confdata.c:741-823 | conf_write, conf_read_simple and evaluation give the same configuration if and only if every value is within reach of what the save leaves of it, on tables with choices, whichever invisible choice values are printed too |
| Configurations.BooleanRoundTrip | scripts/kconfig/confdata.c:741-823 | always so for booleans and choices of booleans, int, hex and string symbols with non-empty ranges and texts that do not read as symbols |
| Configurations.MinimalRoundTrip | scripts/kconfig/confdata.c:668-739 | the same if and only if for conf_write_defconfig |
| Configurations.MinimalLossless | scripts/kconfig/confdata.c:668-739 | always so for booleans and their choices, and for strings and numbers nothing selects |
| Configurations.ReadFromValid | scripts/kconfig/confdata.c:177-188 | whatever the text read, stored numbers are valid numbers |
| SaveExamples.SelectedNumberLost | scripts/kconfig/confdata.c:694-696 | a configuration a minimal save does not restore |
| SaveExamples.DefaultAboveVisibilityLost | scripts/kconfig/symbol.c:380-410 | a configuration a full save does not restore |
| SaveExamples.TitledSymbolLost | scripts/kconfig/confdata.c:796-806 | a configuration a full save does not restore because of a menu title |
| SaveExamples.OptionalChoiceLost | scripts/kconfig/confdata.c:383-402 | an optional choice worth m none of whose values is set is not restored |
| ConfigFiles.GetLine | scripts/kconfig/confdata.c:217-249 | the next line, line end included |
| ConfigFiles.FindSymbol | scripts/kconfig/symbol.c:852-876 | y, m, n or the first symbol of that name that is not constant |
| ConfigFiles.TakeText | scripts/kconfig/confdata.c:126-191 | what a text stores, by type, or its refusal |
| ConfigFiles.TellChoice | scripts/kconfig/confdata.c:383-402 | what a choice learns from the value of a member |
| ConfigFiles.ReadOneLine | scripts/kconfig/confdata.c:315-402 | one line refines the line function |
| ConfigFiles.ReadSimple | scripts/kconfig/confdata.c:289-406 | the loop refines the reading of all lines into fresh users' values, and clears VALID |
| ConfigFiles.GetStringDefault | scripts/kconfig/symbol.c:706-771 | computes the string default on demand |
| ConfigFiles.WriteConf | scripts/kconfig/confdata.c:785-823 | walking the menus prints the heading and each written symbol once, in preorder, with its value in the solution |
| ConfigFiles.WriteDefconfig | scripts/kconfig/confdata.c:679-737 | the same for the symbols that are changeable and differ from their default |
| ConfigFiles.SaveAndLoad | scripts/kconfig/confdata.c:741-823 | write, read and evaluate one after the other restore every symbol |
| AutoConf.AutoTextReadsBack | scripts/kconfig/confdata.c:991-1002 | what reading an auto.conf leaves for every symbol with a file, choices or not |
| AutoConf.TouchExact | scripts/kconfig/confdata.c:860-907 | a file is touched exactly when the symbol's line changed; if the old value was not a number, exactly when the symbol is written |
| AutoConf.TouchedExactly | scripts/kconfig/confdata.c:841-916 | the paths touched are those of the symbols the decision falls on, and no others |
| AutoConf.SplitExact | scripts/kconfig/confdata.c:841-907 | the same from one written auto.conf to the next configuration |
| AutoConf.EmptyNumberTouched | scripts/kconfig/confdata.c:885-899 | an int symbol without a value is touched every time |
| AutoConf.SplitPath | scripts/kconfig/confdata.c:909-916 | the path formed is the one the scanner prints for the same name |
| AutoConf.SplitConfig | scripts/kconfig/confdata.c:841-916 | the loop touches exactly the files selected, in table order |
| MenuConditions.Inherit | scripts/kconfig/menu.c:315-318 | an inherited condition is worth the lower of the parent's and its own, and nothing is left in it to join |
| MenuConditions.InheritCond | scripts/kconfig/menu.c:326-331 | the same for properties; weakened for other than tristates it is n exactly where the whole is n, and compares no tristate symbol with n for being different |
| MenuConditions.DependsSound | scripts/kconfig/expr.c:779-806 | a condition that depends on a symbol is n whenever the symbol is |
| MenuConditions.DependsExactly | scripts/kconfig/expr.c:779-806 | a condition depends on a symbol if and only if one of its operands, however nested the conjunction, is s, s=y, s=m or s!=n |
| MenuConditions.MentionsExactly | scripts/kconfig/expr.c:751-777 | it mentions a symbol if and only if the symbol stands somewhere in it, alone or compared |
| MenuConditions.Lift | scripts/kconfig/menu.c:342-344 | the lifted condition is y where the condition may show and n elsewhere, no larger than before simplification, and fully joined |
| MenuConditions.Follows | scripts/kconfig/menu.c:347-361 | a menu follows if one of the operands of its condition is s, s=y, s=m or s!=n, or if it mentions s and, lifted, is a conjunction with all operands of the lifted prompt condition; a menu that follows mentions s and has such an operand or implies the prompt everywhere |
| MenuConditions.AbsorbedHides | scripts/kconfig/menu.c:346-366 | where an absorbed menu is visible, the symbol it went under is set or its prompt visible |
| Menus.MenuTree.Propagate | scripts/kconfig/menu.c:314-337 | every child inherits, in its dependency and in all its property conditions, the choice, the condition of the prompt or the dependency of its parent, and no other menu changes |
| Menus.MenuTree.Absorb | scripts/kconfig/menu.c:341-371 | the menus that follow without a gap and have an operand asking for the symbol end up below it; whatever becomes a child passed the test, the first menu left out failed it; order, parents and the rest stay |
| Menus.MenuTree.Grow | scripts/kconfig/menu.c:289-374 | propagation into children, or absorption of all that pass the test up to the first that fails, the run of menus asking for the symbol included |
| Menus.MenuTree.Hoist | scripts/kconfig/menu.c:415-424 | children without a text give their children to the parent, and what is below a menu with a text stays below it |
| Menus.MenuTree.Finalize | scripts/kconfig/menu.c:282-424 | preorder is kept, every parent pointer names the menu whose list holds the node, following menus are untouched unless absorbed, and below only menus with a text have children; at any depth every menu handed down what it has in the end, every menu of a symbol with a text and no children took the run that asks for its symbol, and nothing left a menu with a text |
| Menus.MenuTree.Advance | scripts/kconfig/confdata.c:810-821 | one step takes the walk to the next node in preorder, or ends it |
| Menus.MenuTree.Walk | scripts/kconfig/confdata.c:790-822 | the walk visits every node below the root once, in preorder, and ends |
| Menus.MenuTree.FinalizeAndWalk | scripts/kconfig/menu.c:282-424 | restructuring does not change what the walk comes by, and what is said of one menu holds of the whole tree: inheritance, absorbed runs, and what stays below menus with a text |
| Fixdep.PrintConfig | scripts/basic/fixdep.c:146-160 | the wildcard line of a name |
| Fixdep.PathMeans | scripts/basic/fixdep.c:151-158 | in a path an underscore is a slash, a capital letter small, and anything else as it was |
| Fixdep.AddNewMeans | scripts/basic/fixdep.c:233-242 | each name is kept once and none is lost |
| Fixdep.StartMissed | scripts/basic/fixdep.c:244-276 | a name is lost if and only if it stands at the very beginning of the file and nowhere else |
| Fixdep.LoneSymbolMissed | scripts/basic/fixdep.c:244-276 | a file with a symbol and no name |
| Fixdep.WordMeans | scripts/basic/fixdep.c:118-121 | a word equals a constant exactly when its four bytes spell it; zero padding never does |
| Fixdep.CandidateMeans | scripts/basic/fixdep.c:251-256 | a word tells the one offset at which "CONFIG_" can cover it |
| Fixdep.WindowNames | scripts/basic/fixdep.c:251-275 | looking at one word finds what looking at four offsets finds |
| Fixdep.Examine | scripts/basic/fixdep.c:257-274 | the name at an offset, without "_MODULE", nothing for a bare CONFIG_MODULE or without a terminator |
| Fixdep.NameRead | scripts/basic/fixdep.c:259-274 | a name behind "CONFIG_" is read up to the next character no name has, which must be there; "_MODULE" at its end is cut off, and CONFIG_MODULE names nothing |
| Fixdep.NothingRead | scripts/basic/fixdep.c:259-262 | no name is read where "CONFIG_" does not stand |
| Fixdep.Scanner.IsDefinedConfig | scripts/basic/fixdep.c:200-210 | the hash table holds exactly the names printed |
| Fixdep.Scanner.UseConfig | scripts/basic/fixdep.c:233-242 | a name is printed if it was not |
| Fixdep.Scanner.ParseConfigFile | scripts/basic/fixdep.c:244-276 | the word-aligned scan refines the byte scan from offset 1, for every length |
| Fixdep.Scanner.ParseAll | scripts/basic/fixdep.c:290-328 | a run prints exactly the names the files mention, each once |
| Relocators.AppliedUnique | lib/gnu-efi/gnuefi/reloc_aarch64.c:78-96 | the set of words to write decides the memory |
| Memory.LoadMeans | main/parse.c:139-153 | numbers of two, four and eight bytes are read with the first byte worth least |
| Relocators.OrderDoesNotMatter | lib/gnu-efi/gnuefi/reloc_aarch64.c:78-96 | images with the same entries in any order are the same after relocation, apart from the entries |
| Relocators.PatchesAre | lib/gnu-efi/gnuefi/reloc_aarch64.c:80-92 | that set is one word for each relative entry |
| Relocators.TableMeans | lib/gnu-efi/gnuefi/reloc_aarch64.c:51-69 | of the dynamic section the last entry of each kind counts: the address of the table relative to the base, its size, and the size of an entry; what has no entry is 0 |
| Relocators.CountMeans | lib/gnu-efi/gnuefi/reloc_aarch64.c:78-96 | the loop runs as often as it takes to cover the size of the table |
| Relocators.EntryAtMeans | lib/gnu-efi/gnuefi/reloc_aarch64.c:94 | entry i stands i entry sizes behind the first |
| Relocators.RelocatedAArch64 | lib/gnu-efi/gnuefi/reloc_aarch64.c:78-96 | entry by entry: where the kind is 1027 the word at base + offset becomes base + addend, modulo 2^64, and no byte outside these words changes |
| Relocators.RelocatedLoongArch | lib/gnu-efi/gnuefi/reloc_loongarch64.c:85-102 | where the kind is 3 the word at base + offset grows by the base, and no byte outside these words changes |
| Relocators.RelocateAArch64 | lib/gnu-efi/gnuefi/reloc_aarch64.c:42-97 | each relative target becomes base + addend modulo 2^64 and no other byte changes |
| Relocators.RelocateLoongArch | lib/gnu-efi/gnuefi/reloc_loongarch64.c:43-104 | the base is added to each relative target and no other byte changes |
| Relocators.StylesAgree | lib/gnu-efi/gnuefi/reloc_loongarch64.c:85-102 | both give the same memory if and only if each target held its addend |
| PeLoader.LoadSection | main/parse.c:79-113 | a section inside the file is copied, another one refused with nothing changed |
| PeLoader.HeadersRead | main/parse.c:139-161 | what is read of the headers, field by field: the NT header at e_lfanew, section headers of 40 bytes behind the optional header, the entry point relative to the load address |
| PeLoader.FieldsPlaced | include/pe.h:13-255 | the offsets used are those of the fields in the structures of pe.h |
| PeLoader.SignaturesMean | main/parse.c:34-60 | a file is taken for an image if and only if it begins with "MZ" and has "PE" and two zeros where e_lfanew points |
| PeLoader.ParsePe | main/parse.c:118-173 | bad signatures change nothing; otherwise every byte of memory is the file's byte of the last section covering it, up to the first section outside the file, or unchanged, and the entry is returned only if all were copied |
| PeLoader.LoadedByte | main/parse.c:159-166 | every byte is the file's byte of the last section covering it, from inside the file, or unchanged |

## Left out

- The front ends, message text, warnings and everything that opens, renames or creates files: files are texts and byte sequences.
- The Kconfig grammar: symbols, properties and menus are given, already built.
- Randomised and "all new symbols" configurations, regular expressions, `expr_simplify_unmet_dep` and printing of expressions.
- E_LIST and E_RANGE expressions: choice members and range bounds are fields of a symbol's definition.
- SYMBOL_CHANGED, MENU_CHANGED and the change counter, which only drive displays and messages; `conf_write` takes "something is unsaved" as a parameter.
- Allocation failure, buffer growth, the 256-byte heading buffer, NUL characters inside files, and a comment line of one character at the end of a file without a line end.
- Joins.MergeOrSound: duplicate elimination rewrites expression values held in the operand slots of one junction; the nodes below a slot are not shared memory there, as they are in `ExprHeap`.
- Evaluation.Evaluator.CalcValue: exactness is stated for acyclic tables outside an "all new symbols" run; on other tables the contract is termination and a well-formed state. dir_dep is evaluated but only feeds a warning.
- Evaluation.Evaluator.SetTristateValue: exactness of what was evaluated before is a precondition, as the front ends see to it.
- TextSetting.SetStringValue: tables without choices, as evaluating a range may evaluate a choice, which may then lose its user flag; whether a text was stored before is a parameter, as the model does not tell a missing text from an empty one. The letters for boolean and tristate symbols go to `Evaluation.Evaluator.SetTristateValue`.
- Recursion.Checker.Sweep: reports are counted, not printed. For a group the sweep comes to by way of others, being caught is stated relative to what was looked into before, which is not computed from the table.
- Recursion.Checker.CheckSymDeps: the properties of a symbol are looked into by kind, not in the order in which they were declared.
- Acyclicity.RankedIsLayered: tables without choices. The converse is for tables as the menus build them, where conditions of properties without a text mention nothing that the direct dependency does not.
- ConfigFiles.WriteConf: tables without choices, as the WRITE flags of choice members depend on the order of evaluation. Whether a text is visible is given with the menu.
- ConfigFiles.GetStringDefault: the visibility that was just computed is not computed again.
- ConfigFiles.ReadSimple: the later part of `conf_read` that forgets the values of invisible symbols is not modelled.
- Configurations.FullRoundTrip: tables whose texts keep their shape in a file (no line ends, numbers not ending in a carriage return, unique names), and whose choices are as the menus build them: without a name, with values whose prompts are under the choice and that have no defaults. That evaluation marks every visible value of a choice for writing is taken from the code, not proved.
- ConfigFiles.TakeText: a symbol of no declared type becomes a string symbol with its first unquoted text; types do not change here.
- MenuConditions.Follows: a test that fails is stated of simplified conditions; that duplicate elimination is a function of its input is not.
- AutoConf.AutoTextReadsBack: a root menu text that does not itself read as a symbol.
- AutoConf.SplitConfig: undeclared symbols that an old auto.conf mentions are not added; creating directories and files is left out.
- Menus.MenuTree.Finalize: types of choice members, the lists of choice members, the conditions added to boolean members of tristate choices, and the assembly of selects and direct dependencies are not modelled.
- Fixdep.Scanner.ParseAll: the parsing of the dependency file and the extra dependencies on standard input.
- Relocators.RelocateAArch64: entries lie in memory, and targets are apart from each other and from the table; relocation type numbers are those of the two processor supplements to the System V gABI, as elf.h is not part of this model.
- PeLoader.ParsePe: headers lie in memory, no address wraps at 2^64 and destinations are apart from the file; printing is left out.
