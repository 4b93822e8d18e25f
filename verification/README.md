# A model of the Kconfig core and of the hashing and tagging scripts

This project models the parts of OpenWrt's build scripts that compute something hard, and proves what they are for.

**Expressions** (`Expr`, `ExprEq`, `ExprDups`, `ExprTransform`). Dependencies of configuration symbols are expressions
over a three-valued logic: n < m < y, where && is the minimum, || the maximum and ! is 2 − x. The optimiser in
`expr.c` rewrites them. Its rewrites are functions on trees here, and their meaning is a value in an environment. An
environment is *typed* when no bool is m and, with modules off, nothing is m; that is what the symbol solver
guarantees, and this is proved too. `ExprInPlace` has the same rewrites as the code runs them: on slots of one tree
that is overwritten while it is walked, with the global change counter.

**Symbols** (`Comparison`, `SymDeps`, `SymSolver`, `SymCalc`, `SymLaws`, `Visibility`, `ConditionLaws`, `Choice`,
`ChoiceLaws`). What comparisons mean. The search for recursive dependencies, the dependency equations, their one
solution, and the memoised evaluation that computes it; user values and whether they are honoured; how the conditions
written in a menu file, nested and simplified level by level, become the visibility and the reverse dependencies that the
equations use; choice groups.

**Menus** (`Menu`, `MenuShape`, `Submenu`, `ConfWrite`, `ConfLayout`, `ConfFile`). Which items become a submenu; the
surgery of `menu_finalize` on a heap of first-child/next-sibling/parent nodes; the walk of `conf_write` over the same
nodes without a stack, and the file that it leaves.

**Text** (`ExprPrint`, `ReadLaws`, `ConfText`, `ConfLaws`, `Preprocess`, `ExpandLaws`). Printing an expression and
reading the text back with the lexer and the expression grammar; quoting, printing and reading configuration files;
macro expansion.

**Hashes and tags** (`Words`, `WordLaws`, `Streaming`, `Sha256`, `Md5`, `Cameo`). SHA-256 against FIPS 180-4, MD5
against RFC 1321, both as streams of updates, and the header in which a CRC-32 and a byte sum hold at the same time. A
32-bit word is the sequence of its bits, least significant first, so that wrap-around and shifts are explicit.
`Sequences` has the associativity of concatenation.

The files whose names end in `Laws`, `Comparison` and `ConfLayout` say what the operations amount to in terms of their
inputs alone (conditions, texts, members, bits), without the functions that specify the code. Together with the results
that relate operations they pin those functions down.

How a reader finds the main results: `EliminateDupsSound`, `EliminateDupsSettles`, `TransformNormal`, `TransformFixpoints`,
`ExprEqSound`, `ExprEqReflexive` and `ExprEqDecides` for the optimiser; `EnclosingSound`, `VisibleExactly`,
`SelectedExactly`, `SubmenuExact` and `SelectionExact` for what becomes of conditions; `CheckAll`, `SolutionUnique`,
`CalcValue`, `ImpliedValue`, `NumberIs`, `ExactlyOne` and the three selections of `ChoiceLaws` for the solver; `Finalize`
and `Write` for the menus; `RoundTrip`, `ParseExactly`, `WrittenReadsBack`, `ExpandFewer`, `NoWayOutFails`,
`BuiltinGetsArguments` and `MacroCall` for the texts; the two `HashChunks` and `ChecksumHeader` for the scripts.

## What the code does not do

These are results about the code, with the condition that decides in each case.

- A comparison of a tristate with y, m or n by <, <=, > or >= goes by the text, in the order m, n, y, because the
  constants have no type. It says what the values say if and only if the relation is = or !=, or the values are equal, or
  one of them is y (`ConstantsOrder`).
- A hex symbol compared with a negative number is compared without signs, so that the negative number is greater
  (`NegativeAboveHex`). Otherwise numbers compare by their values, unless both symbols are strings (`NumbersCompare`).
- `expr_join_and` treats two constants as different values when they are different symbols. Constants such as '2' compare
  equal to a tristate value, so a joined pair can have another value than the conjunction. `JoinAndExact` says exactly
  which pairs; `NumericConstantClash` is one of them.
- `expr_trans_compare` looks for n below negations, where y would be meant, so that it takes !A for n when A is m; and it
  compares a symbol that is not defined, which is n, by its text. `TransCompareExact` says for every expression where it
  errs. Over known symbols (bools, tristates, y, m, n, and others with the text n) it errs towards n only
  (`TransCompareSafe`), and never without negations (`UnnegatedSeen`).
- So an item can be put into an automatic submenu whose condition is n while the item is not: (S || Q) && !A below A=n,
  with A=m (`SubmenuNotImplied`), or (S || Q) && U!=n below an undefined U (`SubmenuOfUndefined`). It does not happen
  where the comparison is right about both conditions (`SubmenuImpliesVisible`). For items whose comparison is a
  conjunction, `SubmenuErrs` says when there is a submenu for which it happens, and `SubmenuExact` says it of submenus
  whose condition does not contain their own symbol.
- `expr_print` writes constants without their quotes. A='B' and A=B print alike, and the text is read as A=B, which can
  have another value (`QuotesLost`). `RoundTrip` says exactly which expressions are read back as they were.
- `conf_write` writes titles as they are. A menu or comment titled "CONFIG_X is not set" turns X off when the file is
  read (`TitleUnsets`); without such a title the file is read back exactly (`WrittenReadsBack`, `TitleQuiet`).
- `expr_trans_bool` lowers A!=n to A in the conditions of every property of a symbol that is no tristate. For prompts
  that makes no difference (`VisibilityUnchanged`). For a select it does: a bool that is y and selects T if A!=n gives T
  the value m instead of y while A is m (`SelectLowered`). `SelectionExact` says exactly when a selection keeps its
  strength; whether something is selected at all never changes (`SelectsKeep`).
- A value that is within range is still not honoured when an unmet direct dependency suppresses a selected symbol
  (`SetHonoured` has the exact condition, `WithinRangeLost` an input). A symbol is visible although its direct dependency
  is n when it is defined twice, once without dependencies: the missing ones are dropped from the disjunction instead
  of making it y (`OpenPlaceDropped`; `DirectExact` says when the direct dependency is what was written). Any other
  symbol is honoured (`AlwaysHonoured`).
- Setting a symbol to the value it has is accepted without a recalculation, but the user value that is stored can change
  what the next recalculation gives (`SetSameValue` has the exact condition, `SameValueLost` an input: a default of y
  under a prompt condition of m).
- A string with a line break is written without complaint. Reading it back, the line up to the break is refused, and the
  rest of the value is read as lines of its own (`BrokenString`), which may set any bool
  (`BrokenStringSetsAnother`). A string is read back as it was written if and only if it has no line break
  (`StringRoundTrip`).
- In a choice that is y, a member that is not visible takes a default of its own, so that more than one member can be y;
  `ExactlyOne` has the exact condition. The code only warns of such defaults.
- The comment in `expr_join_and` on A!='m' && A!='n' names A='m'; the code builds A='y', which is right.

`expr_trans_bool` also ignores negations. `TransBoolExact` says for every expression when it keeps "is not n"; it does not
for !(A!=n) with A=m, and it does for !!(A!=n) (`TransBoolNotUnderNegation`). That is no failure of the program: its only
caller passes expressions in negation normal form, where "is not n" is always kept (`TransBoolVisible`).

## Model

| member | source | states |
|---|---|---|
| Exprs.EqualToConstant | scripts/config/expr.c:1030-1100 | a typed bool or tristate equals an untyped constant exactly when its value is the one that constant denotes, numeric-looking constants included |
| Comparison.NumbersCompare | scripts/config/expr.c:998-1102 | all six relations compare int, hex and string symbols and constants with the texts of numbers by the numbers, unless both are strings or a hex meets a negative number |
| Comparison.NegativeAboveHex | scripts/config/expr.c:1080-1081 | a negative number compares as greater than every hex |
| Comparison.StringsCompare | scripts/config/expr.c:1073-1079 | strings, and everything with a text that is no number, compare by their first different character; a prefix is smaller |
| Comparison.TextIs | scripts/config/symbol.c:746-768 | the texts that are compared |
| Comparison.TristatesCompare | scripts/config/expr.c:1007-1102 | bools and tristates compare with each other in the order n, m, y |
| Comparison.ConstantsCompare | scripts/config/expr.c:1007-1079 | a tristate compares with the constants y, m and n by the text, in the order m, n, y |
| Comparison.ConstantsOrder | scripts/config/expr.c:1007-1079 | so a relation of a tristate with one of them is what their values say if and only if it is = or !=, or the values are equal, or one of them is y |
| Elimination.EliminateYn | scripts/config/expr.c:316-397 | removing y and n operands never makes a tree larger |
| Elimination.EliminateYnSound | scripts/config/expr.c:316-397 | removing y and n operands keeps the value in every environment |
| Elimination.EliminateYnComplete | scripts/config/expr.c:316-397 | no y or n operand is left; the tree is unchanged, and of the same size, exactly when it had none before |
| Elimination.EliminateEq1Law | scripts/config/expr.c:150-192 | elimination at an operator takes one common factor C out of both sides: old1 = C op new1 and old2 = C op new2 in every environment |
| Elimination.EliminateEqLaw | scripts/config/expr.c:221-242 | the same law for the whole of expr_eliminate_eq, both passes and the y/n clean-up |
| Elimination.ExprEqSound | scripts/config/expr.c:252-303 | expressions that expr_eq calls equal have the same value in every environment, through the mutual recursion with elimination |
| Elimination.UsedUpImplies | scripts/config/menu.c:459-464 | when elimination reduces the second side to y, the first side is at most the second in every environment, which is what the superset test of automatic submenus rests on |
| Elimination.ExprEqReflexive | scripts/config/expr.c:252-303 | expr_eq finds every expression equal to itself, although it works by eliminating operands of one copy against the other |
| Elimination.ExprEqDecides | scripts/config/expr.c:252-303 | for expressions without y and n operands whose negations are on symbols, expr_eq holds if and only if they are equal up to the order and grouping of the operands of every chain |
| Elimination.EliminateEq1Cancels | scripts/config/expr.c:150-192 | operands that the two sides have in common are taken out in pairs: what is left on either side are the others, with their multiplicity |
| Elimination.NothingShared | scripts/config/expr.c:221-242 | after the two passes no operand of one side equals one of the other |
| Duplicates.JoinSound | scripts/config/expr.c:431-587 | a join of two plain tests has the value of their conjunction or disjunction in every typed environment |
| Duplicates.JoinAndExact | scripts/config/expr.c:495-587 | for tests on symbols, expr_join_and is exact in all typed environments if and only if the pair is not a clash of two constants that compare equal to tristate values |
| Duplicates.NumericConstantClash | scripts/config/expr.c:539-553 | a concrete clash: joining A='2' && A!='y' gives a value the conjunction does not have |
| Duplicates.DupsPassKeeps | scripts/config/expr.c:596-651 | one walk of the tree against itself, which overwrites leaf slots it has yet to reach, keeps the value |
| Duplicates.DupsPassProgress | scripts/config/expr.c:627-648 | a pass that counted a simplification leaves an operand that expr_eliminate_yn drops |
| Duplicates.DupsRoundShrinks | scripts/config/expr.c:671-683 | a round of the loop that counted something leaves a strictly smaller tree, so that the loop ends |
| Duplicates.EliminateDupsSound | scripts/config/expr.c:664-686 | expr_eliminate_dups keeps the value of every expression with plain tests in every typed environment |
| Duplicates.DupsPassIdle | scripts/config/expr.c:596-651 | a pass counts nothing exactly when no two operands at any level join, and then it changes nothing |
| Duplicates.EliminateDupsComplete | scripts/config/expr.c:664-686 | the result has nothing left to join, and exactly such expressions are left alone |
| Duplicates.EliminateDupsSettles | scripts/config/expr.c:431-686 | in the result, at every level and for both operators, no two operands are equal, and no two tests of one symbol are left that have a common form; up to the order of operands where there are no y and n |
| Duplicates.SettledUnchanged | scripts/config/expr.c:664-686 | an expression without y and n operands whose negations are on symbols is left alone if and only if it has no such operands |
| Duplicates.MergeableContracts | scripts/config/expr.c:431-587 | the pairs of operands about one symbol that expr_join_or and expr_join_and contract, by their symbols and relations |
| Transformation.DeMorganLighter | scripts/config/expr.c:794-811 | pushing a negation inwards adds a node but lowers the termination measure |
| Transformation.Transform | scripts/config/expr.c:694-849 | expr_transform terminates and never increases the measure |
| Transformation.TransformSound | scripts/config/expr.c:694-849 | expr_transform keeps the value in every typed environment |
| Transformation.TransformNormal | scripts/config/expr.c:694-849 | its result is in negation normal form: every negation sits on a symbol other than y, m and n, and no bool is tested for y, m or n |
| Transformation.TransformFixpoints | scripts/config/expr.c:694-849 | it leaves alone exactly the normal forms, and is idempotent |
| Transformation.TransBoolVisible | scripts/config/expr.c:402-426 | on expressions whose negations are on symbols, expr_trans_bool preserves "is not n" and can only lower the value, whatever the tests |
| Transformation.TransBoolExact | scripts/config/expr.c:402-426 | for every expression and every environment, expr_trans_bool preserves "is not n" if and only if no test that is lowered from y to m decides the value through an odd number of negations |
| Transformation.TransBoolNotUnderNegation | scripts/config/expr.c:402-426 | a concrete negated test whose "is not n" changes, and which is kept below a second negation |
| Transformation.TransBoolComplete | scripts/config/expr.c:402-426 | no test of a tristate for not being n is left, wherever it was; an expression without one is not changed |
| Transformation.TransCompareExact | scripts/config/expr.c:922-985 | for every expression over any symbols, comparing it with n by expr_trans_compare says whether it is not n if and only if the answer rests on no mistake: an m below a negation that is taken for y, or a symbol without a truth value whose text is not n |
| Transformation.TransCompareReads | scripts/config/expr.c:922-985 | which answer the comparison gives, for every expression, for n as for y |
| Transformation.TransCompareSafe | scripts/config/expr.c:922-985 | over bools, tristates, y, m, n and symbols with the text n the comparison errs only towards n: where it says that an expression is not n, it is not |
| Transformation.UnnegatedSeen | scripts/config/expr.c:922-985 | over such symbols it is right about all conditions without negations |
| Transformation.TransCompareOtherSymbol | scripts/config/expr.c:977-978 | a symbol that has no truth value, such as an undefined one, is n but compared by its text: the answer is right if and only if that text equals n |
| Transformation.TransCompareNegatedSymbol | scripts/config/expr.c:953-954 | for one negated symbol the comparison is right if and only if the symbol is not m |
| Transformation.RewriteMSound | scripts/config/menu.c:83-106 | rewrite_m turns m into m && MODULES at every place where it is a truth value |
| Transformation.PropagateSound | scripts/config/menu.c:335-341 | the chain rewrite_m, transform, AND with the enclosing condition, duplicate elimination keeps the value, and keeps the form that the next level relies on |
| Transformation.PropagatePromptSound | scripts/config/menu.c:379-385 | the condition of a property keeps "is not n" and is never raised; for tristates it keeps its value |
| Submenus.NotContained | scripts/config/expr.c:851-877 | an expression that does not contain a symbol has the same value whatever the value of that symbol |
| Submenus.ContainsExactly | scripts/config/expr.c:851-877 | expr_contains_symbol finds exactly the symbols that the search for recursive dependencies finds |
| Submenus.DependsExactly | scripts/config/expr.c:879-905 | a dependency is absolute if and only if some operand of the conjunction is the symbol or a test of it for y, for m or for not n |
| Submenus.DependsImpliesSymbol | scripts/config/expr.c:879-905 | an expression with an absolute dependency on a symbol is n wherever the symbol is n |
| Submenus.SubmenuImpliesVisible | scripts/config/menu.c:459-470 | an item that the superset test puts into a submenu is only visible while the condition of the submenu is not n, where the comparison is right about the item's condition, and about the submenu's unless that has no other symbols than bools, tristates, y, m, n and those with the text n |
| Submenus.SubmenuNotImplied | scripts/config/menu.c:450-458 | a concrete pair that passes the superset test although the item is m while the condition of the submenu is n |
| Submenus.SubmenuOfUndefined | scripts/config/menu.c:450-458 | a pair that passes it, with a condition of the submenu that is an undefined symbol, although the comparison is right about the item |
| Submenus.SubmenuErrs | scripts/config/menu.c:459-470 | for an item whose comparison is a conjunction, some submenu condition over known symbols passes wrongly if and only if the item is not n and the comparison is wrong about it |
| Submenus.EqualWithout | scripts/config/expr.c:150-192 | expr_eq never finds an expression equal to one that does not contain all its symbols, when it has no y or n operands and its negations are on symbols |
| Submenus.SubmenuExact | scripts/config/menu.c:459-470 | the same for submenu conditions that do not contain the submenu's own symbol: one passes wrongly if and only if the item is not n although an operand of its comparison without that symbol is |
| Conditions.EnclosingSound | scripts/config/menu.c:323-340 | however deep a menu node is nested, in a choice or not, its simplified dependency has the value of the conjunction of all conditions as they were written |
| Conditions.VisibilityUnchanged | scripts/config/menu.c:335-385 | the visibility of a symbol, over all its definitions, is that of the conditions as written, whatever its type |
| Conditions.SolvedVisibility | scripts/config/symbol.c:187-201 | the same of the visibility in the one solution of the configuration |
| Conditions.DirectExact | scripts/config/menu.c:483 | the direct dependency of a symbol defined in several places is the disjunction of what was written if and only if all or none of the places have conditions, or one of the conditions is y |
| Conditions.OpenPlaceDropped | scripts/config/menu.c:483 | a place without conditions is dropped next to one with conditions |
| Conditions.VisibleIsMet | scripts/config/menu.c:335-385 | unless such places are mixed, no symbol is visible while its direct dependency is n |
| Conditions.AlwaysHonoured | scripts/config/symbol.c:457-474 | and then every value within range is the value after recalculation |
| Conditions.SelectsKeep | scripts/config/menu.c:391-399 | a symbol is selected or implied exactly when it is as written and never by more; when the selecting symbols are tristates, by exactly as much |
| Conditions.SelectionExact | scripts/config/menu.c:383-399 | a selection has the strength that was written if and only if the selecting symbol is a tristate or not y, or no test in its condition is lowered from y to m |
| Conditions.SelectLowered | scripts/config/menu.c:383-395 | a concrete select of a bool that gives m where y was written |
| ConditionLaws.RewrittenReads | scripts/config/menu.c:83-106 | after rewrite_m the constant m is n while modules are disabled, and m otherwise, in every place |
| ConditionLaws.Simplifies | scripts/config/menu.c:335-385 | at every level no duplicates and nothing to merge is left in a condition; those of symbols that are no tristates test no tristate for not being n |
| ConditionLaws.OnlyConditions | scripts/config/menu.c:354-385 | only the conditions of properties are simplified: their order, kinds, values and bounds stay |
| ConditionLaws.WrittenLeast | scripts/config/menu.c:323-340 | the conditions around a node are worth the least of them, its choice included |
| ConditionLaws.PromptGreatest | scripts/config/symbol.c:187-199 | the prompts of a symbol are worth the greatest of theirs |
| ConditionLaws.DirectGreatest | scripts/config/menu.c:483 | the dependencies of a symbol are worth those of the best place |
| ConditionLaws.SelectedGreatest | scripts/config/menu.c:391-399 | the selections of a symbol are worth the greatest of theirs, each bounded by its selector |
| ConditionLaws.VisibleExactly | scripts/config/menu.c:323-385 | in the solution, a symbol is visible if and only if all conditions on and around one of its prompts, as written, are met |
| ConditionLaws.DirectMet | scripts/config/menu.c:323-340 | unless places with and without conditions are mixed, the dependencies of a symbol are met if and only if all conditions around one of its places, as written, are met |
| ConditionLaws.SelectedExactly | scripts/config/menu.c:383-399 | a symbol is selected or implied if and only if the selector of one of its selections is not n and all conditions on and around it, as written, are met |
| InPlace.LeafSlotsDiffer | scripts/config/expr.c:617-618 | two cursors of the aliased walk meet the same operand only at the same slot |
| InPlace.ReadSlot | scripts/config/expr.c:604-613 | in a tree whose leaf slots have been overwritten every slot of the original is still there, and holds the current operand of its position |
| InPlace.WriteSlot | scripts/config/expr.c:632-643 | overwriting a leaf slot changes exactly that operand |
| InPlace.Optimiser.EliminateYnAt | scripts/config/expr.c:316-397 | the in-place form, on any slot, stores what the specification says and touches nothing else |
| InPlace.Optimiser.TransBoolAt | scripts/config/expr.c:402-426 | the in-place form of expr_trans_bool, on any slot |
| InPlace.Optimiser.TransformAt | scripts/config/expr.c:694-849 | the in-place form of expr_transform, on any slot |
| InPlace.Optimiser.TransformNot | scripts/config/expr.c:760-843 | the negation branch: rewrite, rebuild, transform again |
| InPlace.Optimiser.EliminateDups1 | scripts/config/expr.c:596-651 | the aliased double walk computes the pass of the specification and counts the same number of simplifications |
| InPlace.Optimiser.JoinLeaves | scripts/config/expr.c:617-648 | the part for two different leaves, including the recursive simplification of a compound leaf |
| InPlace.Optimiser.PassInLeaf | scripts/config/expr.c:620-625 | the recursive pass inside a leaf |
| InPlace.Optimiser.EliminateDups | scripts/config/expr.c:664-686 | the loop with the saved counter computes the specified result and restores the counter |
| InPlace.Eliminator.EliminateEq1 | scripts/config/expr.c:150-192 | the simultaneous walk over two trees computes the specified pair, and leaves both trees alone when it counts nothing |
| InPlace.Eliminator.EliminateEq | scripts/config/expr.c:221-242 | the whole of expr_eliminate_eq in place |
| MenuTree.CursorMoves | scripts/config/menu.c:410-411 | moving a cursor over one tree of a sibling list keeps the list, as heap structure, split at the cursor |
| MenuTree.SplicedFacts | scripts/config/menu.c:554-563 | splicing a node's children in behind it keeps preorder, nodes and properness |
| MenuTree.RoundOrder | scripts/config/menu.c:471-475 | the preorder after a round that grew or shrank the current tree is the one before it |
| MenuFinalize.Finalizer.Finalize | scripts/config/menu.c:285-564 | the whole function, for any dependency tests: what is below a node afterwards is its children, or for a symbol without any the longest run of following siblings that pass the test, flattened; nodes with a prompt keep what was below them; next/list/parent pointers form a proper tree again, the preorder of all nodes is unchanged, and every node below was finalised exactly once, in the order of the file |
| MenuFinalize.Finalizer.FinalizeChildren | scripts/config/menu.c:406-411 | the recursion over children that later calls may absorb |
| MenuFinalize.Finalizer.CreateSubmenu | scripts/config/menu.c:412-484 | automatic submenus: exactly the following siblings up to the first that fails the test become children, in order |
| MenuFinalize.Finalizer.AbsorbSiblings | scripts/config/menu.c:440-475 | the loop over following siblings, up to the first that fails the test |
| MenuFinalize.Finalizer.Adopt | scripts/config/menu.c:477-481 | the three assignments that turn siblings into children |
| MenuFinalize.Finalizer.FlattenChildren | scripts/config/menu.c:485-564 | the flattening loop, including the nodes it splices in on the way: no promptless node keeps children |
| MenuFinalize.Finalizer.FlattenHere | scripts/config/menu.c:554-563 | one node hands its children to the list it is in, unless it has a prompt |
| MenuFinalize.Finalizer.SpliceKids | scripts/config/menu.c:555-562 | the pointer surgery of one splice |
| MenuFinalize.Finalizer.Reparent | scripts/config/menu.c:555-559 | the inner loop: all children get the new parent, the last one is found |
| MenuShape.FlattenedExactly | scripts/config/menu.c:526-563 | flattening leaves a node with a prompt everything that was below it, and a node without one nothing; no node is lost and the order is kept |
| ConfWrite.Writer.WriteNode | scripts/config/confdata.c:960-981 | what is printed for one node on the way down |
| ConfWrite.Writer.CloseMenus | scripts/config/confdata.c:989-1002 | the way up: menus are closed until a successor is found or the root is left |
| ConfWrite.Writer.Step | scripts/config/confdata.c:959-1003 | one round of the walk without a stack |
| ConfWrite.Writer.Write | scripts/config/confdata.c:958-1003 | the walk terminates, visits every node below the root exactly once in preorder, and prints what the recursive specification prints |
| ConfWrite.SelectedOnce | scripts/config/confdata.c:970-980 | no symbol is printed twice, and printed are exactly those that occur in a node, are to be written and are no choices |
| ConfWrite.EmitLines | scripts/config/confdata.c:958-1003 | the printed lines are the selected symbols in the order of the menu tree |
| ConfWrite.EmitNested | scripts/config/confdata.c:961-994 | menu headings and "# end of" lines are properly nested |
| ConfLayout.EmitEntries | scripts/config/confdata.c:958-1003 | headings and lines follow each other in the order of the menu tree: a heading for every visible node without a symbol, a line for a symbol at the first node that has it |
| ConfLayout.EmitEnds | scripts/config/confdata.c:989-994 | exactly the visible menus below the root get a closing line |
| ConfLayout.EmitSpaced | scripts/config/confdata.c:969-994 | an empty line stands between the closing line of a menu and the line of a symbol behind it, and nowhere else |
| SymDeps.TopologicalAcyclic | scripts/config/symbol.c:1184-1216 | symbols finished in dependency order lie on no cycle |
| SymDeps.Checker.StackCycle | scripts/config/symbol.c:975-1062 | when a symbol is met that is being checked, the search stack from that symbol on is a cycle |
| SymDeps.Checker.CheckDeps | scripts/config/symbol.c:1184-1216 | the colouring search: a symbol it returns lies on a cycle, marks and stack are restored, and without a report all dependencies are finished |
| SymDeps.Checker.CheckSymDeps | scripts/config/symbol.c:1099-1145 | all expressions attached to a symbol are searched |
| SymDeps.Checker.CheckProps | scripts/config/symbol.c:1124-1139 | the loop over the properties |
| SymDeps.Checker.CheckExpr | scripts/config/symbol.c:1064-1096 | all symbols of an expression are searched |
| SymDeps.Checker.CheckAll | scripts/config/parser.tab.c:1965-1968 | a recursive dependency is reported if and only if there is one, it counts as an error exactly in the strict mode, and otherwise the symbols end up in dependency order |
| SymLaws.DepsExactly | scripts/config/symbol.c:1099-1139 | the search looks at the direct, reverse and implied dependencies, the conditions of all properties but choices, selects and implies, and the values of defaults |
| SymSolver.CheckedIsAcyclic | scripts/config/parser.tab.c:1964-1970 | a search without a report makes the configuration solvable |
| SymSolver.EquationAgrees | scripts/config/symbol.c:175-236 | the value of a symbol depends on nothing but the symbols that the recursion check looks at |
| SymSolver.SolutionSatisfies | scripts/config/symbol.c:302-444 | without cycles the dependency equations have a solution |
| SymSolver.SolutionUnique | scripts/config/symbol.c:302-444 | and only one |
| SymSolver.SolutionTyped | scripts/config/symbol.c:389-390 | in the solution a bool is never m, and no tristate is m when modules are off: the typing the expression rewrites rely on |
| SymCalc.Solver.constructor | scripts/config/symbol.c:446-455 | clearing validity leaves only the constants valid, with whatever values were calculated before |
| SymCalc.Solver.CalcValue | scripts/config/symbol.c:302-344 | the memoised evaluation gives a symbol its value in the solution, whatever was valid before, and never uses a symbol that is half calculated |
| SymCalc.Solver.CalcExpr | scripts/config/expr.c:1030-1102 | an expression evaluates to its value in the solution, calculating symbols on the way |
| SymCalc.Solver.StringValue | scripts/config/symbol.c:746-768 | the string value of a calculated symbol is the one comparisons use |
| SymCalc.Solver.CalcPrompts | scripts/config/symbol.c:187-201 | the prompt loop |
| SymCalc.Solver.CalcVisibility | scripts/config/symbol.c:175-235 | visibility and the three kinds of dependencies |
| SymCalc.Solver.FindProp | scripts/config/symbol.c:83-105 | the first default or range whose condition is not n |
| SymCalc.Solver.CalcTri | scripts/config/symbol.c:350-391 | user value, default, imply and select, in that order |
| SymCalc.Solver.CalcString | scripts/config/symbol.c:392-408 | the value of strings and numbers |
| SymCalc.Solver.ValidateRange | scripts/config/symbol.c:123-153 | a number outside of its range is moved to a bound |
| SymCalc.Solver.CalcAll | scripts/config/symbol.c:302-444 | any symbols in any order |
| SymCalc.SelectForces | scripts/config/symbol.c:357-390 | select is a lower bound unless the direct dependencies are not met, and a user value is bounded by the visibility unless more is selected |
| SymLaws.VisibleIs | scripts/config/symbol.c:187-201 | the visibility is the greatest condition of a prompt, or y in the place of m for a symbol that cannot be m |
| SymLaws.DependenciesAre | scripts/config/symbol.c:208-235 | a missing direct dependency is y, missing reverse and implied ones are n |
| SymLaws.UserValue | scripts/config/symbol.c:357-390 | while a symbol is visible its value is the user's, up to the visibility, or what selects it if that is more |
| SymLaws.DefaultValue | scripts/config/symbol.c:369-375 | without a user value in effect, and with nothing selected or implied, the value is the first default whose condition is not n, bounded by that condition |
| SymLaws.ImpliedValue | scripts/config/symbol.c:376-390 | without a user value in effect an implied symbol is at least the minimum of what implies it and its direct dependencies, and never exceeds these unless it is selected |
| SymLaws.SelectedValue | scripts/config/symbol.c:384-390 | a selection adds to the default, or makes the symbol n when the direct dependencies are n |
| SymLaws.StringIs | scripts/config/symbol.c:392-408 | a string is the user's while visible, else what the first default whose condition is not n names |
| SymLaws.NumberIs | scripts/config/symbol.c:123-153 | so is a number, moved to the bound of the first range in effect that it misses: it ends up between the bounds, and stays when it was |
| SymLaws.WithinRangeExact | scripts/config/symbol.c:457-474 | a value is within range if and only if the symbol would have it after being set to it, and could have another one as well, where no selection is suppressed |
| SymCalc.SetEquation | scripts/config/symbol.c:357-390 | what a new user value does to its symbol, from the fields before it was set |
| SymCalc.SetHonoured | scripts/config/symbol.c:457-474 | a value within range is the value after recalculation if and only if no unmet direct dependency suppresses a selected symbol |
| SymCalc.WithinRangeLost | scripts/config/symbol.c:384-385 | a concrete configuration in which y is within range, and setting it gives n |
| SymCalc.SetSameValue | scripts/config/symbol.c:505-507 | setting the present value skips the recalculation; that is right exactly when the value does not exceed the visibility, or is not visible, or is forced |
| SymCalc.SameValueLost | scripts/config/symbol.c:505-507 | a concrete configuration in which setting the present value y is accepted and the next recalculation gives m |
| SymCalc.Session.SetTristateValue | scripts/config/symbol.c:476-510 | a value is accepted exactly when it is the present one or within range, an accepted new one is honoured, and values are recalculated exactly when it is new |
| Choices.MembersAreBounded | scripts/config/menu.c:317-385 | in every environment the value of a choice bounds the simplified prompt conditions inside it, however deep |
| Choices.BoolMembersNeedYes | scripts/config/menu.c:502-518 | below a tristate choice the members that are no tristates are visible only while the choice is y, and then as before; the conditions of all other members stay as they are |
| Choices.VisibilityBounded | scripts/config/symbol.c:184-203 | under y a member is visible as y or not at all, under n not at all, under m no tristate member is more than m |
| Choices.ChosenIsVisible | scripts/config/symbol.c:244-300 | a choice selects a member exactly when one is visible, and then a visible one |
| Choices.Choice.CalcVisibility | scripts/config/symbol.c:184-203 | visibility of a member: all prompts, with the rule for tristates under a choice that is y |
| Choices.Choice.ChoiceDefault | scripts/config/symbol.c:244-268 | the first usable default, else the first visible member |
| Choices.Choice.CalcChoice | scripts/config/symbol.c:270-300 | the selection, in the order user, default, first visible; without one the choice falls back to n; the choice stays user set only if all visible members are |
| Choices.Choice.CalcMember | scripts/config/symbol.c:353-390 | the value of a member: selected or not while it is visible as y, otherwise its user value or a default of its own |
| Choices.Choice.Resolve | scripts/config/symbol.c:413-415 | a choice and all its members, from the mode that the equations give the choice |
| Choices.ExactlyOne | scripts/config/symbol.c:353-415 | a choice that is y selects a visible member, which is y; all others are n if and only if no member that is not visible has a default of its own that applies |
| Choices.FallsBack | scripts/config/symbol.c:293-297 | a choice that should be y is y exactly when a member is visible, and n otherwise |
| Choices.VisibleChoiceSelects | scripts/config/menu.c:578-592 | a choice that is not optional is not n while its prompt is visible, whatever the user sets; a bool choice then selects one of its visible members if it has any |
| Choices.NoneSelected | scripts/config/symbol.c:353-390 | under a choice that is n all members are n if and only if no default of their own applies; under m none without such a default is y |
| ChoiceLaws.ModeIs | scripts/config/symbol.c:353-390 | before it selects, a choice has the user's value up to its visibility, or what its reverse dependencies ask for |
| ChoiceLaws.OnlyYesSelects | scripts/config/symbol.c:413-415 | only a choice that is y selects |
| ChoiceLaws.MemberVisible | scripts/config/symbol.c:184-203 | a member is as visible as the best prompt that counts: under a choice that is y one of a tristate that is m does not |
| ChoiceLaws.UserSelects | scripts/config/symbol.c:288-291 | the member that the user has selected is selected if it is visible, and of the visible members it alone is y |
| ChoiceLaws.DefaultSelects | scripts/config/symbol.c:250-258 | otherwise the member of the first default is whose condition is not n and whose member is visible |
| ChoiceLaws.FirstSelects | scripts/config/symbol.c:260-264 | otherwise the first visible member |
| ChoiceLaws.OtherMember | scripts/config/symbol.c:355-390 | a member that is not visible as y has the user's value up to its visibility, or the first default of its own that applies |
| Printing.WhenParens | scripts/config/expr.c:1104-1136 | the fall-through switch asks for parentheses exactly around disjunctions in conjunctions and around both in negations |
| Printing.Printer.ExprPrint | scripts/config/expr.c:1138-1228 | the printer appends exactly the specified text, with names as they are and <choice> for a symbol without one |
| Printing.PrintLexes | scripts/config/lexer.l:88-155 | the lexer takes the text of an expression over names that are words apart into its names, operators and parentheses, whatever ends it |
| Printing.LexQuotes | scripts/config/lexer.l:138-198 | in any text the lexer finds no more quotes in words than there are, counting one more for each word in quotes, and all other words are names |
| Printing.RoundTrip | scripts/config/parser.y:438-456 | the text of an expression is read back as the expression, up to re-association and hence with the same value, if and only if the name of every symbol in it is a word that stands for that symbol |
| Printing.QuotesLost | scripts/config/expr.c:1160-1167 | a constant loses its quotes: A='B' prints as A=B, is read as a comparison with the symbol B, and the two differ in value |
| Printing.PrintsAlike | scripts/config/expr.c:1138-1228 | two expressions over names that are words print alike if and only if they have the same names up to re-association |
| ReadLaws.PrintedNames | scripts/config/expr.c:1104-1228 | names are printed as they are, <choice> for a symbol without one, relations without spaces |
| ReadLaws.PrintedOperators | scripts/config/expr.c:1138-1228 | && and \|\| are printed with a space on either side, ! without, and parentheses are all that the operator around may add |
| ReadLaws.ParseExactly | scripts/config/parser.y:438-456 | the parser accepts a token sequence as an expression if and only if it is one by the rules: \|\| binds weaker than &&, both to the left, and ! and relations bind strongest |
| ReadLaws.BlanksSkipped | scripts/config/lexer.l:92-94 | blanks and continued lines separate tokens and mean nothing |
| ReadLaws.CommentSkipped | scripts/config/lexer.l:91 | a comment reaches to the end of its line |
| ReadLaws.WordRead | scripts/config/lexer.l:143-147 | a word reaches as far as its characters do |
| ReadLaws.StringRead | scripts/config/lexer.l:138-182 | a string in quotes of either kind is read as its text without escapes; the other kind of quote stands for itself |
| ReadLaws.StringCutOff | scripts/config/lexer.l:183-196 | a string that is not closed ends with its line |
| ReadLaws.OperatorsRead | scripts/config/lexer.l:125-135 | the operators |
| ConfText.UnescapeEscaped | scripts/config/confdata.c:649-691 | unescaping inverts escaping, whatever follows the closing quote |
| ConfText.UnterminatedIsRefused | scripts/config/confdata.c:265-268 | quoted text without its closing quote is refused |
| ConfText.EscapeStringValue | scripts/config/confdata.c:649-691 | the buffer allocated is exactly as long as what is written into it, terminator included, and holds the quoted string |
| ConfText.UnescapeInPlace | scripts/config/confdata.c:256-268 | the memmove loop leaves the unescaped string in the buffer and finds the closing quote exactly when there is one |
| ConfText.DropBackslash | scripts/config/confdata.c:263 | one memmove, including a backslash that is the last character |
| ConfText.SplitAssignment | scripts/config/confdata.c:474-484 | an assignment line splits into its name and its value |
| ConfText.ItemReads | scripts/config/confdata.c:440-509 | the line printed for a symbol of any type is read back as its setting: n as not set, y and m, valid numbers, quoted strings |
| ConfText.FileRoundTrip | scripts/config/confdata.c:310-334 | a whole file of such lines, cut at line breaks, is read back as the same settings in the same order and no others |
| ConfText.StringRoundTrip | scripts/config/confdata.c:693-719 | what is printed for a string is read back as exactly one setting, of that symbol to that value, if and only if the value has no line break |
| ConfText.BrokenString | scripts/config/confdata.c:310-334 | a string with a line break: the line up to the first break is refused, and the rest of the value is read as lines of its own |
| ConfText.BrokenStringSetsAnother | scripts/config/confdata.c:474-507 | so a string value can set any bool to y when it is read back |
| ConfLaws.TristateLine | scripts/config/confdata.c:230-252 | whoever has written it, CONFIG_X=v sets a bool or tristate by the first character of v: y and n, and m for a tristate; anything else sets nothing |
| ConfLaws.UnsetLine | scripts/config/confdata.c:441-473 | the comment that X is not set makes a bool or tristate n, and nothing else |
| ConfLaws.StringLine | scripts/config/confdata.c:253-275 | a string is set to the text in its quotes without escapes, whatever follows them |
| ConfLaws.BareStringLine | scripts/config/confdata.c:256-257 | text without quotes sets no string |
| ConfLaws.UnescapesOne | scripts/config/confdata.c:258-264 | a backslash is dropped and the character behind it kept, an unescaped quote ends the text |
| ConfLaws.NumberLine | scripts/config/confdata.c:271-281 | an int is set exactly by the decimal text of an integer, or -0, and a hex exactly by hexadecimal digits with or without 0x |
| ConfLaws.AssignmentLine | scripts/config/confdata.c:474-507 | an assignment is read up to the end of its line, without a carriage return in front of that |
| ConfLaws.UnknownLine | scripts/config/confdata.c:486-503 | symbols that do not exist are skipped |
| ConfLaws.OtherLine | scripts/config/confdata.c:508-513 | so are lines that begin in another way |
| ConfLaws.LinesInOrder | scripts/config/confdata.c:438-443 | lines take effect one after the other |
| ConfLaws.PrintedLine | scripts/config/confdata.c:693-719 | the line of a symbol by its type and value: n as a comment, strings in quotes, all else as it is |
| ConfLaws.TitlesWritten | scripts/config/confdata.c:633-646 | titles stand alone in a block of comment lines, and the end of a menu repeats its title |
| ConfFile.WrittenReadsBack | scripts/config/confdata.c:953-1003 | reading the whole file that conf_write leaves, headings included, sets exactly the selected symbols, to their values and in the order of the menu tree, if and only if no title in it sets one |
| ConfFile.TitleQuiet | scripts/config/confdata.c:441-449 | a title of one line sets a symbol if and only if it reads like the line of one that is not set; the closing line of a menu never does |
| ConfFile.TitleUnsets | scripts/config/confdata.c:441-472 | a menu or comment titled CONFIG_X is not set turns X off when the file is read |
| Words.AddAssociates | scripts/mkhash.c:490-493 | addition of 32-bit words associates, although it wraps around |
| Words.ShiftOr | scripts/mkhash.c:119-133 | a shift and an or put two numbers next to each other in a word |
| Words.BytesOfWraps | scripts/mkhash.c:109-116 | multiples of 256^k do not show in the low k bytes, which is why the bit count may wrap around |
| WordLaws.AddWraps | scripts/mkhash.c:490-493 | addition is that of numbers modulo 2^32 |
| WordLaws.Rotates | scripts/mkhash.c:484-487 | a rotation moves every bit by the same number of places, around the end of the word |
| WordLaws.LittleEndianDenotes | scripts/mkhash.c:366-374 | little-endian bytes denote the number they were taken from |
| WordLaws.BytesOfReversed | scripts/mkhash.c:98-116 | big-endian bytes are the same in the opposite order |
| Fips180.Padded | scripts/mkhash.c:565-601 | padding gives whole blocks (section 5.1.1 of FIPS 180-4) |
| WordLaws.PaddingIs | scripts/mkhash.c:565-601 | the padding is the byte 0x80, the fewest zeros that fill a block, and the length in bits: eight bytes, most significant first for SHA-256 and least significant first for MD5 |
| Streaming.FoldAppend | scripts/mkhash.c:621-658 | compressing a message in two parts is compressing it at once |
| Sha256Code.ChIsStandard | scripts/mkhash.c:450 | the optimised Ch is the standard's |
| Sha256Code.MajIsStandard | scripts/mkhash.c:451 | the optimised Maj is the standard's |
| Sha256Code.SigmasAreStandard | scripts/mkhash.c:484-487 | S0, S1, s0 and s1 of the code are the four functions of section 4.1.2 of FIPS 180-4 |
| Sha256Code.ConstantsAreStandard | scripts/mkhash.c:462-479 | the 64 round constants |
| WordLaws.ConstantsAreRoots | scripts/mkhash.c:462-479 | they are the first 32 bits of the fractional parts of the cube roots of the first 64 primes, as section 4.2.2 of FIPS 180-4 says |
| Sha256Code.MixWordsIsStandard | scripts/mkhash.c:504-505 | one line of the message schedule, in the order of the code, is the recurrence of the standard |
| Sha256Code.InitialStateIsStandard | scripts/mkhash.c:610-617 | the initial hash value |
| WordLaws.InitialValueIsRoots | scripts/mkhash.c:610-617 | it consists of those of the square roots of the first eight primes, section 5.3.3 |
| Sha256Code.Be32decIsBigEndian | scripts/mkhash.c:119-133 | bytes are read as a big-endian word |
| Sha256Code.ViewStep | scripts/mkhash.c:496-501 | writing two of eight words and rotating the names is shifting the registers |
| Sha256Code.Rnd | scripts/mkhash.c:490-501 | a round with rotating indices is a round of section 6.2.2 of FIPS 180-4 |
| Sha256Code.Schedule | scripts/mkhash.c:534-549 | a batch of sixteen words continues the recurrence of the message schedule |
| Sha256Code.Batch | scripts/mkhash.c:515-531 | sixteen rounds |
| Sha256Code.Transform | scripts/mkhash.c:458-563 | the compression function is the standard's |
| Sha256Code.Context.Update | scripts/mkhash.c:621-658 | new bytes are appended to the message hashed so far, however they are cut |
| Sha256Code.Context.Pad | scripts/mkhash.c:573-600 | padding in one block or two is the standard's padding |
| Sha256Code.Context.Final | scripts/mkhash.c:664-675 | the digest is that of the padded message, and the context is cleared |
| Sha256Code.HashChunks | scripts/mkhash.c:715-741 | any sequence of updates yields SHA-256 of the concatenation |
| Md5Code.BasicFunctionsAreStandard | scripts/mkhash.c:151-155 | the optimised F, G and H2, and H and I, are those of RFC 1321 |
| Md5Code.Step | scripts/mkhash.c:160-163 | a STEP line is an operation of section 3.4 of RFC 1321 |
| Md5Code.FourSteps | scripts/mkhash.c:209-281 | four lines with rotated arguments advance the registers by four operations |
| Md5Code.SetIsLittleEndian | scripts/mkhash.c:175-180 | bytes are read as a little-endian word |
| Md5Code.AllRounds | scripts/mkhash.c:207-281 | the 64 lines, with their constants, words and shifts, are the four rounds |
| Md5Code.Transform | scripts/mkhash.c:201-288 | a turn of the loop is the compression of a block |
| Md5Code.Context.Body | scripts/mkhash.c:189-297 | the loop over whole blocks |
| Md5Code.CountGrows | scripts/mkhash.c:316-319 | the split counter stays the number of bytes modulo 2^61, with 29 bits in lo |
| Md5Code.Context.Hash | scripts/mkhash.c:310-343 | new bytes are appended to the message hashed so far |
| Md5Code.LengthBytes | scripts/mkhash.c:366-374 | the counters encode the length in bits, low-order word first |
| Md5Code.Context.End | scripts/mkhash.c:345-396 | the result is that of the padded message, and the context is cleared |
| Md5Code.HashChunks | scripts/mkhash.c:700-713 | any sequence of updates yields MD5 of the concatenation |
| Crc32.OwnBytes | scripts/cameo-tag.py:79-84 | feeding a CRC register its own low bytes shifts them out one after the other |
| Crc32.FixedPoint | scripts/cameo-tag.py:83-84 | data followed by its inverted CRC has the CRC 0xffffffff, for all data |
| WordLaws.PolynomialPowers | scripts/cameo-tag.py:79-84 | the polynomial is that of IEEE 802.3, reflected |
| WordLaws.StepDivides | scripts/cameo-tag.py:79-84 | a step of the CRC is one of the division by it |
| WordLaws.CrcOfNothing | scripts/cameo-tag.py:79-84 | the CRC of no data is zero |
| WordLaws.SumDenotes | scripts/cameo-tag.py:76-77 | the sum in the tag is that of the bytes modulo 2^32, most significant byte first |
| Cameo.ChecksumHeader | scripts/cameo-tag.py:82-94 | for every 64-byte header both checks hold at once on the result, and the other bytes are kept |
| Preprocess.SplitExact | scripts/config/preprocess.c:363-401 | the parts of a clause joined with commas are the clause, and no part has a comma outside of parentheses |
| Preprocess.DeeperUsesFuel | scripts/config/preprocess.c:260-266 | counting an expansion up lowers the sum of 1001 - exp_count, on which termination rests |
| Preprocess.ExpandFewer | scripts/config/preprocess.c:251-277 | the counters only ever prevent a result: a successful expansion gives the same result whenever fewer expansions are under way |
| Preprocess.ContainedFails | scripts/config/preprocess.c:498-540 | a text fails as soon as it contains a reference that fails, in whatever name, argument or position |
| Preprocess.BusyReferenceFails | scripts/config/preprocess.c:260-262 | that holds of every reference, without arguments, to a variable that is being expanded |
| Preprocess.SelfReferenceFails | scripts/config/preprocess.c:260-262 | a variable whose value contains a reference to itself without arguments, anywhere and at any depth, has no expansion, whatever else the value holds |
| Preprocess.NoWayOutFails | scripts/config/preprocess.c:260-265 | a set of variables each of whose values refers to one of them never expands, with arguments or without: by the cycle test or by the limit of 1000 |
| Preprocess.EventuallyFails | scripts/config/preprocess.c:260-262 | two variables that refer to each other do not expand |
| Preprocess.ExpandPlain | scripts/config/preprocess.c:498-540 | text in front of a reference is copied |
| ExpandLaws.BuiltinGetsArguments | scripts/config/preprocess.c:404-424 | a reference whose name is no variable stands for what the built-in function returns for the expanded arguments, all of them and in order; the text around it is kept |
| ExpandLaws.EnvironmentLast | scripts/config/preprocess.c:426-433 | without such a function a name alone is that of an environment variable, and anything else is empty |
| ExpandLaws.SimpleIsItsValue | scripts/config/preprocess.c:251-277 | a simple variable hides function and environment, and its value is not expanded again |
| ExpandLaws.RecursiveExpandsAgain | scripts/config/preprocess.c:251-277 | a recursive one hides them too, and its value is expanded with the arguments of the reference; with arguments it may be under way up to 1000 times, without any not at all |
| ExpandLaws.NumberIsArgument | scripts/config/preprocess.c:357-366 | inside of it the number k stands for the k-th argument |
| ExpandLaws.NumberBeyond | scripts/config/preprocess.c:357-366 | a number beyond the arguments is looked up like a name |
| ExpandLaws.MacroCall | scripts/config/preprocess.c:269-270 | the call of a user-defined function: its value with the argument in the place of its number, in the place of the reference |
| ExpandLaws.TooManyArguments | scripts/config/preprocess.c:384-402 | more than fifteen arguments are an error |
| ExpandLaws.PartIsError | scripts/config/preprocess.c:410-414 | an error in the name or an argument is one of the reference |
| ExpandLaws.NeverClosed | scripts/config/preprocess.c:484-485 | a reference without its closing parenthesis is an error |
| ExpandLaws.DollarStays | scripts/config/preprocess.c:467-470 | a dollar without a parenthesis stands for itself |
| ExpandLaws.TokenEnds | scripts/config/preprocess.c:562-578 | a token ends at the first character outside of its references that ends tokens |
| Preprocess.Preprocessor.VariableExpand | scripts/config/preprocess.c:251-277 | an expansion restores all counters when it succeeds, and gives the specified result |
| Preprocess.Preprocessor.SplitClause | scripts/config/preprocess.c:384-406 | the loop that separates name and arguments |
| Preprocess.Preprocessor.EvalClause | scripts/config/preprocess.c:346-442 | arguments, variables, built-in functions, environment, in that order |
| Preprocess.Preprocessor.ExpandDollar | scripts/config/preprocess.c:456-491 | a reference, or a dollar without one, and where the text goes on |
| Preprocess.Preprocessor.ExpandUntil | scripts/config/preprocess.c:498-540 | the loop with its two pointers and growing buffer; it terminates with a result or an error |

## Left out

- Duplicates.EliminateDupsSound: asks that tristates are tested for y, m, n or a constant that equals no tristate value; for other constants `JoinAndExact` says exactly which joins are right.
- Conditions.VisibilityUnchanged: the same form of tests, for the same reason; so do the other results about simplified conditions.
- Submenus.SubmenuExact: for items whose comparison simplifies to a conjunction without the operands y and n; for other items `SubmenuImpliesVisible` gives the one direction.
- InPlace.Optimiser.EliminateDups: expression nodes are slots of one tree that is overwritten, not separately allocated objects; sharing between trees and freeing are not modelled.
- MenuFinalize.Finalizer.Finalize: the contract is about the tree of nodes. The dependency test is any function of two nodes, `Submenu` is about the actual ones; what the function computes into the conditions of nodes, prompts and selects is in `Conditions` and `Transformation`, on values, and what it sets on choices in `Choices`.
- SymCalc.Solver.CalcValue: choices are modelled separately in `Choice`, range bounds are constants, and the value of MODULES is settled before; the write flags and change notifications of symbols are not tracked.
- SymDeps.Checker.CheckAll: without choice blocks, whose members are searched through the choice symbol.
- SymCalc.Session.SetTristateValue: a changed value starts a new calculation with the old fields, instead of clearing one flag per symbol.
- Choices.Choice.Resolve: the values of symbols outside of the group are given, and members are not named in each other's conditions; every prompt of a member stands inside the choice, where the parser warns otherwise.
- Printing.RoundTrip: text with a reference to a variable, $(…), is not read, because its expansion depends on the variables; E_LIST and E_RANGE expressions are not part of this model.
- Printing.PrintsAlike: names that are words; a constant such as 'A && B' also prints like a conjunction.
- ConfFile.WrittenReadsBack: the values are given, strings have no line breaks and numbers are valid; `StringRoundTrip` and `BrokenString` are about other strings.
- ConfText.FileRoundTrip: what the reader does for a choice when it has read one of its members, and S_DEF_AUTO, are not modelled.
- ConfText.SplitAssignment: the line is taken apart on values; the NUL bytes that the reader writes into its line buffer are not modelled.
- Preprocess.Preprocessor.EvalClause: built-in functions and the environment are arbitrary functions, the list of referenced environment variables is not kept; defining variables is not modelled.
- Sha256Code.Context.Update: the data is a value instead of a pointer; lengths are unbounded, and the encoded length is modulo 2^64.
- Md5Code.Load: words are put together byte by byte, as the code does on big-endian machines.
- expr_print_revdep and help texts: case analyses without an interesting law.
- conf_write_defconfig, autoconf and header output: other printers over the same values.
- mconf, nconf, qconf, conf: user interfaces.
- The LALR tables and the statements of the grammar: generated code and declarations; the lexer and the expression grammar are written by hand from the rules they were generated from.
- File handling, temporary files, getenv, popen, warnings, memory allocation: input and output.
- The other firmware header scripts, download scripts and JSON scripts: straight-line packing or networking.
