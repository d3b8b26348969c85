# A verified model of the Kconfig engine, and of three small protocols beside it

This project models, in Dafny, the configuration engine under `bsp/bspc` (the RidgeRun variant of
Linux Kconfig) and three smaller pieces of the same repository, and proves what they are for.

* **Expressions.** Conditions are three-valued (n < m < y). The simplifier (`expr.c`) is modelled twice:
  as functions on values (`Expr`, `Cancel`, `NormalForm`, `Chain`, `Join`, `Dups`, `Submenu`), about which
  the meaning-preservation results are proved and what they are sure to find (`Matching`, `Clean`), and as the in-place surgery on linked nodes that the C code
  performs (`ExprHeap`, `CancelHeap`, `ChainHeap`, `DupsHeap`), each method of which is proved to leave
  exactly the tree its function describes, without touching any node outside the tree.  The two
  `struct expr **` arguments of the duplicate search are addresses of fields there, they alias, and
  comparing `*ep1` with `*ep2` compares pointers.
* **Symbols.** `Config` states the equations that give every symbol its value; `SymbolTable` is the
  memoised evaluator that updates `curr`, `visible`, `rev_dep.tri` and the SYMBOL_VALID flags in place, and
  is proved to compute exactly the one solution of the equations; `Values` says which prompt, default,
  range or user value decides it; `CheckDeps` is the recursion check that makes that solution exist; `Choice` is the evaluation and setting of choice groups.
* **Menus.** `Menu` describes what `menu_finalize` makes of a menu tree, `MenuTree` rewrites the `next`,
  `list` and `parent` pointers and is proved to reach it, `Conditions` says what every dependency left behind means
  in terms of the menus as they were parsed, `Selects` the same of the reverse dependencies, and `BoolPrompts` that
  the evaluator sees the same visibilities.
* **Text.** `PrintParse` is `expr_print` against the expression part of the generated parser, as a
  table-driven automaton; `ConfFile` and `ConfWalk` are the configuration file, one text that is written by the walk
  over the menus and read back through the buffer of fgets.
* **Beside Kconfig.** `CanEcho` (the CAN echo test as two processes and two FIFO channels), `CanText` (the
  compact CAN frame notation) and `Packetizer` (H.264 start codes overwritten by lengths, in place).

A valuation gives every symbol a string and a tristate. It is *sane* when the constants y, m and n have their
static values, and *well typed* when moreover boolean symbols are never m and different constants have
different strings (a constant never has a type and is looked up by its name alone). Every solution of the
evaluator's equations is well typed (`Config.SolutionWellTyped`), so what is proved of the simplifier holds of the
values it computes.

## Where the code does less than it seems to

Each of these is a result below: an exact condition, and a concrete input where one makes the point.

* `expr_eliminate_dups2` is only classical. One of its steps keeps the value exactly where the chain is not m
  (`Dups.ZeroExact`); (A || n) && !A is m where A is m, and becomes n (`Limits.DupsNotThreeValued`).
* `expr_trans_compare` is wrong under a negated subexpression that is m, exactly then
  (`Submenu.TransCompareNotExact`), and for a leaf that is no tristate it compares the string while the leaf
  counts as n (`Submenu.TransCompareStringExact`).
* `expr_depends_symbol` also accepts tests of string symbols. For a symbol that counts as n its conclusion holds
  exactly when the symbol reads as "n" (`Submenu.DependsExact`), which a string need not (`Limits.DependsOnString`).
* Because of the last two, `menu_finalize` can adopt an entry that is enabled while neither the parent symbol nor its
  prompt is: when a symbol is m (`Limits.AdoptionNotThreeValued`), when no symbol is m but one in the prompt is
  undefined (`Limits.AdoptionOnUndefined`), and below a string symbol (`Limits.AdoptionBelowString`).  What adoption
  guarantees under every valuation is about how conditions read, with strings at the leaves and classical logic above
  them (`Submenu.AdoptionReads`); that is exactly what `expr_trans_compare` makes of them (`Submenu.TransCompareReads`),
  and `expr_eliminate_dups` is exact on the result (`Submenu.EnabledReads`). It carries over to values when the parent
  symbol reads as "n" where it counts as n and the plain leaves do not read as n where they are not in the entry's
  condition, nor as y where they are n in the prompt's, reversed below each E_NOT, where the threshold matters only if
  the operand is m (`Submenu.AdoptionSound`, `Menu.AdoptGuarded`). A string symbol in a positive place of the entry's
  condition is harmless, for example, and so is an E_NOT over an m in the prompt's.
* `expr_trans_bool` also rewrites below E_NOT, where it changes whether the value is n
  (`NormalForm.TransBoolBelowNot`). On normal forms, all it is used on, it does not.
* `sym_set_tristate_value` skips both the range check and the clearing of the caches when the value is the one
  the symbol already has. The cache is then stale exactly when the value exceeds the visibility and the select
  floor of a visible symbol, which a default can bring about (`SymbolTable.Table.SetTristateValue`,
  `Limits.SetSameValueStale`). For members of a choice this cannot happen (`Choice.SetMemberSame`); for the choice
  itself it happens exactly when the user asked for y, it is visible as y, it is selected as m, and it is n because no
  member is visible (`Choice.SetChoiceSame`, `Limits.SetChoiceStale`).
* `conf_write` prints every string, but `conf_read_simple` restores it exactly when it contains no newline and its line
  is at most 1023 characters long (`ConfFile.StringFileExact`).
* `conf_parse` counts an error when `sym_check_deps` returns non-NULL, which it never does at the top level: every
  cycle is counted inside, at the symbol that closes it (`CheckDeps.Checker.CheckAll`).

## Model

| member | source | states |
|---|---|---|
| Cancel.EliminateYnSound | bsp/bspc/expr.c:236-317 | constant folding keeps the three-valued value and keeps plain leaves off m |
| Cancel.EliminateYnShrinks | bsp/bspc/expr.c:236-317 | a tree with a y/n operand gets strictly smaller |
| Cancel.EliminateYnComplete | bsp/bspc/expr.c:236-317 | one pass leaves no y/n operand, so a second pass does nothing |
| Cancel.EliminateYnFixed | bsp/bspc/expr.c:236-317 | it changes a tree if and only if that has a y/n operand outside E_NOT |
| Cancel.ElimEqCancels | bsp/bspc/expr.c:135-167 | whatever is cancelled, both sides equal their remainders joined with one common part, in every valuation |
| Cancel.EliminateEqSound | bsp/bspc/expr.c:169-189 | if the remainders agree everywhere, the originals do |
| Cancel.ExprEqSound | bsp/bspc/expr.c:194-234 | if expr_eq answers 1, the expressions agree under every valuation |
| Cancel.EliminateEqImplies | bsp/bspc/menu.c:300-308 | if dep2 is left as y, dep was <= dep2 in every valuation |
| Matching.ExprEqSelf | bsp/bspc/expr.c:194-234 | expr_eq answers 1 for every expression and itself |
| Matching.ExprEqExact | bsp/bspc/expr.c:194-234 | for chains of leaves and negated leaves it answers 1 if and only if they have the same terms equally often, in any order and nesting |
| Matching.ExprEqCommutes | bsp/bspc/expr.c:194-234 | so the operands of AND and OR may be exchanged |
| Matching.EliminateEqExact | bsp/bspc/expr.c:169-189 | for such chains the second one is left empty if and only if the first one has all its terms |
| NormalForm.TransformSound | bsp/bspc/expr.c:641-776 | expr_transform keeps the three-valued value under every well-typed valuation |
| NormalForm.TransformTwoValued | bsp/bspc/expr.c:641-776 | the plain leaves it creates are n or y when the ones before were |
| NormalForm.TransformNormal | bsp/bspc/expr.c:641-776 | E_NOT is left only over a symbol other than y/m/n, and no boolean is tested against y/m/n |
| NormalForm.TransformIdempotent | bsp/bspc/expr.c:641-776 | its fixed points are exactly the normal forms, and it is idempotent |
| NormalForm.Transform | bsp/bspc/expr.c:720-766 | De Morgan steps terminate: the result never weighs more, although it may have more nodes |
| NormalForm.TransBoolKeepsN | bsp/bspc/expr.c:322-346 | FOO!=n -> FOO on a normal form lowers the value at most and never changes whether it is n |
| NormalForm.TransBoolNormal | bsp/bspc/expr.c:322-346 | and keeps the normal form |
| NormalForm.TransBoolExact | bsp/bspc/expr.c:322-346 | it removes every FOO!=n of a tristate, and changes an expression only if there is one |
| NormalForm.TransBoolBelowNot | bsp/bspc/expr.c:322-346 | below E_NOT the rewrite keeps n-ness exactly where FOO is not m |
| Join.JoinOrSound | bsp/bspc/expr.c:351-413 | a join has the value of the disjunction of its terms under every well-typed valuation |
| Join.JoinAndSound | bsp/bspc/expr.c:415-507 | a join has the value of their conjunction under every well-typed valuation |
| Join.JoinForm | bsp/bspc/expr.c:351-507 | a join is e1 or one leaf, not larger, normal and two-valued if the terms were |
| Join.JoinThirdConstant | bsp/bspc/expr.c:379-491 | of a tristate, in either order: s=a || s=b becomes s!=c, and s!=a && s!=b becomes s=c, c being the third constant |
| Join.JoinEqualUnequal | bsp/bspc/expr.c:459-473 | s=a && s!=b becomes s=a, or n if a is b, in either order |
| Join.JoinSymbolTest | bsp/bspc/expr.c:444-497 | which tests are joined with the symbol itself, and to what; the others are kept |
| Join.JoinExcludedMiddle | bsp/bspc/expr.c:399-403 | s || !s becomes y exactly for a boolean |
| Matching.JoinSame | bsp/bspc/expr.c:356-421 | a term joins with its copy |
| Chain.PutElsewhere | bsp/bspc/expr.c:511-529 | a write through one slot of a chain is not seen through another |
| Dups.Dups1Keeps | bsp/bspc/expr.c:509-559 | dups1 keeps the three-valued value, normal form and two-valuedness; if it counts nothing it changed nothing, and otherwise it leaves a constant to fold |
| Dups.Dups1ThenYnSound | bsp/bspc/expr.c:509-559 | dups1 and the folding after it are exact in three-valued logic |
| Dups.ExtractEqSplits | bsp/bspc/expr.c:853-880 | one part leaves both chains and arrives in the accumulator |
| Dups.ExtractCommonSound | bsp/bspc/expr.c:831-851 | each chain equals its remainder joined with what was extracted |
| Dups.ZeroExact | bsp/bspc/expr.c:581-607 | the annihilation step is right exactly where the chain is not m |
| Dups.Dups2Keeps | bsp/bspc/expr.c:561-615 | dups2 keeps the value where every plain leaf is n or y, and shrinks the tree whenever it counts |
| Dups.DupsPassKeeps | bsp/bspc/expr.c:617-639 | each continuing turn of the loop strictly shrinks the tree |
| Dups.EliminateDupsSound | bsp/bspc/expr.c:617-639 | expr_eliminate_dups keeps the value where every plain leaf is n or y, and keeps normal forms |
| Dups.EliminateDupsIdempotent | bsp/bspc/expr.c:617-639 | its result is a fixed point |
| Clean.EliminateDupsClean | bsp/bspc/expr.c:617-639 | in the result no two members of any chain, on any level, join or contradict each other |
| Clean.PairJoined | bsp/bspc/expr.c:536-553 | of two operands that join, the first becomes the neutral constant and the second the join |
| Matching.NegationContradicts | bsp/bspc/expr.c:581-607 | a chain and its negation, written out, are found to contradict each other |
| ExprHeap.Store.Copy | bsp/bspc/expr.c:67-102 | a second tree of new nodes with the same expression; no old node changes |
| ExprHeap.Store.EliminateYnAt | bsp/bspc/expr.c:236-317 | in place: the node spells EliminateYn(e), on nodes of the old tree |
| ExprHeap.Store.TransBoolAt | bsp/bspc/expr.c:322-346 | in place: the node spells TransBool(e) |
| ExprHeap.Store.TransformAt | bsp/bspc/expr.c:641-776 | in place: the returned node spells Transform(e), on old nodes of the tree and new ones |
| CancelHeap.ElimEqAt | bsp/bspc/expr.c:135-167 | in place: *ep1 and *ep2 spell ElimEq, and the two trees still share no node |
| CancelHeap.EliminateEqAt | bsp/bspc/expr.c:169-189 | in place: *ep1 and *ep2 spell EliminateEq |
| CancelHeap.ExprEqAt | bsp/bspc/expr.c:194-234 | cancelling in copies answers ExprEq and changes no node that was in use |
| ChainHeap.SamePointer | bsp/bspc/expr.c:525-526 | *ep1 == *ep2 as pointers exactly when the slots are the same |
| ChainHeap.StoreTree | bsp/bspc/expr.c:536-543 | *ep = x replaces exactly the member at ep and keeps the chain's own nodes |
| DupsHeap.JoinAt | bsp/bspc/expr.c:351-507 | NULL or a new tree that spells the join; the two terms are not touched |
| DupsHeap.Dups1At | bsp/bspc/expr.c:509-559 | in place, through aliasing slots: the chain spells Dups1 and trans_count grows by its count |
| DupsHeap.ExtractEqAt | bsp/bspc/expr.c:853-880 | in place: *ep, *ep1 and *ep2 spell ExtractEq, and the three trees share no node |
| DupsHeap.ExtractCommonAt | bsp/bspc/expr.c:831-851 | in place: the extracted tree and the two folded remainders spell ExtractCommon |
| DupsHeap.ContradictsAt | bsp/bspc/expr.c:581-607 | the test on copies of !e1 and e2, which changes no node that was in use |
| DupsHeap.Dups2At | bsp/bspc/expr.c:561-615 | in place: the chain spells Dups2 and trans_count grows by its count |
| DupsHeap.EliminateDupsAt | bsp/bspc/expr.c:617-639 | the loop over trans_count leaves EliminateDups(e) at the same root |
| Submenu.ContainsFrame | bsp/bspc/expr.c:778-800 | a symbol that expr_contains_symbol does not find does not influence the value |
| Submenu.DependsSound | bsp/bspc/expr.c:802-829 | an expression that depends on a boolean or tristate symbol is n whenever the symbol is |
| Submenu.DependsExact | bsp/bspc/expr.c:802-829 | for a symbol that counts as n: all its dependants are n if and only if it reads as "n" |
| Submenu.DependsConjunct | bsp/bspc/expr.c:802-829 | an expression depends on s if and only if it is an AND chain with s, s=y, s=m or s!=n as a member |
| Submenu.DependsLeafExact | bsp/bspc/expr.c:802-829 | among plain symbols other than n and tests of s against y, m or n these are exactly the leaves that are n whenever the boolean or tristate s is |
| Submenu.TransCompareReads | bsp/bspc/expr.c:882-941 | for every expression: the result has the value of the comparison with the classical reading of e, which takes the strings of the leaves |
| Submenu.TransCompareSound | bsp/bspc/expr.c:882-941 | y exactly when the comparison of e's value holds and n otherwise, when e reads as y exactly where its value reaches the level compared with, which is a condition on leaves whose direction and level reverse below E_NOT |
| Submenu.LogicalReads | bsp/bspc/expr.c:882-941 | where every plain leaf is a boolean, a tristate or y/m/n and no E_NOT stands over an m, e reads as its value |
| Submenu.TransCompareNotExact | bsp/bspc/expr.c:913-914 | for !e1: right if and only if e1 is not m |
| Submenu.TransCompareStringExact | bsp/bspc/expr.c:933-934 | for a leaf that is no tristate: right if and only if its string happens to be |
| Submenu.TransCompareTwoValued | bsp/bspc/expr.c:882-941 | the result is never m |
| Submenu.EnabledReads | bsp/bspc/menu.c:289-290 | under every well-typed valuation the rewritten, transformed and cleaned condition has the value that the condition reads as |
| Submenu.EnabledSound | bsp/bspc/menu.c:289-290 | the rewritten condition is y where the condition is not n, and n elsewhere, when every plain leaf reads as it counts and no E_NOT stands over an m (or, more generally, both halves of the leaf condition hold) |
| Submenu.AdoptionReads | bsp/bspc/menu.c:292-311 | under every well-typed valuation an adopted entry reads as n unless the prompt reads as y or the parent symbol as something other than "n" |
| Submenu.AdoptionSound | bsp/bspc/menu.c:292-311 | an adopted entry is enabled only if the parent symbol or the parent's prompt is, when the leaves of its condition do not make it read as n where it is not, those of the prompt's not as y where it is n, and the parent reads as "n" where it counts as n |
| Submenu.AdoptionSoundTwoValued | bsp/bspc/menu.c:292-311 | in particular below a boolean or tristate parent, when every plain leaf is a boolean, a tristate or y/m/n, and is n or y |
| Submenu.AdoptsDependant | bsp/bspc/menu.c:292-299 | an entry whose AND chain asks for the parent symbol is adopted, whatever the prompt |
| Matching.AdoptsExactly | bsp/bspc/menu.c:292-311 | where the conditions come down to AND chains of leaves: adopted if and only if the symbol occurs and is depended on, or all terms of the prompt are repeated |
| Limits.AIsModWellTyped | bsp/bspc/symbol.c:257-380 | the valuation of the examples, in which one tristate is m, is well typed |
| Limits.DupsNotThreeValued | bsp/bspc/expr.c:617-639 | the concrete chain that expr_eliminate_dups turns from m into n |
| Limits.DependsOnString | bsp/bspc/expr.c:802-829 | a concrete string symbol that counts as n, with an enabled dependant |
| Limits.AdoptionNotThreeValued | bsp/bspc/menu.c:292-311 | a concrete adopted entry that is m under a well-typed valuation while parent symbol and prompt are n |
| Limits.AdoptionOnUndefined | bsp/bspc/menu.c:292-311 | under every well-typed valuation in which the undefined U has its own name and S is n: a concrete adopted entry that is y while the parent S and the prompt "if U" are n |
| Limits.AdoptionBelowString | bsp/bspc/menu.c:292-311 | a concrete entry adopted below a string symbol that is y while the symbol and its prompt count as n |
| Limits.SetSameValueStale | bsp/bspc/symbol.c:433-438 | a concrete tristate that is y, is set to y, and then means m |
| Limits.SetChoiceStale | bsp/bspc/symbol.c:433-438 | a concrete choice that is n, is set to n, and then means m |
| Config.MeaningFrame | bsp/bspc/symbol.c:257-380 | the meaning of a symbol depends only on the symbols its expressions name |
| Config.RecursiveSolves | bsp/bspc/symbol.c:257-380 | on an acyclic graph the plain recursive meaning satisfies every symbol's equation |
| Config.SolutionUnique | bsp/bspc/symbol.c:257-380 | and nothing else does |
| Config.UnaffectedKeepsMeaning | bsp/bspc/symbol.c:414-467 | a symbol that does not depend on a changed user value keeps its meaning |
| Config.SolutionWellTyped | bsp/bspc/symbol.c:257-380 | every solution is a well-typed valuation, as the simplifier's results ask for |
| Config.SolutionNeverMod | bsp/bspc/symbol.c:189-217 | what counts as boolean is never m, nor is its visibility or select floor; without modules no symbol but m is |
| Config.SelectHolds | bsp/bspc/symbol.c:302-325 | a select is a lower bound whatever prompts, defaults and user values say; a user value is limited by visibility |
| Config.RangeHolds | bsp/bspc/symbol.c:156-187 | a number lies within its range, if that is not empty and its limits survive printing and reading |
| Values.FirstVisibleExact | bsp/bspc/symbol.c:116-138 | the default or range found is the one of least index whose condition is not n, and none if all are n |
| Values.PromptVisibilityExact | bsp/bspc/symbol.c:194-199 | the visibility reaches t if and only if the condition of a prompt does |
| Values.VisibleExactly | bsp/bspc/symbol.c:189-206 | in a solution: visible if and only if a prompt is, and as y if and only if one is y or is an m that counts as y |
| Values.TristateByUser | bsp/bspc/symbol.c:291-325 | in a solution: a visible symbol has the user's value, limited by the visibility and raised to the floor |
| Values.TristateByDefault | bsp/bspc/symbol.c:291-325 | otherwise the value of the default of least index that is switched on, limited by its condition and raised to the floor |
| Values.TristateByNothing | bsp/bspc/symbol.c:291-325 | and the floor if no default is |
| Values.TextExactly | bsp/bspc/symbol.c:326-348 | in a solution: the user's text, or that of the symbol named by the first default that is switched on, or none |
| Values.NumberExactly | bsp/bspc/symbol.c:140-187 | the range of least index that is switched on decides: the text stands inside, and is replaced by the limit it violates |
| Values.WrittenExactly | bsp/bspc/symbol.c:302-378 | SYMBOL_WRITE is set if and only if the symbol is visible, selected or has a default, and is not automatic |
| Values.UnwrittenIsEmpty | bsp/bspc/symbol.c:302-378 | what is not written is n or empty, but for numbers with a range |
| SymbolTable.Table.CalcExpr | bsp/bspc/expr.c:943-982 | evaluating with the caches gives the value under the meaning and only adds VALID entries |
| SymbolTable.Table.CalcVisibility | bsp/bspc/symbol.c:189-217 | stores the visibility with the m-to-y promotion and the select floor |
| SymbolTable.Table.CalcTristate | bsp/bspc/symbol.c:291-325 | user value limited by visibility, else default limited by its condition, raised to the floor |
| SymbolTable.Table.CalcText | bsp/bspc/symbol.c:326-348 | user text or the default symbol's text, clamped to the range |
| SymbolTable.Table.ClampToRange | bsp/bspc/symbol.c:156-187 | sym_validate_range on a cached symbol computes the clamped text of the specification |
| SymbolTable.Table.CalcValue | bsp/bspc/symbol.c:257-380 | afterwards the symbol is VALID and holds its meaning; every other VALID entry still does; it terminates by the number of symbols not VALID and the expression size |
| SymbolTable.Table.CalcAll | bsp/bspc/symbol.c:257-380 | whatever the order of evaluation, every symbol gets its one meaning |
| SymbolTable.Table.ClearAllValid | bsp/bspc/symbol.c:382-392 | after clearing, the table is coherent with the meaning under the new user values |
| SymbolTable.Table.SetTristateValue | bsp/bspc/symbol.c:414-467 | accepted if and only if the symbol has the value, or would then have it and its visibility exceeds its floor; the new user value; and the VALID entries agree with the new meaning if and only if the value was reachable, in which case the symbol gets exactly that value |
| SymbolTable.SetMeaning | bsp/bspc/symbol.c:433-467 | the new meaning of the symbol that was set, and when it is the value that was set |
| SymbolTable.SetSameMeaning | bsp/bspc/symbol.c:437-466 | re-setting a reachable current value changes no symbol's meaning |
| SymbolTable.SetThenRecalculate | bsp/bspc/symbol.c:414-467 | a value within range is what the symbol then has, and every symbol not depending on it keeps its value |
| CheckDeps.Checker.CheckSymbol | bsp/bspc/symbol.c:853-889 | the search step: CHECK marks the stack, an unwinding result lies on a cycle, and what is left behind unreported is finished |
| CheckDeps.Checker.CheckAll | bsp/bspc/zconf.tab.c:2278-2281 | an error is reported if and only if the dependency graph has a cycle |
| CheckDeps.FinishedAcyclic | bsp/bspc/symbol.c:763-889 | a finishing order over all symbols excludes every cycle |
| CheckDeps.StackCycle | bsp/bspc/symbol.c:858-863 | a symbol met again on the search stack closes a cycle |
| CheckDeps.CheckedIsRanked | bsp/bspc/symbol.c:763-889 | with constant range bounds a clean check makes the evaluator's graph acyclic |
| CheckDeps.RankedHasNoCycle | bsp/bspc/symbol.c:794-817 | no configuration of typed symbols whose evaluation can be ordered has a cycle for the check |
| CheckDeps.CheckExactly | bsp/bspc/zconf.tab.c:2278-2281 | with constant range bounds: no error if and only if the evaluator's graph is acyclic |
| CheckDeps.CheckedHasMeaning | bsp/bspc/zconf.tab.c:2278-2283 | a configuration that passes the check has exactly one meaning, for any user values |
| Choice.ChoiceHoldsVisible | bsp/bspc/symbol.c:219-255 | a choice is y exactly when it would be y by itself and some member is visible then, and holds a visible member exactly when it is y |
| Choice.ChoiceByUser | bsp/bspc/symbol.c:225-231 | a choice that is y holds the member the user picked, if that is visible |
| Choice.ChoiceByDefault | bsp/bspc/symbol.c:233-243 | otherwise the member of the default of least index that is switched on and whose member is visible |
| Choice.ChoiceByOrder | bsp/bspc/symbol.c:245-251 | and without one the visible member of least index |
| Choice.MemberShows | bsp/bspc/menu.c:339-357 | a member is visible if and only if its own condition holds and the choice is not n; a boolean member of a tristate choice only if that is y |
| Choice.ChoiceExclusion | bsp/bspc/symbol.c:298-327 | at most one member is y; one is exactly when the selected member's visibility is y |
| Choice.ExclusionUnder | bsp/bspc/symbol.c:298-327 | the same whatever outcome the choice is held to have |
| Choice.SetMemberExact | bsp/bspc/symbol.c:433-467 | an accepted value is exactly the value the member then has; y also makes the choice y and hold it |
| Choice.MemberInRangeExact | bsp/bspc/symbol.c:414-431 | a value other than the present one is accepted if and only if the member then has it, unless setting the choice's flag raises the choice |
| Choice.SetMemberSame | bsp/bspc/symbol.c:448-466 | setting a member to the value it has, which skips the clearing, changes no value |
| Choice.SetChoiceExact | bsp/bspc/symbol.c:414-467 | a value within range is what the choice becomes, but for y without a visible member |
| Choice.ChoiceInRangeExact | bsp/bspc/symbol.c:414-431 | a value is in range if and only if the visibility exceeds the floor and the choice would be set to it |
| Choice.SetChoiceSame | bsp/bspc/symbol.c:433-467 | setting the choice to the value it has changes nothing, if and only if it is not an emptied choice that is selected as m |
| Choice.ChoiceTable.CalcMember | bsp/bspc/symbol.c:257-327 | afterwards the member is VALID and holds its meaning, although the choice is evaluated from inside its condition |
| Choice.ChoiceTable.CalcChoice | bsp/bspc/symbol.c:353-355 | the choice and its selection, although the visibility of its members is computed with the choice half evaluated |
| Choice.ChoiceTable.PickMember | bsp/bspc/symbol.c:219-255 | the user's choice if visible, else the first visible default, else the first visible member |
| Choice.ChoiceTable.SetMember | bsp/bspc/symbol.c:433-467 | acceptance, new user values, usable caches in both branches, and the member's new value |
| Choice.ChoiceTable.SetChoice | bsp/bspc/symbol.c:433-467 | acceptance, and exactly when the caches stay coherent |
| Choice.ChoiceTable.Session | bsp/bspc/symbol.c:219-467 | after any sequence of settings of members, of the choice and of other symbols, and recalculation: at most one member is y, and one exactly if the selected member's visibility is y |
| Menu.FinalizePreorder | bsp/bspc/menu.c:228-369 | no entry is lost, duplicated or moved past another |
| Menu.AdoptPreorder | bsp/bspc/menu.c:292-317 | adopted entries followed by those left are the entries there were |
| Menu.AdoptMaximal | bsp/bspc/menu.c:292-311 | every adopted entry passed the test, the first one left did not |
| Menu.AdoptGuarded | bsp/bspc/menu.c:292-317 | each child that the loop collects is enabled only if the parent symbol or its prompt is, under the conditions of Submenu.AdoptionSound |
| Menu.FlattenPreorder | bsp/bspc/menu.c:359-369 | moving children of prompt-less entries up keeps the preorder |
| Menu.FlattenFlat | bsp/bspc/menu.c:359-369 | afterwards no entry of the list without a prompt has children |
| Menu.FlattenLifted | bsp/bspc/menu.c:359-369 | the list then holds every entry with a prompt with what was below it, and behind each other entry, without children, what was below that, on every level |
| Menu.FinalizeAllFlat | bsp/bspc/menu.c:228-369 | nowhere below a finalized entry does an entry without a prompt have children |
| Menu.FinalizeTakes | bsp/bspc/menu.c:288-317 | a childless entry of a symbol takes the next sibling if that passes the test, and the sibling it leaves does not |
| Menu.InheritSound | bsp/bspc/menu.c:261-271 | a propagated condition is the conjunction of the outer and the own one, where plain leaves are n or y |
| Menu.InheritNormal | bsp/bspc/menu.c:261-271 | and is in normal form |
| Conditions.FinalizedConditions | bsp/bspc/menu.c:228-369 | with every symbol n or y: the dependency of each entry is the conjunction of its parsed ancestors' conditions and its own, however entries were adopted or moved up |
| Conditions.SolutionCrisp | bsp/bspc/symbol.c:189-217 | which is so for every solution without modules |
| Conditions.TransBoolCrisp | bsp/bspc/expr.c:322-346 | there FOO!=n and FOO have the same value, below E_NOT too |
| Selects.FinalizedSelects | bsp/bspc/menu.c:228-369 | with every symbol n or y: the reverse dependency of a symbol is the maximum of what it was and, over all selects of it in the parsed tree, of the selecting symbol and the condition the select inherits |
| Selects.AddSelectsValue | bsp/bspc/menu.c:266-281 | the properties of one entry raise the reverse dependency to the maximum over its selects, whatever was collected before |
| Selects.SelectedByTree | bsp/bspc/symbol.c:302-325 | in a configuration without modules built from the tree: this maximum is the select floor of the symbol in the solution, and its value is never below it |
| MenuTree.Tree.PropagateList | bsp/bspc/menu.c:260-281 | on the linked list: the specification's conditions and reverse dependencies, and no other menu touched |
| MenuTree.Tree.AdoptSiblings | bsp/bspc/menu.c:288-318 | on the links: the adopted run becomes the child list, the rest follows the parent, each adopted menu finalized once |
| MenuTree.Tree.FlattenList | bsp/bspc/menu.c:359-369 | on the links: the specification's list, and every parent pointer names the owner of the list the menu is in |
| MenuTree.Tree.Finalize | bsp/bspc/menu.c:228-369 | on the links: the specification's tree, and the menus finalized are exactly those visited, in order |
| MenuTree.FinalizeRoot | bsp/bspc/menu.c:228-369 | from the root, which has no parent: preorder kept, every menu finalized exactly once, all parent pointers right |
| BoolPrompts.FinalizeNormal | bsp/bspc/menu.c:228-369 | every condition below a finalized entry is in normal form |
| BoolPrompts.InheritClean | bsp/bspc/menu.c:261-271 | nor do two members of any chain of a propagated condition join or contradict each other |
| BoolPrompts.EnabledForm | bsp/bspc/menu.c:289-290 | the condition that the adoption test compares is normal and clean in the same way |
| BoolPrompts.InheritPropExact | bsp/bspc/menu.c:272-274 | no property of a symbol that is no tristate keeps a FOO!=n; those of the others stay as inherited |
| BoolPrompts.InheritPropSound | bsp/bspc/menu.c:269-274 | where plain leaves are n or y, a rewritten condition is n exactly when the inherited or its own one is |
| BoolPrompts.VisibilityKept | bsp/bspc/symbol.c:194-201 | for a symbol that is no tristate, the prompts rewritten by expr_trans_bool give the same visibility |
| BoolPrompts.InheritedVisibility | bsp/bspc/menu.c:269-274 | for the conditions that menu_finalize leaves: a symbol that is no tristate is as visible as with the inherited conditions before the rewrite |
| BoolPrompts.VisibleExactly | bsp/bspc/menu.c:261-274 | where plain leaves are n or y: it is visible, as y, exactly when the inherited condition and the own condition of one of its prompts are not n |
| PrintParse.ReduceLighter | bsp/bspc/zconf.tab.c:1981-2024 | every reduction makes the parser's stack lighter, so parsing terminates |
| PrintParse.Parse | bsp/bspc/zconf.tab.c:1557-2055 | the shift-reduce loop gives the automaton's verdict |
| PrintParse.LeftAssocSound | bsp/bspc/zconf.tab.c:2009-2016 | re-associating chains to the left keeps the value |
| PrintParse.LeftAssocPrint | bsp/bspc/expr.c:1016-1086 | and the printed text |
| PrintParse.ReadUnit | bsp/bspc/zconf.tab.c:650-780 | a leaf, negation or parenthesized operand is read back as one expression in front of any continuation |
| PrintParse.MoreAnds | bsp/bspc/zconf.tab.c:650-780 | the members of an AND chain are joined from the left |
| PrintParse.MoreOrs | bsp/bspc/zconf.tab.c:650-780 | so are those of an OR chain, after any tighter AND |
| PrintParse.ParsePrint | bsp/bspc/expr.c:984-1086 | parsing what expr_print prints gives the expression with its chains left-associated |
| PrintParse.PrintParseRoundTrip | bsp/bspc/expr.c:984-1086 | hence the same value under every valuation, and the same text when printed again |
| PrintParse.PrintParentheses | bsp/bspc/expr.c:1020-1086 | one pair of parentheses for each AND or OR below a negation and each OR below an AND, and no other |
| PrintParse.BareBelowNot | bsp/bspc/expr.c:1020-1086 | without those below a negation the text is that of another expression |
| PrintParse.BareLeftOfAnd | bsp/bspc/expr.c:1020-1086 | so it is without those left of an AND |
| PrintParse.BareRightOfAnd | bsp/bspc/expr.c:1020-1086 | and right of it |
| PrintParse.ReadQuote | bsp/bspc/zconf.tab.c:2021-2024 | a quoted word is looked up as a constant |
| ConfFile.EscapeRoundTrip | bsp/bspc/confdata.c:493-504 | unescaping undoes escaping, whatever follows the closing quote |
| ConfFile.WriteEscaped | bsp/bspc/confdata.c:493-504 | the strcspn loop prints the escaped string |
| ConfFile.UnescapeInPlace | bsp/bspc/confdata.c:120-130 | the strpbrk/memmove loop leaves the unescaped text in the buffer, or fails exactly when there is no closing quote |
| ConfFile.CheckNumber | bsp/bspc/symbol.c:492-518 | the character loops accept exactly the valid int and hex texts |
| ConfFile.IntTexts | bsp/bspc/symbol.c:499-511 | the valid int texts are those of the decimal numbers, with or without a minus |
| ConfFile.HexTexts | bsp/bspc/symbol.c:512-521 | the valid hex texts are digits of either case, with or without 0x |
| ConfFile.WrittenForms | bsp/bspc/confdata.c:479-518 | the form of the line for each type |
| ConfFile.OtherLine | bsp/bspc/confdata.c:210-275 | a line of another form changes nothing |
| ConfFile.ReadOtherForms | bsp/bspc/confdata.c:90-107 | =n is read like "is not set", and =m is nothing for a boolean |
| ConfFile.ReadDos | bsp/bspc/confdata.c:256-261 | a carriage return before the newline makes no difference |
| ConfFile.LineRoundTrip | bsp/bspc/confdata.c:210-271 | reading the line printed for a symbol restores the value, with and without the newline behind it; for numbers exactly when they are valid |
| ConfFile.StringLineRoundTrip | bsp/bspc/confdata.c:86-146 | a string is restored if its line reaches the buffer as a whole |
| ConfFile.StringFileExact | bsp/bspc/confdata.c:210-275 | from a text that is read through fgets, a string symbol gets its value back if and only if the value contains no newline and the line has at most 1023 characters |
| ConfFile.Fgets | bsp/bspc/confdata.c:210 | the characters up to and with the newline, but at most 1023 |
| ConfFile.ReadFile | bsp/bspc/confdata.c:210-275 | the loop applies what fgets delivers, piece by piece, until the text is used up |
| ConfFile.ReadFirst | bsp/bspc/confdata.c:210 | the first line of a text is read whole, and if it fills the buffer its newline is read as an empty line |
| ConfFile.FileRoundTrip | bsp/bspc/confdata.c:148-285 | reading the written text restores every written value and sets nothing else, if each line is one line of at most 1023 characters |
| ConfWalk.ConfWrite | bsp/bspc/confdata.c:456-534 | the iterative walk over list, next and parent evaluates each symbol it meets and appends the lines of the flagged ones to the text, each with the value it means |
| ConfWalk.FinalizeSyms | bsp/bspc/menu.c:228-369 | finalizing keeps the order of the symbols |
| ConfWalk.FinalizeThenWrite | bsp/bspc/confdata.c:392-534 | the text has its lines in the order in which the menus were parsed |
| ConfWalk.EmittedOnce | bsp/bspc/confdata.c:469-471 | every flagged symbol with an entry is printed exactly once, and no other |
| ConfWalk.EmittedInOrder | bsp/bspc/confdata.c:456-534 | in the order of first entries |
| ConfWalk.ConfigRoundTrip | bsp/bspc/confdata.c:148-534 | the text read back through fgets restores exactly the values of the flagged symbols that have an entry, if each prints one line of at most 1023 characters |
| CanEcho.EchoFrame | fs/apps/socketcan-2011.02.02/src/canfdtest.c:218-222 | the device increments identifier and data bytes with wrap-around |
| CanEcho.CompareFrame | fs/apps/socketcan-2011.02.02/src/canfdtest.c:97-119 | running is cleared exactly by a mismatch |
| CanEcho.EchoCounts | fs/apps/socketcan-2011.02.02/src/canfdtest.c:218-222 | identifier and bytes within the length are one more, with wrap-around; the rest comes back unchanged |
| CanEcho.EchoIsNext | fs/apps/socketcan-2011.02.02/src/canfdtest.c:218-268 | the echo of a generated frame carries the data of the next one, under identifier 0x78 |
| CanEcho.MatchesExactly | fs/apps/socketcan-2011.02.02/src/canfdtest.c:97-119 | a frame is accepted if and only if it is the expected one but for bytes behind its length |
| CanEcho.OutOfTurn | fs/apps/socketcan-2011.02.02/src/canfdtest.c:97-119 | the echo of another generated frame is accepted if and only if the counters agree modulo 256 |
| CanEcho.Generator.Send | fs/apps/socketcan-2011.02.02/src/canfdtest.c:261-282 | the frame sent, and the ring with its expected echo |
| CanEcho.Generator.Receive | fs/apps/socketcan-2011.02.02/src/canfdtest.c:288-306 | one comparison against the ring at recv_pos, and the break after the last loop |
| CanEcho.StepInv | fs/apps/socketcan-2011.02.02/src/canfdtest.c:194-306 | every step keeps: the echoes still to arrive are the ring segment from recv_pos of length unprocessed |
| CanEcho.EchoSafety | fs/apps/socketcan-2011.02.02/src/canfdtest.c:252-311 | in every interleaving no mismatch is ever reported and at most 50 frames are outstanding |
| CanEcho.EchoNoDeadlock | fs/apps/socketcan-2011.02.02/src/canfdtest.c:252-311 | until the generator is done some step is possible |
| CanEcho.EchoProgress | fs/apps/socketcan-2011.02.02/src/canfdtest.c:252-311 | n steps complete at least (n - 150) / 4 round trips, whatever the interleaving |
| CanText.HexRoundTrip | fs/apps/socketcan-2011.02.02/src/lib.c:62-74 | nibble by nibble, hexadecimal text is read back as the number |
| CanText.DataRoundTrip | fs/apps/socketcan-2011.02.02/src/lib.c:143-160 | printed data bytes are read back, with and without separators |
| CanText.IdRoundTrip | fs/apps/socketcan-2011.02.02/src/lib.c:117-136 | an identifier is read back if and only if its text shows it completely |
| CanText.FrameRoundTrip | fs/apps/socketcan-2011.02.02/src/lib.c:103-206 | parse_canframe(sprint_canframe(f)) is f if and only if f is canonical, for both separators |
| CanText.FrameDotsOptional | fs/apps/socketcan-2011.02.02/src/lib.c:143-149 | a separator in front of any data byte never changes the result |
| CanText.CaseDoesNotMatter | fs/apps/socketcan-2011.02.02/src/lib.c:103-165 | small letters are taken for capital ones, in digits and for R |
| CanText.AcceptedFrames | fs/apps/socketcan-2011.02.02/src/lib.c:103-165 | accepted are exactly three or eight digits, a # and an R or data that can be read |
| CanText.DataTail | fs/apps/socketcan-2011.02.02/src/lib.c:143-160 | what stands behind printed bytes decides about the rest as if it stood alone, in the room that is left |
| CanText.NoByte | fs/apps/socketcan-2011.02.02/src/lib.c:143-160 | a character that is no digit, or a single digit, in the place of a byte is an error, and without room nothing is looked at |
| CanText.PrintDataAt | fs/apps/socketcan-2011.02.02/src/lib.c:195-205 | byte by byte: two upper-case digits at their place, with dots exactly between bytes |
| CanText.ParseCanFrame | fs/apps/socketcan-2011.02.02/src/lib.c:103-165 | the index loops compute the specified parse, errors included |
| CanText.SprintCanFrame | fs/apps/socketcan-2011.02.02/src/lib.c:178-206 | the loop prints the specified text, which reads back exactly for canonical frames |
| Packetizer.UnitsRebuild | myapps/gst-rrparser/src/src/gstrrparser.c:453-480 | the scanned units behind start codes are the buffer again |
| Packetizer.UnitsSeparable | myapps/gst-rrparser/src/src/gstrrparser.c:453-480 | no scanned unit contains a start code, but for one with nothing behind it |
| Packetizer.UnitsOfAnnexB | myapps/gst-rrparser/src/src/gstrrparser.c:453-480 | scanning units that were put behind start codes gives the same units, so they are the only ones |
| Packetizer.AfterParameterSetsIsSuffix | myapps/gst-rrparser/src/src/gstrrparser.c:460-463 | what is kept is the suffix after the last parameter set |
| Packetizer.KeptExactly | myapps/gst-rrparser/src/src/gstrrparser.c:453-463 | in bytes: the kept units are a suffix, before which a unit begins with the byte of a parameter set, and in which none but the last does |
| Packetizer.BigEndianDigits | myapps/gst-rrparser/src/src/gstrrparser.c:464-471 | the length is written with its most significant byte first |
| Packetizer.AvcRoundTrip | myapps/gst-rrparser/src/src/gstrrparser.c:464-472 | the length-prefixed form reads back as exactly the units |
| Packetizer.WriteLength | myapps/gst-rrparser/src/src/gstrrparser.c:466-471 | four bytes before mark become the big-endian length, nothing else changes |
| Packetizer.ToPacketized | myapps/gst-rrparser/src/src/gstrrparser.c:443-494 | in place: the buffer holds the kept units behind their lengths, payload unchanged, behind whatever preceded the first start code unless a parameter set cut it off |
| Packetizer.PacketizedReads | myapps/gst-rrparser/src/src/gstrrparser.c:443-494 | reading the result gives the kept units, if nothing precedes them |
| Packetizer.PacketizedFromStartCode | myapps/gst-rrparser/src/src/gstrrparser.c:443-494 | as for every buffer that begins with a start code and is longer than it |

## Left out

- Allocation: `malloc` always succeeds and returns a node not in use; `expr_free` and `free` are not modelled, discarded nodes stay behind.
- trans_count in `__expr_eliminate_eq`: not modelled; `expr_eq` restores it and the other caller never reads it.
- DupsHeap.JoinAt: reads a term of at most two nodes into a value and applies the join table to that; the branches of the table are not replayed pointer by pointer.
- E_LIST, E_RANGE and E_NONE expressions, and `expr_trans_compare` with m: no caller uses them as conditions.
- menu_finalize in Menu and MenuTree is without choice groups, warnings, `sym_check_prop` and the reverse dependency it adds to a choice; it works on conditions as values, which ExprHeap to DupsHeap refine.
- SymbolTable: no choices (they are in Choice), SYMBOL_CHANGED and menu flags, and `modules_val` does not change during a run; `strtol` and `sprintf` are parameters.
- SymbolTable.Table.SetTristateValue: the symbol's own entry must be VALID, as after the `sym_calc_value` with which every caller begins.
- Choice: a member without a user value has def.tri n, as `conf_read_simple` leaves it; SYMBOL_WRITE and SYMBOL_CHANGED of the members; several prompts or defaults of a member; the symbols outside the group are given by a valuation that changes only between calls.
- CheckDeps: choice groups and the text of the message.
- Symbol lookup is by record: the hash table, string symbols without a type and `sym_lookup` on a miss are not modelled; in PrintParse it is a parameter.
- PrintParse: the scanner, unnamed choices (printed as "<choice>") and the rest of the grammar; only the states and rules of the expression grammar.
- ConfFile: values from other files than the user's, symbols of type S_OTHER, comment headers, file handling and warnings; NUL characters in a file, and the stale bytes that `memcmp` compares when a file ends in a lone # without a newline.
- ConfWalk: entries without a symbol print only comments and are skipped; there are no choice symbols; the flags the walk clears are a set beside the cache, which no evaluation sets again because what was printed stays VALID.
- CanEcho: sockets, delays, signals and verbose output; `loops` is unbounded.
- CanText: the frame left half filled by a failed parse, and reading past the terminating NUL (treated as more NULs); the long format.
- Packetizer: buffers of 2 GiB and more, `codec_data`, and splitting the stream into access units.
- User interfaces, `conf_split_config`, autoconf output, other CAN tools and the rest of the repository.
