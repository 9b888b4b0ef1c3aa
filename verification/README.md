# Kconfig engine, verified

Dafny models of the Kconfig engine in `buildroot/support/kconfig` and of its Python counterpart
`kconfiglib.py`, together with two small programs of the same tree: the sparse file copier of
`addons/create_inode.c` and the SoCFPGA image builder `mkpimage`. `dafny verify dfyconfig.toml`
checks everything.

The parts build on each other:

- **Expressions** (`Expr`, `Equality`, `Normalisation`, `Joining`, `Slots`, `Duplicates`, `Irredundance`, `Submenu`):
  tristate expressions with n < m < y, and every rewrite of `expr.c` with the domain on which it keeps the meaning and
  with what its result no longer holds. A *well-typed* valuation has no boolean at m and, with modules off, no
  tristate at m; a *two-valued* one has no m in the expression at all. The aliased `struct expr **` arguments of the
  duplicate passes are modelled as paths (slots) into one tree.
- **Resolver** (`Semantics`, `ValueLaws`, `Resolver`, `Defconfig`, `CycleCheck`, `SaveLoad`): symbol values as the
  unique solution of their defining equations, laws that say outright what the values are, the memoising evaluator
  proved against the equations, assignments, the minimal configuration file (enough, and nothing in it redundant) and
  the search for recursive dependencies, whose clean result supplies the order that the definitions need. It also
  discharges the well-typedness the expression rewrites assume.
- **Menus** (`Forest`, `MenuConditions`, `MenuMoves`, `MenuSteps`, `MenuPlacement`, `MenuTree`): entries linked by
  next, list and parent fields. A ghost forest says what the links encode; every write to a parent field is a recorded
  move with its reason; conditions are handed down the forest as it was written. `menu_finalize` and the walk of
  `conf_write` are proved against these, and the theorems about the finished menu follow: nothing is below a symbol
  without reason, and what belongs below one is.
- **kconfiglib** (`KExpr`, `KSemantics`, `KDependents`, `KValueLaws`, `KDepSets`, `KCache`, `KAssign`, `KParser`,
  `KGrammar`): cached values, choices and invalidation, with laws for what `get_value` returns; the expression parser,
  proved to decide its grammar, and the printer.
- **Strings and images** (`Escape`, `Bytes`, `CrcTable`, `Crc`, `Pimage`, `SparseCopy`).

Where the code does not do what it is for, the model follows the code; the failing case is a lemma and the exact or
largest good domain is the theorem beside it:

- A minimal configuration loses the value of a tristate that is offered and selected at m, set to m, and has default y
  (`Defconfig.RoundTrip`, `Defconfig.TristateCounterexample`).
- `sym_set_tristate_value` accepts y for a symbol that is y by default while its prompt allows only m. The value becomes
  m, and the cache keeps saying y (`Semantics.AcceptedAssignment`, `Resolver.SymbolTable.SetTristateValue`).
- The contradiction rule of `expr_eliminate_dups2`, `expr_trans_compare` under negation and `expr_trans_bool` outside
  negation normal form are wrong for some symbols at m (`Duplicates.ContradictsExact`,
  `Submenu.TransCompareNeedsTwoValued`, `Normalisation.TransBoolNeedsNormalised`).
- `unset_user_value` on MODULES does not drop all caches as `set_user_value` does, and can leave a wrong value cached
  (`KCache.UnsetModulesStale`).
- `try_lseek_copy` rounds offsets with masks computed from `fs->blocksize`, an unsigned int in libext2fs, so that
  everything above 32 bits is cut off. `SparseCopy.LseekExact` and `SparseCopy.DenseFile` say exactly when the copy is
  right all the same, `SparseCopy.LastBlockLost` and `SparseCopy.HighDataLost` what is lost.

Files are sequences of lines or bytes, and answers of the system (reads, seeks, extent lists, write counts) are
arbitrary within their contracts: `:= *` in `SparseCopy` stands for an answer the system chooses.

## Model

| member | source | states |
|---|---|---|
| Expr.EliminateYnMeaning | buildroot/support/kconfig/expr.c:231-315 | expr_eliminate_yn keeps the three-valued meaning under every valuation |
| Expr.TwoValuedEval | buildroot/support/kconfig/expr.c:938-977 | an expression none of whose symbols is m does not evaluate to m |
| Equality.CancelCommonFactor | buildroot/support/kconfig/expr.c:130-162 | whatever __expr_eliminate_eq cancels is a common factor: both expressions are that factor combined with what is left of them, under every valuation |
| Equality.ExprEqSound | buildroot/support/kconfig/expr.c:186-229 | expr_eq answers true only for expressions with the same value under every valuation (proved together with CancelCommonFactor) |
| Equality.CancelCommonExact | buildroot/support/kconfig/expr.c:130-162 | on operands free of y and n the greedy first-match cancellation computes the two multiset differences of the operands |
| Equality.ExprEqDecidesAc | buildroot/support/kconfig/expr.c:186-229 | on expressions without y and n constants expr_eq is true exactly for pairs derivable from each other by associativity and commutativity of the two operators |
| Equality.ExprEqEquivalence | buildroot/support/kconfig/expr.c:186-229 | there expr_eq is reflexive, symmetric and transitive |
| Normalisation.TransformMeaning | buildroot/support/kconfig/expr.c:636-771 | expr_transform keeps the three-valued meaning under every well-typed valuation |
| Normalisation.TransformNormalises | buildroot/support/kconfig/expr.c:636-771 | its result is in negation normal form: NOT stands only before a symbol other than y, m and n, and no boolean is compared with one of these |
| Normalisation.TransformIdempotent | buildroot/support/kconfig/expr.c:636-771 | a second expr_transform changes nothing |
| Normalisation.Transform | buildroot/support/kconfig/expr.c:636-771 | it terminates because no rewrite raises a weight in which negation doubles what is below it |
| Normalisation.TransBoolKeepsNonNo | buildroot/support/kconfig/expr.c:317-341 | expr_trans_bool on negation normal form keeps where a condition is n, under every well-typed valuation |
| Normalisation.TransBoolKeepsVisibility | buildroot/support/kconfig/symbol.c:194-205 | so the visibility of a non-tristate symbol, after m is raised to y, is the same with the rewritten prompt conditions |
| Normalisation.TransBoolNeedsNormalised | buildroot/support/kconfig/expr.c:317-341 | outside negation normal form the rewrite is wrong: !(s!=n) with s = m goes from n to m |
| Normalisation.TransBoolKeeps | buildroot/support/kconfig/expr.c:317-341 | expr_trans_bool keeps negation normal form, conditions over boolean and tristate symbols, and freedom from m, so its result can be handed down |
| Normalisation.TransBoolComplete | buildroot/support/kconfig/expr.c:317-341 | after expr_trans_bool no FOO!=n is left for a tristate FOO, and an expression without any is unchanged |
| Joining.JoinMeaning | buildroot/support/kconfig/expr.c:346-502 | every rule of expr_join_or and expr_join_and is exact in three values under every well-typed valuation |
| Irredundance.JoinExact | buildroot/support/kconfig/expr.c:346-502 | the rules fire exactly on equal operands and on the pairs listed there: s with !s for a boolean, s=a with s=b, s with s=y, s!=n or s!=m, s=a with s!=b, s!=a with s!=b |
| Slots.TwoSlotsValue | buildroot/support/kconfig/expr.c:504-554 | writing two operand slots of one tree (the aliased struct expr ** of expr_eliminate_dups1) keeps the value of the tree if the two new operands combine to what the old ones did |
| Slots.EliminateYnShrinks | buildroot/support/kconfig/expr.c:612-634 | eliminating y and n from a tree that has such an operand leaves fewer nodes |
| Slots.EliminateYnComplete | buildroot/support/kconfig/expr.c:231-315 | expr_eliminate_yn leaves no y or n as an operand |
| Duplicates.JoinPass | buildroot/support/kconfig/expr.c:504-554 | expr_eliminate_dups1 over one tree: it keeps the group, changes nothing unless it counts, and if it counts leaves fewer nodes or a y/n operand |
| Duplicates.JoinPassMeaning | buildroot/support/kconfig/expr.c:504-554 | this phase is exact in three values under every well-typed valuation |
| Duplicates.ExtractEqFactor | buildroot/support/kconfig/expr.c:826-875 | expr_extract_eq: the extracted common part combined with what is left of each expression is that expression, under every valuation |
| Duplicates.ExtractCommonCovers | buildroot/support/kconfig/expr.c:826-875 | if only the unit is left of the first expression, the second implies it (for a conjunction) or is implied by it (for a disjunction) |
| Duplicates.ContradictPass | buildroot/support/kconfig/expr.c:556-610 | expr_eliminate_dups2 over one tree: it leaves strictly fewer nodes whenever it counts, and changes nothing otherwise |
| Duplicates.ContradictPassMeaning | buildroot/support/kconfig/expr.c:556-610 | this phase is exact where no symbol is m |
| Duplicates.ContradictsExact | buildroot/support/kconfig/expr.c:570-606 | in three values its rule is exact if and only if the two sides are not both m |
| Duplicates.ContradictsNeedsTwoValued | buildroot/support/kconfig/expr.c:570-606 | the case in which it is not: (s or t) and (not s and not t) with s and t at m becomes n although its value is m |
| Duplicates.ExprEliminateDups | buildroot/support/kconfig/expr.c:612-634 | the loop driven by trans_count ends, at a tree on which no pass fires any more, and computes EliminateDups; what that tree no longer holds is Irredundance.EliminateDupsIrredundant and Irredundance.EliminateDupsUncontradicted |
| Duplicates.DupsPass | buildroot/support/kconfig/expr.c:612-634 | a turn that fires, followed by expr_eliminate_yn, leaves strictly fewer nodes |
| Duplicates.EliminateDupsMeaning | buildroot/support/kconfig/expr.c:612-634 | the optimised expression has the value of the original wherever no symbol in it is m, and stays so |
| Duplicates.EliminateDupsKeeps | buildroot/support/kconfig/expr.c:612-634 | it keeps negation normal form, freedom from m and conditions over boolean and tristate symbols |
| Duplicates.EliminateDupsNormalised | buildroot/support/kconfig/expr.c:612-634 | it keeps negation normal form, as expr_trans_bool requires afterwards |
| Irredundance.EliminateDupsIrredundant | buildroot/support/kconfig/expr.c:504-634 | the result of expr_eliminate_dups holds no duplicate: no two different operand slots of one group are equal by expr_eq or form a pair that a join rule merges, in the root group and in every nested one |
| Irredundance.JoinPassQuiet | buildroot/support/kconfig/expr.c:504-554 | a run of expr_eliminate_dups1 that counts nothing has met every pair of operands, and every nested group, without a rule that applies |
| Irredundance.ExtractCommonExact | buildroot/support/kconfig/expr.c:826-875 | without y and n, extracting leaves nothing of the first group exactly when its operands are, as a multiset, among those of the second |
| Irredundance.ContradictsOperands | buildroot/support/kconfig/expr.c:570-606 | so an operand is found contradicted exactly when every operand of its negation is one of the group |
| Irredundance.EliminateDupsUncontradicted | buildroot/support/kconfig/expr.c:556-634 | the result of optimising a normalised expression without y and n is y, n, or free of them and of contradicted operands, in every nested group |
| Submenu.TransCompareMeaning | buildroot/support/kconfig/expr.c:877-936 | expr_trans_compare with y or n says whether the condition has, or has not, that value, where no condition is m |
| Submenu.TransCompareNeedsTwoValued | buildroot/support/kconfig/expr.c:905-909 | with m the flip under negation is wrong: !s != n becomes s = n |
| Submenu.DependsSymbolForces | buildroot/support/kconfig/expr.c:797-824 | a condition on which expr_depends_symbol succeeds holds only where the symbol is not n |
| Submenu.EliminateEqImplies | buildroot/support/kconfig/expr.c:164-184 | if expr_eliminate_eq reduces the second expression to y, the first is at most the second under every valuation |
| Submenu.SubmenuSound | buildroot/support/kconfig/menu.c:338-368 | an entry that passes the submenu test has a condition that, where it holds, forces the parent symbol to be set or the parent's prompt condition to hold |
| Submenu.ContainsExact | buildroot/support/kconfig/expr.c:773-795 | expr_contains_symbol holds exactly for the symbols that occur in the expression |
| Submenu.DependsExact | buildroot/support/kconfig/expr.c:797-824 | expr_depends_symbol holds exactly when some conjunct of the condition is the symbol, symbol=y, symbol=m or symbol!=n |
| Submenu.EliminateEqExact | buildroot/support/kconfig/expr.c:164-184 | between conjunctions without y and n, expr_eliminate_eq leaves y of the second exactly when all its conjuncts are, as a multiset, among those of the first |
| Submenu.JoinsExact | buildroot/support/kconfig/menu.c:344-357 | the submenu test passes exactly when the symbol occurs in the condition and a conjunct says that it is set, or cancelling leaves y of the prompt's condition; a conjunct that says so is always enough |
| Semantics.ValueEquation | buildroot/support/kconfig/symbol.c:293-440 | the recursive definition along the dependency order satisfies the equation of sym_calc_value at every symbol |
| Semantics.SolutionUnique | buildroot/support/kconfig/symbol.c:293-440 | without dependency cycles these equations have exactly one solution |
| Semantics.ValuesWellTyped | buildroot/support/kconfig/symbol.c:293-440 | booleans are never m and tristates are never m with modules off, which is what the expression rewrites assume |
| Semantics.ValueAboveReverseDep | buildroot/support/kconfig/symbol.c:339-384 | no boolean or tristate value is below the reverse dependency that select builds |
| ValueLaws.EvalLaw | buildroot/support/kconfig/expr.c:938-977 | expr_calc_value: least of a conjunction, greatest of a disjunction, 2 - x of a negation, equality of texts of a comparison |
| ValueLaws.VisibilityLaw | buildroot/support/kconfig/symbol.c:189-205 | the visibility is the greatest of the prompt conditions, with m counting as y for anything but a tristate with modules on |
| ValueLaws.DependencyLaw | buildroot/support/kconfig/symbol.c:208-226 | the direct dependency is its condition with m as y, and y without one; the reverse dependency is what is selected, with m as y where the symbol acts boolean, and n without a select |
| ValueLaws.UserLaw | buildroot/support/kconfig/symbol.c:346-384 | the value of a visible boolean or tristate with a user value is the greatest of what is selected and the least of user value and visibility, m raised where it acts boolean |
| ValueLaws.DefaultLaw | buildroot/support/kconfig/symbol.c:357-384 | with no user value in effect it is the greatest of what is selected and the least of value and condition of the first default whose condition is not n |
| ValueLaws.SelectLaw | buildroot/support/kconfig/symbol.c:357-384 | without such a default it is what is selected |
| ValueLaws.TextUserLaw | buildroot/support/kconfig/symbol.c:385-394 | a visible string, int or hex symbol has the user's text |
| ValueLaws.TextDefaultLaw | buildroot/support/kconfig/symbol.c:395-403 | otherwise it has the text of the symbol its first active default names |
| ValueLaws.TextEmptyLaw | buildroot/support/kconfig/symbol.c:385-404 | otherwise it is empty |
| ValueLaws.WrittenLaw | buildroot/support/kconfig/symbol.c:331-404 | a symbol is marked for writing exactly if a prompt shows, it is selected, or a default applies |
| ValueLaws.AcceptanceLaw | buildroot/support/kconfig/symbol.c:474-491 | sym_tristate_within_range accepts exactly the values from what is selected up to the visibility, if that is a proper range, except m where the symbol acts boolean |
| Semantics.AcceptedAssignment | buildroot/support/kconfig/symbol.c:474-527 | an assignment that sym_set_tristate_value accepts takes effect if and only if it is not truncated (y given to a symbol that already is y by default while its prompt allows m only); one allowed by sym_tristate_within_range always does; symbols that do not depend on the assigned one keep their values |
| Semantics.UnaffectedByUser | buildroot/support/kconfig/symbol.c:293-440 | a symbol that does not depend on another keeps its value whatever the user gives the other |
| Resolver.SymbolTable.ExprCalcValue | buildroot/support/kconfig/expr.c:938-977 | expr_calc_value, which resolves symbols on the way, returns the value under the uncached valuation |
| Resolver.SymbolTable.CalcVisibility | buildroot/support/kconfig/symbol.c:189-227 | sym_calc_visibility stores the visibility, direct dependency and reverse dependency of the uncached definition |
| Resolver.SymbolTable.DefaultProp | buildroot/support/kconfig/symbol.c:115-125 | sym_get_default_prop finds the first default whose condition is not n |
| Resolver.SymbolTable.CalcValue | buildroot/support/kconfig/symbol.c:293-440 | sym_calc_value: the symbol becomes valid, symbols valid before keep their fields, and every valid symbol holds its uncached value and the right SYMBOL_WRITE; what these are is said by the laws in ValueLaws |
| Resolver.SymbolTable.Memoised | buildroot/support/kconfig/symbol.c:293-440 | every symbol marked SYMBOL_VALID holds the value of the unmemoised recursive definition |
| Resolver.SymbolTable.ClearAllValid | buildroot/support/kconfig/symbol.c:442-452 | sym_clear_all_valid re-establishes a correct cache for the present user values |
| Resolver.SymbolTable.SetTristateValue | buildroot/support/kconfig/symbol.c:493-527 | sym_set_tristate_value: accepted exactly in range or when nothing changes, a refusal changes nothing, and afterwards the cache is right if and only if the assignment is not truncated |
| Defconfig.StringDefault | buildroot/support/kconfig/symbol.c:693-758 | sym_get_string_default, on the caching resolver, returns the default text by which the writer decides what to save, and keeps the cache right |
| Defconfig.SavedSuffices | buildroot/support/kconfig/confdata.c:682-712 | for one symbol: saving or omitting its value as conf_write_defconfig does reproduces the value if and only if the symbol is not stuck |
| Defconfig.RoundTrip | buildroot/support/kconfig/confdata.c:661-732 | minimal-configuration round trip: resolving with only the saved values gives every symbol its value if and only if no symbol is stuck (a user value in effect, not saved because select leaves nothing to change, that the default would replace) |
| Defconfig.BooleanRoundTrip | buildroot/support/kconfig/confdata.c:661-732 | in every acyclic configuration of boolean symbols nothing is stuck, so the round trip holds |
| Defconfig.TristateCounterexample | buildroot/support/kconfig/confdata.c:661-732 | it fails for a tristate offered and selected at m, set to m, with default y: it comes back as y |
| Defconfig.SavedExactly | buildroot/support/kconfig/confdata.c:682-712 | with nothing stuck below it, a symbol is in the minimal configuration if and only if the user can change it and, resolved with the minimal configuration without it, it has another value |
| Defconfig.BooleanMinimal | buildroot/support/kconfig/confdata.c:656-732 | so the minimal configuration of boolean symbols loses the value of any symbol it is left without |
| Defconfig.LinesNeeded | buildroot/support/kconfig/confdata.c:656-732 | no line is redundant: without any one of the written lines the value of its symbol changes, unless something is stuck below |
| Defconfig.ReadBackMinimal | buildroot/support/kconfig/confdata.c:661-732 | reading the written lines gives exactly the saved user values |
| Defconfig.WriteDefconfig | buildroot/support/kconfig/confdata.c:661-732 | conf_write_defconfig over the menu entries, on the caching resolver, writes the lines of all saved symbols in order, keeps the cache right, and none of its lines is redundant: read back without it, and with nothing stuck below its symbol, that symbol gets another value |
| SaveLoad.SaveAndReload | buildroot/support/kconfig/confdata.c:661-732 | the minimal configuration written along the menu walk, read back into a new table and resolved: every entry shows the value its symbol had if and only if no symbol is stuck |
| CycleCheck.Checker.CheckAll | buildroot/support/kconfig/symbol.c:1255-1287 | running sym_check_deps on every symbol reports a recursive dependency if and only if the explored relation has a cycle; afterwards no symbol keeps SYMBOL_CHECK and the stack is empty; after a clean check every configuration within the explored relation has the ranking that defines its values |
| CycleCheck.OrderRanks | buildroot/support/kconfig/symbol.c:1255-1287 | the order in which the searches ended is such a ranking |
| CycleCheck.ExploresUses | buildroot/support/kconfig/symbol.c:1184-1216 | for the graph of any configuration the check explores exactly what values read, but for symbols that only a direct dependency mentions |
| CycleCheck.GraphWithin | buildroot/support/kconfig/symbol.c:1184-1216 | so that graph is closed, and covers its configuration if and only if the symbols of direct dependencies are also mentioned by a property or select |
| CycleCheck.Checker.CheckDeps | buildroot/support/kconfig/symbol.c:1255-1287 | one call keeps the search invariant and, if nothing was reported, has checked everything below the symbol |
| CycleCheck.Checker.CheckSymDeps | buildroot/support/kconfig/symbol.c:1184-1216 | reverse dependency, property conditions and default values are all explored |
| CycleCheck.Checker.CheckExpr | buildroot/support/kconfig/symbol.c:1153-1181 | every symbol of an expression is explored, or a cycle is reported |
| CycleCheck.Checker.Push | buildroot/support/kconfig/symbol.c:1059-1067 | dep_stack_insert: the stack is the path of symbols being checked |
| CycleCheck.Checker.Pop | buildroot/support/kconfig/symbol.c:1069-1074 | dep_stack_remove undoes it |
| CycleCheck.Checker.PrintRecursive | buildroot/support/kconfig/symbol.c:1081-1151 | what is reported is a cycle of the relation |
| CycleCheck.NoCycle | buildroot/support/kconfig/symbol.c:1255-1287 | an order in which every successor comes earlier excludes cycles |
| MenuConditions.BaseDepMeaning | buildroot/support/kconfig/menu.c:311-315 | in a valuation without m the condition handed down to an entry is the conjunction of its own and its parent's, and is fit to be handed down again |
| MenuConditions.PropDepMeaning | buildroot/support/kconfig/menu.c:320-328 | a property is visible exactly where the entry's condition and its own both hold, also after expr_trans_bool, and stays fit to be handed down |
| MenuConditions.ReceivedForm | buildroot/support/kconfig/menu.c:311-328 | the conditions of an entry and of its properties hold no duplicates, and below a symbol that is not tristate no FOO!=n |
| MenuConditions.ReceivedUnequal | buildroot/support/kconfig/menu.c:325-328 | with nothing handed down, FOO!=n stays for a tristate symbol or a plain menu and becomes FOO for another symbol |
| MenuConditions.ConditionMeaning | buildroot/support/kconfig/menu.c:305-337 | the condition an entry ends up with holds exactly where the root's holds and every entry on the way down to it has its own conditions hold |
| MenuMoves.LastMoveParent | buildroot/support/kconfig/menu.c:338-422 | replaying the recorded writes to parent fields gives the parent of the last record, or the old one if there is none |
| MenuMoves.LastMoveOk | buildroot/support/kconfig/menu.c:338-422 | that record is a passed submenu test between siblings, or a lift out of an entry without prompt to the parent of that entry |
| MenuTree.Menus.Propagate | buildroot/support/kconfig/menu.c:305-335 | the propagation loop gives every entry below, and each of its properties, the parent's condition exactly once, and touches no other entry |
| MenuTree.Menus.Finalize | buildroot/support/kconfig/menu.c:279-422 | menu_finalize: the same entries in the same preorder, parent fields at the node whose list holds the entry; parents change by justified moves only (submenu test on the final conditions, or lift out of a promptless entry); a leaf symbol absorbs following siblings exactly up to the first that fails the test and no other entry absorbs any; conditions are handed down the tree as it was; nothing is left below an entry without prompt |
| MenuTree.Menus.Absorb | buildroot/support/kconfig/menu.c:338-368 | automatic submenus: the siblings taken are the longest run that passes the test, in order, each with its move; what follows is untouched; an entry directly after a prompted leaf symbol that passes the symbol's test has it as its parent (when the test passes is Submenu.JoinsExact) |
| MenuTree.Menus.Splice | buildroot/support/kconfig/menu.c:364-368 | the three link updates that turn following siblings into children |
| MenuTree.Menus.FlattenList | buildroot/support/kconfig/menu.c:372-422 | exactly the entries below entries without prompt become following siblings of those, in order; the others stay below theirs |
| MenuTree.Menus.Lift | buildroot/support/kconfig/menu.c:412-421 | the link updates for one such entry |
| MenuTree.Menus.Reparent | buildroot/support/kconfig/menu.c:413-417 | the loop over the parent fields of the lifted entries, each write recorded |
| MenuTree.Menus.Walk | buildroot/support/kconfig/confdata.c:786-819 | the list/next/parent loop of conf_write ends and visits the entries in preorder |
| MenuTree.Menus.FinalizeAndWalk | buildroot/support/kconfig/confdata.c:786-819 | after menu_finalize of the whole menu the walk visits exactly the entries there were, in their order; and every entry directly after a leaf symbol with a prompt, a conjunct of whose condition says that the symbol is set, is below that symbol |
| MenuPlacement.DependantsPlaced | buildroot/support/kconfig/menu.c:338-368 | completeness of submenus in the finished menu: if the entry after a prompted leaf symbol has symbol, symbol=y, symbol=m or symbol!=n as a conjunct of its condition, its parent is the symbol |
| MenuPlacement.GatherStep | buildroot/support/kconfig/menu.c:343-363 | absorbing one more sibling, itself finalised with whatever it absorbs, keeps every pair of neighbours so placed |
| MenuPlacement.ListSettled | buildroot/support/kconfig/menu.c:336-337 | and so does finalising one more entry of a list |
| MenuPlacement.FlattenSettled | buildroot/support/kconfig/menu.c:412-421 | lifting entries out of entries without prompt undoes none of it |
| MenuTree.FinishedSubmenus | buildroot/support/kconfig/menu.c:338-368 | in the finished menu an entry has its old parent, or was lifted there out of a promptless entry, or joined a symbol; then in every valuation without m its condition holding forces the symbol to be set or the symbol's prompt condition to hold |
| MenuTree.FinishedConditions | buildroot/support/kconfig/menu.c:305-337 | in the finished menu the condition of an entry holds exactly where the root's and all conditions on its way down in the written menu hold |
| Forest.PassHead | buildroot/support/kconfig/menu.c:336-337 | a sibling list whose tail has been rewritten still encodes one tree with the same preorder, no entry lost or twice |
| KSemantics.ValueAgree | buildroot/support/scripts/kconfiglib.py:1830-1982 | Symbol.get_value is determined by the user value, the user's part in its choice and the symbols the dependency sets record |
| KDependents.FreshSolves | buildroot/support/scripts/kconfiglib.py:1830-1982 | evaluation from empty caches satisfies the equation of every symbol, choices included |
| KDependents.SolutionUnique | buildroot/support/scripts/kconfiglib.py:1830-1982 | any two evaluations with the same user values agree |
| KDependents.Unaffected | buildroot/support/scripts/kconfiglib.py:1508-1549 | a change of user values inside a set closed under direct use and choices changes no value or visibility outside it |
| KValueLaws.EvalLaw | buildroot/support/scripts/kconfiglib.py:1425-1477 | _eval_expr_2 of symbols, strings, comparisons and negations |
| KValueLaws.ListLaw | buildroot/support/scripts/kconfiglib.py:1425-1477 | a conjunction is its least operand and y without any, a disjunction its greatest and n without any |
| KValueLaws.VisLaw | buildroot/support/scripts/kconfiglib.py:3175-3194 | the visibility of a symbol is the greatest of its prompt conditions, for a symbol of a choice no more than that of the choice; m is y for anything but a tristate |
| KValueLaws.ChoiceVisLaw | buildroot/support/scripts/kconfiglib.py:3175-3194 | likewise for a choice |
| KValueLaws.UserLaw | buildroot/support/scripts/kconfiglib.py:1866-1893 | a visible bool or tristate symbol with a user value has the greatest of what is selected and the least of user value and visibility |
| KValueLaws.DefaultLaw | buildroot/support/scripts/kconfiglib.py:1877-1893 | with no user value in effect it has the greatest of what is selected and the least of value and condition of the first default whose condition is not n |
| KValueLaws.SelectLaw | buildroot/support/scripts/kconfiglib.py:1877-1893 | without such a default it has what is selected |
| KValueLaws.StringLaw | buildroot/support/scripts/kconfiglib.py:1894-1909 | a string symbol: the user's text if visible, else the text of the first active default, else nothing |
| KValueLaws.NumberUserLaw | buildroot/support/scripts/kconfiglib.py:1911-1945 | an int or hex symbol shows the user's text if visible and a number within the first range whose condition is not n, if there is one |
| KValueLaws.NumberDefaultLaw | buildroot/support/scripts/kconfiglib.py:1947-1973 | otherwise the first default that applies and is a number, moved into the range |
| KValueLaws.NumberNoneLaw | buildroot/support/scripts/kconfiglib.py:1974-1979 | without such a default the low end of the range if positive, else the text of the last default that applies |
| KValueLaws.ModeLaw | buildroot/support/scripts/kconfiglib.py:2849-2860 | Choice.get_mode is the least of the mode asked for and the visibility; a boolean choice has no m |
| KValueLaws.PickLaw | buildroot/support/scripts/kconfiglib.py:2720-2739 | in mode y the symbol the user picked is y and no other symbol of the choice, if it is fully visible |
| KValueLaws.PreferredLaw | buildroot/support/scripts/kconfiglib.py:2741-2757 | otherwise, in a choice that is not optional, the symbol of the first active default, or else the first symbol, is y and no other, if it is visible |
| KValueLaws.FirstVisibleLaw | buildroot/support/scripts/kconfiglib.py:2755-2762 | and if that is not visible the first visible symbol is y and no other |
| KValueLaws.OtherModesLaw | buildroot/support/scripts/kconfiglib.py:1853-1864 | no symbol is y in any other case; in mode m exactly the visible symbols the user set to m or y are m |
| KDependents.AffectedClosed | buildroot/support/scripts/kconfiglib.py:2513-2541 | what _get_dependent collects is closed in this sense |
| KDepSets.DepSets.BuildDep | buildroot/support/scripts/kconfiglib.py:1508-1549 | _build_dep fills Symbol.dep with exactly the symbols that use a symbol in a prompt, default, select, range or through their choice |
| KCache.Configuration.GetValue | buildroot/support/scripts/kconfiglib.py:1830-1982 | get_value returns the value an evaluation from empty caches would return and keeps all caches coherent; what that value is, is said by the laws in KValueLaws |
| KCache.Configuration.GetVis | buildroot/support/scripts/kconfiglib.py:3175-3194 | _get_visibility of a symbol, cached |
| KCache.Configuration.GetSelection | buildroot/support/scripts/kconfiglib.py:2720-2739 | Choice.get_selection, cached |
| KCache.Configuration.GetDefaultSelection | buildroot/support/scripts/kconfiglib.py:2741-2762 | Choice.get_selection_from_defaults |
| KCache.Configuration.GetMode | buildroot/support/scripts/kconfiglib.py:2849-2860 | Choice.get_mode |
| KCache.Configuration.EvalExpr | buildroot/support/scripts/kconfiglib.py:1411-1423 | _eval_expr with its promotion of m |
| KCache.Configuration.EvalExpr2 | buildroot/support/scripts/kconfiglib.py:1425-1477 | _eval_expr_2 with its early exits |
| KCache.Configuration.GetDependent | buildroot/support/scripts/kconfiglib.py:2513-2531 | _get_dependent, memoised, returns the transitive dependents |
| KCache.Configuration.AddDependents | buildroot/support/scripts/kconfiglib.py:2533-2541 | _add_dependent_ignore_siblings adds the dependents reached through direct ones |
| KCache.Configuration.SetUserValue | buildroot/support/scripts/kconfiglib.py:1984-2016 | set_user_value changes the user values as asked or is ignored, and afterwards nothing cached differs from an evaluation from empty caches |
| KCache.Configuration.UnsetUserValue | buildroot/support/scripts/kconfiglib.py:2018-2023 | unset_user_value does the same, unless it is applied to MODULES and switches modules on or off |
| KCache.UnsetModulesStale | buildroot/support/scripts/kconfiglib.py:2018-2023 | in that case it leaves a wrong value cached: a symbol with default m is not invalidated although it becomes y |
| KAssign.TakenLaw | buildroot/support/scripts/kconfiglib.py:2416-2475 | which values set_user_value takes for each type, that it is ignored otherwise, and that no other symbol's user value changes |
| KAssign.PickedLaw | buildroot/support/scripts/kconfiglib.py:2465-2475 | setting a symbol of a choice to y picks it and asks for mode y, setting it to m drops the pick and asks for mode m, setting it to n leaves the choice alone |
| KAssign.AssignedValue | buildroot/support/scripts/kconfiglib.py:1984-2016 | a value between what is selected and the visibility takes effect: it is the symbol's value in the evaluation after the call |
| KAssign.SetThenGet | buildroot/support/scripts/kconfiglib.py:1984-2016 | get_value after set_user_value returns that value, on the cached configuration |
| KAssign.UnsetLaw | buildroot/support/scripts/kconfiglib.py:2477-2482 | unsetting takes the user's part away from the symbol and its choice and from nothing else |
| KAssign.SetThenUnset | buildroot/support/scripts/kconfiglib.py:2018-2023 | setting and then unsetting a symbol that had no user value leaves every value as it was |
| KCache.Run | buildroot/support/scripts/kconfiglib.py:1830-2023 | over every interleaving of get_value, set_user_value and unset_user_value in which unsetting MODULES does not switch modules, each read returns what an evaluation from empty caches with the user values of that moment returns |
| KCache.InvalidatedOk | buildroot/support/scripts/kconfiglib.py:2401-2414 | dropping the caches of the affected symbols is enough for every remaining cache entry to be right |
| KParser.Feed.Check | buildroot/support/scripts/kconfiglib.py:3131-3137 | _Feed.check consumes the token if it is next |
| KParser.Parser.ParseExpr | buildroot/support/scripts/kconfiglib.py:787-819 | _parse_expr follows the grammar function, with the same errors and the same position afterwards |
| KParser.Parser.ParseExpr2 | buildroot/support/scripts/kconfiglib.py:821-826 | the loop over the terms of a disjunction |
| KParser.Parser.ParseOrTerm | buildroot/support/scripts/kconfiglib.py:828-833 | the loop over the factors of a conjunction |
| KParser.Parser.ParseFactor | buildroot/support/scripts/kconfiglib.py:835-884 | parentheses, negation, comparisons and the rewriting of m; a comparison without a right side is passed over as in the source and makes the result unusable |
| KParser.ParsePrinted | buildroot/support/scripts/kconfiglib.py:3301-3354 | parsing the printed tokens consumes exactly them, whatever may follow an expression, and gives the regrouped expression |
| KParser.RoundTripMeaning | buildroot/support/scripts/kconfiglib.py:3301-3354 | for non-empty operand lists and no m that is rewritten, printing and parsing keeps the value in every state |
| KParser.RoundTripFlattens | buildroot/support/scripts/kconfiglib.py:3301-3354 | with at least two operands per list the result is the expression with nested equal operators flattened |
| KParser.SingletonKeepsNesting | buildroot/support/scripts/kconfiglib.py:3301-3326 | a list of one operand is dropped, and can leave && nested in && unflattened |
| KParser.ParsedRoundTrip | buildroot/support/scripts/kconfiglib.py:821-884 | everything usable the parser produces, from any tokens, can be printed and parsed again and keeps its value |
| KParser.ParsedMeaning | buildroot/support/scripts/kconfiglib.py:862-884 | whatever was printed, with m anywhere, the parsed expression has its value as written, a bare m counting as the lesser of m and MODULES |
| KGrammar.ParserExact | buildroot/support/scripts/kconfiglib.py:787-884 | the parser takes all tokens and yields a usable expression if and only if they are a sentence of the grammar, given by syntax trees of its own |
| KGrammar.SentenceValue | buildroot/support/scripts/kconfiglib.py:787-884 | a sentence, before anything that may follow an expression, is consumed whole and gets the value of its syntax tree: negation binds closest, then conjunction, then disjunction |
| KGrammar.Unambiguous | buildroot/support/scripts/kconfiglib.py:787-884 | syntax trees with the same tokens have the same value |
| Escape.EscapeString | buildroot/support/kconfig/symbol.c:915-956 | sym_escape_string_value writes the escaped string; the precomputed buffer length is exactly the result plus its terminator, and no write leaves the buffer |
| Escape.UnescapeInPlace | buildroot/support/kconfig/confdata.c:154-169 | the in-place loop succeeds exactly if there is an unescaped closing quote, and then leaves the unescaped text as the C string, touching nothing outside |
| Escape.UnescapeEscaped | buildroot/support/kconfig/confdata.c:154-169 | it inverts the escaping of every string, whatever follows the closing quote |
| Escape.PythonEscapesAlike | buildroot/support/scripts/kconfiglib.py:2500-2504 | kconfiglib's two replacements write the same text as the C code |
| Escape.ReadersAgree | buildroot/support/scripts/kconfiglib.py:304-312 | kconfiglib's two-pass replace and the C loop both give back every escaped string |
| Escape.ReadersDiffer | buildroot/support/scripts/kconfiglib.py:304-312 | on text no writer produces they differ: a backslash before an ordinary character is dropped in C and kept in Python |
| CrcTable.TableRight | buildroot/package/mkpimage/mkpimage.c:87-131 | entry i of the table is the remainder of i * x^32 modulo the generator 0x04C11DB7 |
| Crc.TableStepRight | buildroot/package/mkpimage/mkpimage.c:133-141 | one table step is eight steps of the bit-serial register |
| Crc.Crc32 | buildroot/package/mkpimage/mkpimage.c:133-141 | the table-driven loop equals the bit-at-a-time CRC for every buffer and start value |
| Crc.CrcIsRemainder | buildroot/package/mkpimage/mkpimage.c:133-141 | that CRC is the remainder of the polynomial division of start * x^n + message * x^32 |
| Crc.OneByteCaught | buildroot/package/mkpimage/mkpimage.c:133-141 | changing one byte of a message always changes its CRC |
| Pimage.AddHeader | buildroot/package/mkpimage/mkpimage.c:143-181 | a size that is no multiple of 4 is refused; otherwise the image carries a right header checksum and trailing CRC, and is bootable exactly if its length in words fits 16 bits; everything else is kept |
| Pimage.BuildImage | buildroot/package/mkpimage/mkpimage.c:195-270 | refused exactly outside the size limits; otherwise a bootable image, a multiple of 4, at most 60 KiB, holding the padded input |
| Pimage.DamageCaught | buildroot/package/mkpimage/mkpimage.c:143-181 | no bootable image stays bootable when one byte is changed, wherever it is |
| SparseCopy.Copier.WriteOut | addons/create_inode.c:429-440 | the loop of short writes stores the whole block on success, for any positive counts |
| SparseCopy.Copier.CopyRange | addons/create_inode.c:395-445 | copy_file_range2 on success has copied exactly what was read, for any block size and any positive write counts; with full reads that is the range up to the end of its last buffer; no block of zeros is started, blocks are aligned if the range is, and no right byte becomes wrong |
| SparseCopy.ExactFaithful | addons/create_inode.c:395-445 | the copy equals the source if and only if every offset that differed was read, so reads that stop early lose exactly what they skip |
| SparseCopy.Copier.CopySegment | addons/create_inode.c:467-470 | rounding one segment with 32-bit masks: exactly what the rounded range reaches is copied, and a segment that ends in the last block below 4 GiB is skipped with success |
| SparseCopy.Copier.TryLseekCopy | addons/create_inode.c:448-478 | for any honest answers of SEEK_DATA and SEEK_HOLE success means that exactly what was read has been copied, that the reported segments hold all data, and with full reads that all the rounded segments reach is copied; files that end a block below 4 GiB come out equal to the source |
| SparseCopy.LseekExact | addons/create_inode.c:448-478 | with full reads the result equals the source if and only if the rounded segments reach every byte that differed |
| SparseCopy.DenseFile | addons/create_inode.c:448-478 | for a file without holes: if and only if there are only zeros beyond what its one rounded segment reaches, which is everything up to a block below 4 GiB |
| SparseCopy.LastBlockLost | addons/create_inode.c:467-468 | a file reported as one segment that ends in the last block below 4 GiB, or just there, comes back from a successful run with nothing copied |
| SparseCopy.HighDataLost | addons/create_inode.c:467-468 | of one that ends beyond 4 GiB everything from the wrapped end on, but for the rest of a buffer, is lost |
| SparseCopy.Copier.TryFiemapCopy | addons/create_inode.c:482-538 | with full reads, success means the copy equals the source, for any extent lists that cover all non-zero bytes |
| SparseCopy.Copier.CopyFile | addons/create_inode.c:541-581 | the three methods in turn, each starting from what an unavailable one left behind, make the copy equal to the source |

## Left out

- Front ends (conf, mconf, nconf, gconf, qconf), translations, environment and file handling: user interface and I/O.
- Choices in the C code (choice values in `sym_calc_value`, `menu_finalize` and `sym_check_choice_deps`) and random
  configurations: kconfiglib's choices are modelled instead.
- Ranges of int and hex symbols in the C resolver, and number parsing; in kconfiglib parsing and printing of numbers
  are parameters.
- `modules_val` changes when the modules symbol is recalculated; here it is fixed for a configuration.
- `SYMBOL_AUTO`, `SYMBOL_CHANGED`, warnings and the menu flags; `select` statements building `rev_dep` and `dir_dep`
  in `menu_finalize`: a configuration comes with these expressions built.
- Conditions of symbols given in several places of the menu are not merged.
- Expression nodes are values: freeing, and sharing between expressions, are not modelled. `expr_eq` works on copies
  and restores `trans_count`, so it is a function here.
- Normalisation.TransBoolKeepsNonNo: stated for negation normal form, which is what `menu_finalize` passes.
- Submenu.TransCompareMeaning: not for a comparison with m, and not for string symbols used as conditions.
- Submenu.EliminateEqExact: for conjunctions, at least one of them with several operands; two single conditions are
  never cancelled by the source, and with a disjunction on either side only Submenu.EliminateEqImplies is stated.
- MenuPlacement.DependantsPlaced: for a symbol with a prompt; what a symbol without prompt absorbs is lifted out again
  by the last loop (MenuTree.Menus.FlattenList).
- KAssign.SetThenGet: for symbols outside choices; a symbol of a choice follows KAssign.PickedLaw and
  KValueLaws.PickLaw.
- `write_to_conf` and `defconfig` files in kconfiglib, and the collection of referenced symbols in its parser.
- Tokenising of lines: parser and printer meet at tokens.
- KCache.Configuration.UnsetUserValue: coherence is not claimed when it switches modules, since it does not hold.
- Pimage.AddHeader: for buffers of at least 0x50 bytes, so that the CRC does not overlap the header; `main` calls it
  with 84 or more. The host is little-endian. Reading and writing the files, and the options, are not modelled.
- SparseCopy.Copier.CopyFile: equality with the source needs reads that stop only at the end of the file (`full`),
  since the source does not repeat a read that stops early, and a file that ends a block below 4 GiB; what holds
  otherwise is stated by SparseCopy.ExactFaithful and SparseCopy.LseekExact.
- SparseCopy.Copier.TryLseekCopy: block sizes are powers of two, as in ext2; without any data region its status is not
  initialised, so it is arbitrary here.
- SparseCopy.Copier.TryFiemapCopy: with no extents in a reply the status is whatever errno holds, so it is arbitrary
  here.
- The ext2fs library, inodes, hard links and extended attributes.
- Other programs of the tree: makedevs, mkpasswd, the toolchain wrapper, mjpg-streamer, report scripts.
