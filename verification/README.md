# KiteSQL: a verified model

This project models the parts of KiteSQL, an embedded SQL engine, in which a mistake would change
the answer of a query or the state of a database, and proves what those parts promise. It is a set
of Dafny modules; `dafny verify dfyconfig.toml` checks all of them.

**Expressions and rows.** `Expressions` has the scalar expressions, three-valued evaluation with
failures, and the structural equality that ignores aliases and positions. An expression is a column
reference (column and row position) or a head with children. The evaluation of heads whose
arithmetic plays no part is a parameter. `InLists` has the IN loop, `Rewriting` the position
visitors and the splitting of conjunctions. An alias evaluates its first child; visitors also see
the other one, and the difference is kept.

**Expressions in the arena.** `ExpressionArena` has expressions as the engine stores them: nodes
that refer to one another by index and may be shared. A ghost tree, the unfolding of the graph below
a reference, gives a node its meaning. The comparing visitor is right on every acyclic graph. A
position visitor moves a column once for every path that leads to it, which gives the exact
condition under which it does what it does on values. `OutputBinding` has the walk that reallocates
matched subexpressions and rewrites the nodes above them.

**Plan rewrites.** `JoinSplitting` (ON clauses and split-scope predicates), `CorrelatedSubqueries`
(EXISTS), `QuantifiedSubqueries` (the mark apply of IN, ANY, ALL) and `BoundSubqueries` (the same as
the binder builds it, over a temporary table), `RowValues` (comparisons with row values),
`ViewSubqueries` (subqueries over views and computed derived tables),
`AggregateBinding` (aggregate output slots, the HAVING/ORDER BY check, the GROUP BY check), `WindowCalls`, `WindowGroups` and `WindowBinding`
(collecting, grouping and placing window functions) and `UsingColumns`. Each main result says that
the rewritten form gives the same answer for every expression, every row and every choice of the
uninterpreted operators.

**Run-time state machines.** `ResultIterators` (who ends the statement scope, commits and frees),
`ExecutorArena` (re-entrant execution with caught panics; in-place projection) and `CatalogCache`
(applying DDL after commit, loading, recycling column slots). They are classes with the source's
fields; results range over every run.

**Scopes, catalogs, codec.** `CteScoping` (the binding stack against lexical scoping), `CteTexts`
(lexical scoping against the text of the query: what is read, in which order, and which queries are
accepted), `TableCatalogs` and `DerivedCodec`.

## Where the code does less than one would expect

Each of these is a lemma about the code as it is, with the exact condition beside it.

- A window call's output column is found by its printed text and type. Every call reads its own value
  exactly when the query's calls that print alike and have the same type are the same expression:
  `ReadsOwnIffPrintsApart`. IFNULL and NULLIF print alike (`src/expression/mod.rs:666-680`), so
  `sum(ifnull(a, b)) over ()` and `sum(nullif(a, b)) over ()` share a column and one of them reads the
  other's value: `IfNullAndNullIfShareAnOutput`. A base column keeps its cell exactly when it is not
  itself an output column: `BaseColumnKeepsItsCell`; output columns bear no table and a call's text:
  `OutputsBearCallText`.
- Splitting an ON predicate drops a conjunct whose columns are in neither schema. A predicate is TRUE on
  left ++ right exactly when the join matches and the dropped conjuncts are TRUE:
  `OnSplittingUpToDropped`. Nothing is dropped exactly when every conjunct is retained:
  `DropsNothingIff`. A join that matches although its predicate is not TRUE: `DroppedConjunctMatches`.
- Rewriting a correlated EXISTS strips a LIMIT and the projections below a filter. The first is harmless
  exactly when it lets a row through or there is none: `LimitOnTop`. The second is harmless when every
  column a filter reads stands where the leaf has it and the projections below hand that position on:
  `ExistsRewritePreservesMeaning`. For a filter over projections that compares an outer column with a
  handed-on one, the answer is right for all rows exactly when that column stands where the leaf has it,
  or is no leaf column and stands as many places further as the outer row is wide:
  `ProjectionBelowFilterIff`. So a subquery over an aliased table (`bind_alias`,
  `src/binder/select.rs:1079-1126`) is read at the wrong cell, and so is a reordered column:
  `ProjectionBelowFilterMisreads`.
- Rewriting a correlated IN, ANY or ALL strips the temporary alias projection of a view, or of an
  unaliased derived table with computed columns, below the filters. It is harmless when the pulled
  filters read the selected columns only (`NamesSurvive` in `QuantifiedRewritePreservesMeaning`). For a
  filter that compares an outer column with a view column, the scanned outcomes are right for all rows
  exactly when that is the selected column: `ViewFilterIff`; a concrete query: `ViewFilterMisreads`.
- A correlated comparison with a row value keeps its bare temporary columns, which the stripped plan does
  not have, so its right operand is read from the outer row on: `RowValueScan`. With no more columns than
  the outer row has, the subquery's row is not looked at: `RowValueIgnoresSubquery`. The operand is read
  right for all rows exactly when the row value is empty: `RowValueReadsRightIff`. A concrete query:
  `CorrelatedRowValueMisreads`. Uncorrelated ones are right: `UncorrelatedPreservesMeaning`.
- A LIMIT in a quantified subquery is stripped too; harmless exactly when it cuts nothing off:
  `LimitIsStripped`.
- HAVING is validated after the aggregate and group lists were moved out of the context, so the
  check admits everything: `HavingCheckAdmitsUncovered`; the rewritten expression is free of input
  columns exactly when the original is covered: `LeavesNoInputIffCovered`, and in branches that are not
  evaluated too exactly when it is covered in all branches: `NoInputAnywhereIff`.
- A position visitor moves a shared column node twice: `SharedColumnIsShiftedTwice`; exactly when it
  computes the move on values: `VisitedDenotes`.
- After a pull that failed, `done` still commits: `CommitsAfterAFailedPull`; exactly when a run
  commits: `EveryRun`.
- Loading a table that is not cached leaves statistics without a table when a later index cannot be
  read: `OrphanedStatistics`; exactly when: `LoadNamedIff`, and over whole runs `RunNamedIff`.
- A catalog change that is refused after the commit leaves the changes before it made:
  `State.ApplyAll`, `State.ExecuteMut`.
- The check that a recursive term refers to its CTE once counts the recursive scans of other CTEs too.
  The one scan of an accepted term is the CTE's own exactly when the term reaches no other:
  `RecursiveTermReadsItselfIff`. It reaches none when it has no recursive WITH inside and no other
  visible binding holds a recursive scan: `PlainTermReadsItself`. Accepted terms without a scan of their
  own: `AnotherRecursionCountsToo` and `InnerRecursionCountsToo`.
- The derived codec writes the variant number as one byte. A value comes back exactly when every
  variant number in it is below 256: `RoundTrip`.
- A primary-key list is not refreshed when a column is added: it stays right exactly when the column
  is not part of the key: `AddedColumnKeepsKeyOrder`.

## Model

| member | source | states |
|---|---|---|
| `Expressions.Unpack` | src/expression/mod.rs:747-759 | Unpacking ends at an expression that is no alias, at or below the start |
| `Expressions.EqIffSameCanon` | src/expression/eq_col.rs:45-98 | `eq_ignore_colref_pos` holds exactly when both sides have the same normal form (aliases, slots and positions erased) |
| `Expressions.EqIsEquivalence` | src/expression/eq_col.rs:76-98 | The equality is reflexive, symmetric and transitive |
| `Expressions.EqEvaluatesAlike` | src/expression/evaluator.rs:46-98 | Equal expressions whose positions agree with one duplicate-free schema evaluate alike in every environment that respects column identity |
| `Expressions.LogicIsKleene` | src/types/evaluator/boolean.rs:21-56 | NOT, AND and OR are the reflection, minimum and maximum of the truth values false, unknown, true; an operand that is none fails them |
| `Expressions.IsNullIsTwoValued` | src/expression/evaluator.rs:99-105 | IS NULL is never unknown, is TRUE exactly of null, and IS NOT NULL is its negation; a failing operand fails both |
| `InLists.EvalIn` | src/expression/evaluator.rs:106-138 | The early-exit loop computes the specified IN outcome, failures included |
| `InLists.InIsDisjunction` | src/expression/evaluator.rs:106-138 | IN is the three-valued disjunction of equalities and NOT IN its negation, for every non-empty list |
| `InLists.InDependsOnMemberSet` | src/expression/evaluator.rs:116-137 | The result depends only on the set of member values |
| `Rewriting.MovePreservesMeaning` | src/expression/visitor_mut.rs:43-61 | A position visitor preserves the value when every live column reads the same cell before and after |
| `Rewriting.NotAnyIsAllNot` | src/expression/mod.rs:765-843 | `any_referenced_column` and `all_referenced_columns` are dual on every expression |
| `Rewriting.AllColumnsIsLive` | src/expression/mod.rs:805-843 | What holds of every visited column holds of every column that evaluation reaches |
| `Rewriting.SplitMeaning` | src/binder/select.rs:1716-1730 | The three-valued conjunction of the split conjuncts is the original's outcome, failure included |
| `Rewriting.CombineMeaning` | src/binder/select.rs:1732-1742 | The recombined predicate is the three-valued conjunction of its parts |
| `Rewriting.CombineSplitPreservesMeaning` | src/binder/select.rs:1716-1742 | Splitting and recombining preserves the outcome on every row |
| `Rewriting.SplitTrueIffAllTrue` | src/binder/select.rs:1716-1730 | A predicate is TRUE exactly when all its conjuncts are |
| `ExpressionArena.UnfoldingIsUnique` | src/expression/eq_col.rs:77-84 | A reference has one unfolding, which justifies the shortcut for identical references |
| `ExpressionArena.Equals` | src/expression/eq_col.rs:45-98 | On every acyclic graph, shared or not, the comparing visitor decides the equality of the denoted expressions |
| `ExpressionArena.RefsEqual` | src/expression/eq_col.rs:59-65 | Comparing two argument lists is comparing lengths and all pairs |
| `ExpressionArena.Arena.AllocColumn` | src/planner/arena.rs:736-747 | An equal column is found, at its first place, instead of being stored again |
| `ExpressionArena.Arena.MovePositions` | src/expression/visitor_mut.rs:385-396 | Walking an expression in place moves each column node once for every path to it and changes nothing else |
| `ExpressionArena.Arena.MoveAll` | src/expression/visitor_mut.rs:171-200 | The same for a list of roots or arguments |
| `ExpressionArena.VisitedDenotes` | src/expression/visitor_mut.rs:43-61 | The walk in place computes the move on values exactly when no column below the root is moved differently by being reached several times |
| `ExpressionArena.WalkMovesEachRoot` | src/expression/visitor_mut.rs:385-396 | It does so on tree-shaped roots, and on any roots when moving twice is moving once |
| `ExpressionArena.SharedColumnIsShiftedTwice` | src/expression/visitor_mut.rs:47-61 | A concrete shared column that a shift by one moves by two |
| `OutputBinding.FindOutputRef` | src/binder/aggregate.rs:335-349 | The position search returns the first output equal to the expression |
| `OutputBinding.BindInPlace` | src/binder/aggregate.rs:370-391 | On a tree-shaped expression apart from the outputs, the walk leaves at the returned reference exactly the rewriting on values; only walked slots change |
| `OutputBinding.BindAllInPlace` | src/binder/aggregate.rs:126-138 | The same for the select list, HAVING and ORDER BY one after the other |
| `OutputBinding.InPlaceIsBindOutput` | src/binder/aggregate.rs:322-391 | In place, the aggregate output binder computes its value-level function |
| `OutputBinding.InPlaceIsBindProjection` | src/binder/select.rs:125-162 | In place, the projection output binder computes its value-level function |
| `JoinSplitting.SplitIsExact` | src/binder/select.rs:2136-2247 | A predicate over both sides is TRUE exactly when every extracted key pair compares equal and every residual conjunct is TRUE |
| `JoinSplitting.KeyIff` | src/binder/select.rs:2136-2247 | A conjunct gives a key exactly when it equates a column of one side with one of the other; the left side's operand comes first |
| `JoinSplitting.SplitInOrder` | src/binder/select.rs:2136-2247 | Keys and filters stand in the order of the conjuncts they come from |
| `JoinSplitting.SplitUpToDropped` | src/binder/select.rs:2136-2247 | Any predicate at all is TRUE exactly when keys, residual conjuncts and the conjuncts the split drops hold |
| `JoinSplitting.DropsNothingIff` | src/binder/select.rs:2136-2247 | Nothing is dropped exactly when every conjunct is a key or has its columns in the schemas as the split tests it |
| `JoinSplitting.NothingIsDropped` | src/binder/select.rs:2136-2247 | Nothing is dropped when every column is in one of the schemas |
| `JoinSplitting.OnSplittingUpToDropped` | src/binder/select.rs:1393-1416 | For any ON predicate and any two rows: TRUE on left ++ right exactly when the join matches them and the dropped conjuncts are TRUE |
| `JoinSplitting.DroppedConjunctMatches` | src/binder/select.rs:2136-2247 | A concrete ON clause `a = b AND z` of a join of two one-column sides, with a column of neither, that is FALSE on two rows the join matches |
| `JoinSplitting.OnSplittingPreservesMeaning` | src/binder/select.rs:1393-1416 | A predicate is TRUE on left ++ right exactly when the join, with shifted right keys and combined filter, matches the two rows |
| `JoinSplitting.RebindPlaces` | src/binder/select.rs:77-104 | After rebinding, every live column stands where its side's schema has it |
| `JoinSplitting.SplitScopePreservesMeaning` | src/binder/select.rs:876-922 | The split-scope join matches two rows exactly when the predicate, resolved by name, is TRUE on them |
| `CorrelatedSubqueries.PullUp` | src/binder/select.rs:1744-1792 | A leaf row passes the original filters exactly when it passes the filters left behind and every pulled filter on the outer row and the row |
| `CorrelatedSubqueries.PrepareStrips` | src/binder/select.rs:1793-1838 | Without projection preservation, every projection and sort of a stack of operators is stripped, wherever it stands |
| `CorrelatedSubqueries.RefusedIff` | src/binder/select.rs:1744-1846 | For every plan, with and without projection preservation and with LIMITs anywhere: the rewrite is refused exactly when the plan below the filters, projections, sorts and limits references a column of the outer row |
| `CorrelatedSubqueries.StackRows` | src/binder/select.rs:1744-1838 | The rows of any stack of filters, projections and sorts are the images of the leaf rows that pass all its filters |
| `CorrelatedSubqueries.FlatKeepsCount` | src/binder/select.rs:1793-1838 | When filters read only positions that the projections below hand on, stripping those projections keeps the number of rows |
| `CorrelatedSubqueries.ExistsRewritePreservesMeaning` | src/binder/select.rs:1597-1643 | Correlated EXISTS over every stack of filters, projections and sorts: the rewrite is refused exactly when the plan at the bottom references an outer column; if it is not, and filters read handed-on positions, the subquery is non-empty exactly when some row of the rewritten plan, run without the outer row, makes all pulled and globalised predicates TRUE |
| `CorrelatedSubqueries.LimitOnTop` | src/binder/select.rs:1819-1838 | With a stripped LIMIT on top, the rewrite is refused under the same condition, and otherwise the answer is right exactly when the limit lets a row through or there is none |
| `CorrelatedSubqueries.ProjectionBelowFilterIff` | src/binder/select.rs:1793-1807 | For every outer schema and every stack of projections and sorts below a filter that compares an outer column with one they hand on: the rewritten answer is right for all rows and outer rows exactly when the column stands where the leaf has it, or is no leaf column and stands the outer row's width further |
| `CorrelatedSubqueries.ProjectionBelowFilterMisreads` | src/binder/select.rs:1793-1807 | A concrete subquery with a projection below a filter whose rewritten form gives another answer |
| `QuantifiedSubqueries.EnsureRightOutputs` | src/binder/select.rs:1548-1595 | The loop appends exactly the specified missing columns to the projection |
| `QuantifiedSubqueries.AppendedFacts` | src/binder/select.rs:1566-1589 | Appended columns lie past the projection in child order, and no referenced missing column is forgotten |
| `QuantifiedSubqueries.AppendedExactly` | src/binder/select.rs:1548-1595 | The appended columns are, in child order, exactly the referenced child columns that the projection does not already put out |
| `QuantifiedSubqueries.BindProjectionPreservesMeaning` | src/binder/select.rs:125-162 | A predicate bound to the projection's outputs yields what it yielded on the outer and child rows |
| `QuantifiedSubqueries.LocalizePreservesMeaning` | src/binder/select.rs:830-861 | Localising appended columns preserves the value on the grown projection |
| `QuantifiedSubqueries.FilterOnJoinedRow` | src/binder/select.rs:1597-1643 | A pulled filter, bound, localised and globalised, yields on outer ++ projected row what it yielded on outer and child row |
| `QuantifiedSubqueries.ScanIsQuantifier` | src/execution/dql/mark_apply.rs:256-292 | The early-exit scan is the three-valued disjunction for ANY and conjunction for ALL |
| `QuantifiedSubqueries.ScanFailsIff` | src/execution/dql/mark_apply.rs:256-292 | The scan fails exactly when a failing comparison comes before the outcome that decides it |
| `QuantifiedSubqueries.LeafRowPasses` | src/binder/select.rs:1597-1643 | Whatever the comparison, a leaf row passes the subquery's filters exactly when it passes those left behind and the mark apply does not skip its projection |
| `QuantifiedSubqueries.ScanPreservesMeaning` | src/binder/select.rs:1597-1643 | With a kept projection and a comparison over its output, the outcomes scanned over the rewritten plan are, in order, the comparison's outcomes on the rows of the original subquery |
| `BoundSubqueries.TempIsStripped` | src/binder/select.rs:734-752 | The temporary alias projection that the binder adds is recognised and taken off again |
| `BoundSubqueries.TempRecognisedIff` | src/binder/select.rs:734-752 | The projection the binder puts on top is recognised exactly when it has a column and all its columns are temporary ones |
| `BoundSubqueries.SettledPrepare` | src/binder/select.rs:1744-1838 | Nothing is pulled out of what the filters stand on (filters, projections and sorts without outer columns, temporary alias projections that rename in place), and its rows are kept |
| `BoundSubqueries.CoreScan` | src/binder/select.rs:1793-1838 | Sorts above the select list and whatever the filters stand on change neither predicates nor scanned outcomes, as long as names survive |
| `BoundSubqueries.UnrenamedSurvive` | src/binder/select.rs:1793-1807 | Names survive when no temporary alias projection stands directly below the filters |
| `BoundSubqueries.QuantifiedRefusedIff` | src/binder/select.rs:1744-1846 | The mark apply of IN, ANY and ALL is refused exactly when the plan at the bottom references an outer column |
| `BoundSubqueries.BoundRefusedIff` | src/binder/select.rs:1460-1495 | The same of the subquery as the binder wraps it in a temporary table |
| `BoundSubqueries.AcceptedIsStandalone` | src/binder/select.rs:1838-1846 | An accepted plan whose projections read no outer column has the same rows for every outer row, so running it without one is sound |
| `BoundSubqueries.TempOutcomes` | src/binder/expr.rs:78-131 | Reading the temporary table through its alias is reading the subquery's column |
| `BoundSubqueries.QuantifiedRewritePreservesMeaning` | src/binder/select.rs:1460-1495 | Correlated IN, ANY and ALL over one column as the binder builds them (temporary table, comparison through its alias, both stripped), over tables, aliased tables, views and derived tables whose names survive: for every outer row, the scanned outcomes are, in order, the comparison's outcomes on the temporary table |
| `BoundSubqueries.LimitIsStripped` | src/binder/select.rs:1819-1838 | The same with a LIMIT on the subquery: it is stripped, and the scanned outcomes are the comparison's on the temporary table exactly when the limit cuts nothing off |
| `BoundSubqueries.UncorrelatedPreservesMeaning` | src/binder/expr.rs:263-319 | Uncorrelated IN, ANY and ALL, over one column or a row value: the mark apply scans the comparison's outcomes |
| `RowValues.RowValueScan` | src/binder/select.rs:1645-1673 | A correlated row-value comparison: exactly what the mark apply scans, the right operand being read at bare positions of the joined row |
| `RowValues.RowValueIgnoresSubquery` | src/binder/select.rs:1645-1673 | With no more temporary columns than outer ones, the outcome does not depend on the subquery's row |
| `RowValues.RowValueReadsRightIff` | src/binder/expr.rs:85-112 | The right operand is read from the projected row for all rows and operators exactly when the row value is empty |
| `RowValues.CorrelatedRowValueMisreads` | src/binder/expr.rs:85-112 | A concrete query with a row value whose comparison is FALSE and whose mark apply finds TRUE |
| `ViewSubqueries.ConditionIsBound` | src/binder/select.rs:125-162 | A filter over a view column is bound to the select list exactly when it reads the selected column |
| `ViewSubqueries.ViewFilterIff` | src/binder/select.rs:1793-1817 | `y IN (SELECT u FROM view WHERE x = v)`, for every view, outer schema and comparison: the scanned outcomes are right for all rows and outer rows exactly when v is u |
| `ViewSubqueries.ViewFilterMisreads` | src/binder/select.rs:1793-1817 | A concrete view, row and outer value for which the subquery is empty and the mark apply scans a row |
| `AggregateBinding.AcceptedIsCovered` | src/binder/aggregate.rs:266-320 | Whatever the HAVING/ORDER BY validator accepts lies under the outputs; what it accepts exactly is `AcceptsIff` |
| `AggregateBinding.AcceptsIff` | src/binder/aggregate.rs:266-320 | The validator accepts an expression exactly when, on every path that evaluation can take, each column and aggregate call lies at or under a group key or a collected call, and nothing is reached that cannot be evaluated |
| `AggregateBinding.CollectedIsAccepted` | src/binder/aggregate.rs:28-42 | It rejects nothing it should accept: with its calls collected and its other columns group keys, an expression passes |
| `AggregateBinding.CollectedAreCalls` | src/binder/aggregate.rs:28-42 | What is collected are aggregate calls that occur in the expression |
| `AggregateBinding.BindOutputPreservesMeaning` | src/binder/aggregate.rs:322-391 | A covered expression, rewritten, yields on aggregate values ++ group keys what it yields for the group, whichever row represents it |
| `AggregateBinding.BindOutputLeavesNoInput` | src/binder/aggregate.rs:370-391 | After the rewrite, evaluation reaches output columns only and no aggregate call |
| `AggregateBinding.AcceptedIsReplaced` | src/binder/aggregate.rs:266-391 | With aliases as the binders build them, every column and aggregate call of an accepted expression, in evaluated and unevaluated branches alike, is replaced by an output column |
| `AggregateBinding.AcceptedBindsFaithfully` | src/binder/aggregate.rs:266-391 | An accepted expression, rewritten, keeps its value for the group and reaches no input column and no aggregate call; with aliases as the binders build them it holds none in any branch |
| `AggregateBinding.LeavesNoInputIffCovered` | src/binder/aggregate.rs:370-391 | With columns of their own for computed outputs, the rewritten expression is free of input columns exactly when the original is covered |
| `AggregateBinding.HavingCheckIff` | src/binder/aggregate.rs:251-263 | Without group keys the HAVING check admits everything, with some exactly what the validator accepts |
| `AggregateBinding.HavingCheckAdmitsUncovered` | src/binder/select.rs:534-558 | With the lists moved out, the HAVING check admits every expression, and an uncovered one keeps an input column or a call |
| `AggregateBinding.NoInputAnywhereIff` | src/binder/aggregate.rs:370-391 | No input column is left in any branch of the rewritten expression, evaluated or not, exactly when the original is covered in all branches |
| `AggregateBinding.DeadBranchMayKeepInput` | src/binder/aggregate.rs:266-320 | That shape of aliases is needed: with an alias no binder builds (over IS NULL instead of a column), an accepted expression keeps an input column in the branch that is not evaluated |
| `AggregateBinding.CallSurvivesIff` | src/binder/aggregate.rs:370-391 | An aggregate call survives binding exactly when evaluation reaches one that lies under no output |
| `AggregateBinding.CollectedCallsAreBound` | src/binder/aggregate.rs:28-42 | With aliases as the binders build them, no aggregate call of an expression survives binding once its calls are collected |
| `AggregateBinding.UncollectedCallSurvives` | src/binder/aggregate.rs:28-42 | That shape is needed there too: a call in the place where the binders put an alias column is not collected, and survives |
| `AggregateBinding.FindAlias` | src/binder/aggregate.rs:162-182 | The first select item that is an alias of that name, if there is one |
| `AggregateBinding.ResolveAliases` | src/binder/aggregate.rs:162-182 | The result stands, in order, for exactly the group expressions other than aliases no select item carries: a plain one for itself, an alias for the first item that carries it |
| `AggregateBinding.ValidateGroupBy` | src/binder/aggregate.rs:156-212 | Although greedy, the check accepts exactly when every item with a window call passes the validator, and the plain items and the resolved group expressions are equal as multisets of equivalence classes |
| `AggregateBinding.PlainItemsAre` | src/binder/aggregate.rs:184-194 | The plain items are, in order, exactly those in which no aggregate and no window call occurs anywhere |
| `WindowCalls.CallIsIntact` | src/binder/window.rs:117-127 | Since calls are not nested, a call that is met still denotes what it denoted before collecting began |
| `WindowCalls.WindowCollector.Visit` | src/binder/window.rs:34-67 | Exactly the visited window calls are replaced by the output columns of the calls they equal; nothing else changes |
| `WindowCalls.WindowCollector.Add` | src/binder/window.rs:52-65 | A call met for the first time is recorded once; its output column bears the call's printed text and is the first stored column with that text and the call's type |
| `WindowCalls.ShareOutputIff` | src/binder/window.rs:52-63 | Two collected calls share an output column exactly when they print alike and have the same type |
| `WindowCalls.WindowCollector.VisitAll` | src/binder/window.rs:167-177 | Over the whole select list and ORDER BY, collected calls are distinct and each stood in a visited slot |
| `WindowGroups.CallOfParts` | src/binder/window.rs:185-190 | Taking a call apart into function and specification loses nothing |
| `WindowGroups.SameSpecIff` | src/binder/window.rs:185-190 | Two calls share a specification exactly when their partition keys, sort keys and sort flags agree; arguments do not matter |
| `WindowGroups.SameFunctionIff` | src/binder/window.rs:185-190 | Two calls are the same function exactly when kind, type and arguments agree |
| `WindowGroups.GroupWindows` | src/binder/window.rs:184-202 | One group per distinct specification, in the order in which specifications first occur, holding exactly the calls with it in order; all groups together hold each call once |
| `WindowGroups.Stack` | src/binder/window.rs:215-240 | The stack evaluates the groups in order, each on input sorted by exactly its keys, and its schema is base ++ all outputs |
| `WindowGroups.SpecSurvives` | src/binder/window.rs:216-222 | The operator's sort fields and partition length determine the specification |
| `WindowGroups.PartitionKeysFirst` | src/binder/window.rs:216-222 | An operator's input is sorted by the partition keys, ascending and nulls last, and behind them by the sort fields |
| `WindowBinding.OutputStandsInSchema` | src/binder/window.rs:74-91 | The position given to an output column is where the stack's schema has it |
| `WindowBinding.BindWindow` | src/binder/window.rs:160-243 | All passes together: collected, grouped, placed and stacked as above |
| `WindowBinding.WindowBindingPreservesMeaning` | src/binder/window.rs:160-243 | When the query's calls that print alike and have one type are the same expression, every rewritten select or ORDER BY expression has, on base row ++ outputs, the value of the original with its calls evaluated directly |
| `WindowBinding.FaithfulIffAlwaysReadsOwn` | src/binder/window.rs:58-63 | Every call reads its own value, whatever the values, exactly when calls that share an output column are the same expression |
| `WindowBinding.FaithfulIffPrintsApart` | src/binder/window.rs:52-63 | That is so exactly when calls met in the query that print alike and have one type are the same expression |
| `WindowBinding.ReadsOwnIffPrintsApart` | src/binder/window.rs:160-243 | Every call reads its own value, whatever the values, exactly under that condition on the query and the printer |
| `WindowBinding.OutputsBearCallText` | src/binder/window.rs:52-63 | An output column bears no table and the text of a call met in the query |
| `WindowBinding.IfNullPrintsAsNullIf` | src/expression/mod.rs:666-680 | Calls that differ only in IFNULL and NULLIF have one text |
| `WindowBinding.WindowText` | src/expression/mod.rs:547-573 | The text of a window call: arguments, partition keys and sort fields from the leading, middle and last children, with a blank only between keys and fields |
| `WindowBinding.FieldText` | src/expression/mod.rs:547-573 | The text of a sort field for each direction and place of nulls |
| `WindowBinding.JoinAppend` | src/expression/mod.rs:547-573 | Lists are printed with a comma and a blank between neighbours |
| `WindowBinding.IfNullAndNullIfShareAnOutput` | src/expression/mod.rs:533-680 | A concrete query, with the engine's printing of columns, window calls, IFNULL and NULLIF, that fails the condition |
| `WindowBinding.BaseColumnKeepsItsCell` | src/binder/window.rs:74-91 | A column of the child keeps its cell exactly when it is not an output column |
| `WindowBinding.ArgumentsAreKept` | src/binder/window.rs:215-239 | The arguments and keys the operators evaluate denote what they denoted before binding |
| `UsingColumns.BindUsing` | src/binder/select.rs:2027-2072 | USING succeeds exactly when each name is new and on both sides, and pairs the first columns of that name at their joined positions |
| `UsingColumns.VisibleIsCoalesce` | src/binder/mod.rs:208-228 | On every row of an inner, left, right or full join, the visible expression is COALESCE(left, right), as in section 7.10 of ISO/IEC 9075-2:2016 |
| `UsingColumns.VisibleReadsKeptSide` | src/binder/mod.rs:208-228 | In an inner or left join the visible expression depends on the left cell only, in a right join on the right one only |
| `ResultIterators.TransactionIter.FinishStatementScope` | src/db.rs:1153-1163 | The first call drops the executor, takes its changes and ends the scope; later calls do nothing |
| `ResultIterators.TransactionIter.NextTuple` | src/db.rs:1176-1202 | A pull yields a row, or finishes the scope at the end or on a failure |
| `ResultIterators.PullAnswers` | src/db.rs:1176-1202 | What the n-th pull answers: rows in turn, a failure where the executor fails, at the end whether the scope ended cleanly, from then on only the end |
| `ResultIterators.TransactionIter.Done` | src/db.rs:1205-1208 | Draining succeeds exactly when no remaining pull and no scope end fails, and always finishes the scope |
| `ResultIterators.TransactionIter.DoneWithDdl` | src/db.rs:1211-1221 | The same, handing over the executor's catalog changes exactly when it drained |
| `ResultIterators.DatabaseIter.Done` | src/db.rs:1043-1051 | Commits exactly when its own drain succeeds; the transaction is freed in every case |
| `ResultIterators.DatabaseIter.Drop` | src/db.rs:1017-1026 | What is still owned is let go, the iterator before the transaction, without a commit |
| `ResultIterators.UseIterator` | src/db.rs:1028-1052 | Any number of pulls ended by done or drop logs exactly the specified events |
| `ResultIterators.EveryRun` | src/db.rs:1017-1052 | In every run the executor is dropped and the scope ended once, then a commit or none (exact condition), then the transaction is freed once |
| `ResultIterators.CommitsAfterAFailedPull` | src/db.rs:1043-1051 | A run whose pull failed and whose done commits |
| `ResultIterators.Run` | src/binder/parser.rs:216-258 | Several statements: all but the last drained, the last an iterator that owns the transaction, on any failure the transaction freed; exact log |
| `ResultIterators.EveryLifeIsOrderly` | src/binder/parser.rs:216-258 | Whatever the statements do and however the iterator is used, the log is a complete run of the protocol automaton |
| `ResultIterators.EveryLifeRecords` | src/binder/parser.rs:216-258 | From the statements alone: how many scopes begin, how many executors are dropped and scopes ended, that one commit happens exactly when the last statement is reached and its iterator's use commits, right behind the scope's end, and that the transaction is freed once, last |
| `ResultIterators.CatalogLifeIsOrderly` | src/db.rs:719-759 | The log of a catalog statement is, on every path, a complete run of the protocol automaton; when it holds the commit is `CatalogLogRecords` |
| `ResultIterators.CatalogLogRecords` | src/db.rs:719-759 | A catalog statement is committed exactly when its scope begins, it is planned, no step fails and its scope ends cleanly; the one commit stands between the scope's end and the freeing |
| `ResultIterators.OrderlyLogs` | src/db.rs:1153-1227 | Runs of the automaton drop executors and end scopes in pairs, commit at most once, and free once, last |
| `ExecutorArena.ExecNodes.PushNode` | src/execution/mod.rs:414-424 | Pushing panics exactly when it would grow during execution or overwrite a borrowed node; otherwise stores at the position it returns and advances |
| `ExecutorArena.ExecNodes.ClearAll` | src/execution/mod.rs:426-430 | Clearing panics exactly when something executes or was abandoned |
| `ExecutorArena.ExecNodes.SeekTo` | src/execution/mod.rs:409-412 | Seeking panics exactly out of bounds |
| `ExecutorArena.ExecNodes.NextTuple` | src/execution/mod.rs:669-691 | Executes the node: nodes, position, counter and panic are those of the run of its code; the counter equals active plus unwound frames; slots keep their addresses and active nodes their content; re-entering an active node panics |
| `ExecutorArena.ExecNodes.RunAll` | src/execution/mod.rs:398-431 | The same over every sequence of operations with nested execution and caught panics; after an unwind the arena never grows or clears |
| `ExecutorArena.PullPanicsIff` | src/execution/mod.rs:669-691 | Executing a node panics exactly when there is none, it is active, or its code panics; otherwise what its code did is kept and the counter comes down by the one it went up |
| `ExecutorArena.IdleNodeReturns` | src/execution/mod.rs:669-691 | An idle node whose code returns without a caught panic is executed and leaves the counter as it was |
| `ExecutorArena.CalmRunsBalance` | src/execution/mod.rs:669-691 | So does every run that returns without a caught panic, however nested |
| `ExecutorArena.ActConcat` | src/execution/mod.rs:398-431 | A run goes on where the one before it ends, and not behind a panic |
| `ExecutorArena.PushesWrite` | src/execution/mod.rs:414-424 | Pushed nodes stand in order from the position on and the others are kept; during execution this panics exactly when there is no room or a place belongs to an active node |
| `ExecutorArena.RebuildWrites` | src/execution/dql/mark_apply.rs:140-160 | Seeking and pushing, as a subtree is rebuilt: the same from the position sought, which must be in bounds |
| `ExecutorArena.StartOver` | src/execution/mod.rs:426-430 | Clearing and pushing leaves exactly the pushed nodes, and panics exactly while something executes or was abandoned |
| `ExecutorArena.CaughtPanicStays` | src/execution/mod.rs:669-691 | A caught panic is not seen outside, and undoes nothing |
| `ExecutorArena.ResultTuple.Rewrite` | src/execution/mod.rs:621-651 | The row ends as exactly the expressions' values over the original input, or, on any failure, as it was |
| `CatalogCache.State.AllocColumn` | src/planner/arena.rs:390-416 | Only the returned slot may change, and live ones do not; an equal live column is shared, and the arena grows, by one, only when no slot is dead |
| `CatalogCache.State.Reload` | src/catalog/table.rs:274-312 | Fails exactly when a column has no id; otherwise the references denote the columns in order |
| `CatalogCache.State.RecycleTableArena` | src/db.rs:488-516 | Exactly the slots that some table, view or table function refers to stay live, and what is held keeps its meaning |
| `CatalogCache.MaterializedDenotes` | src/planner/arena.rs:595-623 | Appending a plan's columns preserves the references of a view verbatim |
| `CatalogCache.State.ApplyTable` | src/db.rs:670-683 | The cached table denotes what it denoted in the plan; statistics are cleared on request |
| `CatalogCache.State.ApplyView` | src/db.rs:691-696 | The cached view denotes what it denoted in the plan |
| `CatalogCache.State.ApplyTo` | src/db.rs:663-716 | Each change makes exactly its change to what the caches mean, is refused exactly for a table column without an id, and keeps every held reference |
| `CatalogCache.State.ApplyAll` | src/db.rs:761-765 | In all cases the caches mean the old ones with the changes before the first refused one made in order |
| `CatalogCache.LastTableChangeDecides` | src/db.rs:663-716 | After any list of changes, a table is what the last change about it says, and otherwise what it was |
| `CatalogCache.LastViewChangeDecides` | src/db.rs:663-716 | The same of views |
| `CatalogCache.LastStatisticsChangeDecides` | src/db.rs:663-716 | The same of the statistics of an index, which also go with their table and with a clearing change of it, and with no other table |
| `CatalogCache.RestructuresIff` | src/db.rs:663-716 | The changes after which the arena is recycled are those that can make a difference to the tables or views |
| `CatalogCache.CommitStatement` | src/db.rs:720-759 | From steps and flags: the new events hold exactly one commit, between the scope's end and the freeing, exactly when scope, planning, drain and scope end all succeed, and none otherwise; freed once, last; the changes are handed over exactly when the commit succeeds |
| `CatalogCache.State.ExecuteMut` | src/db.rs:719-770 | The same of the log; caches and arena change only if it holds that commit, and are untouched unless the commit succeeds; then the caches mean the old ones with the changes before the first refused one made in order, and after a change of tables or views exactly the slots referred to are live; exact success |
| `CatalogCache.State.LoadTable` | src/db.rs:791-815 | In all cases what the caches mean afterwards: the table when everything could be read, and the statistics read before the first failure; exact success, after which exactly the slots referred to are live |
| `CatalogCache.LastReadDecides` | src/db.rs:801-812 | Loading a table's statistics keeps those of every other table; of an index read twice the last read counts |
| `CatalogCache.State.LoadView` | src/db.rs:816-832 | The loaded view denotes its columns and nothing else changes meaning |
| `CatalogCache.State.LoadTableFunction` | src/db.rs:471-486 | The same for a table function's schema |
| `CatalogCache.LoadNamedIff` | src/db.rs:801-812 | After a load, statistics belong to cached tables exactly unless some of an uncached table were read before a read failed |
| `CatalogCache.ChangesNamedIff` | src/db.rs:663-716 | Statistics belong to cached tables after every change of a statement exactly when they are set only for tables cached at that point |
| `CatalogCache.RunNamedIff` | src/db.rs:719-834 | Throughout a run, statistics belong to cached tables exactly when every operation is orderly, which the operations and the initial table names decide |
| `CatalogCache.OrphanedStatistics` | src/db.rs:801-812 | A concrete load after which the caches hold statistics and no table |
| `CatalogCache.EveryChangeCanBePlanned` | src/planner/arena.rs:595-623 | Whatever is to change, a plan that keeps the new columns in its own arena means it in every state of the table arena |
| `CatalogCache.PlannedSetOnce` | src/planner/arena.rs:595-623 | Of the changes a plan means, at most one sets a table or a view, so exactly such lists can be planned |
| `CatalogCache.Run` | src/db.rs:719-834 | Over every run of statements and loads, with any failures, the caches and function schemas mean exactly what the operations say, through every reuse and recycling of slots; statistics belong to cached tables after an orderly run |
| `CteScoping.LookupIsInnermost` | src/binder/mod.rs:372-377 | Searching from the top finds the innermost binding, which is what the environment has |
| `CteScoping.BinderContext.AddCte` | src/binder/mod.rs:379-394 | Refused exactly when the name is bound at this level; depths stay ordered and names unique per level |
| `CteScoping.BinderContext.BindRecursiveTerm` | src/binder/parser.rs:2961-2968 | The name means the recursive scan while the term is bound, and the context is restored, also on failure |
| `CteScoping.BinderContext.BindRecursiveCtePlan` | src/binder/parser.rs:2906-3005 | A recursive CTE resolves as the lexical definition says, and the context is restored |
| `CteScoping.BinderContext.BindCtes` | src/binder/parser.rs:3021-3044 | The CTEs of a WITH build exactly the environment of the lexical definition |
| `CteScoping.BinderContext.BindQuery` | src/binder/parser.rs:3007-3090 | Binding resolves names exactly as the definition by environments does, which `CteTexts.QueryFollowsText` ties to the text; success restores stack, depth and step; in every state depths are ordered and names unique per level |
| `CteScoping.BodyIgnoresMarks` | src/binder/parser.rs:2906-3005 | Resolving and its checks do not depend on whose scan a recursive scan is, so the CTE's own scans can be told apart |
| `CteScoping.BodyForeignIff` | src/binder/parser.rs:2970-2983 | A resolved term holds another CTE's recursive scan exactly when its text reaches one, through bindings, shadowing and nested WITHs |
| `CteScoping.RecursiveTermReadsItselfIff` | src/binder/parser.rs:2970-2983 | An accepted term holds exactly one recursive scan, and it is the CTE's own exactly when the term reaches no other |
| `CteScoping.BoundEnvironmentsAreUnmarked` | src/binder/parser.rs:3021-3044 | Binding tells no scan apart, so every environment it makes is one the results about recursive terms speak of |
| `CteScoping.PlainTermReadsItself` | src/binder/parser.rs:2970-2983 | With no recursive WITH inside and no other visible recursive CTE, an accepted term reads its own CTE exactly once |
| `CteScoping.AnotherRecursionCountsToo` | src/binder/parser.rs:2970-2983 | A concrete accepted term that reads another recursive CTE and not its own |
| `CteScoping.InnerRecursionCountsToo` | src/binder/parser.rs:2970-2983 | A concrete accepted term with a recursive WITH inside and nothing else visible, without a scan of its own |
| `CteTexts.QueryFollowsText` | src/binder/parser.rs:3007-3090 | In every scope: a query is accepted exactly when its text is legal (names declared or tables, a WITH names a CTE once, a recursive WITH one CTE that is a bare UNION ALL reading the recursion's rows exactly once, nothing unsupported), and its plan has the shape of the text with every declaration expanded, in its own scope, where it is read |
| `CteTexts.BodyFollowsText` | src/binder/parser.rs:2616-2636 | The same of a body: the operands of a set operation come from its operands, left from left, and a select has one input per source in order |
| `CteTexts.RecursiveFollowsText` | src/binder/parser.rs:2906-3005 | The same of a recursive CTE: anchor from the first term, step from the second |
| `CteTexts.QueryReads` | src/binder/parser.rs:3007-3090 | A plan of that shape reads, from left to right, what the text reads in its order |
| `CteTexts.LeavesAnswer` | src/binder/parser.rs:2947-2983 | The checks on a recursive CTE's plans ask whether a table is among the leaves and how many leaves are recursive scans |
| `CteTexts.BindWhole` | src/binder/parser.rs:3007-3090 | Binding a whole query: accepted exactly when its text is legal; shape and leaves of the plan are those of the text |
| `TableCatalogs.TableCatalog.AddColumn` | src/catalog/table.rs:148-175 | Refused exactly for a known name or an exhausted id range; name map, id map and list agree and ids strictly increase |
| `TableCatalogs.TableCatalog.AddIndexMeta` | src/catalog/table.rs:177-225 | Refused exactly for a known name or an unknown column; the id follows the last one, ids strictly increase, and the value type is that of the one indexed column or the tuple of theirs in order |
| `TableCatalogs.NewTable` | src/catalog/table.rs:227-256 | Numbers the columns from one; refused when empty, panics exactly for a repeated name or too many columns |
| `TableCatalogs.KeyOrderSorts` | src/catalog/table.rs:336-361 | The key list is sorted by place in the key, stably |
| `TableCatalogs.TableCatalog.BuildPrimaryKeys` | src/catalog/table.rs:258-272 | Key indices are the positions of exactly the key columns by their place in the key, the pairs add their references, and the type is that of the one key column or the tuple of theirs in key order |
| `TableCatalogs.AddedColumnKeepsKeyOrder` | src/catalog/table.rs:148-175 | The key list stays up to date after adding a column exactly if the column is not part of the key |
| `TableCatalogs.Reload` | src/catalog/table.rs:274-312 | Rebuilds maps, list, indexes and key from the stored columns, or fails exactly when one has no id |
| `TableCatalogs.Transplant` | src/catalog/table.rs:314-334 | Every lookup by name or id leads to the same column in the other arena; key order and type are the same when they were up to date |
| `DerivedCodec.RoundTrip` | kite_sql_serde_macros/src/reference_serialization.rs:104-248 | decode(encode(v) ++ rest) is v with exactly rest left, if and only if every variant number in v is below 256 |
| `DerivedCodec.DerivedRoundTrip` | kite_sql_serde_macros/src/reference_serialization.rs:164-248 | So for every nesting of structs and enums of at most 256 variants, every value comes back |
| `DerivedCodec.DecodeIff` | kite_sql_serde_macros/src/reference_serialization.rs:104-248 | Decoding succeeds exactly on bytes that begin with the encoding of a value whose variant numbers fit a byte, and gives that value and the rest, when the field codecs read only what they write |
| `DerivedCodec.FieldsInOrder` | kite_sql_serde_macros/src/reference_serialization.rs:119-149 | Fields are written one behind the other in declaration order |
| `DerivedCodec.TagInFront` | kite_sql_serde_macros/src/reference_serialization.rs:168-206 | A variant is its number, cut to a byte, in front of its fields |
| `DerivedCodec.UnknownVariant` | kite_sql_serde_macros/src/reference_serialization.rs:207-245 | No byte to read is an error; a number that no variant has reaches the unreachable arm |
| `DerivedCodec.Writer.Write` | kite_sql_serde_macros/src/reference_serialization.rs:119-149 | Encoding appends exactly the encoding to the stream |
| `DerivedCodec.Reader.ReadDatum` | kite_sql_serde_macros/src/reference_serialization.rs:207-245 | Decoding computes the decoding of the stream and leaves what follows |
| `DerivedCodec.WriteThenRead` | kite_sql_serde_macros/src/reference_serialization.rs:135-162 | Through the streams, a value comes back if and only if its variant numbers are below 256 |

## Left out

- SQL text parsing, type conversion, spans, error kinds and messages: an evaluation or a call only succeeds or fails.
- Evaluation without a row, and parameters: a parameter evaluates to a failure.
- Storage engines, isolation, the optimizer, individual executors and the index probe of the mark apply: only the interface facts the modelled code relies on are used.
- Concrete values, casts and collations: values have an equality and a NULL, and equal values are the same value.
- LIMIT below the top, OFFSET and TopK in correlated subqueries: the rewrite theorems are stated for plans without them.
- A storage that cannot open a transaction: a statement then ends before anything the model has begins.
- The text of expressions other than columns, window calls, IFNULL and NULLIF: the printer prints them from the text of their children in any way.
- Several scalar subqueries in one WHERE, DISTINCT rewriting, and the globalising of marker columns.
- Joins of schemas that share a column: both sides are disjoint.
- Infinite result streams: a run of `done` is modelled on an executor that ends.
- Panics inside an executor or a row callback while a result iterator is in use.
- The plan arena's indirection for CTE plans: a binding holds its plan.
- Recycling of index and expression slots, and the debug-build version counter of the arena: a list of catalog changes is taken to have at most one that touches the arena, which that counter asserts.
- AggregateBinding.BindOutputPreservesMeaning: stated on values; `OutputBinding.BindInPlace` shows that the walk in place computes the same.
- CorrelatedSubqueries.ExistsRewritePreservesMeaning: stated on values, with plans as trees; that the plan is rebuilt in place is not captured. A predicate that fails on a row counts as not TRUE and the row is skipped, where a filter and the mark apply stop the query.
- QuantifiedSubqueries.ScanPreservesMeaning: likewise, a pulled filter that fails on a row skips it; a comparison that fails is an outcome like any other, and stops the scan.
- TableCatalogs.TableCatalog.AddIndexMeta: index ids are unbounded, because the source neither checks nor defines their overflow.
- Python and WASM bindings, shell, ORM macros, COPY, EXPLAIN output and the one-line DDL/DML binders.
