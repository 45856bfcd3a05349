/** Quantified subqueries over a view or over an unaliased derived table with computed columns: the temporary alias
    projection that names the columns is taken off below the filters, and a filter that reads more than the select
    list shows then loses its column. */
module ViewSubqueries {
  import opened Expressions
  import opened Rewriting
  import opened JoinSplitting
  import opened CorrelatedSubqueries
  import opened QuantifiedSubqueries
  import opened BoundSubqueries

  /** A view that shows the columns `schema` under the names `temps`. */
  ghost predicate View(left: Schema, temps: Schema, schema: Schema) {
    && |temps| == |schema| && (forall i :: 0 <= i < |temps| ==> IsTemp(temps[i])) && Distinct(temps)
    && Disjoint(left, temps) && Disjoint(left, schema) && Disjoint(temps, schema)
  }

  function Scan(temps: Schema, schema: Schema, rows: seq<Row>): Plan
    requires |temps| == |schema|
  {
    Project(TempProjection(temps, schema), Leaf(schema, rows, []))
  }

  /** `x = v` for the outer column `x` and a column `v` of the view. */
  function Condition(left: Schema, i: nat, temps: Schema, j: nat): Expr
    requires i < |left| && j < |temps|
  {
    Comparison(Column(left[i], i), Column(temps[j], j))
  }

  /** `SELECT u FROM view WHERE x = v`, where `u` and `v` are the view's columns at `k` and `j`. */
  function ViewQuery(left: Schema, i: nat, temps: Schema, schema: Schema, j: nat, k: nat, rows: seq<Row>): Plan
    requires |temps| == |schema| && i < |left| && j < |temps| && k < |temps|
  {
    Project([Column(temps[k], k)], Filter(Condition(left, i, temps, j), Scan(temps, schema, rows)))
  }

  /** The mark apply scans the comparison's outcomes. */
  ghost predicate ScansRight(p: Plan, l: Expr, cmp: BinaryOperator, temp: ColumnRef, left: Schema,
                             naming: Expr -> ColumnRef, outer: Row, op: Op)
    requires |OutputSchema(p, naming)| == 1
  {
    var b := BindQuantified(p, l, cmp, [temp], false, naming);
    var m := CorrelatedApply(b, left, naming);
    m.Some? && Scanned(m.value, outer, op) == ComparisonOutcomes(b.plan, b.comparison, left, outer, op)
  }

  // ------------------------------------------------------------ what is prepared

  lemma {:induction false} ScanIsTemp(temps: Schema, schema: Schema)
    requires |temps| == |schema| > 0 && forall i :: 0 <= i < |temps| ==> IsTemp(temps[i])
    ensures IsTempAliasProjection(TempProjection(temps, schema))
  {
    var exprs := TempProjection(temps, schema);
    forall i | 0 <= i < |exprs| ensures IsAlias(exprs[i]) && Unpack(exprs[i].args[0]) == Column(temps[i], i) {
    }
  }

  lemma {:induction false} ZonePrepared(left: Schema, i: nat, temps: Schema, schema: Schema, j: nat, rows: seq<Row>,
                                        naming: Expr -> ColumnRef)
    requires View(left, temps, schema) && i < |left| && j < |temps|
    ensures
      var cond := Condition(left, i, temps, j);
      Prepare(Filter(cond, Scan(temps, schema, rows)), left, true, naming) == Prepared(Leaf(schema, rows, []), [cond])
  {
    var cond := Condition(left, i, temps, j);
    ScanIsTemp(temps, schema);
    assert Contains(left, left[i]) by { assert SameColumn(left[i], left[i]); }
    assert AnyColumn(cond.args[0], InSchema(left));
    assert SplitConjuncts(cond) == [cond] && [cond][1..] == [];
    assert Correlating([cond], left) == [cond] + Correlating([], left) == [cond];
    assert Local([cond], left) == [] + Local([], left) == [];
    assert [] + [cond] == [cond];
    var leaf, scan := Leaf(schema, rows, []), Scan(temps, schema, rows);
    assert Prepare(leaf, left, true, naming) == Prepared(leaf, []);
    assert Prepare(scan, left, true, naming) == Prepared(leaf, []);
  }

  lemma {:induction false} FindInOne(e: Expr, x: Expr)
    ensures FindOutput([e], x) == if EqIgnore(e, x) then 0 else 1
  {
    assert [e][1..] == [] && FindOutput([], x) == 0;
  }

  /** The filter is bound to the select list exactly when it reads the selected column. */
  lemma {:induction false} ConditionIsBound(left: Schema, i: nat, temps: Schema, schema: Schema, j: nat, k: nat,
                                            naming: Expr -> ColumnRef)
    requires View(left, temps, schema) && i < |left| && j < |temps| && k < |temps|
    ensures BindProjection(Condition(left, i, temps, j), [Column(temps[k], k)], naming) ==
            Comparison(Column(left[i], i), Column(temps[j], if j == k then 0 else j))
  {
    var e, exprs := Condition(left, i, temps, j), [Column(temps[k], k)];
    assert Contains(left, left[i]) by { assert SameColumn(left[i], left[i]); }
    assert Contains(temps, temps[k]) by { assert SameColumn(temps[k], temps[k]); }
    NeverInBoth(left, temps, left[i]);
    assert !SameColumn(temps[k], left[i]);
    FindInOne(Column(temps[k], k), e);
    FindInOne(Column(temps[k], k), e.args[0]);
    FindInOne(Column(temps[k], k), e.args[1]);
    assert BindProjection(e.args[0], exprs, naming) == Column(left[i], i);
    assert BindProjection(e.args[1], exprs, naming) == Column(temps[j], if j == k then 0 else j);
    var b := BindProjection(e, exprs, naming);
    assert b.args[0] == BindProjection(e.args[0], exprs, naming);
    assert b.args[1] == BindProjection(e.args[1], exprs, naming);
    assert b.args == [Column(left[i], i), Column(temps[j], if j == k then 0 else j)];
  }

  /** What the mark apply is handed: the comparison and the bound filter. */
  function Predicates(left: Schema, h: nat, i: nat, temps: Schema, j: nat, k: nat, cmp: BinaryOperator): seq<Expr>
    requires h < |left| && i < |left| && j < |temps| && k < |temps|
  {
    [Compare(cmp, Column(left[h], h), Column(temps[k], 0)),
     Comparison(Column(left[i], i), Column(temps[j], if j == k then 0 else j))]
  }

  lemma {:induction false} PairMentions(h: Head, a: Expr, b: Expr, p: ColumnRef -> bool)
    ensures AnyColumn(Call(h, [a, b]), p) <==> AnyColumn(a, p) || AnyColumn(b, p)
  {
    var e := Call(h, [a, b]);
    assert e.args[0] == a && e.args[1] == b;
  }

  /** The predicates mention two outer columns and one or two columns of the view. */
  lemma {:induction false} Mentioned(left: Schema, h: nat, i: nat, temps: Schema, j: nat, k: nat, cmp: BinaryOperator,
                                     c: ColumnRef)
    requires h < |left| && i < |left| && j < |temps| && k < |temps|
    ensures Referenced(Predicates(left, h, i, temps, j, k, cmp), c) ==>
      SameColumn(left[h], c) || SameColumn(left[i], c) || SameColumn(temps[j], c) || SameColumn(temps[k], c)
  {
    var preds := Predicates(left, h, i, temps, j, k, cmp);
    PairMentions(preds[0].head, preds[0].args[0], preds[0].args[1], SameAs(c));
    PairMentions(preds[1].head, preds[1].args[0], preds[1].args[1], SameAs(c));
  }

  /** Nothing below the view is mentioned, so nothing is appended. */
  lemma {:induction false} NothingBelowMissing(left: Schema, h: nat, i: nat, temps: Schema, schema: Schema, j: nat,
                                               k: nat, cmp: BinaryOperator, out: Schema)
    requires View(left, temps, schema) && h < |left| && i < |left| && j < |temps| && k < |temps|
    ensures NothingMissing(schema, out, Predicates(left, h, i, temps, j, k, cmp))
  {
    forall c | 0 <= c < |schema| ensures !Missing(schema, out, Predicates(left, h, i, temps, j, k, cmp), c) {
      Mentioned(left, h, i, temps, j, k, cmp, schema[c]);
      assert Contains(schema, schema[c]) by { assert SameColumn(schema[c], schema[c]); }
      NeverInBoth(left, schema, schema[c]);
      NeverInBoth(temps, schema, schema[c]);
    }
  }

  // ------------------------------------------------------------ when the filter reads the selected column

  lemma {:induction false} NothingShownMissing(left: Schema, h: nat, i: nat, temps: Schema, schema: Schema, k: nat,
                                               cmp: BinaryOperator)
    requires View(left, temps, schema) && h < |left| && i < |left| && k < |temps|
    ensures NothingMissing(temps, [temps[k]], Predicates(left, h, i, temps, k, k, cmp))
  {
    var preds := Predicates(left, h, i, temps, k, k, cmp);
    forall c | 0 <= c < |temps| ensures !Missing(temps, [temps[k]], preds, c) {
      Mentioned(left, h, i, temps, k, k, cmp, temps[c]);
      assert Contains(temps, temps[c]) by { assert SameColumn(temps[c], temps[c]); }
      NeverInBoth(left, temps, temps[c]);
      assert [temps[k]][0] == temps[k];
    }
  }

  lemma {:induction false} ViewIsSettled(left: Schema, temps: Schema, schema: Schema, rows: seq<Row>)
    requires View(left, temps, schema) && Sized(rows, schema)
    ensures Settled(Scan(temps, schema, rows), left)
  {
    var exprs := TempProjection(temps, schema);
    TempProjectionReadsNoOuter(temps, schema, left);
    forall j | 0 <= j < |exprs| ensures Unpack(exprs[j]) == Column(temps[j], j) {
    }
  }

  lemma {:induction false} ViewCore(left: Schema, i: nat, temps: Schema, schema: Schema, k: nat, rows: seq<Row>,
                                    naming: Expr -> ColumnRef, op: Op)
    requires View(left, temps, schema) && i < |left| && k < |temps|
    ensures Core(ViewQuery(left, i, temps, schema, k, k, rows), naming, op) ==
            Project([Column(temps[k], k)],
                    Filter(Condition(left, i, temps, k), Leaf(temps, Rows(Scan(temps, schema, rows), [], [], op), [])))
  {
    var scan := Scan(temps, schema, rows);
    TempSchema(temps, schema, naming);
    assert Ground(scan, naming, op) == Leaf(temps, Rows(scan, [], [], op), []);
  }

  /** A projection of one column over a filter that reads it and an outer column. */
  lemma {:induction false} ViewIsKept(left: Schema, i: nat, temps: Schema, schema: Schema, k: nat, rows: seq<Row>,
                                      naming: Expr -> ColumnRef)
    requires View(left, temps, schema) && i < |left| && k < |temps| && forall row :: row in rows ==> |row| == |temps|
    ensures KeptProjection(Project([Column(temps[k], k)], Filter(Condition(left, i, temps, k), Leaf(temps, rows, []))),
                           left, naming)
  {
    var cond, exprs := Condition(left, i, temps, k), [Column(temps[k], k)];
    assert OutputColumns(exprs, naming) == [temps[k]];
    assert SameColumn(left[i], left[i]) && SameColumn(temps[k], temps[k]);
    assert Contains(temps, temps[k]);
    NeverInBoth(left, temps, temps[k]);
    assert LiveArgs(cond) == cond.args;
    assert LiveAll(cond.args[0], AtEither(left, temps)) && LiveAll(cond.args[1], AtEither(left, temps));
    forall c: ColumnRef ensures !(Contains(left, c) && Contains([temps[k]], c)) {
      NeverInBoth(left, temps, c);
    }
  }

  lemma {:induction false} ViewNamesSurvive(left: Schema, h: nat, i: nat, temps: Schema, schema: Schema, k: nat,
                                            rows: seq<Row>, cmp: BinaryOperator, naming: Expr -> ColumnRef)
    requires View(left, temps, schema) && h < |left| && i < |left| && k < |temps|
    ensures NamesSurvive(ViewQuery(left, i, temps, schema, k, k, rows),
                         Compare(cmp, Column(left[h], h), Column(temps[k], 0)), left, naming)
  {
    var exprs, cond := [Column(temps[k], k)], Condition(left, i, temps, k);
    TempSchema(temps, schema, naming);
    ScanIsTemp(temps, schema);
    ZonePrepared(left, i, temps, schema, k, rows, naming);
    ConditionIsBound(left, i, temps, schema, k, k, naming);
    NothingShownMissing(left, h, i, temps, schema, k, cmp);
    NothingBelowMissing(left, h, i, temps, schema, k, k, cmp, [temps[k]]);
    var q := Compare(cmp, Column(left[h], h), Column(temps[k], 0));
    assert [q] + BindProjections([cond], exprs, naming) == Predicates(left, h, i, temps, k, k, cmp);
    assert OutputColumns(exprs, naming) == [temps[k]];
    var scan := Scan(temps, schema, rows);
    assert Bared(scan) == Bared(scan.child) == scan.child;
    assert Bared(Filter(cond, scan)) == scan.child;
  }

  lemma {:induction false} ViewIsOneColumn(left: Schema, h: nat, i: nat, temps: Schema, schema: Schema, k: nat,
                                           rows: seq<Row>, cmp: BinaryOperator, temp: ColumnRef,
                                           naming: Expr -> ColumnRef, op: Op)
    requires View(left, temps, schema) && h < |left| && i < |left| && k < |temps| && Sized(rows, schema)
    requires IsTemp(temp) && !Contains(left, temp)
    ensures OneColumn(ViewQuery(left, i, temps, schema, k, k, rows), Column(left[h], h), cmp, temp, left, naming, op)
  {
    var p := ViewQuery(left, i, temps, schema, k, k, rows);
    ViewIsSettled(left, temps, schema, rows);
    ViewCore(left, i, temps, schema, k, rows, naming, op);
    ViewIsKept(left, i, temps, schema, k, Rows(Scan(temps, schema, rows), [], [], op), naming);
    ViewNamesSurvive(left, h, i, temps, schema, k, rows, cmp, naming);
    assert SameColumn(left[h], left[h]) && OutputSchema(p, naming) == [temps[k]];
  }

  // ------------------------------------------------------------ when it reads another

  /** With nothing to append, the predicates are only moved past the outer row. */
  lemma {:induction false} AimWithoutAppending(exprs: seq<Expr>, zone: Plan, preds: seq<Expr>, left: Schema,
                                               naming: Expr -> ColumnRef)
    requires NothingMissing(OutputSchema(zone, naming), OutputColumns(exprs, naming), preds)
    ensures AimAtProjection(exprs, zone, preds, left, naming) ==
            MarkPlan(Project(exprs, zone), GlobalizeAll(preds, OutputColumns(exprs, naming), |left|))
  {
    var child := OutputSchema(zone, naming);
    NothingAppended(child, OutputColumns(exprs, naming), preds, |child|);
    assert exprs + Carried([]) == exprs;
  }

  lemma {:induction false} ViewPrepared(left: Schema, h: nat, i: nat, temps: Schema, schema: Schema, j: nat, k: nat,
                                        rows: seq<Row>, cmp: BinaryOperator, naming: Expr -> ColumnRef)
    requires View(left, temps, schema) && h < |left| && i < |left| && j < |temps| && k < |temps|
    ensures
      var q, exprs := Compare(cmp, Column(left[h], h), Column(temps[k], 0)), [Column(temps[k], k)];
      PrepareMarkApply(ViewQuery(left, i, temps, schema, j, k, rows), q, left, naming) ==
        Some(AimAtProjection(exprs, Leaf(schema, rows, []), Predicates(left, h, i, temps, j, k, cmp), left, naming))
  {
    var q, exprs := Compare(cmp, Column(left[h], h), Column(temps[k], 0)), [Column(temps[k], k)];
    var preds := Predicates(left, h, i, temps, j, k, cmp);
    ZonePrepared(left, i, temps, schema, j, rows, naming);
    ConditionIsBound(left, i, temps, schema, j, k, naming);
    assert BindProjections([Condition(left, i, temps, j)], exprs, naming) == [preds[1]];
    assert [q] + [preds[1]] == preds;
  }

  /** The filter's column is left pointing into the joined row. */
  lemma {:induction false} ViewApply(left: Schema, h: nat, i: nat, temps: Schema, schema: Schema, j: nat, k: nat,
                                     rows: seq<Row>, cmp: BinaryOperator, naming: Expr -> ColumnRef)
    requires View(left, temps, schema) && h < |left| && i < |left| && j < |temps| && k < |temps| && j != k
    ensures
      var p, q := ViewQuery(left, i, temps, schema, j, k, rows), Compare(cmp, Column(left[h], h), Column(temps[k], 0));
      var m := PrepareMarkApply(p, q, left, naming);
      && m.Some? && m.value.plan == Project([Column(temps[k], k)], Leaf(schema, rows, []))
      && |m.value.predicates| == 2 && m.value.predicates[1] == Condition(left, i, temps, j)
  {
    var exprs, preds := [Column(temps[k], k)], Predicates(left, h, i, temps, j, k, cmp);
    ViewPrepared(left, h, i, temps, schema, j, k, rows, cmp, naming);
    assert OutputColumns(exprs, naming) == [temps[k]];
    NothingBelowMissing(left, h, i, temps, schema, j, k, cmp, [temps[k]]);
    AimWithoutAppending(exprs, Leaf(schema, rows, []), preds, left, naming);
    OtherColumns(left, i, temps, schema, j, k);
    ComparisonMoves(left[i], i, temps[j], j, [temps[k]], |left|);
  }

  lemma {:induction false} OtherColumns(left: Schema, i: nat, temps: Schema, schema: Schema, j: nat, k: nat)
    requires View(left, temps, schema) && i < |left| && j < |temps| && k < |temps| && j != k
    ensures !Contains([temps[k]], left[i]) && !Contains([temps[k]], temps[j])
  {
    assert Contains(temps, temps[k]) by { assert SameColumn(temps[k], temps[k]); }
    NeverInBoth(left, temps, temps[k]);
    assert !SameColumn(left[i], temps[k]) && [temps[k]][0] == temps[k];
  }

  lemma {:induction false} CollectFromOne(row: Row, test: Row -> bool, f: Row -> Outcome)
    ensures |Collect([row], test, f)| == if test(row) then 1 else 0
  {
    assert [row][1..] == [] && Collect([], test, f) == [];
  }

  /** The mark apply skips the one row unless the outer value equals the cell of the joined row. */
  lemma {:induction false} ViewScans(left: Schema, h: nat, i: nat, temps: Schema, schema: Schema, j: nat, k: nat,
                                     row: Row, cmp: BinaryOperator, naming: Expr -> ColumnRef, outer: Row, op: Op)
    requires View(left, temps, schema) && h < |left| && i < |left| && j < |temps| && k < |temps| && j != k
    requires |outer| == |left| && |row| == |schema|
    ensures
      var p, q := ViewQuery(left, i, temps, schema, j, k, [row]), Compare(cmp, Column(left[h], h), Column(temps[k], 0));
      var m := PrepareMarkApply(p, q, left, naming);
      && m.Some?
      && |Scanned(m.value, outer, op)| == if Eq3(outer[i], ReadJoined(outer, j)([row[k]])) == TRUE then 1 else 0
  {
    var p, q := ViewQuery(left, i, temps, schema, j, k, [row]), Compare(cmp, Column(left[h], h), Column(temps[k], 0));
    ViewApply(left, h, i, temps, schema, j, k, [row], cmp, naming);
    var m := PrepareMarkApply(p, q, left, naming).value;
    SideReads([], [], row, op, temps[k], k);
    assert ProjectRow([Column(temps[k], k)], SideEnv([], [], row, op)) == [row[k]];
    assert Rows(m.plan, [], [], op) == [[row[k]]];
    CollectFromOne([row[k]], MarkTest(m.predicates, outer, op), MarkOutcome(m.predicates, outer, op));
    var joined := outer + [row[k]];
    ComparisonOutcome(Column(left[i], i), Column(temps[j], j), RowEnv(joined, op));
    assert m.predicates[1..] == [Condition(left, i, temps, j)] && Cell(joined, i) == outer[i];
  }

  /** The subquery has its row exactly when the outer value equals the view's cell. */
  lemma {:induction false} ViewRows(left: Schema, i: nat, temps: Schema, schema: Schema, j: nat, k: nat, row: Row,
                                    outer: Row, op: Op)
    requires View(left, temps, schema) && i < |left| && j < |temps| && k < |temps|
    requires |outer| == |left| && |row| == |schema|
    ensures |Rows(ViewQuery(left, i, temps, schema, j, k, [row]), left, outer, op)| ==
            if Eq3(outer[i], row[j]) == TRUE then 1 else 0
  {
    var scan, cond := Scan(temps, schema, [row]), Condition(left, i, temps, j);
    ViewIsSettled(left, temps, schema, [row]);
    UncorrelatedRows(scan, left, outer, op);
    RenamedRows(scan.exprs, scan.child, op);
    assert Contains(left, left[i]) by { assert SameColumn(left[i], left[i]); }
    assert Contains(temps, temps[j]) by { assert SameColumn(temps[j], temps[j]); }
    NeverInBoth(left, temps, temps[j]);
    SideReads(left, outer, row, op, left[i], i);
    SideReads(left, outer, row, op, temps[j], j);
    ComparisonOutcome(Column(left[i], i), Column(temps[j], j), SideEnv(left, outer, row, op));
    var test := (r: Row) => Eval(cond, SideEnv(left, outer, r, op)) == TRUE;
    assert [row][1..] == [] && Keep([row], test) == (if test(row) then [row] else []) + Keep([], test);
  }

  /** So the two can agree only where the two cells decide alike. */
  lemma {:induction false} ViewAgrees(left: Schema, h: nat, i: nat, temps: Schema, schema: Schema, j: nat, k: nat,
                                      row: Row, cmp: BinaryOperator, temp: ColumnRef, naming: Expr -> ColumnRef,
                                      outer: Row, op: Op)
    requires View(left, temps, schema) && h < |left| && i < |left| && j < |temps| && k < |temps| && j != k
    requires |outer| == |left| && |row| == |schema| && IsTemp(temp)
    requires ScansRight(ViewQuery(left, i, temps, schema, j, k, [row]), Column(left[h], h), cmp, temp, left, naming,
                        outer, op)
    ensures Eq3(outer[i], row[j]) == TRUE <==> Eq3(outer[i], ReadJoined(outer, j)([row[k]])) == TRUE
  {
    var p, l := ViewQuery(left, i, temps, schema, j, k, [row]), Column(left[h], h);
    var b, q := BindQuantified(p, l, cmp, [temp], false, naming), Compare(cmp, l, Column(temps[k], 0));
    ViewScans(left, h, i, temps, schema, j, k, row, cmp, naming, outer, op);
    ViewRows(left, i, temps, schema, j, k, row, outer, op);
    assert OutputSchema(p, naming) == [temps[k]] && RewriteComparison(b.comparison) == q;
    TempIsStripped(p, [temp], q, left, naming);
    CollectLength(Rows(b.plan, left, outer, op), Comparing(b.comparison, left, outer, op));
  }

  lemma {:induction false} ViewCellsDiffer(n: nat, i: nat, width: nat, j: nat, k: nat) returns (row: Row, outer: Row)
    requires i < n && j < width && k < width && j != k
    ensures |row| == width && |outer| == n
    ensures Eq3(outer[i], row[j]) == TRUE <==> Eq3(outer[i], ReadJoined(outer, j)([row[k]])) != TRUE
  {
    row := seq(width, c => if c == j then Ok(Other(2)) else Ok(Other(1)));
    var v := if j <= n then Ok(Other(1)) else Ok(Other(2));
    outer := seq(n, _ => v);
    assert ReadJoined(outer, j)([row[k]]) == if j <= n then Ok(Other(1)) else Fault;
  }

  /** `y IN (SELECT u FROM view WHERE x = v)`, ANY and ALL alike: the scanned outcomes are the comparison's for all
      rows and every outer row exactly when `v` is `u`. */
  lemma {:induction false} ViewFilterIff(left: Schema, h: nat, i: nat, temps: Schema, schema: Schema, j: nat, k: nat,
                                         cmp: BinaryOperator, temp: ColumnRef, naming: Expr -> ColumnRef, op: Op)
    requires View(left, temps, schema) && h < |left| && i < |left| && j < |temps| && k < |temps|
    requires IsTemp(temp) && !Contains(left, temp)
    ensures (forall rows: seq<Row>, outer: Row :: Sized(rows, schema) && |outer| == |left| ==>
               ScansRight(ViewQuery(left, i, temps, schema, j, k, rows), Column(left[h], h), cmp, temp, left, naming,
                          outer, op)) <==> j == k
  {
    if j == k {
      forall rows: seq<Row>, outer: Row | Sized(rows, schema) && |outer| == |left|
        ensures ScansRight(ViewQuery(left, i, temps, schema, j, k, rows), Column(left[h], h), cmp, temp, left, naming,
                           outer, op)
      {
        ViewIsOneColumn(left, h, i, temps, schema, k, rows, cmp, temp, naming, op);
        QuantifiedRewritePreservesMeaning(ViewQuery(left, i, temps, schema, j, k, rows), Column(left[h], h), cmp, temp,
                                          left, naming, outer, op);
      }
    } else {
      var row, outer := ViewCellsDiffer(|left|, i, |schema|, j, k);
      assert Sized([row], schema);
      var p := ViewQuery(left, i, temps, schema, j, k, [row]);
      if ScansRight(p, Column(left[h], h), cmp, temp, left, naming, outer, op) {
        ViewAgrees(left, h, i, temps, schema, j, k, row, cmp, temp, naming, outer, op);
      }
    }
  }

  /** `x IN (SELECT u FROM view WHERE x = v)` over the row (1, 2) of the view and the outer value 1: the subquery is
      empty, and the mark apply scans a row. */
  lemma {:induction false} ViewFilterMisreads(x: ColumnRef, u: ColumnRef, v: ColumnRef, a: ColumnRef, b: ColumnRef,
                                              naming: Expr -> ColumnRef, op: Op)
    requires View([x], [u, v], [a, b])
    ensures
      var p, outer: Row := ViewQuery([x], 0, [u, v], [a, b], 1, 0, [[Ok(Other(1)), Ok(Other(2))]]), [Ok(Other(1))];
      var m := PrepareMarkApply(p, Compare(Eq, Column(x, 0), Column(u, 0)), [x], naming);
      Rows(p, [x], outer, op) == [] && m.Some? && |Scanned(m.value, outer, op)| == 1
  {
    var row: Row, outer: Row := [Ok(Other(1)), Ok(Other(2))], [Ok(Other(1))];
    ViewScans([x], 0, 0, [u, v], [a, b], 1, 0, row, Eq, naming, outer, op);
    ViewRows([x], 0, [u, v], [a, b], 1, 0, row, outer, op);
    assert ReadJoined(outer, 1)([row[0]]) == Ok(Other(1));
  }
}
