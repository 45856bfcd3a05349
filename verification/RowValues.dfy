/** Row values compared with correlated subqueries: the bare temporary columns of the right operand are not
    re-aimed at the row of the mark apply. */
module RowValues {
  import opened Expressions
  import opened Rewriting
  import opened JoinSplitting
  import opened CorrelatedSubqueries
  import opened QuantifiedSubqueries
  import opened BoundSubqueries

  // ------------------------------------------------------------ what is scanned

  /** Positions of outer and of temporary columns are left alone by both moves. */
  lemma {:induction false} RowValueIsUnmoved(e: Expr, left: Schema, temps: Schema, appended: seq<AppendedOutput>,
                                             right: Schema, n: nat, row: Row, op: Op)
    requires LiveAll(e, AtEither(left, temps)) && Disjoint(left, right) && Disjoint(temps, right)
    requires forall t :: 0 <= t < |appended| ==> Contains(right, appended[t].column)
    ensures Eval(MapPositions(MapPositions(e, Localize(appended)), Globalize(right, n)), RowEnv(row, op)) ==
            Eval(e, RowEnv(row, op))
  {
    var env, local, global := RowEnv(row, op), Localize(appended), Globalize(right, n);
    forall c: ColumnRef, p: nat | AtEither(left, temps)(c, p) ensures local(c, p) == p && global(c, p) == p {
      AtIsContained(left, c, p);
      AtIsContained(temps, c, p);
      NeverInBoth(left, right, c);
      NeverInBoth(temps, right, c);
      forall t | 0 <= t < |appended| ensures !SameColumn(c, appended[t].column) {
        SameContained(right, appended[t].column, c);
      }
    }
    LiveAllWeaken(e, AtEither(left, temps), (c: ColumnRef, p: nat) => AtEither(left, temps)(c, local(c, p)));
    MovePlaces(e, local, AtEither(left, temps));
    LiveAllWeaken(e, AtEither(left, temps), (c: ColumnRef, p: nat) => env.col(c, p) == env.col(c, local(c, p)));
    MovePreservesMeaning(e, local, env, env);
    var moved := MapPositions(e, local);
    LiveAllWeaken(moved, AtEither(left, temps), (c: ColumnRef, p: nat) => env.col(c, p) == env.col(c, global(c, p)));
    MovePreservesMeaning(moved, global, env, env);
  }

  lemma SameContained(schema: Schema, c: ColumnRef, d: ColumnRef)
    ensures SameColumn(c, d) ==> (Contains(schema, c) <==> Contains(schema, d))
  {
  }

  /** The comparison as the mark apply reads it: every column at its bare position in the joined row. */
  ghost function Misread(q: Expr, m: MarkPlan, outer: Row, op: Op): Row -> Outcome
    requires m.plan.Project?
  {
    (k: Row) => Eval(q, RowEnv(outer + ProjectRow(m.plan.exprs, RowEnv(k, op)), op))
  }

  lemma {:induction false} AppendedApart(temps: Schema, out: Schema, child: Schema, preds: seq<Expr>)
    requires Disjoint(temps, out) && Disjoint(temps, child)
    ensures
      var appended := AppendedUpTo(child, out, preds, |child|);
      var right := out + AppendedColumns(appended);
      Disjoint(temps, right) && forall t :: 0 <= t < |appended| ==> Contains(right, appended[t].column)
  {
    var appended := AppendedUpTo(child, out, preds, |child|);
    var right := out + AppendedColumns(appended);
    AppendedFacts(child, out, preds, |child|);
    forall c: ColumnRef | Contains(right, c) ensures !Contains(temps, c) {
      AppendedComesFromChild(c, out, child, appended);
      NeverInBoth(temps, out, c);
      NeverInBoth(temps, child, c);
    }
    forall t | 0 <= t < |appended| ensures Contains(right, appended[t].column) {
      assert right[|out| + t] == appended[t].column && SameColumn(right[|out| + t], appended[t].column);
    }
  }

  lemma {:induction false} RowValueComparison(p: Plan, q: Expr, temps: Schema, left: Schema, naming: Expr -> ColumnRef,
                                              outer: Row, op: Op, k: Row)
    requires KeptProjection(p, left, naming)
    requires LiveAll(q, AtEither(left, temps)) && Disjoint(temps, OutputColumns(p.exprs, naming)) &&
             Disjoint(temps, LeafOf(p.child).schema)
    ensures
      var m := MarkApply(p, q, left, naming);
      && m.plan.Project? && m.predicates != []
      && Eval(m.predicates[0], RowEnv(outer + ProjectRow(m.plan.exprs, RowEnv(k, op)), op)) ==
           Misread(q, m, outer, op)(k)
  {
    var m := MarkApply(p, q, left, naming);
    AimedComparison(p, q, left, naming);
    var out, child := OutputColumns(p.exprs, naming), LeafOf(p.child).schema;
    var preds := [q] + BindProjections(Prepare(p.child, left, true, naming).filters, p.exprs, naming);
    var appended := AppendedUpTo(child, out, preds, |child|);
    RightIsDisjoint(p.exprs, naming, left, child, preds);
    AppendedApart(temps, out, child, preds);
    RowValueIsUnmoved(q, left, temps, appended, out + AppendedColumns(appended), |left|,
                      outer + ProjectRow(m.plan.exprs, RowEnv(k, op)), op);
  }

  lemma {:induction false} MappedIdentity(rows: seq<Row>)
    ensures Mapped(rows, (row: Row) => row) == rows
  {
    if rows != [] { MappedIdentity(rows[1..]); }
  }

  /** A correlated comparison with a row value: the mark apply scans, for the rows of the subquery, the comparison
      with its right operand read at bare positions of the joined row, so from the outer row on. */
  lemma {:induction false} RowValueScan(p: Plan, q: Expr, temps: Schema, left: Schema, naming: Expr -> ColumnRef,
                                        outer: Row, op: Op)
    requires KeptProjection(p, left, naming) && |outer| == |left|
    requires LiveAll(q, AtEither(left, temps)) && Disjoint(temps, OutputColumns(p.exprs, naming)) &&
             Disjoint(temps, LeafOf(p.child).schema)
    ensures
      var m := MarkApply(p, q, left, naming);
      && MarkShape(m, p)
      && Scanned(m, outer, op) ==
           Collect(Keep(LeafOf(p.child).rows, Passing(p.child, left, outer, op)), _ => true, Misread(q, m, outer, op))
  {
    var m := MarkApply(p, q, left, naming);
    LeafRowPasses(p, q, left, naming, outer, op, []);
    MarkScan(m, outer, op);
    var rows, passA, passB := LeafOf(p.child).rows, Passing(p.child, left, outer, op), Standalone(m.plan.child, op);
    var projA, projB := (row: Row) => row, Projecting(m.plan.exprs, op);
    var outA, outB, test := Misread(q, m, outer, op), MarkOutcome(m.predicates, outer, op),
        MarkTest(m.predicates, outer, op);
    forall k | k in rows ensures RowAgrees(k, passA, projA, outA, passB, projB, test, outB) {
      LeafRowPasses(p, q, left, naming, outer, op, k);
      RowValueComparison(p, q, temps, left, naming, outer, op, k);
    }
    CollectAgrees(rows, passA, projA, outA, passB, projB, test, outB);
    MappedIdentity(Keep(rows, passA));
  }

  /** With no more temporary columns than outer ones, the subquery's row is not looked at. */
  lemma {:induction false} RowValueIgnoresSubquery(q: Expr, left: Schema, temps: Schema, outer: Row, row: Row, op: Op)
    requires LiveAll(q, AtEither(left, temps)) && |temps| <= |left| == |outer|
    ensures Eval(q, RowEnv(outer + row, op)) == Eval(q, RowEnv(outer, op))
  {
    var alone, joined := RowEnv(outer, op), RowEnv(outer + row, op);
    forall c: ColumnRef, p: nat | AtEither(left, temps)(c, p) ensures alone.col(c, p) == joined.col(c, p) {
    }
    LiveAllWeaken(q, AtEither(left, temps), (c: ColumnRef, p: nat) => alone.col(c, p) == joined.col(c, p));
    AgreeOnLive(q, alone, joined);
  }

  lemma {:induction false} RowValueApply(p: Plan, l: Expr, cmp: BinaryOperator, temps: Schema, left: Schema,
                                         naming: Expr -> ColumnRef)
    requires 0 < |temps| == |OutputSchema(p, naming)| && (forall i :: 0 <= i < |temps| ==> IsTemp(temps[i])) &&
             StripAlias(l) == l
    ensures CorrelatedApply(BindQuantified(p, l, cmp, temps, true, naming), left, naming) ==
            PrepareMarkApply(p, Compare(cmp, l, RowValue(temps)), left, naming)
  {
    TempIsStripped(p, temps, Compare(cmp, l, RowValue(temps)), left, naming);
  }

  /** What the scan of one row finds: whatever the row holds, the comparison on the outer row alone. */
  lemma {:induction false} OneRowScan(rows: seq<Row>, row: Row, q: Expr, m: MarkPlan, temps: Schema, left: Schema,
                                      outer: Row, op: Op)
    requires rows == [row] && m.plan.Project? && |temps| <= |left| == |outer| && LiveAll(q, AtEither(left, temps))
    ensures Collect(rows, _ => true, Misread(q, m, outer, op)) == [Eval(q, RowEnv(outer, op))]
  {
    CollectOne(row, Misread(q, m, outer, op));
    RowValueIgnoresSubquery(q, left, temps, outer, ProjectRow(m.plan.exprs, RowEnv(row, op)), op);
  }

  lemma {:induction false} RowValueOnOneRow(p: Plan, q: Expr, temps: Schema, left: Schema, naming: Expr -> ColumnRef,
                                            outer: Row, op: Op, row: Row)
    requires KeptProjection(p, left, naming) && |temps| <= |left| == |outer|
    requires LiveAll(q, AtEither(left, temps)) && Disjoint(temps, OutputColumns(p.exprs, naming)) &&
             Disjoint(temps, LeafOf(p.child).schema)
    requires Keep(LeafOf(p.child).rows, Passing(p.child, left, outer, op)) == [row]
    ensures Scanned(MarkApply(p, q, left, naming), outer, op) == [Eval(q, RowEnv(outer, op))]
  {
    RowValueScan(p, q, temps, left, naming, outer, op);
    OneRowScan([row], row, q, MarkApply(p, q, left, naming), temps, left, outer, op);
  }

  // ------------------------------------------------ when a row value is read right

  /** A row value of outer columns. */
  function OuterValue(left: Schema, at: seq<nat>): (r: Expr)
    requires forall i :: 0 <= i < |at| ==> at[i] < |left|
    ensures r.Call? && r.head == Operator(Tuple, []) && |r.args| == |at|
    ensures forall i :: 0 <= i < |at| ==> r.args[i] == Column(left[at[i]], at[i])
  {
    Call(Operator(Tuple, []), seq(|at|, i requires 0 <= i < |at| => Column(left[at[i]], at[i])))
  }

  /** On one joined row, the comparison reads what the subquery's projected row holds. */
  ghost predicate ReadsRight(q: Expr, left: Schema, outer: Row, projected: Row, extra: Row, op: Op) {
    Eval(q, RowEnv(outer + (projected + extra), op)) == Eval(q, SideEnv(left, outer, projected, op))
  }

  lemma {:induction false} CompareOutcome(cmp: BinaryOperator, l: Expr, r: Expr, env: Env)
    ensures Eval(Compare(cmp, l, r), env) == Apply(Binary(cmp, None, BooleanType), [Eval(l, env), Eval(r, env)], env)
  {
    EvalCall(Compare(cmp, l, r), env);
    assert EvalArgs([l, r], env) == [Eval(l, env), Eval(r, env)];
  }

  lemma {:induction false} TupleOutcome(e: Expr, env: Env)
    requires e.Call? && e.head == Operator(Tuple, [])
    ensures Eval(e, env) == env.op(e.head, EvalArgs(e.args, env))
  {
    EvalCall(e, env);
  }

  /** Reads the first element of a row value, and the right operand of other operators. */
  function Telling(h: Head, outs: seq<Outcome>): Outcome {
    if h.Operator? then First(outs) else if |outs| == 2 then outs[1] else Fault
  }

  lemma {:induction false} FirstElement(e: Expr, env: Env)
    requires e.Call? && e.head == Operator(Tuple, []) && e.args != [] && env.op == Telling
    ensures Eval(e, env) == Eval(e.args[0], env)
  {
    TupleOutcome(e, env);
  }

  lemma {:induction false} FirstReads(left: Schema, at: seq<nat>, temps: Schema, outer: Row, projected: Row)
    requires |at| == |temps| > 0 && (forall i :: 0 <= i < |at| ==> at[i] < |left|) && Disjoint(left, temps)
    requires |outer| == |left| && |projected| == |temps|
    ensures
      var l, r := OuterValue(left, at).args[0], RowValue(temps).args[0];
      var joined, side := RowEnv(outer + (projected + []), Telling), SideEnv(left, outer, projected, Telling);
      && Eval(l, joined) == outer[at[0]] && Eval(l, side) == outer[at[0]]
      && Eval(r, joined) == outer[0] && Eval(r, side) == projected[0]
  {
    assert SameColumn(left[at[0]], left[at[0]]) && SameColumn(temps[0], temps[0]);
    assert Contains(left, left[at[0]]) && Contains(temps, temps[0]);
    NeverInBoth(left, temps, temps[0]);
    SideReads(left, outer, projected, Telling, left[at[0]], at[0]);
    SideReads(left, outer, projected, Telling, temps[0], 0);
  }

  lemma {:induction false} ToldApart(cmp: BinaryOperator, l: Expr, r: Expr, a: Env, b: Env)
    requires cmp != And && cmp != Or && a.op == Telling && b.op == Telling
    requires Eval(l, a) == Eval(l, b) == Eval(r, a) == Ok(Other(1)) && Eval(r, b) == Ok(Other(2))
    ensures Eval(Compare(cmp, l, r), a) != Eval(Compare(cmp, l, r), b)
  {
    CompareOutcome(cmp, l, r, a);
    CompareOutcome(cmp, l, r, b);
  }

  lemma {:induction false} RowValueMisread(left: Schema, at: seq<nat>, temps: Schema, cmp: BinaryOperator, outer: Row,
                                           projected: Row)
    requires |at| == |temps| > 0 && (forall i :: 0 <= i < |at| ==> at[i] < |left|) && Disjoint(left, temps) &&
             cmp != And && cmp != Or
    requires |outer| == |left| && |projected| == |temps|
    requires outer[at[0]] == Ok(Other(1)) && outer[0] == Ok(Other(1)) && projected[0] == Ok(Other(2))
    ensures !ReadsRight(Compare(cmp, OuterValue(left, at), RowValue(temps)), left, outer, projected, [], Telling)
  {
    var l, r := OuterValue(left, at), RowValue(temps);
    var joined, side := RowEnv(outer + (projected + []), Telling), SideEnv(left, outer, projected, Telling);
    FirstReads(left, at, temps, outer, projected);
    FirstElement(l, joined);
    FirstElement(l, side);
    FirstElement(r, joined);
    FirstElement(r, side);
    ToldApart(cmp, l, r, joined, side);
  }

  /** The right operand is read from the projected row for all rows exactly when the row value is empty. */
  lemma {:induction false} RowValueReadsRightIff(left: Schema, at: seq<nat>, temps: Schema, cmp: BinaryOperator)
    requires |at| == |temps| && (forall i :: 0 <= i < |at| ==> at[i] < |left|) && Disjoint(left, temps) &&
             cmp != And && cmp != Or
    ensures
      var q := Compare(cmp, OuterValue(left, at), RowValue(temps));
      (forall outer: Row, projected: Row, extra: Row, op: Op :: |outer| == |left| && |projected| == |temps| ==>
         ReadsRight(q, left, outer, projected, extra, op)) <==> temps == []
  {
    var l, r := OuterValue(left, at), RowValue(temps);
    var q := Compare(cmp, l, r);
    if temps == [] {
      forall outer: Row, projected: Row, extra: Row, op: Op ensures ReadsRight(q, left, outer, projected, extra, op) {
        var joined, side := RowEnv(outer + (projected + extra), op), SideEnv(left, outer, projected, op);
        SameCall(l, l, joined, side);
        SameCall(r, r, joined, side);
        CompareSame(cmp, l, r, l, r, joined, side);
      }
    } else {
      var outer: Row, projected: Row := seq(|left|, _ => Ok(Other(1))), seq(|temps|, _ => Ok(Other(2)));
      RowValueMisread(left, at, temps, cmp, outer, projected);
    }
  }

  /** The subquery `SELECT a, b FROM t WHERE b = y` over the row (5, 2). */
  function RowValueExample(y: ColumnRef, a: ColumnRef, b: ColumnRef): Plan {
    Project([Column(a, 0), Column(b, 1)],
            Filter(Comparison(Column(y, 1), Column(b, 1)), Leaf([a, b], [[Ok(Other(5)), Ok(Other(2))]], [])))
  }

  lemma {:induction false} PairContains(a: ColumnRef, b: ColumnRef, c: ColumnRef)
    ensures Contains([a, b], c) <==> SameColumn(a, c) || SameColumn(b, c)
  {
    assert [a, b][0] == a && [a, b][1] == b;
  }

  lemma {:induction false} PairDisjoint(a: ColumnRef, b: ColumnRef, c: ColumnRef, d: ColumnRef)
    requires !SameColumn(a, c) && !SameColumn(a, d) && !SameColumn(b, c) && !SameColumn(b, d)
    ensures Disjoint([a, b], [c, d])
  {
    forall e: ColumnRef ensures !(Contains([a, b], e) && Contains([c, d], e)) {
      PairContains(a, b, e);
      PairContains(c, d, e);
    }
  }

  lemma {:induction false} ExampleIsKept(x: ColumnRef, y: ColumnRef, a: ColumnRef, b: ColumnRef,
                                         naming: Expr -> ColumnRef)
    requires Distinct([x, y, a, b])
    ensures KeptProjection(RowValueExample(y, a, b), [x, y], naming)
    ensures OutputColumns(RowValueExample(y, a, b).exprs, naming) == [a, b]
  {
    var p, s := RowValueExample(y, a, b), [x, y, a, b];
    assert s[0] == x && s[1] == y && s[2] == a && s[3] == b;
    PairDisjoint(x, y, a, b);
    assert OutputColumns(p.exprs, naming) == [a, b];
    var eq, either := p.child.condition, AtEither([x, y], [a, b]);
    assert SameColumn([x, y][1], y) && SameColumn([a, b][1], b);
    assert LiveAll(eq.args[0], either) && LiveAll(eq.args[1], either) && LiveArgs(eq) == eq.args;
    PairContains(x, y, a);
    PairContains(x, y, b);
    forall j | 0 <= j < |p.exprs| ensures Bound(p.exprs[j], [a, b]) && !AnyColumn(p.exprs[j], InSchema([x, y])) {
    }
  }

  /** A row value of two columns is their pair. */
  lemma {:induction false} PairOutcome(a: ColumnRef, b: ColumnRef, env: Env)
    ensures Eval(RowValue([a, b]), env) == env.op(Operator(Tuple, []), [env.col(a, 0), env.col(b, 1)])
  {
    var r := RowValue([a, b]);
    TupleOutcome(r, env);
    assert r.args[0] == Column(a, 0) && r.args[1] == Column(b, 1);
    assert EvalArgs(r.args, env) == [env.col(a, 0), env.col(b, 1)];
  }

  /** The subquery's one row for the outer row (1, 2). */
  lemma {:induction false} ExampleRows(x: ColumnRef, y: ColumnRef, a: ColumnRef, b: ColumnRef, op: Op)
    requires Distinct([x, y, a, b])
    ensures
      var p, row, outer: Row := RowValueExample(y, a, b), [Ok(Other(5)), Ok(Other(2))], [Ok(Other(1)), Ok(Other(2))];
      && Keep([row], Passing(p.child, [x, y], outer, op)) == [row]
      && Rows(p, [x, y], outer, op) == [row]
  {
    var s := [x, y, a, b];
    assert s[0] == x && s[1] == y && s[2] == a && s[3] == b;
    var p, row, outer: Row := RowValueExample(y, a, b), [Ok(Other(5)), Ok(Other(2))], [Ok(Other(1)), Ok(Other(2))];
    PairContains(x, y, y);
    PairContains(x, y, a);
    PairContains(x, y, b);
    SideReads([x, y], outer, row, op, y, 1);
    SideReads([x, y], outer, row, op, a, 0);
    SideReads([x, y], outer, row, op, b, 1);
    ComparisonOutcome(Column(y, 1), Column(b, 1), SideEnv([x, y], outer, row, op));
    var pass := Passing(p.child, [x, y], outer, op);
    assert Eval(p.child.condition, SideEnv([x, y], outer, row, op)) == Eq3(Ok(Other(2)), Ok(Other(2))) == TRUE;
    assert Passes(p.child.child, [x, y], outer, op, row);
    assert pass(row) && [row][1..] == [];
    assert Keep([row], pass) == [row] + Keep([], pass) == [row];
    ZoneRows(p.child, [x, y], outer, op);
    assert ProjectRow(p.exprs, SideEnv([x, y], outer, row, op)) == row;
  }

  /** `(x, y) IN (SELECT a, b FROM t WHERE b = y)` over the outer row (1, 2) and the row (5, 2), for every way
      of forming row values that tells the two apart: the comparison is FALSE, and the mark apply finds TRUE. */
  lemma {:induction false} CorrelatedRowValueMisreads(x: ColumnRef, y: ColumnRef, a: ColumnRef, b: ColumnRef,
                                                      s: ColumnRef, t: ColumnRef, naming: Expr -> ColumnRef, op: Op,
                                                      u: Value, v: Value)
    requires Distinct([x, y, a, b]) && Distinct([x, y, s, t]) && Distinct([s, t, a, b]) && IsTemp(s) && IsTemp(t)
    requires op(Operator(Tuple, []), [Ok(Other(1)), Ok(Other(2))]) == Ok(u) && !u.Null?
    requires op(Operator(Tuple, []), [Ok(Other(5)), Ok(Other(2))]) == Ok(v) && !v.Null? && u != v
    ensures OutputSchema(RowValueExample(y, a, b), naming) == [a, b]
    ensures
      var bound := BindQuantified(RowValueExample(y, a, b), RowValue([x, y]), Eq, [s, t], true, naming);
      var m, outer: Row := CorrelatedApply(bound, [x, y], naming), [Ok(Other(1)), Ok(Other(2))];
      && ComparisonOutcomes(bound.plan, bound.comparison, [x, y], outer, op) == [FALSE]
      && m.Some? && Scanned(m.value, outer, op) == [TRUE]
  {
    ExampleIsKept(x, y, a, b, naming);
    assert Disjoint([s, t], [a, b]) by {
      var c := [s, t, a, b];
      assert c[0] == s && c[1] == t && c[2] == a && c[3] == b;
      PairDisjoint(s, t, a, b);
    }
    assert Eval(Comparison(RowValue([x, y]), RowValue([s, t])), RowEnv([Ok(Other(1)), Ok(Other(2))], op)) == TRUE by {
      PairsCompared(x, y, s, t, RowEnv([Ok(Other(1)), Ok(Other(2))], op), u, u);
    }
    ExampleScan(x, y, a, b, s, t, naming, op);
    ExampleOutcomes(x, y, a, b, s, t, naming, op, u, v);
  }

  /** What a comparison of pairs yields. */
  lemma {:induction false} PairsCompared(x: ColumnRef, y: ColumnRef, s: ColumnRef, t: ColumnRef, env: Env, u: Value,
                                         v: Value)
    requires env.op(Operator(Tuple, []), [env.col(x, 0), env.col(y, 1)]) == Ok(u) && !u.Null?
    requires env.op(Operator(Tuple, []), [env.col(s, 0), env.col(t, 1)]) == Ok(v) && !v.Null?
    ensures Eval(Comparison(RowValue([x, y]), RowValue([s, t])), env) == Ok(Boolean(u == v))
  {
    PairOutcome(x, y, env);
    PairOutcome(s, t, env);
    ComparisonOutcome(RowValue([x, y]), RowValue([s, t]), env);
  }

  lemma {:induction false} ExampleReads(x: ColumnRef, y: ColumnRef, s: ColumnRef, t: ColumnRef, outer: Row, row: Row,
                                        op: Op)
    requires Distinct([x, y, s, t]) && |outer| == 2 && |row| == 2
    ensures
      var env := SideEnv([x, y], outer, row, op);
      env.col(x, 0) == outer[0] && env.col(y, 1) == outer[1] && env.col(s, 0) == row[0] && env.col(t, 1) == row[1]
  {
    var c := [x, y, s, t];
    assert c[0] == x && c[1] == y && c[2] == s && c[3] == t;
    PairContains(x, y, x);
    PairContains(x, y, y);
    PairContains(x, y, s);
    PairContains(x, y, t);
    SideReads([x, y], outer, row, op, s, 0);
    SideReads([x, y], outer, row, op, t, 1);
  }

  lemma {:induction false} ExampleOutcomes(x: ColumnRef, y: ColumnRef, a: ColumnRef, b: ColumnRef, s: ColumnRef,
                                           t: ColumnRef, naming: Expr -> ColumnRef, op: Op, u: Value, v: Value)
    requires Distinct([x, y, a, b]) && Distinct([x, y, s, t]) &&
             OutputSchema(RowValueExample(y, a, b), naming) == [a, b]
    requires op(Operator(Tuple, []), [Ok(Other(1)), Ok(Other(2))]) == Ok(u) && !u.Null?
    requires op(Operator(Tuple, []), [Ok(Other(5)), Ok(Other(2))]) == Ok(v) && !v.Null? && u != v
    ensures
      var bound := BindQuantified(RowValueExample(y, a, b), RowValue([x, y]), Eq, [s, t], true, naming);
      ComparisonOutcomes(bound.plan, bound.comparison, [x, y], [Ok(Other(1)), Ok(Other(2))], op) == [FALSE]
  {
    var row, outer: Row := [Ok(Other(5)), Ok(Other(2))], [Ok(Other(1)), Ok(Other(2))];
    var p, q := RowValueExample(y, a, b), Comparison(RowValue([x, y]), RowValue([s, t]));
    var env := SideEnv([x, y], outer, row, op);
    ExampleRows(x, y, a, b, op);
    ExampleReads(x, y, s, t, outer, row, op);
    TempRow(s, t, a, b, env);
    assert Rows(Project(TempProjection([s, t], [a, b]), p), [x, y], outer, op) == [row];
    PairsCompared(x, y, s, t, env, u, v);
    CollectOne(row, Comparing(q, [x, y], outer, op));
  }

  lemma {:induction false} TempRow(s: ColumnRef, t: ColumnRef, a: ColumnRef, b: ColumnRef, env: Env)
    ensures ProjectRow(TempProjection([s, t], [a, b]), env) == [env.col(s, 0), env.col(t, 1)]
  {
    var exprs := TempProjection([s, t], [a, b]);
    UnpackEval(exprs[0], env);
    UnpackEval(exprs[1], env);
    assert Unpack(exprs[0]) == Column(s, 0) && Unpack(exprs[1]) == Column(t, 1);
  }

  lemma {:induction false} CollectOne(row: Row, f: Row -> Outcome)
    ensures Collect([row], _ => true, f) == [f(row)]
  {
    assert [row][1..] == [] && Collect([row], _ => true, f) == [f(row)] + Collect([], _ => true, f);
  }

  lemma {:induction false} ExampleScan(x: ColumnRef, y: ColumnRef, a: ColumnRef, b: ColumnRef, s: ColumnRef,
                                       t: ColumnRef, naming: Expr -> ColumnRef, op: Op)
    requires Distinct([x, y, a, b]) && Disjoint([s, t], [a, b]) && IsTemp(s) && IsTemp(t)
    requires KeptProjection(RowValueExample(y, a, b), [x, y], naming)
    requires OutputColumns(RowValueExample(y, a, b).exprs, naming) == [a, b]
    ensures
      var bound := BindQuantified(RowValueExample(y, a, b), RowValue([x, y]), Eq, [s, t], true, naming);
      var m, outer: Row := CorrelatedApply(bound, [x, y], naming), [Ok(Other(1)), Ok(Other(2))];
      m.Some? && Scanned(m.value, outer, op) == [Eval(Comparison(RowValue([x, y]), RowValue([s, t])),
                                                      RowEnv(outer, op))]
  {
    var p, q := RowValueExample(y, a, b), Comparison(RowValue([x, y]), RowValue([s, t]));
    RowValueApply(p, RowValue([x, y]), Eq, [s, t], [x, y], naming);
    PreparedMarkApply(p, q, [x, y], naming);
    PairsStand([x, y], [s, t]);
    StrippedScan(x, y, a, b, s, t, naming, op, q);
  }

  lemma {:induction false} StrippedScan(x: ColumnRef, y: ColumnRef, a: ColumnRef, b: ColumnRef, s: ColumnRef,
                                        t: ColumnRef, naming: Expr -> ColumnRef, op: Op, q: Expr)
    requires Distinct([x, y, a, b]) && Disjoint([s, t], [a, b]) && LiveAll(q, AtEither([x, y], [s, t]))
    requires KeptProjection(RowValueExample(y, a, b), [x, y], naming)
    requires OutputColumns(RowValueExample(y, a, b).exprs, naming) == [a, b]
    ensures Scanned(MarkApply(RowValueExample(y, a, b), q, [x, y], naming), [Ok(Other(1)), Ok(Other(2))], op) ==
            [Eval(q, RowEnv([Ok(Other(1)), Ok(Other(2))], op))]
  {
    var row, outer: Row := [Ok(Other(5)), Ok(Other(2))], [Ok(Other(1)), Ok(Other(2))];
    var p := RowValueExample(y, a, b);
    ExampleRows(x, y, a, b, op);
    assert LeafOf(p.child) == p.child.child;
    RowValueOnOneRow(p, q, [s, t], [x, y], naming, outer, op, row);
  }

  lemma {:induction false} PairsStand(left: Schema, temps: Schema)
    ensures LiveAll(Comparison(RowValue(left), RowValue(temps)), AtEither(left, temps))
  {
    var q := Comparison(RowValue(left), RowValue(temps));
    RowValueStands(temps, left);
    forall i | 0 <= i < |left| ensures LiveAll(LiveArgs(q.args[0])[i], AtEither(left, temps)) {
      assert SameColumn(left[i], left[i]);
    }
    assert LiveArgs(q) == q.args;
  }
}
