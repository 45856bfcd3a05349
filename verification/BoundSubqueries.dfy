/** Quantified subqueries as the binder builds them: the subquery is wrapped into a temporary table, the
    comparison reads that table, and both are unwrapped again when the subquery is correlated. */
module BoundSubqueries {
  import opened Expressions
  import opened Rewriting
  import opened JoinSplitting
  import opened CorrelatedSubqueries
  import opened QuantifiedSubqueries

  // ------------------------------------------------------------ what is bound

  predicate IsTemp(c: ColumnRef) {
    c.summary.relation.TableColumn? && c.summary.relation.isTemp
  }

  /** `bind_temp_table_alias`: the output column `c`, read under its temporary name. */
  function TempAlias(temp: ColumnRef, c: ColumnRef, position: nat): Expr {
    Call(AliasExpr, [Column(temp, position), Column(c, position)])
  }

  function TempProjection(temps: Schema, out: Schema): (r: seq<Expr>)
    requires |temps| == |out|
    ensures |r| == |temps|
    ensures forall i :: 0 <= i < |temps| ==> r[i] == TempAlias(temps[i], out[i], i)
  {
    seq(|temps|, i requires 0 <= i < |temps| => TempAlias(temps[i], out[i], i))
  }

  /** A row value of bare columns. */
  function RowValue(columns: Schema): (r: Expr)
    ensures r.Call? && r.head == Operator(Tuple, []) && |r.args| == |columns|
    ensures forall i :: 0 <= i < |columns| ==> r.args[i] == Column(columns[i], i)
  {
    Call(Operator(Tuple, []), seq(|columns|, i requires 0 <= i < |columns| => Column(columns[i], i)))
  }

  function Compare(cmp: BinaryOperator, l: Expr, r: Expr): Expr {
    Call(Binary(cmp, None, BooleanType), [l, r])
  }

  datatype Quantified = Quantified(plan: Plan, comparison: Expr)

  /** `bind_temp_table` and the comparison over it: a single output column is read through its alias,
      a row value through bare temporary columns. */
  function BindQuantified(p: Plan, l: Expr, cmp: BinaryOperator, temps: Schema, rowValue: bool,
                          naming: Expr -> ColumnRef): Quantified
    requires |temps| == |OutputSchema(p, naming)| && (rowValue || |temps| == 1)
  {
    var out := OutputSchema(p, naming);
    Quantified(Project(TempProjection(temps, out), p),
               Compare(cmp, l, if rowValue then RowValue(temps) else TempAlias(temps[0], out[0], 0)))
  }

  function StripAlias(e: Expr): Expr {
    if e.Call? && e.head.AliasExpr? && |e.args| == 2 then e.args[1] else e
  }

  /** `rewrite_correlated_quantified_predicate`. */
  function RewriteComparison(q: Expr): Expr {
    if q.Call? && q.head.Binary? && |q.args| == 2 then
      Call(Binary(q.head.binary, None, q.head.binaryType), [StripAlias(q.args[0]), StripAlias(q.args[1])])
    else q
  }

  /** The mark apply of a correlated subquery. */
  function CorrelatedApply(b: Quantified, left: Schema, naming: Expr -> ColumnRef): Option<MarkPlan> {
    PrepareMarkApply(b.plan, RewriteComparison(b.comparison), left, naming)
  }

  /** The mark apply of an uncorrelated subquery: the plan stays as it is. */
  function UncorrelatedApply(b: Quantified, left: Schema, naming: Expr -> ColumnRef): MarkPlan {
    MarkPlan(b.plan, GlobalizeAll([b.comparison], OutputSchema(b.plan, naming), |left|))
  }

  // --------------------------------------------- projections below the filters

  /** The plan mentions no outer column. */
  predicate ReadsNoOuter(p: Plan, left: Schema) {
    match p
    case Leaf(_, _, _) => true
    case Filter(pred, c) => !AnyColumn(pred, InSchema(left)) && ReadsNoOuter(c, left)
    case Project(exprs, c) =>
      ReadsNoOuter(c, left) && forall j :: 0 <= j < |exprs| ==> !AnyColumn(exprs[j], InSchema(left))
    case Sort(c) => ReadsNoOuter(c, left)
    case Limit(_, c) => ReadsNoOuter(c, left)
  }

  lemma {:induction false} UncorrelatedRows(p: Plan, left: Schema, outer: Row, op: Op)
    requires ReadsNoOuter(p, left)
    ensures Rows(p, left, outer, op) == Rows(p, [], [], op)
    decreases p
  {
    if !p.Leaf? { UncorrelatedRows(p.child, left, outer, op); }
    if p.Project? {
      ProjectRows(p.exprs, p.child, left, outer, op, Projecting(p.exprs, op));
      NothingInEmpty(p.exprs);
      ProjectRows(p.exprs, p.child, [], [], op, Projecting(p.exprs, op));
    } else if p.Filter? {
      var rows := Rows(p.child, [], [], op);
      var with, alone := (row: Row) => Eval(p.condition, SideEnv(left, outer, row, op)) == TRUE,
                         (row: Row) => Eval(p.condition, SideEnv([], [], row, op)) == TRUE;
      forall row | row in rows ensures with(row) <==> alone(row) {
        LocalReadsInner(p.condition, left, outer, row, op);
      }
      KeepSame(rows, with, alone);
    }
  }

  // --------------------------------------------------- what is accepted is standalone

  lemma {:induction false} QuantifiedRefusedIff(b: Quantified, q: Expr, left: Schema, naming: Expr -> ColumnRef)
    ensures PrepareMarkApply(b.plan, q, left, naming).None? <==> ReachesOut(b.plan, left)
    ensures CorrelatedApply(b, left, naming).None? <==> ReachesOut(b.plan, left)
  {
    RefusedIff(b.plan, left, true, naming);
  }

  /** The binder's temporary table does not change what is refused. */
  lemma {:induction false} BoundRefusedIff(p: Plan, l: Expr, cmp: BinaryOperator, temps: Schema, rowValue: bool,
                                           left: Schema, naming: Expr -> ColumnRef)
    requires |temps| == |OutputSchema(p, naming)| && (rowValue || |temps| == 1)
    ensures CorrelatedApply(BindQuantified(p, l, cmp, temps, rowValue, naming), left, naming).None? <==>
            ReachesOut(p, left)
  {
    var b := BindQuantified(p, l, cmp, temps, rowValue, naming);
    QuantifiedRefusedIff(b, b.comparison, left, naming);
    assert Bottom(b.plan) == Bottom(p);
  }

  predicate ProjectionsLocal(p: Plan, left: Schema) {
    match p
    case Leaf(_, _, _) => true
    case Filter(_, c) => ProjectionsLocal(c, left)
    case Sort(c) => ProjectionsLocal(c, left)
    case Limit(_, c) => ProjectionsLocal(c, left)
    case Project(exprs, c) =>
      ProjectionsLocal(c, left) && forall j :: 0 <= j < |exprs| ==> !AnyColumn(exprs[j], InSchema(left))
  }

  /** The plan with the rows that its bottom yields. */
  function Yielding(p: Plan, rows: seq<Row>): Plan {
    match p
    case Leaf(schema, _, refs) => Leaf(schema, rows, refs)
    case Filter(pred, c) => Filter(pred, Yielding(c, rows))
    case Project(exprs, c) => Project(exprs, Yielding(c, rows))
    case Sort(c) => Sort(Yielding(c, rows))
    case Limit(n, c) => Limit(n, Yielding(c, rows))
  }

  lemma {:induction false} CombinedMentionsLess(es: seq<Expr>, p: ColumnRef -> bool)
    requires forall x :: x in es ==> !AnyColumn(x, p)
    ensures var e := CombineConjuncts(es); e.Some? ==> !AnyColumn(e.value, p)
  {
    if |es| > 1 {
      var n := |es| - 1;
      CombinedMentionsLess(es[..n], p);
      var e := CombineConjuncts(es).value;
      assert e.args[1] == es[n] && es[n] in es;
    } else if |es| == 1 {
      assert es[0] in es;
    }
  }

  /** What is left of an accepted plan mentions no outer column. */
  lemma {:induction false} AcceptedReadsNoOuter(p: Plan, left: Schema, preserve: bool, naming: Expr -> ColumnRef,
                                                rows: seq<Row>)
    requires Prepare(p, left, preserve, naming).Prepared? && ProjectionsLocal(p, left)
    ensures ReadsNoOuter(Yielding(Prepare(p, left, preserve, naming).plan, rows), left)
    decreases p
  {
    if !p.Leaf? { AcceptedReadsNoOuter(p.child, left, preserve, naming, rows); }
    if p.Filter? { CombinedMentionsLess(Local(SplitConjuncts(p.condition), left), InSchema(left)); }
  }

  /** An accepted subquery is run once for all outer rows: as long as a bottom without outer references yields the same
      rows whatever the outer row is, so does what the rewrite leaves of the plan.  `supply` gives the bottom's rows
      for an outer row. */
  lemma {:induction false} AcceptedIsStandalone(p: Plan, left: Schema, preserve: bool, naming: Expr -> ColumnRef,
                                                supply: Row -> seq<Row>, outer: Row, other: Row, op: Op)
    requires Prepare(p, left, preserve, naming).Prepared? && ProjectionsLocal(p, left)
    requires !ReachesOut(p, left) ==> forall a: Row, b: Row :: supply(a) == supply(b)
    ensures
      var r := Prepare(p, left, preserve, naming).plan;
      Rows(Yielding(r, supply(outer)), left, outer, op) == Rows(Yielding(r, supply(other)), left, other, op)
  {
    var r := Prepare(p, left, preserve, naming).plan;
    RefusedIff(p, left, preserve, naming);
    assert supply(outer) == supply(other);
    AcceptedReadsNoOuter(p, left, preserve, naming, supply(outer));
    UncorrelatedRows(Yielding(r, supply(outer)), left, outer, op);
    UncorrelatedRows(Yielding(r, supply(outer)), left, other, op);
  }

  // ------------------------------------------------- what the filters stand on

  /** Every row of the plan has `n` cells, as its nearest projection or its leaf has it. */
  ghost predicate Fits(c: Plan, n: nat) {
    match c
    case Leaf(_, rows, _) => forall row :: row in rows ==> |row| == n
    case Project(exprs, _) => |exprs| == n
    case Filter(_, d) => Fits(d, n)
    case Sort(d) => Fits(d, n)
    case Limit(_, d) => Fits(d, n)
  }

  /** A projection that gives each column of its input another name, in place. */
  ghost predicate Renames(exprs: seq<Expr>, c: Plan) {
    && Fits(c, |exprs|)
    && forall j :: 0 <= j < |exprs| ==> Unpack(exprs[j]).Column? && Unpack(exprs[j]).position == j
  }

  /** Where the rewrite takes a temporary alias projection off, it only renames, and no LIMIT is taken off. */
  ghost predicate Strippable(u: Plan, left: Schema) {
    match u
    case Leaf(_, _, _) => !Correlated(u, left)
    case Filter(_, c) => Strippable(c, left)
    case Sort(c) => Strippable(c, left)
    case Project(exprs, c) => Strippable(c, left) && (IsTempAliasProjection(exprs) ==> Renames(exprs, c))
    case Limit(_, _) => false
  }

  /** What a subquery's filters stand on: a table, an aliased table, a view or a derived table. */
  ghost predicate Settled(u: Plan, left: Schema) {
    ReadsNoOuter(u, left) && Strippable(u, left)
  }

  /** Filters and sorts over a settled plan. */
  ghost predicate Groundable(z: Plan, left: Schema) {
    match z
    case Filter(_, c) => Groundable(c, left)
    case Sort(c) => Groundable(c, left)
    case _ => Settled(z, left)
  }

  /** The zone with what it stands on computed: its output is the leaf. */
  function Ground(z: Plan, naming: Expr -> ColumnRef, op: Op): Plan {
    match z
    case Filter(pred, c) => Filter(pred, Ground(c, naming, op))
    case Sort(c) => Sort(Ground(c, naming, op))
    case _ => Leaf(OutputSchema(z, naming), Rows(z, [], [], op), [])
  }

  /** What is left on top once temporary alias projections are taken off: its columns are those the rewritten plan
      shows. */
  function Bared(z: Plan): Plan {
    match z
    case Filter(_, c) => Bared(c)
    case Sort(c) => Bared(c)
    case Project(exprs, c) => if IsTempAliasProjection(exprs) then Bared(c) else z
    case _ => z
  }

  /** Computing what the filters stand on first changes no row, for any outer row. */
  lemma {:induction false} GroundRows(z: Plan, left: Schema, naming: Expr -> ColumnRef, outer: Row, op: Op)
    requires Groundable(z, left)
    ensures Rows(Ground(z, naming, op), left, outer, op) == Rows(z, left, outer, op)
    decreases z
  {
    match z
    case Filter(_, c) => GroundRows(c, left, naming, outer, op);
    case Sort(c) => GroundRows(c, left, naming, outer, op);
    case _ => UncorrelatedRows(z, left, outer, op);
  }

  lemma {:induction false} RowsFit(c: Plan, n: nat, op: Op)
    requires Fits(c, n)
    ensures forall row :: row in Rows(c, [], [], op) ==> |row| == n
    decreases c
  {
    if !c.Leaf? && !c.Project? { RowsFit(c.child, n, op); }
  }

  /** Renaming in place shows the rows of the input. */
  lemma {:induction false} RenamedRows(exprs: seq<Expr>, c: Plan, op: Op)
    requires Renames(exprs, c)
    ensures Rows(Project(exprs, c), [], [], op) == Rows(c, [], [], op)
  {
    var rows, named := Rows(c, [], [], op), Rows(Project(exprs, c), [], [], op);
    RowsFit(c, |exprs|, op);
    forall i | 0 <= i < |rows| ensures named[i] == rows[i] {
      assert rows[i] in rows;
      var env := SideEnv([], [], rows[i], op);
      forall j | 0 <= j < |exprs| ensures named[i][j] == rows[i][j] {
        UnpackEval(exprs[j], env);
        SideReads([], [], rows[i], op, Unpack(exprs[j]).ref, j);
      }
    }
  }

  lemma {:induction false} ConjunctsMentionLess(e: Expr, p: ColumnRef -> bool)
    requires !AnyColumn(e, p)
    ensures forall x :: x in SplitConjuncts(e) ==> !AnyColumn(x, p)
    decreases e
  {
    var x := Unpack(e);
    UnpackMentionsLess(e, p);
    if IsAnd(x) {
      ConjunctsMentionLess(x.args[0], p);
      ConjunctsMentionLess(x.args[1], p);
    }
  }

  lemma {:induction false} UnpackMentionsLess(e: Expr, p: ColumnRef -> bool)
    requires !AnyColumn(e, p)
    ensures !AnyColumn(Unpack(e), p)
    decreases e
  {
    if IsAlias(e) { UnpackMentionsLess(e.args[0], p); }
  }

  lemma {:induction false} NoneCorrelate(es: seq<Expr>, left: Schema)
    requires forall x :: x in es ==> !AnyColumn(x, InSchema(left))
    ensures Correlating(es, left) == []
  {
    if es != [] {
      assert es[0] in es;
      NoneCorrelate(es[1..], left);
    }
  }

  /** A filter without outer columns keeps its conjuncts, put together again. */
  lemma {:induction false} LocalFilterStays(pred: Expr, c: Plan, d: Plan, left: Schema, op: Op)
    requires !AnyColumn(pred, InSchema(left)) && Rows(c, [], [], op) == Rows(d, [], [], op)
    ensures Correlating(SplitConjuncts(pred), left) == []
    ensures
      var local := CombineConjuncts(Local(SplitConjuncts(pred), left));
      Rows(if local.Some? then Filter(local.value, d) else d, [], [], op) == Rows(Filter(pred, c), [], [], op)
  {
    var es := SplitConjuncts(pred);
    ConjunctsMentionLess(pred, InSchema(left));
    NoneCorrelate(es, left);
    var local, rows := CombineConjuncts(Local(es, left)), Rows(c, [], [], op);
    var before := (row: Row) => Eval(pred, SideEnv([], [], row, op)) == TRUE;
    var after := (row: Row) => local.Some? ==> Eval(local.value, SideEnv([], [], row, op)) == TRUE;
    forall row ensures before(row) <==> after(row) {
      var env := SideEnv([], [], row, op);
      LocalReadsInner(pred, left, [], row, op);
      DivideConjuncts(pred, left, [], row, op);
      CombineTrueIffAllTrue(Local(es, left), env);
    }
    KeepSame(rows, before, after);
    if local.Some? {
      KeepSame(rows, after, (row: Row) => Eval(local.value, SideEnv([], [], row, op)) == TRUE);
    } else {
      KeepAll(rows, after);
    }
  }

  /** The rewrite pulls nothing out of a settled plan and leaves its rows, under the columns it lays bare. */
  lemma {:induction false} SettledPrepare(u: Plan, left: Schema, naming: Expr -> ColumnRef, op: Op)
    requires Settled(u, left)
    ensures
      var r := Prepare(u, left, true, naming);
      && r.Prepared? && r.filters == [] && Rows(r.plan, [], [], op) == Rows(u, [], [], op)
      && OutputSchema(r.plan, naming) == OutputSchema(Bared(u), naming)
    decreases u
  {
    if !u.Leaf? { SettledPrepare(u.child, left, naming, op); }
    if u.Filter? {
      LocalFilterStays(u.condition, u.child, Prepare(u.child, left, true, naming).plan, left, op);
    } else if u.Project? && IsTempAliasProjection(u.exprs) {
      RenamedRows(u.exprs, u.child, op);
    }
  }

  /** The rewrite pulls the same filters and leaves the same rows. */
  lemma {:induction false} GroundPrepare(z: Plan, left: Schema, naming: Expr -> ColumnRef, op: Op)
    requires Groundable(z, left)
    ensures
      var r, g := Prepare(z, left, true, naming), Prepare(Ground(z, naming, op), left, true, naming);
      && r.Prepared? && g.Prepared? && r.filters == g.filters
      && Rows(r.plan, [], [], op) == Rows(g.plan, [], [], op)
      && OutputSchema(r.plan, naming) == OutputSchema(Bared(z), naming)
      && OutputSchema(g.plan, naming) == OutputSchema(z, naming)
    decreases z
  {
    match z
    case Filter(_, c) => GroundPrepare(c, left, naming, op);
    case Sort(c) => GroundPrepare(c, left, naming, op);
    case _ => SettledPrepare(z, left, naming, op);
  }

  /** Sorts over the select list's projection over a groundable zone. */
  ghost predicate SubqueryShape(p: Plan, left: Schema) {
    match p
    case Sort(c) => SubqueryShape(c, left)
    case Project(exprs, z) => !IsTempAliasProjection(exprs) && Groundable(z, left)
    case _ => false
  }

  /** The subquery with its sorts dropped and its bottom projections computed. */
  function Core(p: Plan, naming: Expr -> ColumnRef, op: Op): Plan {
    match p
    case Sort(c) => Core(c, naming, op)
    case Project(exprs, z) => Project(exprs, Ground(z, naming, op))
    case _ => p
  }

  lemma {:induction false} CoreRows(p: Plan, left: Schema, naming: Expr -> ColumnRef, outer: Row, op: Op)
    requires SubqueryShape(p, left)
    ensures Rows(Core(p, naming, op), left, outer, op) == Rows(p, left, outer, op)
    ensures OutputSchema(Core(p, naming, op), naming) == OutputSchema(p, naming)
    decreases p
  {
    if p.Sort? {
      CoreRows(p.child, left, naming, outer, op);
    } else {
      GroundRows(p.child, left, naming, outer, op);
    }
  }

  /** No predicate mentions a column of `schema` that the projection does not carry. */
  ghost predicate NothingMissing(schema: Schema, out: Schema, preds: seq<Expr>) {
    forall k :: 0 <= k < |schema| ==> !Missing(schema, out, preds, k)
  }

  lemma {:induction false} NothingAppended(schema: Schema, out: Schema, preds: seq<Expr>, n: nat)
    requires NothingMissing(schema, out, preds) && n <= |schema|
    ensures AppendedUpTo(schema, out, preds, n) == []
  {
    if n > 0 { NothingAppended(schema, out, preds, n - 1); }
  }

  /** The names under which the filters and the comparison read still lead to the same columns: no temporary alias
      projection is taken off below the filters, or they read the select list's columns only. */
  ghost predicate NamesSurvive(p: Plan, q: Expr, left: Schema, naming: Expr -> ColumnRef) {
    match p
    case Sort(c) => NamesSurvive(c, q, left, naming)
    case Project(exprs, z) =>
      var r, shown, bared := Prepare(z, left, true, naming), OutputSchema(z, naming), OutputSchema(Bared(z), naming);
      var out := OutputColumns(exprs, naming);
      r.Prepared? ==>
        var preds := [q] + BindProjections(r.filters, exprs, naming);
        shown == bared || (NothingMissing(shown, out, preds) && NothingMissing(bared, out, preds))
    case _ => true
  }

  /** Filters and sorts that do not stand on a temporary alias projection. */
  predicate Unrenamed(z: Plan) {
    match z
    case Filter(_, c) => Unrenamed(c)
    case Sort(c) => Unrenamed(c)
    case Project(exprs, _) => !IsTempAliasProjection(exprs)
    case _ => true
  }

  /** Over tables, and aliases of tables and of their derived tables, all names survive. */
  lemma {:induction false} UnrenamedSurvive(exprs: seq<Expr>, z: Plan, q: Expr, left: Schema, naming: Expr -> ColumnRef)
    requires Unrenamed(z)
    ensures OutputSchema(Bared(z), naming) == OutputSchema(z, naming)
    ensures NamesSurvive(Project(exprs, z), q, left, naming)
    decreases z
  {
    if z.Filter? || z.Sort? { UnrenamedSurvive(exprs, z.child, q, left, naming); }
  }

  /** Two zones with the same rows get the same mark apply when the same columns are appended for them. */
  lemma {:induction false} SameAim(exprs: seq<Expr>, a: Plan, b: Plan, preds: seq<Expr>, left: Schema,
                                   naming: Expr -> ColumnRef, outer: Row, op: Op)
    requires Rows(a, [], [], op) == Rows(b, [], [], op)
    requires
      var out, shown, bared := OutputColumns(exprs, naming), OutputSchema(a, naming), OutputSchema(b, naming);
      shown == bared || (NothingMissing(shown, out, preds) && NothingMissing(bared, out, preds))
    ensures
      var m, c := AimAtProjection(exprs, a, preds, left, naming), AimAtProjection(exprs, b, preds, left, naming);
      m.predicates == c.predicates && Scanned(m, outer, op) == Scanned(c, outer, op)
  {
    var out, shown, bared := OutputColumns(exprs, naming), OutputSchema(a, naming), OutputSchema(b, naming);
    if shown != bared {
      NothingAppended(shown, out, preds, |shown|);
      NothingAppended(bared, out, preds, |bared|);
    }
  }

  lemma {:induction false} CoreScan(p: Plan, q: Expr, left: Schema, naming: Expr -> ColumnRef, outer: Row, op: Op)
    requires SubqueryShape(p, left) && NamesSurvive(p, q, left, naming)
    ensures
      var m, c := PrepareMarkApply(p, q, left, naming), PrepareMarkApply(Core(p, naming, op), q, left, naming);
      && m.Some? && c.Some? && m.value.predicates == c.value.predicates
      && Scanned(m.value, outer, op) == Scanned(c.value, outer, op)
    decreases p
  {
    if p.Sort? {
      CoreScan(p.child, q, left, naming, outer, op);
    } else {
      GroundPrepare(p.child, left, naming, op);
      var r, g := Prepare(p.child, left, true, naming), Prepare(Core(p, naming, op).child, left, true, naming);
      SameAim(p.exprs, r.plan, g.plan, [q] + BindProjections(r.filters, p.exprs, naming), left, naming, outer, op);
    }
  }

  // ------------------------------------------------------------- one column

  lemma {:induction false} CollectSame(a: seq<Row>, b: seq<Row>, f: Row -> Outcome, g: Row -> Outcome)
    requires |a| == |b| && forall i :: 0 <= i < |a| ==> f(a[i]) == g(b[i])
    ensures Collect(a, _ => true, f) == Collect(b, _ => true, g)
  {
    if a != [] { CollectSame(a[1..], b[1..], f, g); }
  }

  /** A projection of aliased columns is taken for a temporary table exactly when all its alias columns are temporary:
      an aliased base table is kept, and so is everything that shows a column under no alias. */
  lemma {:induction false} TempRecognisedIff(temps: Schema, out: Schema)
    requires |temps| == |out|
    ensures IsTempAliasProjection(TempProjection(temps, out)) <==>
            temps != [] && forall i :: 0 <= i < |temps| ==> IsTemp(temps[i])
  {
    var exprs := TempProjection(temps, out);
    forall i | 0 <= i < |exprs| ensures IsAlias(exprs[i]) && Unpack(exprs[i].args[0]) == Column(temps[i], i) {
    }
  }

  lemma {:induction false} UnaliasedIsKept(exprs: seq<Expr>, i: nat)
    requires i < |exprs| && !(exprs[i].Call? && exprs[i].head.AliasExpr?)
    ensures !IsTempAliasProjection(exprs)
  {
  }

  lemma {:induction false} TempIsStripped(p: Plan, temps: Schema, q: Expr, left: Schema, naming: Expr -> ColumnRef)
    requires |temps| == |OutputSchema(p, naming)| > 0 && forall i :: 0 <= i < |temps| ==> IsTemp(temps[i])
    ensures
      var exprs := TempProjection(temps, OutputSchema(p, naming));
      && IsTempAliasProjection(exprs)
      && PrepareMarkApply(Project(exprs, p), q, left, naming) == PrepareMarkApply(p, q, left, naming)
  {
    var exprs := TempProjection(temps, OutputSchema(p, naming));
    forall i | 0 <= i < |exprs| ensures IsAlias(exprs[i]) && Unpack(exprs[i].args[0]) == Column(temps[i], i) {
    }
  }

  /** A column of the outer schema is read from the outer row, whatever the inner one. */
  lemma {:induction false} OuterReads(l: Expr, left: Schema, outer: Row, row: Row, op: Op)
    requires LiveAll(l, At(left))
    ensures Eval(l, SideEnv(left, outer, row, op)) == Eval(l, RowEnv(outer, op))
  {
    var side, whole := SideEnv(left, outer, row, op), RowEnv(outer, op);
    forall c: ColumnRef, p: nat | At(left)(c, p) ensures whole.col(c, p) == side.col(c, p) {
      AtIsContained(left, c, p);
    }
    LiveAllWeaken(l, At(left), (c: ColumnRef, p: nat) => whole.col(c, p) == side.col(c, p));
    AgreeOnLive(l, whole, side);
  }

  /** Operands with the same outcomes compare alike. */
  lemma {:induction false} CompareSame(cmp: BinaryOperator, a: Expr, b: Expr, c: Expr, d: Expr, envA: Env, envB: Env)
    requires envA.op == envB.op && Eval(a, envA) == Eval(c, envB) && Eval(b, envA) == Eval(d, envB)
    ensures Eval(Compare(cmp, a, b), envA) == Eval(Compare(cmp, c, d), envB)
  {
    SameCall(Compare(cmp, a, b), Compare(cmp, c, d), envA, envB);
  }

  /** Reading the temporary table through its alias is reading the subquery's column. */
  lemma {:induction false} TempOutcomes(p: Plan, l: Expr, s: Expr, cmp: BinaryOperator, temp: ColumnRef, c: ColumnRef,
                                        left: Schema, outer: Row, op: Op)
    requires !Contains(left, temp) && !Contains(left, c)
    requires LiveAll(l, At(left)) && LiveAll(s, At(left)) && Eval(l, RowEnv(outer, op)) == Eval(s, RowEnv(outer, op))
    ensures ComparisonOutcomes(Project([TempAlias(temp, c, 0)], p), Compare(cmp, l, TempAlias(temp, c, 0)), left,
                               outer, op) ==
            ComparisonOutcomes(p, Compare(cmp, s, Column(c, 0)), left, outer, op)
  {
    var alias := TempAlias(temp, c, 0);
    var rows, temps := Rows(p, left, outer, op), Rows(Project([alias], p), left, outer, op);
    var q, stripped := Compare(cmp, l, alias), Compare(cmp, s, Column(c, 0));
    forall i | 0 <= i < |rows|
      ensures Comparing(q, left, outer, op)(temps[i]) == Comparing(stripped, left, outer, op)(rows[i])
    {
      var envA, envB := SideEnv(left, outer, temps[i], op), SideEnv(left, outer, rows[i], op);
      OuterReads(l, left, outer, temps[i], op);
      OuterReads(s, left, outer, rows[i], op);
      UnpackEval(alias, envA);
      UnpackEval(alias, envB);
      assert Unpack(alias) == Column(temp, 0);
      assert temps[i] == ProjectRow([alias], envB) && temps[i][0] == Eval(alias, envB);
      SideReads(left, outer, temps[i], op, temp, 0);
      SideReads(left, outer, rows[i], op, temp, 0);
      SideReads(left, outer, rows[i], op, c, 0);
      CompareSame(cmp, l, alias, s, Column(c, 0), envA, envB);
    }
    CollectSame(temps, rows, Comparing(q, left, outer, op), Comparing(stripped, left, outer, op));
  }

  lemma {:induction false} ComparisonIsPlaced(cmp: BinaryOperator, l: Expr, left: Schema, out: Schema)
    requires LiveAll(l, At(left)) && |out| > 0
    ensures LiveAll(Compare(cmp, l, Column(out[0], 0)), AtEither(left, out))
  {
    var q := Compare(cmp, l, Column(out[0], 0));
    forall c: ColumnRef, p: nat | At(left)(c, p) ensures AtEither(left, out)(c, p) {
    }
    LiveAllWeaken(l, At(left), AtEither(left, out));
    assert SameColumn(out[0], out[0]) && LiveAll(q.args[1], AtEither(left, out));
    assert LiveArgs(q) == q.args;
  }

  /** A correlated subquery of one column, compared with an outer expression, as the binder hands it over. */
  ghost predicate OneColumn(p: Plan, l: Expr, cmp: BinaryOperator, temp: ColumnRef, left: Schema,
                            naming: Expr -> ColumnRef, op: Op)
  {
    && SubqueryShape(p, left) && KeptProjection(Core(p, naming, op), left, naming) && |OutputSchema(p, naming)| == 1
    && NamesSurvive(p, Compare(cmp, StripAlias(l), Column(OutputSchema(p, naming)[0], 0)), left, naming)
    && IsTemp(temp) && !Contains(left, temp)
    && LiveAll(l, At(left)) && LiveAll(StripAlias(l), At(left))
  }

  /** Correlated IN, ANY and ALL over one column, as the binder builds them: for every outer row, the outcomes
      the mark apply scans over the rewritten plan, run without the outer row, are, in order, the comparison's
      outcomes on the temporary table.  An expression alias is stripped off the left operand too; that is
      harmless when its branches agree on the outer row. */
  lemma {:induction false} QuantifiedRewritePreservesMeaning(p: Plan, l: Expr, cmp: BinaryOperator, temp: ColumnRef,
                                                             left: Schema, naming: Expr -> ColumnRef, outer: Row,
                                                             op: Op)
    requires OneColumn(p, l, cmp, temp, left, naming, op) && |outer| == |left|
    ensures
      var b := BindQuantified(p, l, cmp, [temp], false, naming);
      var m, aliased := CorrelatedApply(b, left, naming), Compare(cmp, StripAlias(l), b.comparison.args[1]);
      && m.Some? && Scanned(m.value, outer, op) == ComparisonOutcomes(b.plan, aliased, left, outer, op)
      && (Eval(StripAlias(l), RowEnv(outer, op)) == Eval(l, RowEnv(outer, op)) ==>
            Scanned(m.value, outer, op) == ComparisonOutcomes(b.plan, b.comparison, left, outer, op))
  {
    var b, core, c := BindQuantified(p, l, cmp, [temp], false, naming), Core(p, naming, op), OutputSchema(p, naming)[0];
    var q := Compare(cmp, StripAlias(l), Column(c, 0));
    assert RewriteComparison(b.comparison) == q;
    assert TempProjection([temp], OutputSchema(p, naming)) == [TempAlias(temp, c, 0)];
    TempIsStripped(p, [temp], q, left, naming);
    CoreRows(p, left, naming, outer, op);
    CoreScan(p, q, left, naming, outer, op);
    OutputStands(0, left, OutputColumns(core.exprs, naming), LeafOf(core.child).schema);
    ComparisonIsPlaced(cmp, StripAlias(l), left, OutputColumns(core.exprs, naming));
    ScanPreservesMeaning(core, q, left, naming, outer, op);
    TempOutcomes(p, StripAlias(l), StripAlias(l), cmp, temp, c, left, outer, op);
    if Eval(StripAlias(l), RowEnv(outer, op)) == Eval(l, RowEnv(outer, op)) {
      TempOutcomes(p, l, StripAlias(l), cmp, temp, c, left, outer, op);
    }
  }

  lemma {:induction false} CollectLength(rows: seq<Row>, f: Row -> Outcome)
    ensures |Collect(rows, _ => true, f)| == |rows|
  {
    if rows != [] { CollectLength(rows[1..], f); }
  }

  /** A LIMIT on the subquery is stripped: the scan is still the comparison's outcomes exactly when the limit
      cuts nothing off. */
  lemma {:induction false} LimitIsStripped(n: nat, p: Plan, l: Expr, cmp: BinaryOperator, temp: ColumnRef, left: Schema,
                                           naming: Expr -> ColumnRef, outer: Row, op: Op)
    requires OneColumn(p, l, cmp, temp, left, naming, op) && |outer| == |left|
    ensures
      var b := BindQuantified(Limit(n, p), l, cmp, [temp], false, naming);
      var m, aliased := CorrelatedApply(b, left, naming), Compare(cmp, StripAlias(l), b.comparison.args[1]);
      && m.Some?
      && (Scanned(m.value, outer, op) == ComparisonOutcomes(b.plan, aliased, left, outer, op) <==>
            |Rows(p, left, outer, op)| <= n)
  {
    var whole, cut := BindQuantified(p, l, cmp, [temp], false, naming),
                      BindQuantified(Limit(n, p), l, cmp, [temp], false, naming);
    QuantifiedRewritePreservesMeaning(p, l, cmp, temp, left, naming, outer, op);
    LimitLeavesApply(n, p, whole.plan.exprs, RewriteComparison(whole.comparison), left, naming);
    LimitCutsOutcomes(n, p, whole.plan.exprs, Compare(cmp, StripAlias(l), cut.comparison.args[1]), left, outer, op);
    assert cut == Quantified(Project(whole.plan.exprs, Limit(n, p)), whole.comparison);
  }

  lemma {:induction false} LimitLeavesApply(n: nat, p: Plan, exprs: seq<Expr>, q: Expr, left: Schema,
                                            naming: Expr -> ColumnRef)
    ensures PrepareMarkApply(Project(exprs, Limit(n, p)), q, left, naming) ==
            PrepareMarkApply(Project(exprs, p), q, left, naming)
  {
    assert Prepare(Limit(n, p), left, true, naming) == Prepare(p, left, true, naming);
  }

  lemma {:induction false} LimitCutsOutcomes(n: nat, p: Plan, exprs: seq<Expr>, q: Expr, left: Schema, outer: Row,
                                             op: Op)
    ensures
      var whole, cut := Project(exprs, p), Project(exprs, Limit(n, p));
      ComparisonOutcomes(cut, q, left, outer, op) == ComparisonOutcomes(whole, q, left, outer, op) <==>
        |Rows(p, left, outer, op)| <= n
  {
    CollectLength(Rows(Project(exprs, p), left, outer, op), Comparing(q, left, outer, op));
    CollectLength(Rows(Project(exprs, Limit(n, p)), left, outer, op), Comparing(q, left, outer, op));
    if |Rows(p, left, outer, op)| <= n {
      assert Rows(Limit(n, p), left, outer, op) == Rows(p, left, outer, op);
    }
  }

  // ------------------------------------------------------------ uncorrelated

  /** An uncorrelated quantified subquery, single column or row value: the mark apply scans the comparison's
      outcomes. */
  lemma {:induction false} UncorrelatedScan(b: Quantified, left: Schema, naming: Expr -> ColumnRef, outer: Row, op: Op)
    requires b.plan.Project? && ReadsNoOuter(b.plan, left) && Disjoint(left, OutputSchema(b.plan, naming)) &&
             |outer| == |left|
    requires LiveAll(b.comparison, AtEither(left, OutputSchema(b.plan, naming)))
    ensures Scanned(UncorrelatedApply(b, left, naming), outer, op) ==
            ComparisonOutcomes(b.plan, b.comparison, left, outer, op)
  {
    var m, right := UncorrelatedApply(b, left, naming), OutputSchema(b.plan, naming);
    UncorrelatedRows(b.plan, left, outer, op);
    var rows := Rows(b.plan, [], [], op);
    var outA, outB, test := Comparing(b.comparison, left, outer, op), MarkOutcome(m.predicates, outer, op),
        MarkTest(m.predicates, outer, op);
    AtEitherIsPlaced(b.comparison, left, right);
    forall i | 0 <= i < |rows| ensures test(rows[i]) && outB(rows[i]) == outA(rows[i]) {
      GlobalizedFilter(b.comparison, left, right, outer, rows[i], op);
    }
    CollectAll(rows, test, outB);
    CollectSame(rows, rows, outB, outA);
  }

  lemma {:induction false} TempSchema(temps: Schema, out: Schema, naming: Expr -> ColumnRef)
    requires |temps| == |out|
    ensures OutputColumns(TempProjection(temps, out), naming) == temps
  {
    forall i | 0 <= i < |temps| ensures OutputColumns(TempProjection(temps, out), naming)[i] == temps[i] {
      assert OutputColumn(Column(temps[i], i), naming) == temps[i];
    }
  }

  lemma {:induction false} RowValueStands(temps: Schema, left: Schema)
    ensures LiveAll(RowValue(temps), AtEither(left, temps))
  {
    var r := RowValue(temps);
    forall i | 0 <= i < |r.args| ensures LiveAll(LiveArgs(r)[i], AtEither(left, temps)) {
      assert SameColumn(temps[i], temps[i]);
    }
  }

  lemma {:induction false} TempProjectionReadsNoOuter(temps: Schema, out: Schema, left: Schema)
    requires |temps| == |out| && Disjoint(left, temps) && Disjoint(left, out)
    ensures forall j :: 0 <= j < |temps| ==> !AnyColumn(TempProjection(temps, out)[j], InSchema(left))
  {
    forall j | 0 <= j < |temps| ensures !AnyColumn(TempProjection(temps, out)[j], InSchema(left)) {
      var e := TempProjection(temps, out)[j];
      assert SameColumn(temps[j], temps[j]) && SameColumn(out[j], out[j]);
      NeverInBoth(left, temps, temps[j]);
      NeverInBoth(left, out, out[j]);
      assert !AnyColumn(e.args[0], InSchema(left)) && !AnyColumn(e.args[1], InSchema(left));
    }
  }

  /** Uncorrelated IN, ANY and ALL as the binder builds them, over one column or a row value. */
  lemma {:induction false} UncorrelatedPreservesMeaning(p: Plan, l: Expr, cmp: BinaryOperator, temps: Schema,
                                                        rowValue: bool, left: Schema, naming: Expr -> ColumnRef,
                                                        outer: Row, op: Op)
    requires |temps| == |OutputSchema(p, naming)| && (rowValue || |temps| == 1)
    requires ReadsNoOuter(p, left) && Disjoint(left, temps) && Disjoint(left, OutputSchema(p, naming))
    requires LiveAll(l, At(left)) && |outer| == |left|
    ensures
      var b := BindQuantified(p, l, cmp, temps, rowValue, naming);
      Scanned(UncorrelatedApply(b, left, naming), outer, op) ==
        ComparisonOutcomes(b.plan, b.comparison, left, outer, op)
  {
    var b, out := BindQuantified(p, l, cmp, temps, rowValue, naming), OutputSchema(p, naming);
    TempSchema(temps, out, naming);
    TempProjectionReadsNoOuter(temps, out, left);
    forall c: ColumnRef, pos: nat | At(left)(c, pos) ensures AtEither(left, temps)(c, pos) {
    }
    LiveAllWeaken(l, At(left), AtEither(left, temps));
    var r := b.comparison.args[1];
    if rowValue {
      RowValueStands(temps, left);
    } else {
      assert SameColumn(temps[0], temps[0]) && LiveAll(r.args[0], AtEither(left, temps));
    }
    assert LiveArgs(b.comparison) == b.comparison.args;
    UncorrelatedScan(b, left, naming, outer, op);
  }

  lemma {:induction false} CollectAll(rows: seq<Row>, test: Row -> bool, out: Row -> Outcome)
    requires forall i :: 0 <= i < |rows| ==> test(rows[i])
    ensures Collect(rows, test, out) == Collect(rows, _ => true, out)
  {
    if rows != [] { CollectAll(rows[1..], test, out); }
  }
}
