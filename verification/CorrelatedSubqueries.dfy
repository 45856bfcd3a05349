/** Correlated EXISTS and quantified subqueries: pulling correlated filters out of the
    subquery plan and re-aiming them at the concatenated row of a mark apply. */
module CorrelatedSubqueries {
  import opened Expressions
  import opened Rewriting
  import opened JoinSplitting

  /** A subquery plan.  `Leaf` is any plan that is not one of the other operators; `refs`
      are the columns its operators reference. */
  datatype Plan =
    | Leaf(schema: Schema, rows: seq<Row>, refs: seq<ColumnRef>)
    | Filter(condition: Expr, child: Plan)
    | Project(exprs: seq<Expr>, child: Plan)
    | Sort(child: Plan)
    | Limit(limit: nat, child: Plan)

  /** The column an expression contributes to an output schema.  `naming` allocates the
      column of a computed expression. */
  function OutputColumn(e: Expr, naming: Expr -> ColumnRef): ColumnRef
    decreases e
  {
    if e.Column? then e.ref
    else if IsAlias(e) && e.head.AliasExpr? then OutputColumn(e.args[0], naming)
    else naming(e)
  }

  function OutputColumns(exprs: seq<Expr>, naming: Expr -> ColumnRef): (out: Schema)
    ensures |out| == |exprs|
    ensures forall i :: 0 <= i < |exprs| ==> out[i] == OutputColumn(exprs[i], naming)
  {
    seq(|exprs|, i requires 0 <= i < |exprs| => OutputColumn(exprs[i], naming))
  }

  function OutputSchema(p: Plan, naming: Expr -> ColumnRef): Schema {
    match p
    case Leaf(schema, _, _) => schema
    case Filter(_, c) => OutputSchema(c, naming)
    case Project(exprs, _) => OutputColumns(exprs, naming)
    case Sort(c) => OutputSchema(c, naming)
    case Limit(_, c) => OutputSchema(c, naming)
  }

  // ------------------------------------------------------------- plan meaning

  function Keep(rows: seq<Row>, test: Row -> bool): (r: seq<Row>)
    ensures forall row :: row in r <==> row in rows && test(row)
  {
    if rows == [] then []
    else (if test(rows[0]) then [rows[0]] else []) + Keep(rows[1..], test)
  }

  function ProjectRow(exprs: seq<Expr>, env: Env): (r: Row)
    ensures |r| == |exprs|
    ensures forall i :: 0 <= i < |exprs| ==> r[i] == Eval(exprs[i], env)
  {
    EvalArgs(exprs, env)
  }

  /** The rows of a plan for one outer row.  A filter keeps the rows on which its predicate
      is TRUE; outer columns are read from the outer row. */
  function Rows(p: Plan, left: Schema, outer: Row, op: Op): seq<Row> {
    match p
    case Leaf(_, rows, _) => rows
    case Filter(pred, c) =>
      Keep(Rows(c, left, outer, op), (row: Row) => Eval(pred, SideEnv(left, outer, row, op)) == TRUE)
    case Project(exprs, c) =>
      var rows := Rows(c, left, outer, op);
      seq(|rows|, i requires 0 <= i < |rows| => ProjectRow(exprs, SideEnv(left, outer, rows[i], op)))
    case Sort(c) => Rows(c, left, outer, op)
    case Limit(n, c) =>
      var rows := Rows(c, left, outer, op);
      if n <= |rows| then rows[..n] else rows
  }

  // -------------------------------------------------------------- the rewrite

  /** `plan_has_correlated_refs` on a leaf. */
  predicate Correlated(p: Plan, left: Schema)
    requires p.Leaf?
  {
    exists i :: 0 <= i < |p.refs| && Contains(left, p.refs[i])
  }

  function InSchema(schema: Schema): ColumnRef -> bool {
    (c: ColumnRef) => Contains(schema, c)
  }

  function Correlating(es: seq<Expr>, left: Schema): (r: seq<Expr>)
    ensures forall e :: e in r <==> e in es && AnyColumn(e, InSchema(left))
  {
    if es == [] then []
    else (if AnyColumn(es[0], InSchema(left)) then [es[0]] else []) + Correlating(es[1..], left)
  }

  function Local(es: seq<Expr>, left: Schema): (r: seq<Expr>)
    ensures forall e :: e in r <==> e in es && !AnyColumn(e, InSchema(left))
  {
    if es == [] then []
    else (if AnyColumn(es[0], InSchema(left)) then [] else [es[0]]) + Local(es[1..], left)
  }

  /** A projection that only renames its input into a temporary table. */
  predicate IsTempAliasProjection(exprs: seq<Expr>) {
    exprs != [] &&
    forall i :: 0 <= i < |exprs| ==>
      var e := exprs[i];
      IsAlias(e) && e.head.AliasExpr? &&
      var u := Unpack(e.args[0]);
      u.Column? && u.ref.summary.relation.TableColumn? && u.ref.summary.relation.isTemp
  }

  /** The first projected expression that equals `e`. */
  function FindOutput(exprs: seq<Expr>, e: Expr): (i: nat)
    ensures i <= |exprs|
    ensures i < |exprs| ==> EqIgnore(exprs[i], e)
    ensures forall k :: 0 <= k < i ==> !EqIgnore(exprs[k], e)
  {
    if exprs == [] then 0
    else if EqIgnore(exprs[0], e) then 0
    else
      var r := 1 + FindOutput(exprs[1..], e);
      assert forall k :: 1 <= k < r ==> exprs[k] == exprs[1..][k - 1];
      r
  }

  /** `ProjectionOutputBinder`: subexpressions that a projection computes become
      references to its output. */
  function BindProjection(e: Expr, exprs: seq<Expr>, naming: Expr -> ColumnRef): Expr
    decreases e
  {
    var j := FindOutput(exprs, e);
    if j < |exprs| then Column(OutputColumn(exprs[j], naming), j)
    else match e
      case Column(_, _) => e
      case Call(head, args) =>
        Call(head, seq(|args|, i requires 0 <= i < |args| => BindProjection(args[i], exprs, naming)))
  }

  function BindProjections(es: seq<Expr>, exprs: seq<Expr>, naming: Expr -> ColumnRef): (r: seq<Expr>)
    ensures |r| == |es|
    ensures forall i :: 0 <= i < |es| ==> r[i] == BindProjection(es[i], exprs, naming)
  {
    seq(|es|, i requires 0 <= i < |es| => BindProjection(es[i], exprs, naming))
  }

  datatype Prepared = Prepared(plan: Plan, filters: seq<Expr>) | Unsupported

  function Prepare(p: Plan, left: Schema, preserve: bool, naming: Expr -> ColumnRef): Prepared {
    match p
    case Filter(pred, c) => (
      match Prepare(c, left, preserve, naming)
      case Unsupported => Unsupported
      case Prepared(child, filters) =>
        var es := SplitConjuncts(pred);
        var local := CombineConjuncts(Local(es, left));
        Prepared(if local.Some? then Filter(local.value, child) else child, filters + Correlating(es, left))
      )
    case Project(exprs, c) => (
      match Prepare(c, left, preserve, naming)
      case Unsupported => Unsupported
      case Prepared(child, filters) =>
        if !preserve || IsTempAliasProjection(exprs) then Prepared(child, filters)
        else Prepared(Project(exprs, child), BindProjections(filters, exprs, naming))
      )
    case Sort(c) => Prepare(c, left, preserve, naming)
    case Limit(_, c) => Prepare(c, left, preserve, naming)
    case Leaf(_, _, _) => if Correlated(p, left) then Unsupported else Prepared(p, [])
  }

  // --------------------------------------------------------- what is refused

  /** The plan below all filters, projections, sorts and limits. */
  function Bottom(p: Plan): (b: Plan)
    ensures b.Leaf?
  {
    match p
    case Leaf(_, _, _) => p
    case Filter(_, c) => Bottom(c)
    case Project(_, c) => Bottom(c)
    case Sort(c) => Bottom(c)
    case Limit(_, c) => Bottom(c)
  }

  /** Some operator below all filters, projections, sorts and limits references an outer column. */
  ghost predicate ReachesOut(p: Plan, left: Schema) {
    exists c :: c in Bottom(p).refs && Contains(left, c)
  }

  /** Only filters may be correlated: a plan is refused exactly when something below them references an outer
      column, whatever stands above it. */
  lemma {:induction false} RefusedIff(p: Plan, left: Schema, preserve: bool, naming: Expr -> ColumnRef)
    ensures Prepare(p, left, preserve, naming).Unsupported? <==> ReachesOut(p, left)
    decreases p
  {
    if p.Leaf? {
      if Correlated(p, left) {
        var i :| 0 <= i < |p.refs| && Contains(left, p.refs[i]);
        assert p.refs[i] in Bottom(p).refs;
      }
      if ReachesOut(p, left) {
        var c :| c in Bottom(p).refs && Contains(left, c);
        var i :| 0 <= i < |p.refs| && p.refs[i] == c;
      }
    } else {
      RefusedIff(p.child, left, preserve, naming);
    }
  }

  // ------------------------------------------------------ pulling filters up

  /** Filters and sorts over a leaf: the part of a plan whose predicates all read leaf rows. */
  predicate FilterZone(p: Plan) {
    match p
    case Leaf(_, _, _) => true
    case Filter(_, c) => FilterZone(c)
    case Sort(c) => FilterZone(c)
    case _ => false
  }

  function LeafOf(p: Plan): (leaf: Plan)
    requires FilterZone(p)
    ensures leaf.Leaf?
  {
    match p
    case Leaf(_, _, _) => p
    case Filter(_, c) => LeafOf(c)
    case Sort(c) => LeafOf(c)
  }

  /** A live column stands at its place in the outer schema or in `inner`. */
  function AtEither(left: Schema, inner: Schema): (ColumnRef, nat) -> bool {
    (c: ColumnRef, p: nat) => (p < |left| && SameColumn(left[p], c)) || (p < |inner| && SameColumn(inner[p], c))
  }

  ghost predicate ZoneBound(p: Plan, left: Schema)
    requires FilterZone(p)
  {
    match p
    case Leaf(_, _, _) => true
    case Filter(pred, c) => LiveAll(pred, AtEither(left, LeafOf(p).schema)) && ZoneBound(c, left)
    case Sort(c) => ZoneBound(c, left)
  }

  /** A leaf row passes every filter of the zone for an outer row. */
  predicate Passes(p: Plan, left: Schema, outer: Row, op: Op, row: Row)
    requires FilterZone(p)
  {
    match p
    case Leaf(_, _, _) => true
    case Filter(pred, c) => Passes(c, left, outer, op, row) && Eval(pred, SideEnv(left, outer, row, op)) == TRUE
    case Sort(c) => Passes(c, left, outer, op, row)
  }

  lemma {:induction false} KeepKeep(rows: seq<Row>, a: Row -> bool, b: Row -> bool, both: Row -> bool)
    requires forall row :: both(row) <==> a(row) && b(row)
    ensures Keep(Keep(rows, a), b) == Keep(rows, both)
  {
    if rows != [] {
      KeepKeep(rows[1..], a, b, both);
      if a(rows[0]) {
        assert Keep(rows, a)[0] == rows[0] && Keep(rows, a)[1..] == Keep(rows[1..], a);
      } else {
        assert Keep(rows, a) == Keep(rows[1..], a);
      }
    }
  }

  lemma {:induction false} KeepAll(rows: seq<Row>, test: Row -> bool)
    requires forall row :: test(row)
    ensures Keep(rows, test) == rows
  {
    if rows != [] { KeepAll(rows[1..], test); }
  }

  function Passing(p: Plan, left: Schema, outer: Row, op: Op): Row -> bool
    requires FilterZone(p)
  {
    (row: Row) => Passes(p, left, outer, op, row)
  }

  lemma {:induction false} ZoneRows(p: Plan, left: Schema, outer: Row, op: Op)
    requires FilterZone(p)
    ensures Rows(p, left, outer, op) == Keep(LeafOf(p).rows, Passing(p, left, outer, op))
  {
    match p
    case Leaf(_, rows, _) =>
      KeepAll(rows, Passing(p, left, outer, op));
    case Filter(pred, c) =>
      ZoneRows(c, left, outer, op);
      KeepKeep(LeafOf(p).rows, Passing(c, left, outer, op),
               (row: Row) => Eval(pred, SideEnv(left, outer, row, op)) == TRUE, Passing(p, left, outer, op));
    case Sort(c) =>
      ZoneRows(c, left, outer, op);
      KeepSame(LeafOf(p).rows, Passing(c, left, outer, op), Passing(p, left, outer, op));
  }

  lemma {:induction false} KeepSame(rows: seq<Row>, a: Row -> bool, b: Row -> bool)
    requires forall row :: row in rows ==> (a(row) <==> b(row))
    ensures Keep(rows, a) == Keep(rows, b)
  {
    if rows != [] { KeepSame(rows[1..], a, b); }
  }

  /** A predicate without outer columns reads the inner row only. */
  lemma LocalReadsInner(e: Expr, left: Schema, outer: Row, row: Row, op: Op)
    requires !AnyColumn(e, InSchema(left))
    ensures Eval(e, SideEnv(left, outer, row, op)) == Eval(e, SideEnv([], [], row, op))
  {
    var before, after := SideEnv([], [], row, op), SideEnv(left, outer, row, op);
    NotAnyIsAllNot(e, InSchema(left));
    AllColumnsIsLive(e, c => !InSchema(left)(c));
    var unseen, same := (c: ColumnRef, pos: nat) => !Contains(left, c), (c: ColumnRef, p: nat) => before.col(c, p) ==
        after.col(c, p);
    forall c: ColumnRef, pos: nat | unseen(c, pos) ensures same(c, pos) {
    }
    LiveAllWeaken(e, (c, pos) => (c => !InSchema(left)(c))(c), unseen);
    LiveAllWeaken(e, unseen, same);
    AgreeOnLive(e, before, after);
  }

  /** The conjuncts of a filter, divided into local and correlated ones. */
  lemma DivideConjuncts(pred: Expr, left: Schema, outer: Row, row: Row, op: Op)
    ensures
      var es := SplitConjuncts(pred);
      Eval(pred, SideEnv(left, outer, row, op)) == TRUE <==>
        && AllTrue(Local(es, left), SideEnv([], [], row, op))
        && AllTrue(Correlating(es, left), SideEnv(left, outer, row, op))
  {
    var es, env, inner := SplitConjuncts(pred), SideEnv(left, outer, row, op), SideEnv([], [], row, op);
    SplitTrueIffAllTrue(pred, env);
    AllTrueMembers(es, env);
    AllTrueMembers(Local(es, left), inner);
    AllTrueMembers(Correlating(es, left), env);
    forall e | e in es && !AnyColumn(e, InSchema(left)) ensures Eval(e, env) == Eval(e, inner) {
      LocalReadsInner(e, left, outer, row, op);
    }
  }

  lemma AllTrueMembers(es: seq<Expr>, env: Env)
    ensures AllTrue(es, env) <==> forall e :: e in es ==> Eval(e, env) == TRUE
  {
    assert forall i :: 0 <= i < |es| ==> es[i] in es;
  }

  /** Pulling filters out of a zone: the rewritten zone is free of the outer row, and a leaf
      row passes the original exactly when it passes what is left and every pulled filter. */
  lemma {:induction false} PullUp(p: Plan, left: Schema, preserve: bool, naming: Expr -> ColumnRef, outer: Row, op: Op,
                                  row: Row)
    requires FilterZone(p) && !Correlated(LeafOf(p), left)
    ensures
      var r := Prepare(p, left, preserve, naming);
      && r.Prepared? && FilterZone(r.plan) && LeafOf(r.plan) == LeafOf(p)
      && (Passes(p, left, outer, op, row) <==>
            Passes(r.plan, [], [], op, row) && AllTrue(r.filters, SideEnv(left, outer, row, op)))
  {
    match p
    case Leaf(_, _, _) =>
    case Sort(c) => PullUp(c, left, preserve, naming, outer, op, row);
    case Filter(pred, c) =>
      PullUp(c, left, preserve, naming, outer, op, row);
      DivideConjuncts(pred, left, outer, row, op);
      var es := SplitConjuncts(pred);
      CombineTrueIffAllTrue(Local(es, left), SideEnv([], [], row, op));
      AllTrueAppend(Prepare(c, left, preserve, naming).filters, Correlating(es, left), SideEnv(left, outer, row, op));
  }

  // -------------------------------------------------------------------- EXISTS

  /** Filters, projections and sorts, in any order, over a leaf. */
  predicate Stack(p: Plan) {
    match p
    case Leaf(_, _, _) => true
    case Filter(_, c) => Stack(c)
    case Project(_, c) => Stack(c)
    case Sort(c) => Stack(c)
    case Limit(_, _) => false
  }

  /** The filters of a stack, without what lies between them. */
  function Flat(p: Plan): (z: Plan)
    requires Stack(p)
    ensures FilterZone(z)
  {
    match p
    case Leaf(_, _, _) => p
    case Filter(pred, c) => Filter(pred, Flat(c))
    case Project(_, c) => Flat(c)
    case Sort(c) => Flat(c)
  }

  function BaseOf(p: Plan): Plan
    requires Stack(p)
  {
    LeafOf(Flat(p))
  }

  /** The leaf position that a position of the stack's output shows, if projections only hand it on. */
  function Trace(p: Plan, left: Schema, pos: nat): Option<nat>
    requires Stack(p)
    decreases p
  {
    match p
    case Leaf(_, _, _) => Some(pos)
    case Filter(_, c) => Trace(c, left, pos)
    case Sort(c) => Trace(c, left, pos)
    case Project(exprs, c) =>
      if pos >= |exprs| then None
      else
        var u := Unpack(exprs[pos]);
        if u.Column? && !Contains(left, u.ref) then Trace(c, left, u.position) else None
  }

  /** A live column stands at its place in the outer schema, or at its place in the leaf with every
      projection below handing on that very position. */
  function Reaches(c: Plan, left: Schema): (ColumnRef, nat) -> bool
    requires Stack(c)
  {
    var base := BaseOf(c).schema;
    (r: ColumnRef, pos: nat) =>
      || (pos < |left| && SameColumn(left[pos], r))
      || (pos < |base| && SameColumn(base[pos], r) && Trace(c, left, pos) == Some(pos))
  }

  ghost predicate StackBound(p: Plan, left: Schema)
    requires Stack(p)
  {
    match p
    case Leaf(_, _, _) => true
    case Filter(pred, c) => LiveAll(pred, Reaches(c, left)) && StackBound(c, left)
    case Project(_, c) => StackBound(c, left)
    case Sort(c) => StackBound(c, left)
  }

  function GlobalizeAll(es: seq<Expr>, right: Schema, leftLen: nat): (r: seq<Expr>)
    ensures |r| == |es|
    ensures forall i :: 0 <= i < |es| ==> r[i] == MapPositions(es[i], Globalize(right, leftLen))
  {
    seq(|es|, i requires 0 <= i < |es| => MapPositions(es[i], Globalize(right, leftLen)))
  }

  /** The EXISTS marker: some right row makes every predicate TRUE on the joined row. */
  ghost predicate MarkExists(rows: seq<Row>, preds: seq<Expr>, outer: Row, op: Op) {
    exists row :: row in rows && Marks(preds, outer, op)(row)
  }

  ghost function Marks(preds: seq<Expr>, outer: Row, op: Op): Row -> bool {
    (row: Row) => AllTrue(preds, RowEnv(outer + row, op))
  }

  /** What the projections make of a leaf row. */
  function Image(p: Plan, left: Schema, outer: Row, op: Op, row: Row): Row
    requires Stack(p)
  {
    match p
    case Leaf(_, _, _) => row
    case Filter(_, c) => Image(c, left, outer, op, row)
    case Sort(c) => Image(c, left, outer, op, row)
    case Project(exprs, c) => ProjectRow(exprs, SideEnv(left, outer, Image(c, left, outer, op, row), op))
  }

  function Imaging(p: Plan, left: Schema, outer: Row, op: Op): Row -> Row
    requires Stack(p)
  {
    (row: Row) => Image(p, left, outer, op, row)
  }

  function Mapped(rows: seq<Row>, f: Row -> Row): (r: seq<Row>)
    ensures |r| == |rows|
    ensures forall i :: 0 <= i < |rows| ==> r[i] == f(rows[i])
  {
    if rows == [] then [] else [f(rows[0])] + Mapped(rows[1..], f)
  }

  /** Every filter is TRUE on what it gets to see of a leaf row. */
  predicate StackPasses(p: Plan, left: Schema, outer: Row, op: Op, row: Row)
    requires Stack(p)
  {
    match p
    case Leaf(_, _, _) => true
    case Filter(pred, c) =>
      && StackPasses(c, left, outer, op, row)
      && Eval(pred, SideEnv(left, outer, Image(c, left, outer, op, row), op)) == TRUE
    case Project(_, c) => StackPasses(c, left, outer, op, row)
    case Sort(c) => StackPasses(c, left, outer, op, row)
  }

  function StackPassing(p: Plan, left: Schema, outer: Row, op: Op): Row -> bool
    requires Stack(p)
  {
    (row: Row) => StackPasses(p, left, outer, op, row)
  }

  lemma {:induction false} KeepMapped(rows: seq<Row>, f: Row -> Row, test: Row -> bool, before: Row -> bool)
    requires forall row :: before(row) <==> test(f(row))
    ensures Keep(Mapped(rows, f), test) == Mapped(Keep(rows, before), f)
  {
    if rows != [] {
      KeepMapped(rows[1..], f, test, before);
      assert Mapped(rows, f)[1..] == Mapped(rows[1..], f);
      if before(rows[0]) {
        assert Keep(rows, before)[1..] == Keep(rows[1..], before);
      } else {
        assert Keep(rows, before) == Keep(rows[1..], before);
      }
    }
  }

  lemma {:induction false} FilteredRows(pred: Expr, c: Plan, left: Schema, outer: Row, op: Op)
    requires Stack(c)
    requires Rows(c, left, outer, op) ==
             Mapped(Keep(BaseOf(c).rows, StackPassing(c, left, outer, op)), Imaging(c, left, outer, op))
    ensures
      var p := Filter(pred, c);
      Rows(p, left, outer, op) ==
      Mapped(Keep(BaseOf(c).rows, StackPassing(p, left, outer, op)), Imaging(c, left, outer, op))
  {
    var p, base, below, image := Filter(pred, c), BaseOf(c).rows, StackPassing(c, left, outer, op),
        Imaging(c, left, outer, op);
    var test := (row: Row) => Eval(pred, SideEnv(left, outer, row, op)) == TRUE;
    var before := (row: Row) => test(image(row));
    KeepMapped(Keep(base, below), image, test, before);
    KeepKeep(base, below, before, StackPassing(p, left, outer, op));
  }

  /** The rows of a stack are the images of the leaf rows that pass its filters. */
  lemma {:induction false} StackRows(p: Plan, left: Schema, outer: Row, op: Op)
    requires Stack(p)
    ensures Rows(p, left, outer, op) ==
            Mapped(Keep(BaseOf(p).rows, StackPassing(p, left, outer, op)), Imaging(p, left, outer, op))
    decreases p
  {
    match p
    case Leaf(_, rows, _) =>
      KeepAll(rows, StackPassing(p, left, outer, op));
    case Filter(pred, c) =>
      StackRows(c, left, outer, op);
      FilteredRows(pred, c, left, outer, op);
      MappedSame(Keep(BaseOf(p).rows, StackPassing(p, left, outer, op)), Imaging(c, left, outer, op),
                 Imaging(p, left, outer, op));
    case Project(_, c) =>
      StackRows(c, left, outer, op);
      KeepSame(BaseOf(p).rows, StackPassing(c, left, outer, op), StackPassing(p, left, outer, op));
    case Sort(c) =>
      StackRows(c, left, outer, op);
      KeepSame(BaseOf(p).rows, StackPassing(c, left, outer, op), StackPassing(p, left, outer, op));
      MappedSame(Keep(BaseOf(p).rows, StackPassing(p, left, outer, op)), Imaging(c, left, outer, op),
                 Imaging(p, left, outer, op));
  }

  lemma {:induction false} MappedSame(rows: seq<Row>, f: Row -> Row, g: Row -> Row)
    requires forall row :: f(row) == g(row)
    ensures Mapped(rows, f) == Mapped(rows, g)
  {
    if rows != [] { MappedSame(rows[1..], f, g); }
  }

  /** A traced position of the image is the leaf cell it traces to. */
  lemma {:induction false} TraceReads(p: Plan, left: Schema, outer: Row, op: Op, row: Row, pos: nat)
    requires Stack(p) && Trace(p, left, pos).Some?
    ensures Cell(Image(p, left, outer, op, row), pos) == Cell(row, Trace(p, left, pos).value)
    decreases p
  {
    if p.Project? {
      var u := Unpack(p.exprs[pos]);
      UnpackEval(p.exprs[pos], SideEnv(left, outer, Image(p.child, left, outer, op, row), op));
      TraceReads(p.child, left, outer, op, row, u.position);
    } else if !p.Leaf? {
      TraceReads(p.child, left, outer, op, row, pos);
    }
  }

  /** A predicate that reads handed-on positions evaluates alike on the image and on the leaf row. */
  lemma {:induction false} ReadsThrough(e: Expr, c: Plan, left: Schema, outer: Row, op: Op, row: Row)
    requires Stack(c) && LiveAll(e, Reaches(c, left))
    ensures Eval(e, SideEnv(left, outer, Image(c, left, outer, op, row), op)) == Eval(e, SideEnv(left, outer, row, op))
  {
    var seen, whole := SideEnv(left, outer, Image(c, left, outer, op, row), op), SideEnv(left, outer, row, op);
    forall r: ColumnRef, pos: nat | Reaches(c, left)(r, pos) ensures seen.col(r, pos) == whole.col(r, pos) {
      if pos < |left| && SameColumn(left[pos], r) {
        assert Contains(left, r);
      } else {
        TraceReads(c, left, outer, op, row, pos);
      }
    }
    LiveAllWeaken(e, Reaches(c, left), (r: ColumnRef, pos: nat) => seen.col(r, pos) == whole.col(r, pos));
    AgreeOnLive(e, seen, whole);
  }

  lemma {:induction false} FlatPasses(p: Plan, left: Schema, outer: Row, op: Op, row: Row)
    requires Stack(p) && StackBound(p, left)
    ensures StackPasses(p, left, outer, op, row) <==> Passes(Flat(p), left, outer, op, row)
    decreases p
  {
    if !p.Leaf? {
      FlatPasses(p.child, left, outer, op, row);
      if p.Filter? { ReadsThrough(p.condition, p.child, left, outer, op, row); }
    }
  }

  lemma {:induction false} ReachesEither(e: Expr, c: Plan, left: Schema)
    requires Stack(c) && LiveAll(e, Reaches(c, left))
    ensures LiveAll(e, AtEither(left, BaseOf(c).schema))
  {
    forall r: ColumnRef, pos: nat | Reaches(c, left)(r, pos) ensures AtEither(left, BaseOf(c).schema)(r, pos) {
    }
    LiveAllWeaken(e, Reaches(c, left), AtEither(left, BaseOf(c).schema));
  }

  lemma {:induction false} FlatBound(p: Plan, left: Schema)
    requires Stack(p) && StackBound(p, left)
    ensures ZoneBound(Flat(p), left)
    decreases p
  {
    if !p.Leaf? {
      FlatBound(p.child, left);
      if p.Filter? { ReachesEither(p.condition, p.child, left); }
    }
  }

  /** Without their projections and sorts the filters let as many rows through. */
  lemma {:induction false} FlatKeepsCount(p: Plan, left: Schema, outer: Row, op: Op)
    requires Stack(p) && StackBound(p, left)
    ensures |Rows(p, left, outer, op)| == |Rows(Flat(p), left, outer, op)|
  {
    StackRows(p, left, outer, op);
    ZoneRows(Flat(p), left, outer, op);
    forall row | row in BaseOf(p).rows
      ensures StackPassing(p, left, outer, op)(row) <==> Passing(Flat(p), left, outer, op)(row)
    {
      FlatPasses(p, left, outer, op, row);
    }
    KeepSame(BaseOf(p).rows, StackPassing(p, left, outer, op), Passing(Flat(p), left, outer, op));
  }

  lemma {:induction false} PrepareStrips(p: Plan, left: Schema, naming: Expr -> ColumnRef)
    requires Stack(p)
    ensures Prepare(p, left, false, naming) == Prepare(Flat(p), left, false, naming)
    decreases p
  {
    if !p.Leaf? { PrepareStrips(p.child, left, naming); }
  }

  lemma {:induction false} FiltersKeepLive(p: Plan, left: Schema, preserve: bool, naming: Expr -> ColumnRef)
    requires FilterZone(p) && ZoneBound(p, left) && Prepare(p, left, preserve, naming).Prepared?
    ensures forall e :: e in Prepare(p, left, preserve, naming).filters ==> LiveAll(e, AtEither(left, LeafOf(p).schema))
  {
    match p
    case Leaf(_, _, _) =>
    case Sort(c) => FiltersKeepLive(c, left, preserve, naming);
    case Filter(pred, c) =>
      FiltersKeepLive(c, left, preserve, naming);
      ConjunctsKeepLive(pred, AtEither(left, LeafOf(p).schema));
  }

  lemma {:induction false} ConjunctsKeepLive(e: Expr, p: (ColumnRef, nat) -> bool)
    requires LiveAll(e, p)
    ensures forall x :: x in SplitConjuncts(e) ==> LiveAll(x, p)
    decreases e
  {
    var x := Unpack(e);
    UnpackLiveAll(e, p);
    if IsAnd(x) {
      assert LiveArgs(x) == x.args;
      ConjunctsKeepLive(x.args[0], p);
      ConjunctsKeepLive(x.args[1], p);
    }
  }

  lemma AtEitherIsPlaced(e: Expr, left: Schema, right: Schema)
    requires Disjoint(left, right)
    requires LiveAll(e, AtEither(left, right))
    ensures LiveAll(e, Placed(left, right))
  {
    forall c: ColumnRef, p: nat | AtEither(left, right)(c, p) ensures Placed(left, right)(c, p) {
      NeverInBoth(left, right, c);
      if At(left)(c, p) {
        assert Contains(left, c);
      } else {
        assert At(right)(c, p) && Contains(right, c);
      }
      assert InEither(left, right)(c);
    }
    LiveAllWeaken(e, AtEither(left, right), Placed(left, right));
  }

  /** The pulled filters, moved onto the joined row, mean what they meant in the subquery. */
  lemma GlobalizedFilters(es: seq<Expr>, left: Schema, right: Schema, outer: Row, row: Row, op: Op)
    requires Disjoint(left, right) && |outer| == |left| && |row| == |right|
    requires forall e :: e in es ==> LiveAll(e, AtEither(left, right))
    ensures AllTrue(GlobalizeAll(es, right, |left|), RowEnv(outer + row, op)) <==>
            AllTrue(es, SideEnv(left, outer, row, op))
  {
    var moved := GlobalizeAll(es, right, |left|);
    forall i | 0 <= i < |es|
      ensures Eval(moved[i], RowEnv(outer + row, op)) == Eval(es[i], SideEnv(left, outer, row, op))
    {
      AtEitherIsPlaced(es[i], left, right);
      GlobalizedFilter(es[i], left, right, outer, row, op);
    }
  }

  /** The result for the filters alone. */
  lemma {:induction false} ZoneExists(z: Plan, left: Schema, naming: Expr -> ColumnRef, outer: Row, op: Op)
    requires FilterZone(z) && !Correlated(LeafOf(z), left) && ZoneBound(z, left)
    requires Disjoint(left, LeafOf(z).schema) && |outer| == |left|
    requires forall row :: row in LeafOf(z).rows ==> |row| == |LeafOf(z).schema|
    ensures
      var r := Prepare(z, left, false, naming);
      && r.Prepared? && FilterZone(r.plan) && LeafOf(r.plan) == LeafOf(z)
      && (Rows(z, left, outer, op) != [] <==>
            MarkExists(Rows(r.plan, [], [], op), GlobalizeAll(r.filters, LeafOf(z).schema, |left|), outer, op))
  {
    PullUp(z, left, false, naming, outer, op, []);
    var r := Prepare(z, left, false, naming);
    ZoneRows(z, left, outer, op);
    ZoneRows(r.plan, [], [], op);
    var preds := GlobalizeAll(r.filters, LeafOf(z).schema, |left|);
    var passA, passB, marks := Passing(z, left, outer, op), Passing(r.plan, [], [], op), Marks(preds, outer, op);
    forall row | row in LeafOf(z).rows ensures PassesBoth(passA, passB, marks, row) {
      ExistsRow(z, left, naming, outer, op, row);
    }
    SomeKeptAgree(LeafOf(z).rows, passA, passB, marks);
  }

  /** Correlated EXISTS: every stack of filters, projections and sorts is accepted exactly when its leaf references
      no outer column, and then, for every outer row, the subquery is non-empty exactly when the mark apply over the
      rewritten plan, run without the outer row, finds a row on which all pulled predicates are TRUE. */
  lemma {:induction false} ExistsRewritePreservesMeaning(p: Plan, left: Schema, naming: Expr -> ColumnRef, outer: Row,
                                                         op: Op)
    requires Stack(p) && StackBound(p, left)
    requires Disjoint(left, BaseOf(p).schema) && |outer| == |left|
    requires forall row :: row in BaseOf(p).rows ==> |row| == |BaseOf(p).schema|
    ensures Prepare(p, left, false, naming).Prepared? <==> !ReachesOut(p, left)
    ensures Prepare(p, left, false, naming).Prepared? ==>
      (Rows(p, left, outer, op) != [] <==> RewrittenExists(p, left, naming, outer, op))
  {
    RefusedIff(p, left, false, naming);
    PrepareStrips(p, left, naming);
    if !Correlated(BaseOf(p), left) {
      FlatBound(p, left);
      ZoneExists(Flat(p), left, naming, outer, op);
      ZoneSchema(Prepare(Flat(p), left, false, naming).plan, naming);
      FlatKeepsCount(p, left, outer, op);
    } else {
      RefusedIff(BaseOf(p), left, false, naming);
      FlatBottom(p);
    }
  }

  lemma {:induction false} FlatBottom(p: Plan)
    requires Stack(p)
    ensures BaseOf(p) == Bottom(p)
    decreases p
  {
    if !p.Leaf? { FlatBottom(p.child); }
  }

  ghost predicate PassesBoth(passA: Row -> bool, passB: Row -> bool, test: Row -> bool, row: Row) {
    passA(row) <==> passB(row) && test(row)
  }

  lemma SomeKeptAgree(rows: seq<Row>, passA: Row -> bool, passB: Row -> bool, test: Row -> bool)
    requires forall row :: row in rows ==> PassesBoth(passA, passB, test, row)
    ensures Keep(rows, passA) != [] <==> exists row :: row in Keep(rows, passB) && test(row)
  {
    var kept := Keep(rows, passA);
    if kept != [] {
      assert kept[0] in kept;
      assert PassesBoth(passA, passB, test, kept[0]);
    }
    if row :| row in Keep(rows, passB) && test(row) {
      assert PassesBoth(passA, passB, test, row);
      assert row in kept;
    }
  }

  /** One leaf row of a zone: the pulled filters decide on the joined row. */
  lemma {:induction false} ExistsRow(z: Plan, left: Schema, naming: Expr -> ColumnRef, outer: Row, op: Op, row: Row)
    requires FilterZone(z) && !Correlated(LeafOf(z), left) && ZoneBound(z, left)
    requires Disjoint(left, LeafOf(z).schema) && |outer| == |left| && |row| == |LeafOf(z).schema|
    ensures
      var r := Prepare(z, left, false, naming);
      && r.Prepared? && FilterZone(r.plan)
      && PassesBoth(Passing(z, left, outer, op), Passing(r.plan, [], [], op),
                    Marks(GlobalizeAll(r.filters, LeafOf(z).schema, |left|), outer, op), row)
  {
    PullUp(z, left, false, naming, outer, op, row);
    FiltersKeepLive(z, left, false, naming);
    GlobalizedFilters(Prepare(z, left, false, naming).filters, left, LeafOf(z).schema, outer, row, op);
  }

  lemma {:induction false} ZoneSchema(p: Plan, naming: Expr -> ColumnRef)
    requires FilterZone(p)
    ensures OutputSchema(p, naming) == LeafOf(p).schema
  {
    if !p.Leaf? { ZoneSchema(p.child, naming); }
  }

  // ------------------------------------------------------- what the rewrite strips

  /** The EXISTS marker over the rewritten plan. */
  ghost predicate RewrittenExists(p: Plan, left: Schema, naming: Expr -> ColumnRef, outer: Row, op: Op)
    requires Prepare(p, left, false, naming).Prepared?
  {
    var r := Prepare(p, left, false, naming);
    MarkExists(Rows(r.plan, [], [], op), GlobalizeAll(r.filters, OutputSchema(r.plan, naming), |left|), outer, op)
  }

  /** A LIMIT on top is stripped: the answer is still right exactly when the limit lets a row through or there is
      none. */
  lemma LimitOnTop(n: nat, p: Plan, left: Schema, naming: Expr -> ColumnRef, outer: Row, op: Op)
    requires Stack(p) && StackBound(p, left)
    requires Disjoint(left, BaseOf(p).schema) && |outer| == |left|
    requires forall row :: row in BaseOf(p).rows ==> |row| == |BaseOf(p).schema|
    ensures Prepare(Limit(n, p), left, false, naming).Prepared? <==> !ReachesOut(p, left)
    ensures Prepare(Limit(n, p), left, false, naming).Prepared? ==>
      ((Rows(Limit(n, p), left, outer, op) != [] <==> RewrittenExists(Limit(n, p), left, naming, outer, op)) <==>
         n > 0 || Rows(p, left, outer, op) == [])
  {
    ExistsRewritePreservesMeaning(p, left, naming, outer, op);
  }

  lemma {:induction false} ComparisonOutcome(x: Expr, y: Expr, env: Env)
    ensures Eval(Comparison(x, y), env) == Eq3(Eval(x, env), Eval(y, env))
  {
    EvalCall(Comparison(x, y), env);
  }

  lemma {:induction false} SideReads(left: Schema, l: Row, r: Row, op: Op, c: ColumnRef, p: nat)
    ensures Eval(Column(c, p), SideEnv(left, l, r, op)) == if Contains(left, c) then Cell(l, p) else Cell(r, p)
  {
  }

  lemma {:induction false} ComparisonMoves(x: ColumnRef, p: nat, y: ColumnRef, q: nat, right: Schema, n: nat)
    requires !Contains(right, x)
    ensures MapPositions(Comparison(Column(x, p), Column(y, q)), Globalize(right, n)) ==
            Comparison(Column(x, p), Column(y, if Contains(right, y) then q + n else q))
  {
    var e, move := Comparison(Column(x, p), Column(y, q)), Globalize(right, n);
    var moved := Column(y, if Contains(right, y) then q + n else q);
    assert MapPositions(Column(x, p), move) == Column(x, p) && MapPositions(Column(y, q), move) == moved;
    assert MapPositions(e, move).args[0] == MapPositions(e.args[0], move);
    assert MapPositions(e, move).args[1] == MapPositions(e.args[1], move);
    assert MapPositions(e, move).args == [Column(x, p), moved];
  }

  /** Projections and sorts only. */
  predicate Unfiltered(c: Plan) {
    match c
    case Leaf(_, _, _) => true
    case Project(_, d) => Unfiltered(d)
    case Sort(d) => Unfiltered(d)
    case _ => false
  }

  /** The same operators over other rows. */
  function Over(c: Plan, rows: seq<Row>): (r: Plan)
    requires Unfiltered(c)
    ensures Unfiltered(r) && Stack(r) && Stack(c) && Flat(c).Leaf? && Flat(r) == Flat(c).(rows := rows)
  {
    match c
    case Leaf(schema, _, refs) => Leaf(schema, rows, refs)
    case Project(exprs, d) => Project(exprs, Over(d, rows))
    case Sort(d) => Sort(Over(d, rows))
  }

  lemma {:induction false} TraceOver(c: Plan, rows: seq<Row>, left: Schema, pos: nat)
    requires Unfiltered(c) && Stack(c)
    ensures Trace(Over(c, rows), left, pos) == Trace(c, left, pos)
    decreases c
  {
    if c.Project? && pos < |c.exprs| && Unpack(c.exprs[pos]).Column? {
      TraceOver(c.child, rows, left, Unpack(c.exprs[pos]).position);
    } else if c.Sort? {
      TraceOver(c.child, rows, left, pos);
    }
  }

  lemma {:induction false} UnfilteredPasses(c: Plan, left: Schema, outer: Row, op: Op, row: Row)
    requires Unfiltered(c) && Stack(c)
    ensures StackPasses(c, left, outer, op, row)
    decreases c
  {
    if !c.Leaf? { UnfilteredPasses(c.child, left, outer, op, row); }
  }

  /** The subquery `x = d` over projections and sorts, where `x` is the outer column at `i` and `d` stands at `p` in
      their output. */
  function Probe(x: ColumnRef, i: nat, d: ColumnRef, p: nat, c: Plan, rows: seq<Row>): (r: Plan)
    requires Unfiltered(c)
    ensures Stack(r)
  {
    Filter(Comparison(Column(x, i), Column(d, p)), Over(c, rows))
  }

  lemma {:induction false} ProbePasses(left: Schema, i: nat, d: ColumnRef, p: nat, below: Plan, q: nat, outer: Row,
                                       row: Row, op: Op)
    requires i < |left| == |outer| && !Contains(left, d)
    requires Unfiltered(below) && Stack(below) && Trace(below, left, p) == Some(q)
    ensures StackPasses(Filter(Comparison(Column(left[i], i), Column(d, p)), below), left, outer, op, row) <==>
            Eq3(outer[i], Cell(row, q)) == TRUE
  {
    UnfilteredPasses(below, left, outer, op, row);
    TraceReads(below, left, outer, op, row, p);
    assert Contains(left, left[i]) by { assert SameColumn(left[i], left[i]); }
    var image := Image(below, left, outer, op, row);
    SideReads(left, outer, image, op, left[i], i);
    SideReads(left, outer, image, op, d, p);
    ComparisonOutcome(Column(left[i], i), Column(d, p), SideEnv(left, outer, image, op));
  }

  function ReadAt(q: nat): Row -> Outcome {
    (row: Row) => Cell(row, q)
  }

  /** The cell of the joined row. */
  function ReadJoined(outer: Row, at: nat): Row -> Outcome {
    (row: Row) => Cell(outer + row, at)
  }

  ghost predicate SomeEqual(rows: seq<Row>, v: Outcome, cell: Row -> Outcome) {
    exists row :: row in rows && Eq3(v, cell(row)) == TRUE
  }

  lemma {:induction false} SomeKept(rows: seq<Row>, test: Row -> bool, v: Outcome, cell: Row -> Outcome)
    requires forall row :: row in rows ==> (test(row) <==> Eq3(v, cell(row)) == TRUE)
    ensures Keep(rows, test) != [] <==> SomeEqual(rows, v, cell)
  {
    if Keep(rows, test) != [] { assert Keep(rows, test)[0] in Keep(rows, test); }
  }

  /** The subquery compares with the cell that `p` traces to. */
  lemma {:induction false} ProbeRows(left: Schema, i: nat, d: ColumnRef, p: nat, c: Plan, q: nat, outer: Row,
                                     rows: seq<Row>, op: Op)
    requires i < |left| == |outer| && !Contains(left, d)
    requires Unfiltered(c) && Stack(c) && Trace(c, left, p) == Some(q)
    ensures Rows(Probe(left[i], i, d, p, c, rows), left, outer, op) != [] <==> SomeEqual(rows, outer[i], ReadAt(q))
  {
    var plan := Probe(left[i], i, d, p, c, rows);
    StackRows(plan, left, outer, op);
    TraceOver(c, rows, left, p);
    var pass := StackPassing(plan, left, outer, op);
    forall row | row in rows ensures pass(row) <==> Eq3(outer[i], Cell(row, q)) == TRUE {
      ProbePasses(left, i, d, p, Over(c, rows), q, outer, row, op);
    }
    SomeKept(rows, pass, outer[i], ReadAt(q));
    assert Flat(plan).child == Flat(Over(c, rows)) == Flat(c).(rows := rows);
    assert LeafOf(Flat(plan)) == LeafOf(Flat(plan).child) == Flat(plan).child;
  }

  lemma {:induction false} ProbeIsStripped(left: Schema, i: nat, d: ColumnRef, p: nat, c: Plan, rows: seq<Row>,
                                           naming: Expr -> ColumnRef)
    requires i < |left| && Unfiltered(c) && !Correlated(Flat(Over(c, rows)), left)
    ensures
      var plan := Probe(left[i], i, d, p, c, rows);
      Prepare(plan, left, false, naming) == Prepared(Flat(Over(c, rows)), [plan.condition])
  {
    var plan := Probe(left[i], i, d, p, c, rows);
    var eq := plan.condition;
    PrepareStrips(plan.child, left, naming);
    assert Contains(left, left[i]) by { assert SameColumn(left[i], left[i]); }
    assert AnyColumn(eq.args[0], InSchema(left));
    assert SplitConjuncts(eq) == [eq] && [eq][1..] == [];
    assert Correlating([eq], left) == [eq] + Correlating([], left) == [eq];
    assert Local([eq], left) == [] + Local([], left) == [];
    assert [] + [eq] == [eq];
  }

  /** The mark apply compares with the leaf cell at `p`, or, when the leaf has no such column, with the cell
      at `p` of the whole joined row. */
  lemma {:induction false} ProbeMarks(left: Schema, i: nat, d: ColumnRef, p: nat, c: Plan, outer: Row, rows: seq<Row>,
                                      naming: Expr -> ColumnRef, op: Op)
    requires i < |left| == |outer|
    requires Unfiltered(c) && Stack(c) && !Correlated(BaseOf(c), left) && !Contains(BaseOf(c).schema, left[i])
    ensures
      var plan := Probe(left[i], i, d, p, c, rows);
      var at := if Contains(BaseOf(c).schema, d) then p + |left| else p;
      && Prepare(plan, left, false, naming).Prepared?
      && (RewrittenExists(plan, left, naming, outer, op) <==> SomeEqual(rows, outer[i], ReadJoined(outer, at)))
  {
    var plan, right := Probe(left[i], i, d, p, c, rows), BaseOf(c).schema;
    var at := if Contains(right, d) then p + |left| else p;
    ProbeIsStripped(left, i, d, p, c, rows, naming);
    ComparisonMoves(left[i], i, d, p, right, |left|);
    var preds := GlobalizeAll([plan.condition], right, |left|);
    assert preds == [Comparison(Column(left[i], i), Column(d, at))];
    forall row | row in rows ensures Marks(preds, outer, op)(row) <==> Eq3(outer[i], Cell(outer + row, at)) == TRUE {
      ComparisonOutcome(Column(left[i], i), Column(d, at), RowEnv(outer + row, op));
      assert Cell(outer + row, i) == outer[i];
    }
  }

  /** The rewritten subquery gives the subquery's answer for an outer row. */
  ghost predicate AnswersAgree(p: Plan, left: Schema, naming: Expr -> ColumnRef, outer: Row, op: Op) {
    && Prepare(p, left, false, naming).Prepared?
    && (Rows(p, left, outer, op) != [] <==> RewrittenExists(p, left, naming, outer, op))
  }

  ghost predicate Sized(rows: seq<Row>, schema: Schema) {
    forall row :: row in rows ==> |row| == |schema|
  }

  /** A filter compares an outer column with the leaf cell `q`, which projections below it show at `p` as the column
      `d`.  The rewritten subquery answers right for all rows and every outer row exactly when `p` is `q` and `d`
      is a leaf column, or `d` is none and `p` happens to be `q` moved past the outer row. */
  lemma {:induction false} ProjectionBelowFilterIff(left: Schema, i: nat, d: ColumnRef, p: nat, c: Plan, q: nat,
                                                    naming: Expr -> ColumnRef, op: Op)
    requires Unfiltered(c) && Stack(c) && !Correlated(BaseOf(c), left)
    requires i < |left| && !Contains(left, d) && Disjoint(left, BaseOf(c).schema)
    requires Trace(c, left, p) == Some(q) && q < |BaseOf(c).schema|
    ensures
      (forall rows: seq<Row>, outer: Row :: Sized(rows, BaseOf(c).schema) && |outer| == |left| ==>
         AnswersAgree(Probe(left[i], i, d, p, c, rows), left, naming, outer, op)) <==>
      p == if Contains(BaseOf(c).schema, d) then q else q + |left|
  {
    var at := if Contains(BaseOf(c).schema, d) then p + |left| else p;
    assert Contains(left, left[i]) by { assert SameColumn(left[i], left[i]); }
    NeverInBoth(left, BaseOf(c).schema, left[i]);
    forall rows: seq<Row>, outer: Row | |outer| == |left|
      ensures AnswersAgree(Probe(left[i], i, d, p, c, rows), left, naming, outer, op) <==>
              CellsAgree(rows, outer, i, q, at)
    {
      ProbeRows(left, i, d, p, c, q, outer, rows, op);
      ProbeMarks(left, i, d, p, c, outer, rows, naming, op);
    }
    CellsAgreeIff(BaseOf(c).schema, |left|, i, q, at);
  }

  ghost predicate CellsAgree(rows: seq<Row>, outer: Row, i: nat, q: nat, at: nat)
    requires i < |outer|
  {
    SomeEqual(rows, outer[i], ReadAt(q)) <==> SomeEqual(rows, outer[i], ReadJoined(outer, at))
  }

  lemma {:induction false} CellsAgreeIff(schema: Schema, n: nat, i: nat, q: nat, at: nat)
    requires q < |schema| && i < n
    ensures (forall rows: seq<Row>, outer: Row :: Sized(rows, schema) && |outer| == n ==>
               CellsAgree(rows, outer, i, q, at)) <==> at == q + n
  {
    if at == q + n {
      forall rows: seq<Row>, outer: Row | |outer| == n ensures CellsAgree(rows, outer, i, q, at) {
        assert forall row: Row :: ReadAt(q)(row) == ReadJoined(outer, at)(row);
      }
    } else {
      var row, outer := CellsDiffer(|schema|, n, i, q, at);
      assert row in [row] && Sized([row], schema) && !CellsAgree([row], outer, i, q, at);
    }
  }

  /** Rows on which another cell of the joined row decides differently. */
  lemma {:induction false} CellsDiffer(width: nat, n: nat, i: nat, q: nat, at: nat) returns (row: Row, outer: Row)
    requires q < width && i < n && at != q + n
    ensures |row| == width && |outer| == n
    ensures Eq3(outer[i], ReadAt(q)(row)) == TRUE <==> Eq3(outer[i], ReadJoined(outer, at)(row)) != TRUE
  {
    row := seq(width, k => if k == q then Ok(Other(2)) else Ok(Other(1)));
    var v := if at < n + width then Ok(Other(1)) else Ok(Other(2));
    outer := seq(n, _ => v);
    assert at < n + width ==> (outer + row)[at] == Ok(Other(1));
  }

  /** The subquery `x = b` over the projection of `b` from one row (a, b). */
  function ProjectedExample(x: ColumnRef, a: ColumnRef, b: ColumnRef): Plan {
    Filter(Comparison(Column(x, 0), Column(b, 0)),
           Project([Column(b, 1)], Leaf([a, b], [[Ok(Other(1)), Ok(Other(2))]], [])))
  }

  /** A projection below a filter is stripped too, and the filter then reads the wrong cell: `x = b` over
      the projection of `b` from the row (a, b) compares `x` with `a`. */
  lemma {:induction false} ProjectionBelowFilterMisreads(x: ColumnRef, a: ColumnRef, b: ColumnRef,
                                                         naming: Expr -> ColumnRef, op: Op)
    requires !SameColumn(x, a) && !SameColumn(x, b) && !SameColumn(a, b)
    ensures
      var p, outer := ProjectedExample(x, a, b), [Ok(Other(1))];
      && Rows(p, [x], outer, op) == []
      && Prepare(p, [x], false, naming).Prepared? && RewrittenExists(p, [x], naming, outer, op)
  {
    var row: Row, c := [Ok(Other(1)), Ok(Other(2))], Project([Column(b, 1)], Leaf([a, b], [], []));
    var v := Ok(Other(1));
    assert !Contains([x], b);
    assert Unpack(c.exprs[0]) == Column(b, 1) && Trace(c.child, [x], 1) == Some(1);
    assert Contains([a, b], b) by { assert SameColumn([a, b][1], b); }
    assert !Contains([a, b], x);
    ProbeRows([x], 0, b, 0, c, 1, [v], [row], op);
    ProbeMarks([x], 0, b, 0, c, [v], [row], naming, op);
    assert row in [row] && ReadJoined([v], 1)(row) == v && ReadAt(1)(row) == Ok(Other(2));
    assert Over(c.child, [row]) == Leaf([a, b], [row], []);
    assert Probe(x, 0, b, 0, c, [row]) == ProjectedExample(x, a, b);
  }
}
