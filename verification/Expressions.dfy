/** Scalar expressions, their three-valued evaluation, and the structural equality
    that ignores aliases and row positions. */
module Expressions {

  // ---------------------------------------------------------------- columns

  datatype Option<+T> = None | Some(value: T)

  datatype Relation = NoRelation | TableColumn(columnId: nat, table: string, isTemp: bool)

  /** What `same_column` compares: the name and the owning relation. */
  datatype Summary = Summary(name: string, relation: Relation)

  /** A column reference is a slot in a catalog arena; two slots may hold the same summary. */
  datatype ColumnRef = ColumnRef(slot: nat, summary: Summary)

  type Schema = seq<ColumnRef>

  predicate SameColumn(a: ColumnRef, b: ColumnRef) {
    a.summary == b.summary
  }

  /** Membership by column identity, as the binder's `any(same_column)` scans do it. */
  predicate Contains(schema: Schema, c: ColumnRef) {
    exists i :: 0 <= i < |schema| && SameColumn(schema[i], c)
  }

  ghost predicate Distinct(schema: Schema) {
    forall i, j :: 0 <= i < j < |schema| ==> !SameColumn(schema[i], schema[j])
  }

  ghost predicate Disjoint(left: Schema, right: Schema) {
    forall c {:trigger Contains(left, c), Contains(right, c)} :: !(Contains(left, c) && Contains(right, c))
  }

  // ------------------------------------------------------------- expressions

  /** SQL values up to equality; `Other` stands for every non-boolean scalar. */
  datatype Value = Null | Boolean(b: bool) | Other(code: int) | Parameter(id: nat)

  datatype LogicalType = BooleanType | BigintType | OtherType(tag: nat)

  datatype UnaryOperator = Not | OtherUnary(code: nat)

  datatype BinaryOperator = And | Or | Eq | OtherBinary(code: nat)

  datatype SortFlags = SortFlags(asc: bool, nullsFirst: bool)

  /** The variants whose arithmetic plays no part here. */
  datatype OperatorKind =
    | TypeCast | Between | SubString | Position | Trim | Tuple | ScalarFunction | If | IfNull | NullIf | CaseWhen

  /** The variants of the source's expression type other than a column reference.  A head holds
      everything of the variant that is not a child expression (for an `Operator`, `details`
      lists its flags, types and evaluators); the children follow in visiting order. */
  datatype Head =
    | Constant(value: Value)
    | AliasName(name: string)
    | AliasExpr                       // children: the alias expression, then the aliased one
    | IsNull(nullNegated: bool)
    | Unary(unary: UnaryOperator, unaryEvaluator: Option<nat>, unaryType: LogicalType)
    | Binary(binary: BinaryOperator, binaryEvaluator: Option<nat>, binaryType: LogicalType)
    | AggCall(distinct: bool, aggKind: nat, aggType: LogicalType)
    | WindowCall(windowKind: nat, windowType: LogicalType, argCount: nat, partitionCount: nat, order: seq<SortFlags>)
    | In(inNegated: bool)             // children: the left operand, then the list
    | Coalesce(coalesceType: LogicalType)
    | Operator(kind: OperatorKind, details: seq<nat>)
    | TableFunction(tableSummary: nat)
    | Empty

  datatype Expr =
    | Column(ref: ColumnRef, position: nat)
    | Call(head: Head, args: seq<Expr>)

  predicate IsAlias(e: Expr) {
    e.Call? && (e.head.AliasName? || e.head.AliasExpr?) && |e.args| > 0
  }

  predicate IsAgg(e: Expr) {
    e.Call? && e.head.AggCall?
  }

  predicate IsWindow(e: Expr) {
    e.Call? && e.head.WindowCall?
  }

  /** The children that evaluation reaches: an alias evaluates its first child only. */
  function LiveArgs(e: Expr): (args: seq<Expr>)
    requires e.Call?
    ensures forall i :: 0 <= i < |args| ==> args[i] < e
  {
    if IsAlias(e) then [e.args[0]] else e.args
  }

  function Unpack(e: Expr): (r: Expr)
    ensures !IsAlias(r)
    ensures r == e || r < e
  {
    if IsAlias(e) then Unpack(e.args[0]) else e
  }

  // -------------------------------------------------------------- evaluation

  /** An evaluation either yields a value or fails; the kinds of failure are not told apart. */
  datatype Outcome = Ok(value: Value) | Fault

  /** A row of cells.  A cell that holds `Fault` stands for the failure the executor
      raises when it computes the cell. */
  type Row = seq<Outcome>

  const TRUE := Ok(Boolean(true))
  const FALSE := Ok(Boolean(false))
  const NULL := Ok(Null)

  predicate IsTruth(o: Outcome) {
    o == TRUE || o == FALSE || o == NULL
  }

  function Not3(o: Outcome): Outcome {
    if o == TRUE then FALSE else if o == FALSE then TRUE else if o == NULL then NULL else Fault
  }

  /** Both operands are always evaluated, so a failing operand fails the conjunction. */
  function And3(x: Outcome, y: Outcome): Outcome {
    if !IsTruth(x) || !IsTruth(y) then Fault
    else if x == FALSE || y == FALSE then FALSE
    else if x == NULL || y == NULL then NULL
    else TRUE
  }

  function Or3(x: Outcome, y: Outcome): Outcome {
    if !IsTruth(x) || !IsTruth(y) then Fault
    else if x == TRUE || y == TRUE then TRUE
    else if x == NULL || y == NULL then NULL
    else FALSE
  }

  function Eq3(x: Outcome, y: Outcome): Outcome {
    if x.Fault? || y.Fault? then Fault
    else if x.value.Null? || y.value.Null? then NULL
    else Ok(Boolean(x.value == y.value))
  }

  /** The early-exit scan of an IN list over the outcomes of its members. */
  function InScan(v: Value, members: seq<Outcome>, negated: bool, sawNull: bool): Outcome {
    if members == [] then (if sawNull then NULL else Ok(Boolean(negated)))
    else if members[0].Fault? then Fault
    else if members[0].value.Null? then InScan(v, members[1..], negated, true)
    else if members[0].value == v then Ok(Boolean(!negated))
    else InScan(v, members[1..], negated, sawNull)
  }

  function InOutcome(negated: bool, outs: seq<Outcome>): Outcome {
    if outs == [] || outs[0].Fault? then Fault
    else if outs[0].value.Null? then NULL
    else InScan(outs[0].value, outs[1..], negated, false)
  }

  function FirstNonNull(outs: seq<Outcome>): Outcome {
    if outs == [] then NULL
    else if outs[0] == NULL then FirstNonNull(outs[1..])
    else outs[0]
  }

  /** The operators whose arithmetic is not modelled, as functions of their operands' outcomes. */
  type Op = (Head, seq<Outcome>) -> Outcome

  /** How the leaves of an expression are resolved: columns, aggregate and window calls,
      and the operators whose arithmetic is not modelled.  An operator is a function of the
      outcomes of its operands, so it may short-circuit. */
  datatype Env = Env(
    col: (ColumnRef, nat) -> Outcome,
    agg: Expr -> Outcome,
    win: Expr -> Outcome,
    op: Op)

  function First(outs: seq<Outcome>): Outcome {
    if outs == [] then Fault else outs[0]
  }

  function Apply(head: Head, outs: seq<Outcome>, env: Env): Outcome {
    match head
    case Constant(v) => if v.Parameter? then Fault else Ok(v)
    case AliasName(_) => First(outs)
    case AliasExpr => First(outs)
    case IsNull(negated) => if First(outs).Fault? then Fault else Ok(Boolean((outs[0] == NULL) != negated))
    case Unary(Not, _, _) => Not3(First(outs))
    case Binary(And, _, _) => if |outs| == 2 then And3(outs[0], outs[1]) else Fault
    case Binary(Or, _, _) => if |outs| == 2 then Or3(outs[0], outs[1]) else Fault
    case Binary(Eq, _, _) => if |outs| == 2 then Eq3(outs[0], outs[1]) else Fault
    case In(negated) => InOutcome(negated, outs)
    case Coalesce(_) => FirstNonNull(outs)
    case Empty => Fault
    case TableFunction(_) => Fault
    case _ => env.op(head, outs)
  }

  function Eval(e: Expr, env: Env): Outcome
    decreases e
  {
    match e
    case Column(c, p) => env.col(c, p)
    case Call(head, args) =>
      if IsAgg(e) then env.agg(e)
      else if IsWindow(e) then env.win(e)
      else
        var live := LiveArgs(e);
        Apply(head, seq(|live|, i requires 0 <= i < |live| => Eval(live[i], env)), env)
  }

  /** Operand outcomes in visiting order. */
  function EvalArgs(args: seq<Expr>, env: Env): (outs: seq<Outcome>)
    ensures |outs| == |args|
    ensures forall i :: 0 <= i < |args| ==> outs[i] == Eval(args[i], env)
  {
    seq(|args|, i requires 0 <= i < |args| => Eval(args[i], env))
  }

  function Cell(row: Row, p: nat): Outcome {
    if p < |row| then row[p] else Fault
  }

  /** Resolving columns by position in one row, as the executor does.  Aggregate and
      window calls cannot be evaluated there. */
  function RowEnv(row: Row, op: Op): Env {
    Env((c: ColumnRef, p: nat) => Cell(row, p), _ => Fault, _ => Fault, op)
  }

  // ------------------------------------------------------ structural equality

  /** Equality modulo aliases and positions. */
  predicate EqIgnore(a: Expr, b: Expr)
    decreases a
  {
    var x, y := Unpack(a), Unpack(b);
    match (x, y)
    case (Column(c, _), Column(d, _)) => SameColumn(c, d)
    case (Call(h, xs), Call(k, ys)) =>
      h == k && |xs| == |ys| && forall i :: 0 <= i < |xs| ==> EqIgnore(xs[i], ys[i])
    case _ => false
  }

  /** The normal form behind the equality: aliases removed, slots and positions erased. */
  function Canon(e: Expr): Expr
    decreases e
  {
    match e
    case Column(c, _) => Column(ColumnRef(0, c.summary), 0)
    case Call(head, args) =>
      if IsAlias(e) then Canon(args[0])
      else Call(head, seq(|args|, i requires 0 <= i < |args| => Canon(args[i])))
  }

  lemma {:induction false} CanonUnpack(e: Expr)
    ensures Canon(Unpack(e)) == Canon(e)
  {
    if IsAlias(e) { CanonUnpack(e.args[0]); }
  }

  /** Two expressions are equal exactly when they have the same normal form; hence the
      equality is reflexive, symmetric and transitive. */
  lemma {:induction false} EqIffSameCanon(a: Expr, b: Expr)
    ensures EqIgnore(a, b) <==> Canon(a) == Canon(b)
    decreases a
  {
    CanonUnpack(a);
    CanonUnpack(b);
    var x, y := Unpack(a), Unpack(b);
    if x.Call? && y.Call? && |x.args| == |y.args| {
      forall i | 0 <= i < |x.args|
        ensures EqIgnore(x.args[i], y.args[i]) <==> Canon(x).args[i] == Canon(y).args[i]
      {
        EqIffSameCanon(x.args[i], y.args[i]);
      }
      assert Canon(x).args == Canon(y).args <==>
        forall i :: 0 <= i < |x.args| ==> Canon(x).args[i] == Canon(y).args[i];
    }
  }

  lemma EqIsEquivalence(a: Expr, b: Expr, c: Expr)
    ensures EqIgnore(a, a)
    ensures EqIgnore(a, b) ==> EqIgnore(b, a)
    ensures EqIgnore(a, b) && EqIgnore(b, c) ==> EqIgnore(a, c)
  {
    EqIffSameCanon(a, a);
    EqIffSameCanon(a, b);
    EqIffSameCanon(b, a);
    EqIffSameCanon(b, c);
    EqIffSameCanon(a, c);
  }

  // -------------------------------------------------------------- congruence

  /** Every column that evaluation reaches sits at the position its schema gives it. */
  ghost predicate Bound(e: Expr, schema: Schema)
    decreases e
  {
    match e
    case Column(c, p) => p < |schema| && SameColumn(schema[p], c)
    case Call(_, _) =>
      var live := LiveArgs(e);
      forall i :: 0 <= i < |live| ==> Bound(live[i], schema)
  }

  ghost predicate BothBound(a: Expr, b: Expr, schema: Schema) {
    Bound(a, schema) && Bound(b, schema)
  }

  /** The leaves of `env` cannot tell apart equal columns at one position, nor equal calls
      that are bound to `schema`. */
  ghost predicate Respects(env: Env, schema: Schema) {
    && (forall c, d, p {:trigger env.col(c, p), env.col(d, p)} :: SameColumn(c, d) ==> env.col(c, p) == env.col(d, p))
    && (forall a: Expr, b: Expr {:trigger env.agg(a), env.agg(b)} ::
          IsAgg(a) && IsAgg(b) && BothBound(a, b, schema) && EqIgnore(a, b) ==> env.agg(a) == env.agg(b))
    && (forall a: Expr, b: Expr {:trigger env.win(a), env.win(b)} ::
          IsWindow(a) && IsWindow(b) && BothBound(a, b, schema) && EqIgnore(a, b) ==> env.win(a) == env.win(b))
  }

  lemma {:induction false} UnpackEval(e: Expr, env: Env)
    ensures Eval(Unpack(e), env) == Eval(e, env)
  {
    if IsAlias(e) { UnpackEval(e.args[0], env); }
  }

  lemma {:induction false} UnpackBound(e: Expr, schema: Schema)
    requires Bound(e, schema)
    ensures Bound(Unpack(e), schema)
  {
    if IsAlias(e) { UnpackBound(LiveArgs(e)[0], schema); }
  }

  lemma EvalCall(e: Expr, env: Env)
    requires e.Call? && !IsAgg(e) && !IsWindow(e)
    ensures Eval(e, env) == Apply(e.head, EvalArgs(LiveArgs(e), env), env)
  {
    var live := LiveArgs(e);
    assert seq(|live|, i requires 0 <= i < |live| => Eval(live[i], env)) == EvalArgs(live, env);
  }

  /** Truth values in order: false, unknown, true. */
  function Rank(o: Outcome): int {
    if o == FALSE then 0 else if o == NULL then 1 else if o == TRUE then 2 else -1
  }

  function Least(x: int, y: int): int {
    if x < y then x else y
  }

  lemma {:induction false} EvalOne(head: Head, a: Expr, env: Env)
    requires !head.AggCall? && !head.WindowCall? && !head.AliasName? && !head.AliasExpr?
    ensures Eval(Call(head, [a]), env) == Apply(head, [Eval(a, env)], env)
  {
    EvalCall(Call(head, [a]), env);
    assert EvalArgs([a], env) == [Eval(a, env)];
  }

  lemma {:induction false} EvalTwo(head: Head, a: Expr, b: Expr, env: Env)
    requires !head.AggCall? && !head.WindowCall? && !head.AliasName? && !head.AliasExpr?
    ensures Eval(Call(head, [a, b]), env) == Apply(head, [Eval(a, env), Eval(b, env)], env)
  {
    EvalCall(Call(head, [a, b]), env);
    assert EvalArgs([a, b], env) == [Eval(a, env), Eval(b, env)];
  }

  /** NOT, AND and OR are the reflection, the minimum and the maximum of truth values; an operand that is no truth value
      fails all three. */
  lemma {:induction false} LogicIsKleene(not: Head, and: Head, or: Head, a: Expr, b: Expr, env: Env)
    requires not.Unary? && not.unary.Not? && and.Binary? && and.binary.And? && or.Binary? && or.binary.Or?
    ensures
      var x, y := Rank(Eval(a, env)), Rank(Eval(b, env));
      && Rank(Eval(Call(not, [a]), env)) == (if x == -1 then -1 else 2 - x)
      && Rank(Eval(Call(and, [a, b]), env)) == Least(x, y)
      && Rank(Eval(Call(or, [a, b]), env)) == (if x == -1 || y == -1 then -1 else x + y - Least(x, y))
  {
    EvalOne(not, a, env);
    EvalTwo(and, a, b, env);
    EvalTwo(or, a, b, env);
  }

  /** IS NULL is never unknown, holds exactly of null, and IS NOT NULL is its negation; a failing operand fails both. */
  lemma {:induction false} IsNullIsTwoValued(a: Expr, env: Env)
    ensures
      var x, r, n := Eval(a, env), Eval(Call(IsNull(false), [a]), env), Eval(Call(IsNull(true), [a]), env);
      && (x.Fault? <==> r.Fault?) && (x.Fault? <==> n.Fault?)
      && (r == TRUE <==> x == NULL) && (r == FALSE <==> n == TRUE) && (r == TRUE <==> n == FALSE)
      && (x.Ok? ==> r == TRUE || r == FALSE)
  {
    EvalOne(IsNull(false), a, env);
    EvalOne(IsNull(true), a, env);
  }

  /** Two calls of one operator on operands with the same outcomes have the same outcome. */
  lemma SameCall(a: Expr, b: Expr, envA: Env, envB: Env)
    requires a.Call? && b.Call? && a.head == b.head && !IsAgg(a) && !IsWindow(a)
    requires envA.op == envB.op && |LiveArgs(a)| == |LiveArgs(b)|
    requires forall i :: 0 <= i < |LiveArgs(a)| ==> Eval(LiveArgs(a)[i], envA) == Eval(LiveArgs(b)[i], envB)
    ensures Eval(a, envA) == Eval(b, envB)
  {
    EvalCall(a, envA);
    EvalCall(b, envB);
    assert EvalArgs(LiveArgs(a), envA) == EvalArgs(LiveArgs(b), envB);
  }

  /** Equal expressions whose positions agree with one duplicate-free schema evaluate alike. */
  lemma {:induction false} EqEvaluatesAlike(a: Expr, b: Expr, schema: Schema, env: Env)
    requires Distinct(schema) && Respects(env, schema)
    requires Bound(a, schema) && Bound(b, schema)
    requires EqIgnore(a, b)
    ensures Eval(a, env) == Eval(b, env)
    decreases a
  {
    UnpackEval(a, env);
    UnpackEval(b, env);
    UnpackBound(a, schema);
    UnpackBound(b, schema);
    var x, y := Unpack(a), Unpack(b);
    if x.Column? {
      assert x.position == y.position;
    } else if IsAgg(x) || IsWindow(x) {
      assert EqIgnore(x, y);
    } else {
      assert LiveArgs(x) == x.args && LiveArgs(y) == y.args;
      forall i | 0 <= i < |x.args|
        ensures Eval(LiveArgs(x)[i], env) == Eval(LiveArgs(y)[i], env)
      {
        EqEvaluatesAlike(x.args[i], y.args[i], schema, env);
      }
      SameCall(x, y, env, env);
    }
  }
}
