/** Rewriting expressions between row scopes: moving column positions, and splitting and
    recombining conjunctions. */
module Rewriting {
  import opened Expressions

  // ----------------------------------------------------------- position moves

  /** What a position-rewriting visitor does: every column reference, in live and dead
      alias branches alike, keeps its column and gets a new position. */
  function MapPositions(e: Expr, move: (ColumnRef, nat) -> nat): (r: Expr)
    decreases e
  {
    match e
    case Column(c, p) => Column(c, move(c, p))
    case Call(head, args) =>
      Call(head, seq(|args|, i requires 0 <= i < |args| => MapPositions(args[i], move)))
  }

  /** Every column reference that evaluation reaches satisfies `p`. */
  ghost predicate LiveAll(e: Expr, p: (ColumnRef, nat) -> bool)
    decreases e
  {
    match e
    case Column(c, pos) => p(c, pos)
    case Call(_, _) =>
      var live := LiveArgs(e);
      forall i :: 0 <= i < |live| ==> LiveAll(live[i], p)
  }

  /** Every column a visitor sees, in either branch of an alias, satisfies `p`. */
  predicate AllColumns(e: Expr, p: ColumnRef -> bool)
    decreases e
  {
    match e
    case Column(c, _) => p(c)
    case Call(_, args) => forall i :: 0 <= i < |args| ==> AllColumns(args[i], p)
  }

  predicate AnyColumn(e: Expr, p: ColumnRef -> bool)
    decreases e
  {
    match e
    case Column(c, _) => p(c)
    case Call(_, args) => exists i :: 0 <= i < |args| && AnyColumn(args[i], p)
  }

  /** An environment in which aggregate and window calls fail. */
  ghost predicate Plain(env: Env) {
    (forall x :: env.agg(x) == Fault) && (forall x :: env.win(x) == Fault)
  }

  /** A move preserves meaning when every live column reads the same cell before and after. */
  lemma {:induction false} MovePreservesMeaning(e: Expr, move: (ColumnRef, nat) -> nat, before: Env, after: Env)
    requires Plain(before) && Plain(after) && before.op == after.op
    requires LiveAll(e, (c: ColumnRef, p: nat) => before.col(c, p) == after.col(c, move(c, p)))
    ensures Eval(MapPositions(e, move), after) == Eval(e, before)
    decreases e
  {
    if e.Call? && !IsAgg(e) && !IsWindow(e) {
      var m := MapPositions(e, move);
      var live, moved := LiveArgs(e), LiveArgs(m);
      forall i | 0 <= i < |live|
        ensures Eval(moved[i], after) == Eval(live[i], before)
      {
        assert moved[i] == MapPositions(live[i], move);
        MovePreservesMeaning(live[i], move, before, after);
      }
      SameCall(e, m, before, after);
    }
  }

  /** The same expression in two environments that agree on its live columns. */
  lemma {:induction false} AgreeOnLive(e: Expr, before: Env, after: Env)
    requires Plain(before) && Plain(after) && before.op == after.op
    requires LiveAll(e, (c: ColumnRef, p: nat) => before.col(c, p) == after.col(c, p))
    ensures Eval(e, after) == Eval(e, before)
    decreases e
  {
    if e.Call? && !IsAgg(e) && !IsWindow(e) {
      var live := LiveArgs(e);
      forall i | 0 <= i < |live|
        ensures Eval(live[i], after) == Eval(live[i], before)
      {
        AgreeOnLive(live[i], before, after);
      }
      SameCall(e, e, before, after);
    }
  }

  /** What holds of the moved columns holds of every live column after the move. */
  lemma {:induction false} MovePlaces(e: Expr, move: (ColumnRef, nat) -> nat, p: (ColumnRef, nat) -> bool)
    requires LiveAll(e, (c: ColumnRef, pos: nat) => p(c, move(c, pos)))
    ensures LiveAll(MapPositions(e, move), p)
    decreases e
  {
    if e.Call? {
      var m := MapPositions(e, move);
      forall i | 0 <= i < |LiveArgs(m)| ensures LiveAll(LiveArgs(m)[i], p) {
        assert LiveArgs(m)[i] == MapPositions(LiveArgs(e)[i], move);
        MovePlaces(LiveArgs(e)[i], move, p);
      }
    }
  }

  lemma {:induction false} LiveAllWeaken(e: Expr, p: (ColumnRef, nat) -> bool, q: (ColumnRef, nat) -> bool)
    requires LiveAll(e, p)
    requires forall c, pos :: p(c, pos) ==> q(c, pos)
    ensures LiveAll(e, q)
    decreases e
  {
    if e.Call? {
      var live := LiveArgs(e);
      forall i | 0 <= i < |live| ensures LiveAll(live[i], q) { LiveAllWeaken(live[i], p, q); }
    }
  }

  /** The column stands where `schema` puts it. */
  function At(schema: Schema): (ColumnRef, nat) -> bool {
    (c: ColumnRef, p: nat) => p < |schema| && SameColumn(schema[p], c)
  }

  lemma {:induction false} BoundIsLive(e: Expr, schema: Schema)
    requires Bound(e, schema)
    ensures LiveAll(e, At(schema))
    decreases e
  {
    if e.Call? {
      var live := LiveArgs(e);
      forall i | 0 <= i < |live|
        ensures LiveAll(live[i], At(schema))
      {
        BoundIsLive(live[i], schema);
      }
    }
  }

  /** What holds of every visited column holds of every live one. */
  lemma {:induction false} AllColumnsIsLive(e: Expr, p: ColumnRef -> bool)
    requires AllColumns(e, p)
    ensures LiveAll(e, (c, pos) => p(c))
    decreases e
  {
    if e.Call? {
      var live := LiveArgs(e);
      forall i | 0 <= i < |live| ensures LiveAll(live[i], (c, pos) => p(c)) {
        assert live[i] in e.args;
        AllColumnsIsLive(live[i], p);
      }
    }
  }

  lemma {:induction false} NotAnyIsAllNot(e: Expr, p: ColumnRef -> bool)
    ensures !AnyColumn(e, p) <==> AllColumns(e, c => !p(c))
    decreases e
  {
    if e.Call? {
      forall i | 0 <= i < |e.args|
        ensures !AnyColumn(e.args[i], p) <==> AllColumns(e.args[i], c => !p(c))
      {
        NotAnyIsAllNot(e.args[i], p);
      }
    }
  }

  lemma {:induction false} LiveAllBoth(e: Expr, p: (ColumnRef, nat) -> bool, q: (ColumnRef, nat) -> bool)
    requires LiveAll(e, p) && LiveAll(e, q)
    ensures LiveAll(e, (c: ColumnRef, pos: nat) => p(c, pos) && q(c, pos))
    decreases e
  {
    if e.Call? {
      var live := LiveArgs(e);
      forall i | 0 <= i < |live| ensures LiveAll(live[i], (c: ColumnRef, pos: nat) => p(c, pos) && q(c, pos)) {
        LiveAllBoth(live[i], p, q);
      }
    }
  }

  // ------------------------------------------------------------- conjunctions

  const AND := Binary(And, None, BooleanType)

  predicate IsAnd(e: Expr) {
    e.Call? && e.head.Binary? && e.head.binary == And && |e.args| == 2
  }

  function Conjunction(a: Expr, b: Expr): Expr {
    Call(AND, [a, b])
  }

  function SplitConjuncts(e: Expr): (es: seq<Expr>)
    ensures es != []
    decreases e
  {
    var x := Unpack(e);
    if IsAnd(x) then SplitConjuncts(x.args[0]) + SplitConjuncts(x.args[1]) else [x]
  }

  function CombineConjuncts(es: seq<Expr>): (r: Option<Expr>)
    ensures r.None? <==> es == []
  {
    if es == [] then None
    else if |es| == 1 then Some(es[0])
    else Some(Conjunction(CombineConjuncts(es[..|es| - 1]).value, es[|es| - 1]))
  }

  /** The left-to-right conjunction of a list of outcomes. */
  function All3(outs: seq<Outcome>): Outcome
    requires outs != []
  {
    if |outs| == 1 then outs[0] else And3(All3(outs[..|outs| - 1]), outs[|outs| - 1])
  }

  lemma And3Associates(x: Outcome, y: Outcome, z: Outcome)
    ensures And3(And3(x, y), z) == And3(x, And3(y, z))
  {
  }

  lemma EvalConjunction(e: Expr, env: Env)
    requires IsAnd(e)
    ensures Eval(e, env) == And3(Eval(e.args[0], env), Eval(e.args[1], env))
  {
    EvalCall(e, env);
    assert LiveArgs(e) == e.args;
  }

  lemma {:induction false} All3Append(a: seq<Outcome>, b: seq<Outcome>)
    requires a != [] && b != []
    ensures All3(a + b) == And3(All3(a), All3(b))
    decreases |b|
  {
    var n := |a + b| - 1;
    assert (a + b)[n] == b[|b| - 1];
    if |b| == 1 {
      assert (a + b)[..n] == a;
    } else {
      assert (a + b)[..n] == a + b[..|b| - 1];
      All3Append(a, b[..|b| - 1]);
      And3Associates(All3(a), All3(b[..|b| - 1]), b[|b| - 1]);
    }
  }

  lemma EvalArgsAppend(a: seq<Expr>, b: seq<Expr>, env: Env)
    ensures EvalArgs(a + b, env) == EvalArgs(a, env) + EvalArgs(b, env)
  {
  }

  lemma {:induction false} SplitMeaning(e: Expr, env: Env)
    ensures All3(EvalArgs(SplitConjuncts(e), env)) == Eval(e, env)
    decreases e
  {
    UnpackEval(e, env);
    var x := Unpack(e);
    if IsAnd(x) {
      var l, r := SplitConjuncts(x.args[0]), SplitConjuncts(x.args[1]);
      SplitMeaning(x.args[0], env);
      SplitMeaning(x.args[1], env);
      EvalArgsAppend(l, r, env);
      All3Append(EvalArgs(l, env), EvalArgs(r, env));
      EvalConjunction(x, env);
    }
  }

  lemma {:induction false} CombineMeaning(es: seq<Expr>, env: Env)
    requires es != []
    ensures Eval(CombineConjuncts(es).value, env) == All3(EvalArgs(es, env))
  {
    if |es| > 1 {
      var init := es[..|es| - 1];
      CombineMeaning(init, env);
      EvalConjunction(CombineConjuncts(es).value, env);
      assert EvalArgs(es, env)[..|es| - 1] == EvalArgs(init, env);
    }
  }

  /** Splitting a predicate and recombining its conjuncts gives the same outcome on every
      row: true, false, null and failure alike. */
  lemma CombineSplitPreservesMeaning(e: Expr, env: Env)
    ensures Eval(CombineConjuncts(SplitConjuncts(e)).value, env) == Eval(e, env)
  {
    SplitMeaning(e, env);
    CombineMeaning(SplitConjuncts(e), env);
  }

  ghost predicate AllTrue(es: seq<Expr>, env: Env) {
    forall i :: 0 <= i < |es| ==> Eval(es[i], env) == TRUE
  }

  lemma {:induction false} All3True(outs: seq<Outcome>)
    requires outs != []
    ensures All3(outs) == TRUE <==> forall i :: 0 <= i < |outs| ==> outs[i] == TRUE
  {
    if |outs| > 1 {
      var init := outs[..|outs| - 1];
      All3True(init);
      assert forall i :: 0 <= i < |init| ==> outs[i] == init[i];
    }
  }

  lemma SplitTrueIffAllTrue(e: Expr, env: Env)
    ensures Eval(e, env) == TRUE <==> AllTrue(SplitConjuncts(e), env)
  {
    var es := SplitConjuncts(e);
    SplitMeaning(e, env);
    All3True(EvalArgs(es, env));
  }

  lemma CombineTrueIffAllTrue(es: seq<Expr>, env: Env)
    ensures AllTrue(es, env) <==> es == [] || Eval(CombineConjuncts(es).value, env) == TRUE
  {
    if es != [] {
      CombineMeaning(es, env);
      All3True(EvalArgs(es, env));
    }
  }
}
