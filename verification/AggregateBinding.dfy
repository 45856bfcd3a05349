/** Rewriting expressions onto the output row of an aggregation (aggregate values, then group
    keys), the check that admits them, and the GROUP BY check. */
module AggregateBinding {
  import opened Expressions
  import opened Rewriting
  import opened CorrelatedSubqueries

  /** What an aggregate function makes of the argument outcomes of every row of a group. */
  type AggFn = (Head, seq<seq<Outcome>>) -> Outcome

  // --------------------------------------------------------- meaning in a group

  function AggValue(call: Expr, group: seq<Row>, fn: AggFn, op: Op): Outcome
    requires call.Call?
  {
    fn(call.head, seq(|group|, r requires 0 <= r < |group| => EvalArgs(call.args, RowEnv(group[r], op))))
  }

  /** An expression over a group: columns are read from a representative row, aggregate calls
      range over the whole group. */
  function GroupEnv(group: seq<Row>, rep: Row, fn: AggFn, op: Op): Env {
    Env((c: ColumnRef, p: nat) => Cell(rep, p),
        (call: Expr) => if call.Call? then AggValue(call, group, fn, op) else Fault,
        _ => Fault, op)
  }

  /** No aggregate call where evaluation can reach it. */
  predicate AggFree(e: Expr)
    decreases e
  {
    e.Call? ==> !IsAgg(e) && var live := LiveArgs(e); forall i :: 0 <= i < |live| ==> AggFree(live[i])
  }

  // ---------------------------------------------------------------- the check

  predicate ContainsEqual(exprs: seq<Expr>, e: Expr) {
    exists i :: 0 <= i < |exprs| && EqIgnore(exprs[i], e)
  }

  /** `HavingOrderByValidator`. */
  predicate Accepts(e: Expr, groupBy: seq<Expr>, aggs: seq<Expr>)
    decreases e
  {
    match e
    case Column(_, _) => ContainsEqual(groupBy, e)
    case Call(head, args) =>
      if head.AggCall? then ContainsEqual(groupBy, e) || ContainsEqual(aggs, e)
      else if IsAlias(e) then ContainsEqual(groupBy, e) || Accepts(Unpack(e), groupBy, aggs)
      else !head.Empty? && !head.TableFunction? && forall i :: 0 <= i < |args| ==> Accepts(args[i], groupBy, aggs)
  }

  // --------------------------------------------------- exactly what is accepted

  /** The subexpression that evaluation reaches along `path`. */
  function Below(e: Expr, path: seq<nat>): Option<Expr>
    decreases path
  {
    if path == [] then Some(e)
    else if e.Call? && path[0] < |LiveArgs(e)| then Below(LiveArgs(e)[path[0]], path[1..])
    else None
  }

  /** What has no value of its own for a group: a column, an aggregate call, or what cannot be evaluated at all. */
  predicate NeedsOutput(x: Expr) {
    x.Column? || x.head.AggCall? || x.head.Empty? || x.head.TableFunction?
  }

  /** A column, an alias or an aggregate call that is a group key, or an aggregate call that was collected. */
  predicate Listed(x: Expr, groupBy: seq<Expr>, aggs: seq<Expr>) {
    || ((x.Column? || IsAlias(x) || IsAgg(x)) && ContainsEqual(groupBy, x))
    || (IsAgg(x) && ContainsEqual(aggs, x))
  }

  /** Something on the way along `path` is listed. */
  ghost predicate ListedOnTheWay(e: Expr, path: seq<nat>, groupBy: seq<Expr>, aggs: seq<Expr>) {
    exists k :: 0 <= k <= |path| && ListedAt(e, path[..k], groupBy, aggs)
  }

  ghost predicate ListedAt(e: Expr, path: seq<nat>, groupBy: seq<Expr>, aggs: seq<Expr>) {
    Below(e, path).Some? && Listed(Below(e, path).value, groupBy, aggs)
  }

  ghost predicate NeedsOutputAt(e: Expr, path: seq<nat>) {
    Below(e, path).Some? && NeedsOutput(Below(e, path).value)
  }

  /** Whatever needs an output lies at or under something listed. */
  ghost predicate AllListed(e: Expr, groupBy: seq<Expr>, aggs: seq<Expr>) {
    forall path: seq<nat> :: NeedsOutputAt(e, path) ==> ListedOnTheWay(e, path, groupBy, aggs)
  }

  lemma {:induction false} BelowArg(e: Expr, i: nat, path: seq<nat>)
    requires e.Call? && i < |LiveArgs(e)|
    ensures Below(e, [i] + path) == Below(LiveArgs(e)[i], path)
  {
    assert ([i] + path)[1..] == path;
  }

  lemma {:induction false} ListedThroughArg(e: Expr, i: nat, path: seq<nat>, groupBy: seq<Expr>, aggs: seq<Expr>)
    requires e.Call? && i < |LiveArgs(e)| && !Listed(e, groupBy, aggs)
    ensures ListedOnTheWay(e, [i] + path, groupBy, aggs) <==> ListedOnTheWay(LiveArgs(e)[i], path, groupBy, aggs)
  {
    var whole := [i] + path;
    forall k | 1 <= k <= |whole|
      ensures ListedAt(e, whole[..k], groupBy, aggs) <==> ListedAt(LiveArgs(e)[i], path[..k - 1], groupBy, aggs)
    {
      assert whole[..k] == [i] + path[..k - 1];
      BelowArg(e, i, path[..k - 1]);
    }
    assert whole[..0] == [] && !ListedAt(e, whole[..0], groupBy, aggs);
    if k :| 0 <= k <= |path| && ListedAt(LiveArgs(e)[i], path[..k], groupBy, aggs) {
      assert ListedAt(e, whole[..k + 1], groupBy, aggs);
    }
  }

  /** For what is not listed and needs no output itself, the operands decide. */
  lemma {:induction false} OperandsDecide(e: Expr, groupBy: seq<Expr>, aggs: seq<Expr>)
    requires e.Call? && !Listed(e, groupBy, aggs) && !NeedsOutput(e)
    ensures AllListed(e, groupBy, aggs) <==>
            forall i :: 0 <= i < |LiveArgs(e)| ==> AllListed(LiveArgs(e)[i], groupBy, aggs)
  {
    var live := LiveArgs(e);
    if AllListed(e, groupBy, aggs) {
      forall i, path: seq<nat> | 0 <= i < |live| && NeedsOutputAt(live[i], path)
        ensures ListedOnTheWay(live[i], path, groupBy, aggs)
      {
        BelowArg(e, i, path);
        assert NeedsOutputAt(e, [i] + path);
        ListedThroughArg(e, i, path, groupBy, aggs);
      }
    }
    if forall i :: 0 <= i < |live| ==> AllListed(live[i], groupBy, aggs) {
      forall path: seq<nat> | NeedsOutputAt(e, path) ensures ListedOnTheWay(e, path, groupBy, aggs) {
        var i, rest := path[0], path[1..];
        assert path == [i] + rest;
        BelowArg(e, i, rest);
        assert NeedsOutputAt(live[i], rest);
        ListedThroughArg(e, i, rest, groupBy, aggs);
      }
    }
  }

  lemma {:induction false} EqualThroughAlias(exprs: seq<Expr>, e: Expr)
    requires IsAlias(e)
    ensures ContainsEqual(exprs, e) <==> ContainsEqual(exprs, e.args[0])
  {
    assert forall x :: EqIgnore(x, e) <==> EqIgnore(x, e.args[0]) by { assert Unpack(e) == Unpack(e.args[0]); }
  }

  lemma {:induction false} AcceptsThroughAlias(e: Expr, groupBy: seq<Expr>, aggs: seq<Expr>)
    requires IsAlias(e) && !ContainsEqual(groupBy, e)
    ensures Accepts(e, groupBy, aggs) <==> Accepts(e.args[0], groupBy, aggs)
  {
    EqualThroughAlias(groupBy, e);
    assert Unpack(e) == Unpack(e.args[0]);
    assert !e.head.AggCall?;
    if IsAlias(e.args[0]) { assert !e.args[0].head.AggCall?; }
  }

  lemma {:induction false} NothingOnTheWay(e: Expr, groupBy: seq<Expr>, aggs: seq<Expr>)
    requires !Listed(e, groupBy, aggs)
    ensures !ListedOnTheWay(e, [], groupBy, aggs)
  {
    var none: seq<nat> := [];
    assert forall k :: 0 <= k <= |none| ==> none[..k] == none;
  }

  /** The check accepts an expression exactly when every column and every aggregate call that evaluation reaches lies
      at or under a listed one, and nothing is reached that cannot be evaluated. */
  lemma {:induction false} AcceptsIff(e: Expr, groupBy: seq<Expr>, aggs: seq<Expr>)
    ensures Accepts(e, groupBy, aggs) <==> AllListed(e, groupBy, aggs)
    decreases e
  {
    if Listed(e, groupBy, aggs) {
      forall path: seq<nat> ensures ListedOnTheWay(e, path, groupBy, aggs) {
        assert path[..0] == [] && ListedAt(e, path[..0], groupBy, aggs);
      }
    } else if NeedsOutput(e) {
      assert NeedsOutputAt(e, []) && !ListedAt(e, [], groupBy, aggs);
      NothingOnTheWay(e, groupBy, aggs);
    } else {
      OperandsDecide(e, groupBy, aggs);
      forall i | 0 <= i < |LiveArgs(e)|
        ensures Accepts(LiveArgs(e)[i], groupBy, aggs) <==> AllListed(LiveArgs(e)[i], groupBy, aggs)
      {
        AcceptsIff(LiveArgs(e)[i], groupBy, aggs);
      }
      if IsAlias(e) {
        AcceptsThroughAlias(e, groupBy, aggs);
        var live := LiveArgs(e);
        assert |live| == 1 && live[0] == e.args[0];
        assert (forall i :: 0 <= i < |live| ==> AllListed(live[i], groupBy, aggs)) <==>
               AllListed(live[0], groupBy, aggs);
      } else {
        assert LiveArgs(e) == e.args;
      }
    }
  }

  // --------------------------------------------------------------- the rewrite

  /** `AggregateOutputBinder` over the outputs `outs` (aggregate calls, then group keys).  A
      named alias is always kept and its expression rewritten. */
  function BindOutput(e: Expr, outs: seq<Expr>, naming: Expr -> ColumnRef): Expr
    decreases e
  {
    var j := FindOutput(outs, e);
    if j < |outs| && !(e.Call? && e.head.AliasName?) then Column(OutputColumn(outs[j], naming), j)
    else match e
      case Column(_, _) => e
      case Call(head, args) =>
        Call(head, seq(|args|, i requires 0 <= i < |args| => BindOutput(args[i], outs, naming)))
  }

  /** Every leaf that evaluation reaches lies under some output. */
  predicate Covered(e: Expr, outs: seq<Expr>)
    decreases e
  {
    || FindOutput(outs, e) < |outs|
    || (e.Call? && !IsAgg(e) && var live := LiveArgs(e); forall i :: 0 <= i < |live| ==> Covered(live[i], outs))
  }

  /** A column of the aggregation's output row. */
  function AtOutput(outs: seq<Expr>, naming: Expr -> ColumnRef): (ColumnRef, nat) -> bool {
    (c: ColumnRef, p: nat) => p < |outs| && c == OutputColumn(outs[p], naming)
  }

  lemma FindsEqual(exprs: seq<Expr>, outs: seq<Expr>, e: Expr)
    requires ContainsEqual(exprs, e) && forall x :: x in exprs ==> x in outs
    ensures FindOutput(outs, e) < |outs|
  {
    var i :| 0 <= i < |exprs| && EqIgnore(exprs[i], e);
    assert exprs[i] in outs;
  }

  lemma FindUnpacked(outs: seq<Expr>, e: Expr)
    requires IsAlias(e)
    ensures FindOutput(outs, e) < |outs| <==> FindOutput(outs, e.args[0]) < |outs|
  {
    assert forall x :: EqIgnore(x, e) <==> EqIgnore(x, e.args[0]) by {
      assert Unpack(e) == Unpack(e.args[0]);
    }
    if FindOutput(outs, e) < |outs| { assert EqIgnore(outs[FindOutput(outs, e)], e.args[0]); }
    if FindOutput(outs, e.args[0]) < |outs| { assert EqIgnore(outs[FindOutput(outs, e.args[0])], e); }
  }

  lemma {:induction false} CoveredUnpack(e: Expr, outs: seq<Expr>)
    ensures Covered(e, outs) <==> Covered(Unpack(e), outs)
  {
    if IsAlias(e) {
      FindUnpacked(outs, e);
      assert LiveArgs(e) == [e.args[0]];
      CoveredUnpack(e.args[0], outs);
      if Covered(e.args[0], outs) { assert Covered(LiveArgs(e)[0], outs); }
    }
  }

  /** Whatever the check accepts is covered by the outputs. */
  lemma {:induction false} AcceptedIsCovered(e: Expr, groupBy: seq<Expr>, aggs: seq<Expr>)
    requires Accepts(e, groupBy, aggs)
    ensures Covered(e, aggs + groupBy)
    decreases e
  {
    var outs := aggs + groupBy;
    if ContainsEqual(groupBy, e) {
      FindsEqual(groupBy, outs, e);
    } else if ContainsEqual(aggs, e) {
      FindsEqual(aggs, outs, e);
    } else if IsAlias(e) {
      AcceptedIsCovered(Unpack(e), groupBy, aggs);
      CoveredUnpack(e, outs);
    } else {
      forall i | 0 <= i < |LiveArgs(e)| ensures Covered(LiveArgs(e)[i], outs) {
        AcceptedIsCovered(e.args[i], groupBy, aggs);
      }
    }
  }

  // ------------------------------------------------------------ the main result

  /** Rows of one group agree on every group key. */
  ghost predicate SameKeys(group: seq<Row>, groupBy: seq<Expr>, op: Op) {
    forall r, s, k :: 0 <= r < |group| && 0 <= s < |group| && 0 <= k < |groupBy| ==>
      Eval(groupBy[k], RowEnv(group[r], op)) == Eval(groupBy[k], RowEnv(group[s], op))
  }

  /** An aggregation over inputs of `schema`: its calls are aggregate calls, its keys are
      free of them, and all positions agree with the schema. */
  ghost predicate Aggregation(aggs: seq<Expr>, groupBy: seq<Expr>, schema: Schema) {
    && Distinct(schema)
    && (forall i :: 0 <= i < |aggs| ==> IsAgg(Unpack(aggs[i])) && Bound(aggs[i], schema))
    && (forall k :: 0 <= k < |groupBy| ==> AggFree(groupBy[k]) && Bound(groupBy[k], schema))
  }

  /** The output row of the aggregation for a group. */
  function OutputRow(aggs: seq<Expr>, groupBy: seq<Expr>, group: seq<Row>, rep: Row, fn: AggFn, op: Op): (r: Row)
    ensures |r| == |aggs| + |groupBy|
  {
    seq(|aggs|, i requires 0 <= i < |aggs| =>
      var call := Unpack(aggs[i]); if call.Call? then AggValue(call, group, fn, op) else Fault)
    + EvalArgs(groupBy, RowEnv(rep, op))
  }

  lemma RowEnvRespects(row: Row, op: Op, schema: Schema)
    ensures Respects(RowEnv(row, op), schema)
  {
  }

  lemma EqualAggValues(a: Expr, b: Expr, schema: Schema, group: seq<Row>, fn: AggFn, op: Op)
    requires Distinct(schema) && IsAgg(a) && IsAgg(b) && BothBound(a, b, schema) && EqIgnore(a, b)
    ensures AggValue(a, group, fn, op) == AggValue(b, group, fn, op)
  {
    assert LiveArgs(a) == a.args && LiveArgs(b) == b.args;
    forall r | 0 <= r < |group|
      ensures EvalArgs(a.args, RowEnv(group[r], op)) == EvalArgs(b.args, RowEnv(group[r], op))
    {
      RowEnvRespects(group[r], op, schema);
      forall i | 0 <= i < |a.args|
        ensures Eval(a.args[i], RowEnv(group[r], op)) == Eval(b.args[i], RowEnv(group[r], op))
      {
        EqEvaluatesAlike(a.args[i], b.args[i], schema, RowEnv(group[r], op));
      }
    }
    assert seq(|group|, r requires 0 <= r < |group| => EvalArgs(a.args, RowEnv(group[r], op)))
        == seq(|group|, r requires 0 <= r < |group| => EvalArgs(b.args, RowEnv(group[r], op)));
  }

  lemma GroupEnvRespects(group: seq<Row>, rep: Row, fn: AggFn, op: Op, schema: Schema)
    requires Distinct(schema)
    ensures Respects(GroupEnv(group, rep, fn, op), schema)
  {
    var env := GroupEnv(group, rep, fn, op);
    forall a: Expr, b: Expr | IsAgg(a) && IsAgg(b) && BothBound(a, b, schema) && EqIgnore(a, b)
      ensures env.agg(a) == env.agg(b)
    {
      EqualAggValues(a, b, schema, group, fn, op);
    }
  }

  /** Without aggregate calls a group means what its representative row means. */
  lemma {:induction false} AggFreeReadsRow(e: Expr, group: seq<Row>, rep: Row, fn: AggFn, op: Op)
    requires AggFree(e)
    ensures Eval(e, GroupEnv(group, rep, fn, op)) == Eval(e, RowEnv(rep, op))
    decreases e
  {
    if e.Call? && !IsWindow(e) {
      forall i | 0 <= i < |LiveArgs(e)|
        ensures Eval(LiveArgs(e)[i], GroupEnv(group, rep, fn, op)) == Eval(LiveArgs(e)[i], RowEnv(rep, op))
      {
        AggFreeReadsRow(LiveArgs(e)[i], group, rep, fn, op);
      }
      SameCall(e, e, GroupEnv(group, rep, fn, op), RowEnv(rep, op));
    }
  }

  /** Slot `j` of the output row holds the value of output expression `j`, whichever row of
      the group was taken for the keys. */
  lemma OutputCell(j: nat, aggs: seq<Expr>, groupBy: seq<Expr>, schema: Schema, group: seq<Row>, keyRow: Row, rep: Row,
                   fn: AggFn, op: Op)
    requires Aggregation(aggs, groupBy, schema) && SameKeys(group, groupBy, op) && keyRow in group && rep in group
    requires j < |aggs| + |groupBy|
    ensures OutputRow(aggs, groupBy, group, keyRow, fn, op)[j] ==
            Eval((aggs + groupBy)[j], GroupEnv(group, rep, fn, op))
  {
    if j < |aggs| {
      UnpackEval(aggs[j], GroupEnv(group, rep, fn, op));
    } else {
      var k := j - |aggs|;
      assert (aggs + groupBy)[j] == groupBy[k];
      AggFreeReadsRow(groupBy[k], group, rep, fn, op);
      var r :| 0 <= r < |group| && group[r] == keyRow;
      var s :| 0 <= s < |group| && group[s] == rep;
    }
  }

  lemma OutputsBound(aggs: seq<Expr>, groupBy: seq<Expr>, schema: Schema, j: nat)
    requires Aggregation(aggs, groupBy, schema) && j < |aggs| + |groupBy|
    ensures Bound((aggs + groupBy)[j], schema)
  {
  }

  lemma BoundOutputArgs(e: Expr, outs: seq<Expr>, naming: Expr -> ColumnRef, i: nat)
    requires e.Call? && BindOutput(e, outs, naming).Call? && i < |LiveArgs(e)|
    ensures
      var b := BindOutput(e, outs, naming);
      b.head == e.head && |LiveArgs(b)| == |LiveArgs(e)| && LiveArgs(b)[i] == BindOutput(LiveArgs(e)[i], outs, naming)
  {
  }

  /** A covered call that is not replaced has covered operands. */
  lemma CoveredArgs(e: Expr, outs: seq<Expr>, naming: Expr -> ColumnRef, i: nat)
    requires Covered(e, outs) && e.Call? && BindOutput(e, outs, naming).Call? && i < |LiveArgs(e)|
    ensures !IsAgg(e) && Covered(LiveArgs(e)[i], outs)
  {
    if FindOutput(outs, e) < |outs| {
      assert e.head.AliasName?;
      if IsAlias(e) { FindUnpacked(outs, e); }
    }
  }

  /** Aggregation binding preserves meaning: a covered expression, rewritten, yields on the
      output row of a group what the original yields for the group, whichever row represents
      the group and whichever row the keys were taken from. */
  lemma {:induction false} BindOutputPreservesMeaning(e: Expr, aggs: seq<Expr>, groupBy: seq<Expr>, schema: Schema,
                                                      naming: Expr -> ColumnRef, group: seq<Row>, keyRow: Row, rep: Row,
                                                      fn: AggFn, op: Op)
    requires Aggregation(aggs, groupBy, schema) && SameKeys(group, groupBy, op) && keyRow in group && rep in group
    requires Covered(e, aggs + groupBy) && Bound(e, schema)
    ensures Eval(BindOutput(e, aggs + groupBy, naming), RowEnv(OutputRow(aggs, groupBy, group, keyRow, fn, op), op))
         == Eval(e, GroupEnv(group, rep, fn, op))
    decreases e
  {
    var outs, genv := aggs + groupBy, GroupEnv(group, rep, fn, op);
    var row := OutputRow(aggs, groupBy, group, keyRow, fn, op);
    var b := BindOutput(e, outs, naming);
    var j := FindOutput(outs, e);
    if b.Column? {
      assert b == Column(OutputColumn(outs[j], naming), j);
      OutputsBound(aggs, groupBy, schema, j);
      GroupEnvRespects(group, rep, fn, op, schema);
      EqEvaluatesAlike(outs[j], e, schema, genv);
      OutputCell(j, aggs, groupBy, schema, group, keyRow, rep, fn, op);
    } else if !IsWindow(e) {
      forall i | 0 <= i < |LiveArgs(e)|
        ensures Eval(LiveArgs(b)[i], RowEnv(row, op)) == Eval(LiveArgs(e)[i], genv)
      {
        BoundOutputArgs(e, outs, naming, i);
        CoveredArgs(e, outs, naming, i);
        BindOutputPreservesMeaning(LiveArgs(e)[i], aggs, groupBy, schema, naming, group, keyRow, rep, fn, op);
      }
      if |LiveArgs(e)| > 0 { CoveredArgs(e, outs, naming, 0); }
      SameCall(e, b, genv, RowEnv(row, op));
    }
  }

  /** After binding, evaluation reaches output columns only and no aggregate call. */
  lemma {:induction false} BindOutputLeavesNoInput(e: Expr, outs: seq<Expr>, naming: Expr -> ColumnRef)
    requires Covered(e, outs)
    ensures LiveAll(BindOutput(e, outs, naming), AtOutput(outs, naming))
    ensures AggFree(BindOutput(e, outs, naming))
    decreases e
  {
    var b := BindOutput(e, outs, naming);
    if b.Call? {
      forall i | 0 <= i < |LiveArgs(b)|
        ensures LiveAll(LiveArgs(b)[i], AtOutput(outs, naming)) && AggFree(LiveArgs(b)[i])
      {
        BoundOutputArgs(e, outs, naming, i);
        CoveredArgs(e, outs, naming, i);
        BindOutputLeavesNoInput(LiveArgs(e)[i], outs, naming);
      }
    }
  }

  /** The binder puts an output column in the expression's place. */
  predicate Rebound(e: Expr, outs: seq<Expr>) {
    FindOutput(outs, e) < |outs| && !(e.Call? && e.head.AliasName?)
  }

  /** Every column in the expression, in evaluated and unevaluated branches alike, lies under some output. */
  predicate CoveredEverywhere(e: Expr, outs: seq<Expr>)
    decreases e
  {
    Rebound(e, outs) || (e.Call? && forall i :: 0 <= i < |e.args| ==> CoveredEverywhere(e.args[i], outs))
  }

  /** Every column reference, evaluated or not, satisfies `p`. */
  ghost predicate AllAt(e: Expr, p: (ColumnRef, nat) -> bool)
    decreases e
  {
    match e
    case Column(c, pos) => p(c, pos)
    case Call(_, args) => forall i :: 0 <= i < |args| ==> AllAt(args[i], p)
  }

  lemma {:induction false} CoveredBindsEverywhere(e: Expr, outs: seq<Expr>, naming: Expr -> ColumnRef)
    requires CoveredEverywhere(e, outs)
    ensures AllAt(BindOutput(e, outs, naming), AtOutput(outs, naming))
    decreases e
  {
    if !Rebound(e, outs) {
      forall i | 0 <= i < |e.args| ensures AllAt(BindOutput(e.args[i], outs, naming), AtOutput(outs, naming)) {
        CoveredBindsEverywhere(e.args[i], outs, naming);
      }
    }
  }

  predicate HasAgg(e: Expr)
    decreases e
  {
    e.Call? && (e.head.AggCall? || exists i :: 0 <= i < |e.args| && HasAgg(e.args[i]))
  }

  /** Aliases as they are built: a name has one child, and what an expression alias puts in the place of the aliased
      expression is a column. */
  predicate BinderAliases(e: Expr)
    decreases e
  {
    e.Call? ==>
      && (e.head.AliasName? ==> |e.args| == 1)
      && (e.head.AliasExpr? ==> |e.args| == 2 && Unpack(e.args[0]).Column?)
      && forall i :: 0 <= i < |e.args| ==> BinderAliases(e.args[i])
  }

  lemma {:induction false} FindThroughAliases(outs: seq<Expr>, e: Expr)
    ensures FindOutput(outs, e) < |outs| <==> FindOutput(outs, Unpack(e)) < |outs|
    decreases e
  {
    if IsAlias(e) {
      FindUnpacked(outs, e);
      FindThroughAliases(outs, e.args[0]);
    }
  }

  /** Every column and every aggregate call, evaluated or not, is replaced by an output column. */
  predicate ReplacedEverywhere(e: Expr, outs: seq<Expr>)
    decreases e
  {
    || Rebound(e, outs)
    || (e.Call? && !IsAgg(e) && forall i :: 0 <= i < |e.args| ==> ReplacedEverywhere(e.args[i], outs))
  }

  lemma {:induction false} ReplacedIsCovered(e: Expr, outs: seq<Expr>, naming: Expr -> ColumnRef)
    requires ReplacedEverywhere(e, outs)
    ensures CoveredEverywhere(e, outs) && !HasAgg(BindOutput(e, outs, naming))
    decreases e
  {
    if !Rebound(e, outs) {
      forall i | 0 <= i < |e.args|
        ensures CoveredEverywhere(e.args[i], outs) && !HasAgg(BindOutput(e.args[i], outs, naming))
      {
        ReplacedIsCovered(e.args[i], outs, naming);
      }
    }
  }

  /** What the check finds among its lists is an output. */
  lemma {:induction false} ListedIsFound(e: Expr, groupBy: seq<Expr>, aggs: seq<Expr>)
    ensures ContainsEqual(groupBy, e) || ContainsEqual(aggs, e) ==> FindOutput(aggs + groupBy, e) < |aggs + groupBy|
  {
    if ContainsEqual(groupBy, e) {
      FindsEqual(groupBy, aggs + groupBy, e);
    } else if ContainsEqual(aggs, e) {
      FindsEqual(aggs, aggs + groupBy, e);
    }
  }

  /** Whatever the check accepts is replaced in every branch, evaluated or not. */
  lemma {:induction false} AcceptedIsReplaced(e: Expr, groupBy: seq<Expr>, aggs: seq<Expr>)
    requires (Accepts(e, groupBy, aggs) || ContainsEqual(groupBy, e)) && BinderAliases(e)
    ensures ReplacedEverywhere(e, aggs + groupBy)
    decreases e
  {
    var outs := aggs + groupBy;
    ListedIsFound(e, groupBy, aggs);
    if e.Call? && e.head.AliasExpr? {
      ListedIsFound(Unpack(e), groupBy, aggs);
      FindThroughAliases(outs, e);
    } else if e.Call? && e.head.AliasName? {
      EqualThroughAlias(groupBy, e);
      AcceptedIsReplaced(e.args[0], groupBy, aggs);
    } else if !Rebound(e, outs) {
      forall i | 0 <= i < |e.args| ensures ReplacedEverywhere(e.args[i], outs) {
        AcceptedIsReplaced(e.args[i], groupBy, aggs);
      }
    }
  }

  /** The results for what the check accepts: the value is kept, evaluation reaches no input column and no aggregate
      call, and with aliases as they are built there is none in any branch. */
  lemma AcceptedBindsFaithfully(e: Expr, aggs: seq<Expr>, groupBy: seq<Expr>, schema: Schema, naming: Expr -> ColumnRef,
                                group: seq<Row>, keyRow: Row, rep: Row, fn: AggFn, op: Op)
    requires Aggregation(aggs, groupBy, schema) && SameKeys(group, groupBy, op) && keyRow in group && rep in group
    requires Accepts(e, groupBy, aggs) && Bound(e, schema)
    ensures
      var b := BindOutput(e, aggs + groupBy, naming);
      && LiveAll(b, AtOutput(aggs + groupBy, naming)) && AggFree(b)
      && Eval(b, RowEnv(OutputRow(aggs, groupBy, group, keyRow, fn, op), op)) == Eval(e, GroupEnv(group, rep, fn, op))
      && (BinderAliases(e) ==> AllAt(b, AtOutput(aggs + groupBy, naming)) && !HasAgg(b))
  {
    if BinderAliases(e) {
      AcceptedIsReplaced(e, groupBy, aggs);
      ReplacedIsCovered(e, aggs + groupBy, naming);
      CoveredBindsEverywhere(e, aggs + groupBy, naming);
    }
    AcceptedIsCovered(e, groupBy, aggs);
    BindOutputPreservesMeaning(e, aggs, groupBy, schema, naming, group, keyRow, rep, fn, op);
    BindOutputLeavesNoInput(e, aggs + groupBy, naming);
  }

  // --------------------------------------- exactly when no input reference is left

  lemma {:induction false} OutputOfColumn(x: Expr, naming: Expr -> ColumnRef, input: ColumnRef -> bool, c: ColumnRef,
                                          p: nat)
    requires forall y :: !input(naming(y))
    requires input(c) && OutputColumn(x, naming) == c
    ensures EqIgnore(x, Column(c, p))
    decreases x
  {
    if !x.Column? {
      OutputOfColumn(x.args[0], naming, input, c, p);
      assert Unpack(x) == Unpack(x.args[0]);
    }
  }

  /** When computed outputs get columns of their own, the rewritten expression is free of input
      columns and aggregate calls exactly when the original is covered. */
  lemma {:induction false} LeavesNoInputIffCovered(e: Expr, outs: seq<Expr>, naming: Expr -> ColumnRef,
                                                   input: ColumnRef -> bool)
    requires AllColumns(e, input) && forall y :: !input(naming(y))
    ensures
      var b := BindOutput(e, outs, naming);
      LiveAll(b, AtOutput(outs, naming)) && AggFree(b) <==> Covered(e, outs)
    decreases e
  {
    var b := BindOutput(e, outs, naming);
    if Covered(e, outs) {
      BindOutputLeavesNoInput(e, outs, naming);
    } else if e.Column? {
      if AtOutput(outs, naming)(e.ref, e.position) {
        OutputOfColumn(outs[e.position], naming, input, e.ref, e.position);
      }
    } else if !IsAgg(e) {
      var i :| 0 <= i < |LiveArgs(e)| && !Covered(LiveArgs(e)[i], outs);
      assert LiveArgs(e)[i] in e.args;
      BoundOutputArgs(e, outs, naming, i);
      LeavesNoInputIffCovered(LiveArgs(e)[i], outs, naming, input);
      assert LiveArgs(b)[i] == BindOutput(LiveArgs(e)[i], outs, naming);
    }
  }

  /** What the binder's context holds once the aggregation is built: both lists were moved out. */
  datatype AggContext = AggContext(groupBy: seq<Expr>, aggs: seq<Expr>)

  function TakeOutputs(context: AggContext): AggContext {
    if context.aggs != [] || context.groupBy != [] then AggContext([], []) else context
  }

  /** `validate_having_orderby`. */
  predicate ValidateHaving(e: Expr, context: AggContext) {
    context.groupBy == [] || Accepts(e, context.groupBy, context.aggs)
  }

  /** Without group keys anything passes; with some, exactly what lies at or under listed expressions. */
  lemma HavingCheckIff(e: Expr, context: AggContext)
    ensures ValidateHaving(e, context) <==> context.groupBy == [] || AllListed(e, context.groupBy, context.aggs)
  {
    AcceptsIff(e, context.groupBy, context.aggs);
  }

  /** The HAVING check runs after the lists were moved out, so it admits every expression; an
      expression that is not covered then keeps an input column, which is read from the
      aggregation's output row. */
  lemma HavingCheckAdmitsUncovered(context: AggContext, e: Expr, naming: Expr -> ColumnRef, input: ColumnRef -> bool)
    requires AllColumns(e, input) && forall y :: !input(naming(y))
    ensures ValidateHaving(e, TakeOutputs(context))
    ensures !Covered(e, context.aggs + context.groupBy) ==>
      var b := BindOutput(e, context.aggs + context.groupBy, naming);
      !(LiveAll(b, AtOutput(context.aggs + context.groupBy, naming)) && AggFree(b))
  {
    LeavesNoInputIffCovered(e, context.aggs + context.groupBy, naming, input);
  }

  /** No reference to an input column is left anywhere in the rewritten expression exactly when the original
      is covered everywhere. */
  lemma {:induction false} NoInputAnywhereIff(e: Expr, outs: seq<Expr>, naming: Expr -> ColumnRef,
                                              input: ColumnRef -> bool)
    requires AllColumns(e, input) && forall y :: !input(naming(y))
    ensures AllAt(BindOutput(e, outs, naming), AtOutput(outs, naming)) <==> CoveredEverywhere(e, outs)
    decreases e
  {
    var b := BindOutput(e, outs, naming);
    if !Rebound(e, outs) {
      if e.Column? {
        if AtOutput(outs, naming)(e.ref, e.position) {
          OutputOfColumn(outs[e.position], naming, input, e.ref, e.position);
        }
      } else {
        forall i | 0 <= i < |e.args|
          ensures AllAt(b.args[i], AtOutput(outs, naming)) <==> CoveredEverywhere(e.args[i], outs)
        {
          NoInputAnywhereIff(e.args[i], outs, naming, input);
        }
      }
    }
  }

  /** Were an expression alias to put something other than a column in the aliased expression's place, an accepted
      expression could keep an input column in the branch that is not evaluated. */
  lemma DeadBranchMayKeepInput(a: ColumnRef, b: ColumnRef, naming: Expr -> ColumnRef)
    requires !SameColumn(a, b)
    ensures
      var key := Column(a, 0);
      var e := Call(AliasExpr, [Call(IsNull(false), [key]), Column(b, 1)]);
      var r := BindOutput(e, [key], naming);
      Accepts(e, [key], []) && r.Call? && |r.args| == 2 && r.args[1] == Column(b, 1)
  {
    var key := Column(a, 0);
    var test := Call(IsNull(false), [key]);
    var e := Call(AliasExpr, [test, Column(b, 1)]);
    assert EqIgnore([key][0], key);
    assert Accepts(test, [key], []);
    assert Unpack(e) == test;
    assert !EqIgnore(key, e) && !EqIgnore(key, Column(b, 1));
    assert FindOutput([key], e) == 1 && FindOutput([key], Column(b, 1)) == 1;
  }

  // ------------------------------------------------------- collecting the calls

  /** `AggregateCallCollector`: an alias is followed into the aliased expression only. */
  function CollectCalls(e: Expr): seq<Expr>
    decreases e
  {
    match e
    case Column(_, _) => []
    case Call(head, args) =>
      if head.AggCall? then [e]
      else if head.AliasExpr? && |args| == 2 then CollectCalls(args[1])
      else Flatten(seq(|args|, i requires 0 <= i < |args| => CollectCalls(args[i])))
  }

  function Flatten(xs: seq<seq<Expr>>): (r: seq<Expr>)
    ensures forall i, x :: 0 <= i < |xs| && x in xs[i] ==> x in r
  {
    if xs == [] then [] else
      assert xs == [xs[0]] + xs[1..];
      xs[0] + Flatten(xs[1..])
  }

  /** Every aggregate call that evaluation reaches lies under some output. */
  predicate CallsCovered(e: Expr, outs: seq<Expr>)
    decreases e
  {
    || Rebound(e, outs)
    || (e.Call? ==> !IsAgg(e) && var live := LiveArgs(e); forall i :: 0 <= i < |live| ==> CallsCovered(live[i], outs))
  }

  /** An aggregate call survives binding exactly when evaluation reaches one that lies under no output. */
  lemma {:induction false} CallSurvivesIff(e: Expr, outs: seq<Expr>, naming: Expr -> ColumnRef)
    ensures AggFree(BindOutput(e, outs, naming)) <==> CallsCovered(e, outs)
    decreases e
  {
    var b := BindOutput(e, outs, naming);
    if !Rebound(e, outs) && e.Call? && !IsAgg(e) {
      forall i | 0 <= i < |LiveArgs(e)|
        ensures i < |LiveArgs(b)| && (AggFree(LiveArgs(b)[i]) <==> CallsCovered(LiveArgs(e)[i], outs))
      {
        BoundOutputArgs(e, outs, naming, i);
        CallSurvivesIff(LiveArgs(e)[i], outs, naming);
      }
      assert |LiveArgs(b)| == |LiveArgs(e)|;
    }
  }

  /** The collector follows an expression alias into the branch that is not evaluated.  Were a call to stand in the
      other one, where the binders put a column, it would not be collected, and survive. */
  lemma UncollectedCallSurvives(call: Expr, c: ColumnRef, naming: Expr -> ColumnRef)
    requires IsAgg(call)
    ensures
      var e := Call(AliasExpr, [call, Column(c, 0)]);
      CollectCalls(e) == [] && !AggFree(BindOutput(e, CollectCalls(e), naming))
  {
    var e := Call(AliasExpr, [call, Column(c, 0)]);
    assert LiveArgs(e)[0] == call && !CallsCovered(call, []);
    CallSurvivesIff(e, [], naming);
  }

  /** Below aliases of a column there is no call to survive. */
  lemma {:induction false} AliasedColumnIsBound(e: Expr, outs: seq<Expr>, naming: Expr -> ColumnRef)
    requires Unpack(e).Column?
    ensures AggFree(BindOutput(e, outs, naming))
    decreases e
  {
    if IsAlias(e) && !Rebound(e, outs) {
      BoundOutputArgs(e, outs, naming, 0);
      AliasedColumnIsBound(e.args[0], outs, naming);
    }
  }

  lemma {:induction false} CollectedBelow(e: Expr, outs: seq<Expr>, i: nat)
    requires e.Call? && !e.head.AggCall? && !e.head.AliasExpr? && i < |e.args|
    requires forall x :: x in CollectCalls(e) ==> x in outs
    ensures forall x :: x in CollectCalls(e.args[i]) ==> x in outs
  {
    var parts := seq(|e.args|, k requires 0 <= k < |e.args| => CollectCalls(e.args[k]));
    assert CollectCalls(e) == Flatten(parts) && parts[i] == CollectCalls(e.args[i]);
  }

  /** Once its calls are collected, no aggregate call of an expression survives binding. */
  lemma {:induction false} CollectedCallsAreBound(e: Expr, outs: seq<Expr>, naming: Expr -> ColumnRef)
    requires BinderAliases(e)
    requires forall x :: x in CollectCalls(e) ==> x in outs
    ensures AggFree(BindOutput(e, outs, naming))
    decreases e
  {
    var b := BindOutput(e, outs, naming);
    if IsAgg(e) {
      assert e in outs;
      EqIsEquivalence(e, e, e);
    } else if e.Call? && e.head.AliasExpr? {
      AliasedColumnIsBound(e, outs, naming);
    } else if b.Call? {
      forall i | 0 <= i < |LiveArgs(b)| ensures AggFree(LiveArgs(b)[i]) {
        BoundOutputArgs(e, outs, naming, i);
        assert LiveArgs(e)[i] == e.args[i];
        CollectedBelow(e, outs, i);
        CollectedCallsAreBound(e.args[i], outs, naming);
      }
    }
  }

  /** Outside aggregate calls, every column that evaluation reaches is a group key, and nothing is reached that cannot
      be evaluated. */
  predicate KeysOutsideCalls(e: Expr, groupBy: seq<Expr>)
    decreases e
  {
    match e
    case Column(_, _) => ContainsEqual(groupBy, e)
    case Call(head, _) =>
      head.AggCall? ||
      (!head.Empty? && !head.TableFunction? &&
       forall i :: 0 <= i < |LiveArgs(e)| ==> KeysOutsideCalls(LiveArgs(e)[i], groupBy))
  }

  /** The check rejects nothing that it should accept: once its calls are collected, an expression over group keys
      passes. */
  lemma {:induction false} CollectedIsAccepted(e: Expr, groupBy: seq<Expr>, aggs: seq<Expr>)
    requires BinderAliases(e) && KeysOutsideCalls(e, groupBy)
    requires forall x :: x in CollectCalls(e) ==> x in aggs
    ensures Accepts(e, groupBy, aggs)
    decreases e
  {
    if IsAgg(e) {
      assert e in aggs;
      EqIsEquivalence(e, e, e);
    } else if IsAlias(e) {
      assert LiveArgs(e)[0] == e.args[0];
      if !ContainsEqual(groupBy, e) { AcceptsThroughAlias(e, groupBy, aggs); }
      if e.head.AliasExpr? {
        KeyThroughAliases(e.args[0], groupBy);
        EqualThroughAlias(groupBy, e);
      } else {
        CollectedBelow(e, aggs, 0);
        CollectedIsAccepted(e.args[0], groupBy, aggs);
      }
    } else if e.Call? {
      forall i | 0 <= i < |e.args| ensures Accepts(e.args[i], groupBy, aggs) {
        assert LiveArgs(e)[i] == e.args[i];
        if !e.head.AliasExpr? { CollectedBelow(e, aggs, i); }
        CollectedIsAccepted(e.args[i], groupBy, aggs);
      }
    }
  }

  lemma {:induction false} KeyThroughAliases(e: Expr, groupBy: seq<Expr>)
    requires Unpack(e).Column? && KeysOutsideCalls(e, groupBy)
    ensures ContainsEqual(groupBy, e)
    decreases e
  {
    if IsAlias(e) {
      assert LiveArgs(e)[0] == e.args[0];
      KeyThroughAliases(e.args[0], groupBy);
      EqualThroughAlias(groupBy, e);
    }
  }

  /** What is collected are aggregate calls of the expression. */
  lemma {:induction false} CollectedAreCalls(e: Expr, x: Expr)
    requires x in CollectCalls(e)
    ensures IsAgg(x) && Occurs(x, e)
    decreases e
  {
    if e.Call? && !IsAgg(e) {
      if e.head.AliasExpr? && |e.args| == 2 {
        CollectedAreCalls(e.args[1], x);
      } else {
        var parts := seq(|e.args|, k requires 0 <= k < |e.args| => CollectCalls(e.args[k]));
        var i := FlattenedFrom(parts, x);
        CollectedAreCalls(e.args[i], x);
      }
    }
  }

  lemma {:induction false} FlattenedFrom(xs: seq<seq<Expr>>, x: Expr) returns (i: nat)
    requires x in Flatten(xs)
    ensures i < |xs| && x in xs[i]
  {
    if x in xs[0] {
      i := 0;
    } else {
      var k := FlattenedFrom(xs[1..], x);
      i := k + 1;
    }
  }

  // ----------------------------------------------------------- GROUP BY check

  predicate HasWindow(e: Expr)
    decreases e
  {
    e.Call? && (e.head.WindowCall? || exists i :: 0 <= i < |e.args| && HasWindow(e.args[i]))
  }

  /** `x` stands somewhere in `e`, evaluated or not. */
  ghost predicate Occurs(x: Expr, e: Expr)
    decreases e
  {
    x == e || (e.Call? && exists i :: 0 <= i < |e.args| && Occurs(x, e.args[i]))
  }

  lemma {:induction false} HasIffOccurs(e: Expr)
    ensures HasAgg(e) <==> exists x :: Occurs(x, e) && IsAgg(x)
    ensures HasWindow(e) <==> exists x :: Occurs(x, e) && IsWindow(x)
    decreases e
  {
    assert Occurs(e, e);
    if e.Call? {
      forall i | 0 <= i < |e.args|
        ensures HasAgg(e.args[i]) <==> exists x :: Occurs(x, e.args[i]) && IsAgg(x)
        ensures HasWindow(e.args[i]) <==> exists x :: Occurs(x, e.args[i]) && IsWindow(x)
      {
        HasIffOccurs(e.args[i]);
      }
    }
  }

  /** The first select item that carries the same alias. */
  function FindAlias(items: seq<Expr>, e: Expr, sameAlias: (Expr, Expr) -> bool): (i: nat)
    ensures i <= |items|
    ensures i < |items| ==> IsAlias(items[i]) && sameAlias(e, items[i])
    ensures forall k :: 0 <= k < i ==> !(IsAlias(items[k]) && sameAlias(e, items[k]))
  {
    if items == [] then 0
    else if IsAlias(items[0]) && sameAlias(e, items[0]) then 0
    else
      var r := 1 + FindAlias(items[1..], e, sameAlias);
      assert forall k :: 1 <= k < r ==> items[k] == items[1..][k - 1];
      r
  }

  /** `r` is what the group expression `g` stands for: itself, or, for an alias, the first select item that
      carries it. */
  ghost predicate StandsFor(items: seq<Expr>, g: Expr, sameAlias: (Expr, Expr) -> bool, r: Expr) {
    if !IsAlias(g) then r == g
    else exists k :: 0 <= k < |items| && items[k] == r && FirstCarrier(items, g, sameAlias, k)
  }

  ghost predicate FirstCarrier(items: seq<Expr>, g: Expr, sameAlias: (Expr, Expr) -> bool, k: nat)
    requires k < |items|
  {
    IsAlias(items[k]) && sameAlias(g, items[k]) &&
      forall j :: 0 <= j < k ==> !(IsAlias(items[j]) && sameAlias(g, items[j]))
  }

  /** An alias that no select item carries. */
  ghost predicate Dangling(items: seq<Expr>, g: Expr, sameAlias: (Expr, Expr) -> bool) {
    IsAlias(g) && forall k :: 0 <= k < |items| ==> !(IsAlias(items[k]) && sameAlias(g, items[k]))
  }

  /** `from` lists, in order, the group expressions that are resolved; the others dangle. */
  ghost predicate Resolved(items: seq<Expr>, groupBy: seq<Expr>, sameAlias: (Expr, Expr) -> bool, r: seq<Expr>,
                           from: seq<nat>)
  {
    && |r| == |from|
    && (forall i :: 0 <= i < |from| ==> from[i] < |groupBy| && StandsFor(items, groupBy[from[i]], sameAlias, r[i]))
    && (forall i, j :: 0 <= i < j < |from| ==> from[i] < from[j])
    && (forall n :: 0 <= n < |groupBy| ==> (n !in from <==> Dangling(items, groupBy[n], sameAlias)))
  }

  /** A group expression that is an alias stands for the select item it names, if any. */
  function ResolveGroup(items: seq<Expr>, groupBy: seq<Expr>, sameAlias: (Expr, Expr) -> bool): seq<Expr> {
    if groupBy == [] then []
    else
      var init, e := ResolveGroup(items, groupBy[..|groupBy| - 1], sameAlias), groupBy[|groupBy| - 1];
      if !IsAlias(e) then init + [e]
      else
        var i := FindAlias(items, e, sameAlias);
        if i < |items| then init + [items[i]] else init
  }

  /** The item has to be a group key itself. */
  predicate Plain(item: Expr) {
    !HasWindow(item) && !HasAgg(item)
  }

  function PlainItems(items: seq<Expr>): seq<Expr> {
    if items == [] then []
    else (if Plain(items[0]) then [items[0]] else []) + PlainItems(items[1..])
  }

  ghost predicate Increasing(from: seq<nat>) {
    forall i, j :: 0 <= i < j < |from| ==> from[i] < from[j]
  }

  /** `picked` are the items at the positions `from`. */
  ghost predicate PickedAt(picked: seq<Expr>, items: seq<Expr>, from: seq<nat>) {
    |from| == |picked| && forall i :: 0 <= i < |from| ==> from[i] < |items| && picked[i] == items[from[i]]
  }

  /** `from` holds the positions of the items in which neither an aggregate nor a window call occurs. */
  ghost predicate CallFreePositions(items: seq<Expr>, from: seq<nat>) {
    forall n: nat :: n in from <==> n < |items| && CallFree(items[n])
  }

  ghost predicate CallFree(item: Expr) {
    forall x :: Occurs(x, item) ==> !IsAgg(x) && !IsWindow(x)
  }

  function Shifted(from: seq<nat>): (r: seq<nat>)
    ensures |r| == |from| && forall i :: 0 <= i < |from| ==> r[i] == from[i] + 1
  {
    seq(|from|, i requires 0 <= i < |from| => from[i] + 1)
  }

  lemma {:induction false} InShifted(from: seq<nat>, n: nat)
    ensures n in Shifted(from) <==> n > 0 && n - 1 in from
  {
    if n > 0 && n - 1 in from {
      var i :| 0 <= i < |from| && from[i] == n - 1;
      assert Shifted(from)[i] == n;
    }
  }

  /** The plain items are, in order, exactly the items in which neither an aggregate nor a window call occurs. */
  lemma {:induction false} PlainItemsAre(items: seq<Expr>) returns (from: seq<nat>)
    ensures Increasing(from) && PickedAt(PlainItems(items), items, from) && CallFreePositions(items, from)
  {
    if items == [] {
      from := [];
    } else {
      var rest := PlainItemsAre(items[1..]);
      PlainIffCallFree(items[0]);
      from := (if Plain(items[0]) then [0] else []) + Shifted(rest);
      forall n: nat ensures n in from <==> n < |items| && CallFree(items[n]) {
        InShifted(rest, n);
        if n > 0 { assert n - 1 in rest <==> n - 1 < |items[1..]| && CallFree(items[1..][n - 1]); }
      }
    }
  }

  lemma {:induction false} PlainIffCallFree(item: Expr)
    ensures Plain(item) <==> CallFree(item)
  {
    HasIffOccurs(item);
  }

  function Canons(es: seq<Expr>): (r: seq<Expr>)
    ensures |r| == |es|
    ensures forall i :: 0 <= i < |es| ==> r[i] == Canon(es[i])
  {
    seq(|es|, i requires 0 <= i < |es| => Canon(es[i]))
  }

  /** The classes of a list of expressions under the structural equality, with multiplicity. */
  function Classes(es: seq<Expr>): multiset<Expr> {
    multiset(Canons(es))
  }

  lemma CanonsCons(e: Expr, es: seq<Expr>)
    ensures Canons([e] + es) == [Canon(e)] + Canons(es)
  {
    var all, rest := Canons([e] + es), Canons(es);
    assert all[0] == Canon(e);
    forall i | 1 <= i < |all| ensures all[i] == ([Canon(e)] + rest)[i] { assert ([e] + es)[i] == es[i - 1]; }
  }

  lemma MultisetCons<T>(x: T, xs: seq<T>)
    ensures multiset([x] + xs) == multiset{x} + multiset(xs)
  {
  }

  lemma ClassesCons(e: Expr, es: seq<Expr>)
    ensures Classes([e] + es) == multiset{Canon(e)} + Classes(es)
  {
    CanonsCons(e, es);
    MultisetCons(Canon(e), Canons(es));
  }

  lemma ClassesRemove(es: seq<Expr>, p: nat)
    requires p < |es|
    ensures Classes(es[..p] + es[p + 1..]) == Classes(es) - multiset{Canon(es[p])}
  {
    var c := Canons(es);
    assert Canons(es[..p] + es[p + 1..]) == c[..p] + c[p + 1..];
    assert c == c[..p] + [c[p]] + c[p + 1..];
  }

  lemma InClasses(es: seq<Expr>, e: Expr)
    ensures Canon(e) in Classes(es) <==> ContainsEqual(es, e)
  {
    forall i | 0 <= i < |es| ensures EqIgnore(es[i], e) <==> Canons(es)[i] == Canon(e) { EqIffSameCanon(es[i], e); }
    if Canon(e) in Classes(es) {
      var i :| 0 <= i < |es| && Canons(es)[i] == Canon(e);
      assert EqIgnore(es[i], e);
    }
    if ContainsEqual(es, e) {
      var i :| 0 <= i < |es| && EqIgnore(es[i], e);
      assert Canons(es)[i] in Canons(es);
    }
  }

  /** One more group expression. */
  lemma {:induction false} ResolveNext(items: seq<Expr>, groupBy: seq<Expr>, sameAlias: (Expr, Expr) -> bool, n: nat,
                                       r: seq<Expr>, from: seq<nat>)
    requires n < |groupBy| && Resolved(items, groupBy[..n], sameAlias, r, from)
    ensures
      var g := groupBy[n];
      var i := FindAlias(items, g, sameAlias);
      if !IsAlias(g) then Resolved(items, groupBy[..n + 1], sameAlias, r + [g], from + [n])
      else if i < |items| then Resolved(items, groupBy[..n + 1], sameAlias, r + [items[i]], from + [n])
      else Resolved(items, groupBy[..n + 1], sameAlias, r, from)
  {
    var g, i := groupBy[n], FindAlias(items, groupBy[n], sameAlias);
    assert forall k :: 0 <= k < n ==> groupBy[..n + 1][k] == groupBy[..n][k];
    assert forall k :: 0 <= k < |from| ==> from[k] in from;
    if IsAlias(g) && i < |items| { assert FirstCarrier(items, g, sameAlias, i); }
  }

  /** The loop that resolves group aliases: the result stands, in order, for exactly the group expressions
      that do not dangle. */
  method ResolveAliases(items: seq<Expr>, groupBy: seq<Expr>, sameAlias: (Expr, Expr) -> bool)
    returns (unmatched: seq<Expr>, ghost from: seq<nat>)
    ensures Resolved(items, groupBy, sameAlias, unmatched, from)
    ensures unmatched == ResolveGroup(items, groupBy, sameAlias)
  {
    unmatched, from := [], [];
    for n := 0 to |groupBy|
      invariant unmatched == ResolveGroup(items, groupBy[..n], sameAlias)
      invariant Resolved(items, groupBy[..n], sameAlias, unmatched, from)
    {
      var e := groupBy[n];
      assert groupBy[..n + 1][..n] == groupBy[..n];
      ResolveNext(items, groupBy, sameAlias, n, unmatched, from);
      if IsAlias(e) {
        var i := FindAlias(items, e, sameAlias);
        if i < |items| { unmatched, from := unmatched + [items[i]], from + [n]; }
      } else {
        unmatched, from := unmatched + [e], from + [n];
      }
    }
    assert groupBy[..|groupBy|] == groupBy;
  }

  /** `position` over the unmatched group expressions. */
  method FindUnmatched(unmatched: seq<Expr>, item: Expr) returns (p: nat)
    ensures p <= |unmatched|
    ensures p < |unmatched| ==> EqIgnore(item, unmatched[p])
    ensures p == |unmatched| ==> !ContainsEqual(unmatched, item)
  {
    p := 0;
    while p < |unmatched|
      invariant p <= |unmatched|
      invariant forall k :: 0 <= k < p ==> !EqIgnore(unmatched[k], item)
    {
      if EqIgnore(item, unmatched[p]) { return; }
      EqIsEquivalence(unmatched[p], item, item);
      p := p + 1;
    }
  }

  /** Every item with a window call passes the HAVING check. */
  ghost predicate WindowItemsPass(items: seq<Expr>, groupBy: seq<Expr>, aggs: seq<Expr>) {
    forall i :: 0 <= i < |items| && HasWindow(items[i]) ==> Accepts(items[i], groupBy, aggs)
  }

  /** The plain items and the group expressions are equal as multisets of equivalence classes. */
  ghost predicate Matched(items: seq<Expr>, group: seq<Expr>) {
    Classes(PlainItems(items)) == Classes(group)
  }

  lemma {:induction false} NotPlain(items: seq<Expr>, group: seq<Expr>)
    requires items != [] && !Plain(items[0])
    ensures Matched(items, group) <==> Matched(items[1..], group)
  {
    assert PlainItems(items) == PlainItems(items[1..]);
  }

  lemma {:induction false} NothingLeft(group: seq<Expr>)
    ensures Matched([], group) <==> group == []
  {
    if group != [] { assert Canons(group)[0] in Classes(group); }
  }

  lemma {:induction false} NoMatch(items: seq<Expr>, group: seq<Expr>)
    requires items != [] && Plain(items[0]) && !ContainsEqual(group, items[0])
    ensures !Matched(items, group)
  {
    InClasses(group, items[0]);
    ClassesCons(items[0], PlainItems(items[1..]));
    assert Canon(items[0]) in Classes(PlainItems(items));
  }

  /** Taking a matched item out of both sides keeps them equal or unequal. */
  lemma {:induction false} TakeMatched(items: seq<Expr>, group: seq<Expr>, p: nat)
    requires items != [] && Plain(items[0]) && p < |group| && EqIgnore(items[0], group[p])
    ensures Matched(items, group) <==> Matched(items[1..], group[..p] + group[p + 1..])
  {
    var rest := PlainItems(items[1..]);
    assert PlainItems(items) == [items[0]] + rest;
    ClassesCons(items[0], rest);
    EqIffSameCanon(items[0], group[p]);
    ClassesRemove(group, p);
    assert Canons(group)[p] in Canons(group);
    RemoveOne(Classes(rest), Classes(group), Canon(items[0]));
  }

  ghost predicate Passes(items: seq<Expr>, group: seq<Expr>, groupBy: seq<Expr>, aggs: seq<Expr>) {
    WindowItemsPass(items, groupBy, aggs) && Matched(items, group)
  }

  lemma {:induction false} WindowItemsStep(items: seq<Expr>, groupBy: seq<Expr>, aggs: seq<Expr>)
    requires items != []
    ensures WindowItemsPass(items, groupBy, aggs) <==>
      (HasWindow(items[0]) ==> Accepts(items[0], groupBy, aggs)) && WindowItemsPass(items[1..], groupBy, aggs)
  {
    if WindowItemsPass(items, groupBy, aggs) {
      forall i | 0 <= i < |items[1..]| && HasWindow(items[1..][i]) ensures Accepts(items[1..][i], groupBy, aggs) {
        assert items[1..][i] == items[i + 1];
      }
    }
    if (HasWindow(items[0]) ==> Accepts(items[0], groupBy, aggs)) && WindowItemsPass(items[1..], groupBy, aggs) {
      forall i | 0 <= i < |items| && HasWindow(items[i]) ensures Accepts(items[i], groupBy, aggs) {
        if i > 0 { assert items[i] == items[1..][i - 1]; }
      }
    }
  }

  lemma {:induction false} WindowStep(items: seq<Expr>, group: seq<Expr>, groupBy: seq<Expr>, aggs: seq<Expr>)
    requires items != [] && HasWindow(items[0])
    ensures Passes(items, group, groupBy, aggs) <==>
      Accepts(items[0], groupBy, aggs) && Passes(items[1..], group, groupBy, aggs)
  {
    WindowItemsStep(items, groupBy, aggs);
    NotPlain(items, group);
  }

  lemma {:induction false} AggregateStep(items: seq<Expr>, group: seq<Expr>, groupBy: seq<Expr>, aggs: seq<Expr>)
    requires items != [] && !HasWindow(items[0]) && HasAgg(items[0])
    ensures Passes(items, group, groupBy, aggs) <==> Passes(items[1..], group, groupBy, aggs)
  {
    WindowItemsStep(items, groupBy, aggs);
    NotPlain(items, group);
  }

  lemma {:induction false} PlainStep(items: seq<Expr>, group: seq<Expr>, p: nat, groupBy: seq<Expr>, aggs: seq<Expr>)
    requires items != [] && Plain(items[0]) && p <= |group|
    requires if p < |group| then EqIgnore(items[0], group[p]) else !ContainsEqual(group, items[0])
    ensures Passes(items, group, groupBy, aggs) <==>
      p < |group| && Passes(items[1..], group[..p] + group[p + 1..], groupBy, aggs)
  {
    WindowItemsStep(items, groupBy, aggs);
    if p < |group| { TakeMatched(items, group, p); } else { NoMatch(items, group); }
  }

  /** The GROUP BY check is complete although greedy: it accepts exactly when the items with window calls pass the
      HAVING check, and the plain items and the resolved group expressions are equal as multisets of equivalence
      classes. */
  method ValidateGroupBy(items: seq<Expr>, groupBy: seq<Expr>, aggs: seq<Expr>, sameAlias: (Expr, Expr) -> bool)
    returns (ok: bool)
    ensures ok <==> Passes(items, ResolveGroup(items, groupBy, sameAlias), groupBy, aggs)
  {
    var unmatched, _ := ResolveAliases(items, groupBy, sameAlias);
    var n := 0;
    assert items[0..] == items;
    while n < |items|
      invariant 0 <= n <= |items|
      invariant Passes(items, ResolveGroup(items, groupBy, sameAlias), groupBy, aggs) <==>
                Passes(items[n..], unmatched, groupBy, aggs)
    {
      ghost var left := items[n..];
      assert left[0] == items[n] && left[1..] == items[n + 1..];
      if HasWindow(items[n]) {
        WindowStep(left, unmatched, groupBy, aggs);
        if !Accepts(items[n], groupBy, aggs) { return false; }
      } else if HasAgg(items[n]) {
        AggregateStep(left, unmatched, groupBy, aggs);
      } else {
        var p := FindUnmatched(unmatched, items[n]);
        PlainStep(left, unmatched, p, groupBy, aggs);
        if p == |unmatched| { return false; }
        unmatched := unmatched[..p] + unmatched[p + 1..];
      }
      n := n + 1;
    }
    NothingLeft(unmatched);
    assert items[n..] == [];
    ok := unmatched == [];
  }

  lemma RemoveOne(a: multiset<Expr>, b: multiset<Expr>, x: Expr)
    requires x in b
    ensures multiset{x} + a == b <==> a == b - multiset{x}
  {
    if a == b - multiset{x} { assert multiset{x} + a == b; }
    if multiset{x} + a == b { assert a == b - multiset{x}; }
  }
}
