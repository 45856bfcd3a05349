/** Correlated IN / ANY / ALL subqueries: the projection is kept, pulled filters are bound to
    its output, missing child columns are appended, and everything is re-aimed at the row of
    the mark apply. */
module QuantifiedSubqueries {
  import opened Expressions
  import opened Rewriting
  import opened JoinSplitting
  import opened CorrelatedSubqueries

  datatype AppendedOutput = AppendedOutput(column: ColumnRef, childPosition: nat, outputPosition: nat)

  function SameAs(c: ColumnRef): ColumnRef -> bool {
    (d: ColumnRef) => SameColumn(d, c)
  }

  predicate Referenced(preds: seq<Expr>, c: ColumnRef) {
    exists i :: 0 <= i < |preds| && AnyColumn(preds[i], SameAs(c))
  }

  predicate Missing(child: Schema, out: Schema, preds: seq<Expr>, position: nat)
    requires position < |child|
  {
    child[position] !in out && Referenced(preds, child[position])
  }

  /** The columns appended for the first `n` child columns. */
  function AppendedUpTo(child: Schema, out: Schema, preds: seq<Expr>, n: nat): (r: seq<AppendedOutput>)
    requires n <= |child|
  {
    if n == 0 then []
    else
      var prev := AppendedUpTo(child, out, preds, n - 1);
      if Missing(child, out, preds, n - 1) then prev + [AppendedOutput(child[n - 1], n - 1, |out| + |prev|)]
      else prev
  }

  /** Entry `t` names a child column and the slot `t` places past the projection. */
  ghost predicate PlacedPast(appended: seq<AppendedOutput>, child: Schema, outLen: nat) {
    forall t :: 0 <= t < |appended| ==>
      && appended[t].childPosition < |child| && appended[t].column == child[appended[t].childPosition]
      && appended[t].outputPosition == outLen + t
  }

  /** Appended columns lie past the projection in child order, and none is forgotten. */
  lemma {:induction false} AppendedFacts(child: Schema, out: Schema, preds: seq<Expr>, n: nat)
    requires n <= |child|
    ensures
      var r := AppendedUpTo(child, out, preds, n);
      && PlacedPast(r, child, |out|)
      && (forall p :: 0 <= p < n && Missing(child, out, preds, p) ==>
            exists t :: 0 <= t < |r| && r[t].childPosition == p)
  {
    if n > 0 {
      AppendedFacts(child, out, preds, n - 1);
      var prev, r := AppendedUpTo(child, out, preds, n - 1), AppendedUpTo(child, out, preds, n);
      assert forall t :: 0 <= t < |prev| ==> r[t] == prev[t];
      forall p | 0 <= p < n && Missing(child, out, preds, p)
        ensures exists t :: 0 <= t < |r| && r[t].childPosition == p
      {
        if p == n - 1 {
          assert r[|prev|].childPosition == p;
        } else {
          var t :| 0 <= t < |prev| && prev[t].childPosition == p;
          assert r[t].childPosition == p;
        }
      }
    }
  }

  /** The scan over the predicates, left at the first that mentions the column. */
  method IsReferenced(preds: seq<Expr>, column: ColumnRef) returns (referenced: bool)
    ensures referenced <==> Referenced(preds, column)
  {
    for i := 0 to |preds|
      invariant forall k :: 0 <= k < i ==> !AnyColumn(preds[k], SameAs(column))
    {
      if AnyColumn(preds[i], SameAs(column)) { return true; }
    }
    return false;
  }

  /** `ensure_mark_apply_right_outputs`: the loop that pushes missing columns onto the
      projection and records where they went. */
  method EnsureRightOutputs(exprs: seq<Expr>, child: Schema, out: Schema, preds: seq<Expr>)
    returns (grown: seq<Expr>, appended: seq<AppendedOutput>)
    ensures appended == AppendedUpTo(child, out, preds, |child|)
    ensures grown == exprs + Carried(appended)
  {
    grown, appended := exprs, [];
    var position := 0;
    while position < |child|
      invariant position <= |child|
      invariant appended == AppendedUpTo(child, out, preds, position)
      invariant grown == exprs + Carried(appended)
    {
      var column := child[position];
      if column !in out {
        var referenced := IsReferenced(preds, column);
        if referenced {
          ghost var before := appended;
          grown := grown + [Column(column, position)];
          appended := appended + [AppendedOutput(column, position, |out| + |appended|)];
          assert Carried(appended) == Carried(before) + [Column(column, position)];
        }
      }
      position := position + 1;
    }
  }

  /** The pass-through expressions of the appended columns. */
  function Carried(appended: seq<AppendedOutput>): (r: seq<Expr>)
    ensures |r| == |appended|
    ensures forall t :: 0 <= t < |appended| ==> r[t] == Column(appended[t].column, appended[t].childPosition)
  {
    seq(|appended|, t requires 0 <= t < |appended| => Column(appended[t].column, appended[t].childPosition))
  }

  function AppendedColumns(appended: seq<AppendedOutput>): (r: Schema)
    ensures |r| == |appended|
    ensures forall t :: 0 <= t < |appended| ==> r[t] == appended[t].column
  {
    seq(|appended|, t requires 0 <= t < |appended| => appended[t].column)
  }

  function FindAppended(appended: seq<AppendedOutput>, c: ColumnRef, p: nat): (t: nat)
    ensures t <= |appended|
    ensures t < |appended| ==> appended[t].childPosition == p && SameColumn(c, appended[t].column)
    ensures t == |appended| ==> forall k :: 0 <= k < t ==> !(appended[k].childPosition == p &&
                                                             SameColumn(c, appended[k].column))
  {
    if appended == [] then 0
    else if appended[0].childPosition == p && SameColumn(c, appended[0].column) then 0
    else
      var t := 1 + FindAppended(appended[1..], c, p);
      assert forall k :: 1 <= k < |appended| ==> appended[k] == appended[1..][k - 1];
      t
  }

  /** `localize_appended_right_outputs`. */
  function Localize(appended: seq<AppendedOutput>): (ColumnRef, nat) -> nat {
    (c: ColumnRef, p: nat) =>
      var t := FindAppended(appended, c, p);
      if t < |appended| then appended[t].outputPosition else p
  }

  // -------------------------------------------------------------- the setting

  /** What the binder hands over: a projection over a filter zone with its identities apart.
      `out` is the projection's schema, `child` the zone's. */
  ghost predicate Setting(exprs: seq<Expr>, naming: Expr -> ColumnRef, left: Schema, child: Schema) {
    var out := OutputColumns(exprs, naming);
    && Distinct(child) && Disjoint(left, child) && Disjoint(left, out)
    && (forall j :: 0 <= j < |exprs| ==> Bound(exprs[j], child) && !AnyColumn(exprs[j], InSchema(left)))
    && CarriesIdentity(exprs, out, child)
  }

  /** An output that bears a child column's identity is that column. */
  ghost predicate CarriesIdentity(exprs: seq<Expr>, out: Schema, child: Schema) {
    forall j {:trigger exprs[j]} :: 0 <= j < |exprs| && j < |out| && Contains(child, out[j]) ==>
      Unpack(exprs[j]).Column? && SameColumn(Unpack(exprs[j]).ref, out[j])
  }

  /** Where a column of a bound predicate stands: in the outer row, in the projected row, or,
      when the projection does not carry it, in the child row. */
  function Standing(left: Schema, out: Schema, child: Schema): (ColumnRef, nat) -> bool {
    (c: ColumnRef, p: nat) =>
      if Contains(left, c) then At(left)(c, p)
      else if Contains(out, c) then At(out)(c, p)
      else At(child)(c, p)
  }

  function MidEnv(left: Schema, outer: Row, out: Schema, projected: Row, row: Row, op: Op): Env {
    Env((c: ColumnRef, p: nat) =>
          if Contains(left, c) then Cell(outer, p)
          else if Contains(out, c) then Cell(projected, p)
          else Cell(row, p),
        _ => Fault, _ => Fault, op)
  }

  // ------------------------------------------------- binding to the projection

  /** Whatever equals an inner expression reads the inner row only. */
  lemma {:induction false} EqualToInnerIsInner(e: Expr, x: Expr, left: Schema, child: Schema)
    requires Disjoint(left, child)
    requires LiveAll(e, AtEither(left, child)) && Bound(x, child) && EqIgnore(x, e)
    ensures Bound(e, child)
    decreases e
  {
    if IsAlias(e) {
      EqUnpackRight(x, e);
      EqualToInnerIsInner(LiveArgs(e)[0], x, left, child);
    } else {
      var y := Unpack(x);
      UnpackBound(x, child);
      if e.Column? {
        assert Contains(child, e.ref) by { assert SameColumn(child[y.position], e.ref); }
        NeverInBoth(left, child, e.ref);
        assert !At(left)(e.ref, e.position) by {
          if At(left)(e.ref, e.position) { assert Contains(left, e.ref); }
        }
      } else {
        forall i | 0 <= i < |e.args| ensures Bound(LiveArgs(e)[i], child) {
          assert LiveArgs(e)[i] == e.args[i] && LiveArgs(y)[i] == y.args[i];
          EqualToInnerIsInner(e.args[i], y.args[i], left, child);
        }
      }
    }
  }

  lemma EqUnpackRight(x: Expr, e: Expr)
    requires IsAlias(e)
    ensures EqIgnore(x, e) <==> EqIgnore(x, e.args[0])
  {
    assert Unpack(e) == Unpack(e.args[0]);
  }

  lemma SideEnvRespects(left: Schema, outer: Row, row: Row, op: Op, schema: Schema)
    ensures Respects(SideEnv(left, outer, row, op), schema)
  {
    forall c: ColumnRef, d: ColumnRef, p: nat | SameColumn(c, d)
      ensures SideEnv(left, outer, row, op).col(c, p) == SideEnv(left, outer, row, op).col(d, p)
    {
      assert Contains(left, c) <==> Contains(left, d);
    }
  }

  /** A bound reference reads, in the projected row, what the expression computed. */
  lemma MatchedOutput(e: Expr, j: nat, exprs: seq<Expr>, naming: Expr -> ColumnRef, left: Schema, child: Schema,
                      outer: Row, row: Row, op: Op)
    requires Setting(exprs, naming, left, child)
    requires j < |exprs| && EqIgnore(exprs[j], e) && LiveAll(e, AtEither(left, child))
    ensures Eval(e, SideEnv(left, outer, row, op)) == Eval(exprs[j], RowEnv(row, op))
  {
    var side := SideEnv(left, outer, row, op);
    EqualToInnerIsInner(e, exprs[j], left, child);
    SideEnvRespects(left, outer, row, op, child);
    EqEvaluatesAlike(exprs[j], e, child, side);
    LocalReadsInner(exprs[j], left, outer, row, op);
    EmptySideIsRow(exprs[j], row, op);
  }

  lemma EmptySideIsRow(e: Expr, row: Row, op: Op)
    ensures Eval(e, SideEnv([], [], row, op)) == Eval(e, RowEnv(row, op))
  {
    var before, after := RowEnv(row, op), SideEnv([], [], row, op);
    LiveAllTrivial(e, (c: ColumnRef, p: nat) => before.col(c, p) == after.col(c, p));
    AgreeOnLive(e, before, after);
  }

  /** A child column that some output carries is found among the outputs. */
  lemma CarriedIsFound(c: ColumnRef, p: nat, exprs: seq<Expr>, naming: Expr -> ColumnRef, child: Schema)
    requires CarriesIdentity(exprs, OutputColumns(exprs, naming), child)
    ensures At(child)(c, p) && Contains(OutputColumns(exprs, naming), c) ==> FindOutput(exprs, Column(c, p)) < |exprs|
  {
    var out := OutputColumns(exprs, naming);
    if At(child)(c, p) && Contains(out, c) {
      var j :| 0 <= j < |out| && SameColumn(out[j], c);
      assert SameColumn(child[p], out[j]) && Contains(child, out[j]);
      ColumnEqual(exprs[j], c, p);
    }
  }

  lemma ColumnEqual(x: Expr, c: ColumnRef, p: nat)
    requires Unpack(x).Column? && SameColumn(Unpack(x).ref, c)
    ensures EqIgnore(x, Column(c, p))
  {
  }

  /** An unmatched inner column is carried by no output. */
  lemma UnmatchedColumn(c: ColumnRef, p: nat, exprs: seq<Expr>, naming: Expr -> ColumnRef, left: Schema, child: Schema)
    requires Setting(exprs, naming, left, child)
    requires AtEither(left, child)(c, p)
    requires FindOutput(exprs, Column(c, p)) == |exprs|
    ensures Standing(left, OutputColumns(exprs, naming), child)(c, p)
    ensures !Contains(left, c) ==> !Contains(OutputColumns(exprs, naming), c)
  {
    CarriedIsFound(c, p, exprs, naming, child);
    AtIsContained(left, c, p);
    AtIsContained(child, c, p);
    NeverInBoth(left, child, c);
  }

  lemma AtIsContained(schema: Schema, c: ColumnRef, p: nat)
    ensures At(schema)(c, p) ==> Contains(schema, c)
  {
  }

  lemma BoundLiveArgs(e: Expr, exprs: seq<Expr>, naming: Expr -> ColumnRef, i: nat)
    requires e.Call? && FindOutput(exprs, e) == |exprs| && i < |LiveArgs(e)|
    ensures
      var b := BindProjection(e, exprs, naming);
      && b.Call? && b.head == e.head && |LiveArgs(b)| == |LiveArgs(e)|
      && LiveArgs(b)[i] == BindProjection(LiveArgs(e)[i], exprs, naming)
  {
  }

  /** After binding, every column of a predicate stands in one of the three rows. */
  lemma {:induction false} BindProjectionStands(e: Expr, exprs: seq<Expr>, naming: Expr -> ColumnRef, left: Schema,
                                                child: Schema)
    requires Setting(exprs, naming, left, child)
    requires LiveAll(e, AtEither(left, child))
    ensures LiveAll(BindProjection(e, exprs, naming), Standing(left, OutputColumns(exprs, naming), child))
    decreases e
  {
    var out := OutputColumns(exprs, naming);
    var b := BindProjection(e, exprs, naming);
    var j := FindOutput(exprs, e);
    if j < |exprs| {
      OutputStands(j, left, out, child);
    } else if e.Column? {
      UnmatchedColumn(e.ref, e.position, exprs, naming, left, child);
    } else {
      forall i | 0 <= i < |LiveArgs(b)| ensures LiveAll(LiveArgs(b)[i], Standing(left, out, child)) {
        BoundLiveArgs(e, exprs, naming, i);
        BindProjectionStands(LiveArgs(e)[i], exprs, naming, left, child);
      }
    }
  }

  lemma OutputStands(j: nat, left: Schema, out: Schema, child: Schema)
    requires j < |out| && Disjoint(left, out)
    ensures Standing(left, out, child)(out[j], j) && !Contains(left, out[j]) && Contains(out, out[j])
  {
    assert SameColumn(out[j], out[j]) && Contains(out, out[j]);
    NeverInBoth(left, out, out[j]);
    assert At(out)(out[j], j);
  }

  /** `ProjectionOutputBinder` preserves meaning: the bound predicate reads the outer row, the
      projected row and the child row and yields what the original yields on the outer row
      and the child row. */
  lemma {:induction false} BindProjectionPreservesMeaning(e: Expr, exprs: seq<Expr>, naming: Expr -> ColumnRef,
                                                          left: Schema, child: Schema, outer: Row, row: Row, op: Op,
                                                          mid: Env)
    requires Setting(exprs, naming, left, child)
    requires LiveAll(e, AtEither(left, child))
    requires mid == MidEnv(left, outer, OutputColumns(exprs, naming), ProjectRow(exprs, RowEnv(row, op)), row, op)
    ensures Eval(BindProjection(e, exprs, naming), mid) == Eval(e, SideEnv(left, outer, row, op))
    decreases e
  {
    var side := SideEnv(left, outer, row, op);
    var b := BindProjection(e, exprs, naming);
    var j := FindOutput(exprs, e);
    if j < |exprs| {
      var out := OutputColumns(exprs, naming);
      OutputStands(j, left, out, child);
      MatchedOutput(e, j, exprs, naming, left, child, outer, row, op);
      assert b == Column(out[j], j);
      assert mid.col(out[j], j) == Cell(ProjectRow(exprs, RowEnv(row, op)), j);
    } else if e.Column? {
      UnmatchedColumn(e.ref, e.position, exprs, naming, left, child);
    } else if !IsAgg(e) && !IsWindow(e) {
      forall i | 0 <= i < |LiveArgs(e)|
        ensures Eval(LiveArgs(b)[i], mid) == Eval(LiveArgs(e)[i], side)
      {
        BoundLiveArgs(e, exprs, naming, i);
        BindProjectionPreservesMeaning(LiveArgs(e)[i], exprs, naming, left, child, outer, row, op, mid);
      }
      SameCall(e, b, side, mid);
    }
  }

  // ------------------------------------------- appending, localising, globalising

  function ColumnsOf(e: Expr): set<Summary>
    decreases e
  {
    match e
    case Column(c, _) => {c.summary}
    case Call(_, args) => set i, s | 0 <= i < |args| && s in ColumnsOf(args[i]) :: s
  }

  lemma {:induction false} AnyColumnIffInColumns(e: Expr, c: ColumnRef)
    ensures AnyColumn(e, SameAs(c)) <==> c.summary in ColumnsOf(e)
    decreases e
  {
    if e.Call? {
      forall i | 0 <= i < |e.args| ensures AnyColumn(e.args[i], SameAs(c)) <==> c.summary in ColumnsOf(e.args[i]) {
        AnyColumnIffInColumns(e.args[i], c);
      }
    }
  }

  /** Some predicate mentions the column, whether or not evaluation reaches it. */
  ghost predicate Named(preds: seq<Expr>, c: ColumnRef) {
    exists i :: 0 <= i < |preds| && c.summary in ColumnsOf(preds[i])
  }

  lemma {:induction false} ReferencedIffNamed(preds: seq<Expr>, c: ColumnRef)
    ensures Referenced(preds, c) <==> Named(preds, c)
  {
    forall i | 0 <= i < |preds| ensures AnyColumn(preds[i], SameAs(c)) <==> c.summary in ColumnsOf(preds[i]) {
      AnyColumnIffInColumns(preds[i], c);
    }
  }

  ghost predicate AppendedAt(r: seq<AppendedOutput>, p: nat) {
    exists t :: 0 <= t < |r| && r[t].childPosition == p
  }

  /** Exactly the child columns that the projection does not show and some predicate mentions are appended, each once
      and in child order. */
  lemma {:induction false} AppendedExactly(child: Schema, out: Schema, preds: seq<Expr>, n: nat)
    requires n <= |child|
    ensures
      var r := AppendedUpTo(child, out, preds, n);
      && (forall s, t :: 0 <= s < t < |r| ==> r[s].childPosition < r[t].childPosition)
      && (forall t :: 0 <= t < |r| ==> r[t].childPosition < n)
      && (forall p :: 0 <= p < n ==> (AppendedAt(r, p) <==> child[p] !in out && Named(preds, child[p])))
  {
    if n > 0 {
      AppendedExactly(child, out, preds, n - 1);
      ReferencedIffNamed(preds, child[n - 1]);
      var prev, r := AppendedUpTo(child, out, preds, n - 1), AppendedUpTo(child, out, preds, n);
      assert forall t :: 0 <= t < |prev| ==> r[t] == prev[t];
      assert |r| > |prev| ==> r[|prev|].childPosition == n - 1;
      forall p | 0 <= p < n - 1 ensures AppendedAt(r, p) <==> AppendedAt(prev, p) {
        if AppendedAt(prev, p) {
          var t :| 0 <= t < |prev| && prev[t].childPosition == p;
          assert r[t].childPosition == p;
        }
      }
    }
  }

  function ReferencedBy(preds: seq<Expr>): (ColumnRef, nat) -> bool {
    (c: ColumnRef, p: nat) => Referenced(preds, c)
  }

  lemma {:induction false} LiveIsReferenced(e: Expr, preds: seq<Expr>, i: nat)
    requires i < |preds| && ColumnsOf(e) <= ColumnsOf(preds[i])
    ensures LiveAll(e, ReferencedBy(preds))
    decreases e
  {
    if e.Column? {
      AnyColumnIffInColumns(preds[i], e.ref);
    } else {
      var live := LiveArgs(e);
      forall k | 0 <= k < |live| ensures LiveAll(live[k], ReferencedBy(preds)) {
        assert live[k] in e.args;
        assert ColumnsOf(live[k]) <= ColumnsOf(e);
        LiveIsReferenced(live[k], preds, i);
      }
    }
  }

  lemma ReferencedBySameColumn(preds: seq<Expr>, c: ColumnRef, d: ColumnRef)
    requires SameColumn(c, d) && Referenced(preds, c)
    ensures Referenced(preds, d)
  {
    var i :| 0 <= i < |preds| && AnyColumn(preds[i], SameAs(c));
    AnyColumnIffInColumns(preds[i], c);
    AnyColumnIffInColumns(preds[i], d);
  }

  /** The projection of a child row, without and with the appended columns. */
  ghost predicate Projections(exprs: seq<Expr>, appended: seq<AppendedOutput>, row: Row, op: Op, projected: Row,
                              grown: Row)
  {
    && projected == ProjectRow(exprs, RowEnv(row, op))
    && grown == ProjectRow(exprs + Carried(appended), RowEnv(row, op))
  }

  lemma GrownCells(exprs: seq<Expr>, appended: seq<AppendedOutput>, row: Row, op: Op, projected: Row, grown: Row)
    requires Projections(exprs, appended, row, op, projected, grown)
    ensures |projected| == |exprs| && |grown| == |exprs| + |appended|
    ensures forall i :: 0 <= i < |exprs| ==> grown[i] == projected[i]
    ensures forall t :: 0 <= t < |appended| ==> grown[|exprs| + t] == Cell(row, appended[t].childPosition)
  {
    var all := exprs + Carried(appended);
    forall t | 0 <= t < |appended| ensures grown[|exprs| + t] == Cell(row, appended[t].childPosition) {
      assert all[|exprs| + t] == Carried(appended)[t];
    }
    assert forall i :: 0 <= i < |exprs| ==> all[i] == exprs[i];
  }

  /** An output that bears a child column's identity holds that column's cell. */
  lemma CarriedCell(j: nat, k: nat, exprs: seq<Expr>, naming: Expr -> ColumnRef, left: Schema, child: Schema, row: Row,
                    op: Op)
    requires Setting(exprs, naming, left, child)
    requires j < |exprs| && k < |child| && SameColumn(OutputColumn(exprs[j], naming), child[k])
    ensures Eval(exprs[j], RowEnv(row, op)) == Cell(row, k)
  {
    var out := OutputColumns(exprs, naming);
    assert SameColumn(child[k], out[j]) && Contains(child, out[j]);
    UnpackEval(exprs[j], RowEnv(row, op));
    UnpackBound(exprs[j], child);
    var u := Unpack(exprs[j]);
    assert SameColumn(child[u.position], child[k]);
  }

  /** A child column that the projection does not carry and a predicate mentions is appended. */
  lemma MissingIsAppended(c: ColumnRef, p: nat, out: Schema, child: Schema, preds: seq<Expr>)
    requires At(child)(c, p) && !Contains(out, c) && Referenced(preds, c)
    ensures FindAppended(AppendedUpTo(child, out, preds, |child|), c, p) < |AppendedUpTo(child, out, preds, |child|)|
  {
    var appended := AppendedUpTo(child, out, preds, |child|);
    AppendedFacts(child, out, preds, |child|);
    assert child[p] !in out;
    ReferencedBySameColumn(preds, c, child[p]);
    assert Missing(child, out, preds, p);
    var t :| 0 <= t < |appended| && appended[t].childPosition == p;
    assert SameColumn(c, appended[t].column);
  }

  lemma {:induction false} AppendedCell(exprs: seq<Expr>, appended: seq<AppendedOutput>, row: Row, op: Op,
                                        projected: Row, grown: Row, t: nat)
    requires Projections(exprs, appended, row, op, projected, grown) && t < |appended|
    ensures Cell(grown, |exprs| + t) == Cell(row, appended[t].childPosition)
  {
    GrownCells(exprs, appended, row, op, projected, grown);
  }

  /** A column found among the appended ones stands behind the projection. */
  lemma {:induction false} AppendedColumnStands(c: ColumnRef, p: nat, child: Schema, out: Schema,
                                                appended: seq<AppendedOutput>)
    requires PlacedPast(appended, child, |out|) && FindAppended(appended, c, p) < |appended|
    ensures Localize(appended)(c, p) == |out| + FindAppended(appended, c, p)
    ensures At(child)(c, p) && At(out + AppendedColumns(appended))(c, Localize(appended)(c, p))
  {
    var t, right := FindAppended(appended, c, p), out + AppendedColumns(appended);
    assert appended[t].column == child[p] && appended[t].outputPosition == |out| + t;
    assert right[|out| + t] == AppendedColumns(appended)[t] == appended[t].column;
  }

  /** A column found among the appended ones reads its child cell from the grown row. */
  lemma {:induction false} AppendedColumnReads(c: ColumnRef, p: nat, child: Schema, out: Schema, exprs: seq<Expr>,
                                               appended: seq<AppendedOutput>, row: Row, op: Op, projected: Row,
                                               grown: Row)
    requires PlacedPast(appended, child, |out|) && |out| == |exprs|
    requires Projections(exprs, appended, row, op, projected, grown)
    requires FindAppended(appended, c, p) < |appended|
    ensures At(child)(c, p) && At(out + AppendedColumns(appended))(c, Localize(appended)(c, p))
    ensures Cell(grown, Localize(appended)(c, p)) == Cell(row, p)
  {
    AppendedColumnStands(c, p, child, out, appended);
    AppendedCell(exprs, appended, row, op, projected, grown, FindAppended(appended, c, p));
  }

  /** A column that was not appended keeps its place in the outer or the projected row. */
  lemma KeptColumnReads(c: ColumnRef, p: nat, left: Schema, out: Schema, child: Schema, preds: seq<Expr>,
                        appended: seq<AppendedOutput>)
    requires appended == AppendedUpTo(child, out, preds, |child|)
    requires Standing(left, out, child)(c, p) && Referenced(preds, c)
    requires FindAppended(appended, c, p) == |appended|
    ensures Localize(appended)(c, p) == p
    ensures if Contains(left, c) then At(left)(c, p) else Contains(out, c) && At(out)(c, p)
  {
    if !Contains(left, c) && !Contains(out, c) {
      MissingIsAppended(c, p, out, child, preds);
      assert false;
    }
  }

  lemma ReadsCombine(c: ColumnRef, p: nat, q: nat, left: Schema, out: Schema, right: Schema, outer: Row, row: Row,
                     op: Op, projected: Row, grown: Row)
    requires Contains(left, c) ==> q == p && At(left)(c, p)
    requires !Contains(left, c) ==> At(right)(c, q) && Cell(grown, q) == if Contains(out, c) then Cell(projected, p)
             else Cell(row, p)
    ensures AtEither(left, right)(c, q)
    ensures MidEnv(left, outer, out, projected, row, op).col(c, p) == SideEnv(left, outer, grown, op).col(c, q)
  {
  }

  /** One column of a bound predicate: after localising it stands in the grown projection and
      reads the same cell. */
  lemma LocalizedColumn(c: ColumnRef, p: nat, exprs: seq<Expr>, naming: Expr -> ColumnRef, left: Schema, child: Schema,
                        out: Schema, preds: seq<Expr>, appended: seq<AppendedOutput>, outer: Row, row: Row, op: Op,
                        projected: Row, grown: Row)
    requires Setting(exprs, naming, left, child)
    requires out == OutputColumns(exprs, naming) && appended == AppendedUpTo(child, out, preds, |child|)
    requires Projections(exprs, appended, row, op, projected, grown)
    requires Standing(left, out, child)(c, p) && Referenced(preds, c)
    ensures AtEither(left, out + AppendedColumns(appended))(c, Localize(appended)(c, p))
    ensures MidEnv(left, outer, out, projected, row, op).col(c, p) ==
            SideEnv(left, outer, grown, op).col(c, Localize(appended)(c, p))
  {
    var right, q := out + AppendedColumns(appended), Localize(appended)(c, p);
    AppendedFacts(child, out, preds, |child|);
    if FindAppended(appended, c, p) < |appended| {
      AppendedColumnReads(c, p, child, out, exprs, appended, row, op, projected, grown);
      AtIsContained(child, c, p);
      if Contains(out, c) { CarriedCell(p, p, exprs, naming, left, child, row, op); }
    } else {
      KeptColumnReads(c, p, left, out, child, preds, appended);
      GrownCells(exprs, appended, row, op, projected, grown);
      if !Contains(left, c) { assert right[p] == out[p]; }
    }
    ReadsCombine(c, p, q, left, out, right, outer, row, op, projected, grown);
  }

  /** Appending and localising preserve meaning: a bound predicate reads, from the outer row and
      the grown projection, what it read from the outer, projected and child rows. */
  lemma LocalizePreservesMeaning(e: Expr, exprs: seq<Expr>, naming: Expr -> ColumnRef, left: Schema, child: Schema,
                                 out: Schema, preds: seq<Expr>, appended: seq<AppendedOutput>, outer: Row, row: Row,
                                 op: Op, projected: Row, grown: Row)
    requires Setting(exprs, naming, left, child)
    requires out == OutputColumns(exprs, naming) && appended == AppendedUpTo(child, out, preds, |child|)
    requires Projections(exprs, appended, row, op, projected, grown)
    requires LiveAll(e, Standing(left, out, child)) && LiveAll(e, ReferencedBy(preds))
    ensures LiveAll(MapPositions(e, Localize(appended)), AtEither(left, out + AppendedColumns(appended)))
    ensures Eval(MapPositions(e, Localize(appended)), SideEnv(left, outer, grown, op)) ==
            Eval(e, MidEnv(left, outer, out, projected, row, op))
  {
    var move, right := Localize(appended), out + AppendedColumns(appended);
    var before, after := MidEnv(left, outer, out, projected, row, op), SideEnv(left, outer, grown, op);
    var standing := (c: ColumnRef, pos: nat) => Standing(left, out, child)(c, pos) && ReferencedBy(preds)(c, pos);
    LiveAllBoth(e, Standing(left, out, child), ReferencedBy(preds));
    forall c: ColumnRef, p: nat | standing(c, p)
      ensures AtEither(left, right)(c, move(c, p)) && before.col(c, p) == after.col(c, move(c, p))
    {
      LocalizedColumn(c, p, exprs, naming, left, child, out, preds, appended, outer, row, op, projected, grown);
    }
    LiveAllWeaken(e, standing, (c: ColumnRef, pos: nat) => AtEither(left, right)(c, move(c, pos)));
    MovePlaces(e, move, AtEither(left, right));
    LiveAllWeaken(e, standing, (c: ColumnRef, p: nat) => before.col(c, p) == after.col(c, move(c, p)));
    MovePreservesMeaning(e, move, before, after);
  }

  // --------------------------------------------------------- the mark apply

  datatype MarkPlan = MarkPlan(plan: Plan, predicates: seq<Expr>)

  function LocalizeAll(es: seq<Expr>, appended: seq<AppendedOutput>): (r: seq<Expr>)
    ensures |r| == |es|
    ensures forall i :: 0 <= i < |es| ==> r[i] == MapPositions(es[i], Localize(appended))
  {
    seq(|es|, i requires 0 <= i < |es| => MapPositions(es[i], Localize(appended)))
  }

  /** Appending missing columns to a kept projection and re-aiming the predicates. */
  function AimAtProjection(exprs: seq<Expr>, zone: Plan, preds: seq<Expr>, left: Schema,
                           naming: Expr -> ColumnRef): MarkPlan
  {
    var out, child := OutputColumns(exprs, naming), OutputSchema(zone, naming);
    var appended := AppendedUpTo(child, out, preds, |child|);
    var grown := exprs + Carried(appended);
    var local := if appended == [] then preds else LocalizeAll(preds, appended);
    MarkPlan(Project(grown, zone), GlobalizeAll(local, OutputColumns(grown, naming), |left|))
  }

  /** `prepare_mark_apply` for a correlated quantified subquery: `q` compares the outer value
      with the projected one and comes first. */
  function PrepareMarkApply(p: Plan, q: Expr, left: Schema, naming: Expr -> ColumnRef): Option<MarkPlan> {
    match Prepare(p, left, true, naming)
    case Unsupported => None
    case Prepared(plan, filters) =>
      var preds := [q] + filters;
      if plan.Project? then Some(AimAtProjection(plan.exprs, plan.child, preds, left, naming))
      else Some(MarkPlan(plan, GlobalizeAll(preds, OutputSchema(plan, naming), |left|)))
  }

  function MarkApply(p: Plan, q: Expr, left: Schema, naming: Expr -> ColumnRef): MarkPlan {
    var m := PrepareMarkApply(p, q, left, naming);
    if m.Some? then m.value else MarkPlan(p, [])
  }

  /** The outcomes the mark apply scans: rows on which a correlated predicate is not TRUE are
      skipped, the others yield the comparison. */
  ghost function Collect(rows: seq<Row>, test: Row -> bool, out: Row -> Outcome): seq<Outcome> {
    if rows == [] then []
    else (if test(rows[0]) then [out(rows[0])] else []) + Collect(rows[1..], test, out)
  }

  ghost function MarkTest(preds: seq<Expr>, outer: Row, op: Op): Row -> bool {
    row => preds != [] && AllTrue(preds[1..], RowEnv(outer + row, op))
  }

  ghost function MarkOutcome(preds: seq<Expr>, outer: Row, op: Op): Row -> Outcome {
    row => if preds == [] then Fault else Eval(preds[0], RowEnv(outer + row, op))
  }

  ghost function Scanned(m: MarkPlan, outer: Row, op: Op): seq<Outcome> {
    Collect(Rows(m.plan, [], [], op), MarkTest(m.predicates, outer, op), MarkOutcome(m.predicates, outer, op))
  }

  /** The quantified scan with its early exits. */
  function ScanQuantified(all: bool, outs: seq<Outcome>, sawNull: bool): Outcome {
    if outs == [] then (if sawNull then NULL else Ok(Boolean(all)))
    else if outs[0] == TRUE && !all then TRUE
    else if outs[0] == FALSE && all then FALSE
    else if outs[0] == NULL then ScanQuantified(all, outs[1..], true)
    else if IsTruth(outs[0]) then ScanQuantified(all, outs[1..], sawNull)
    else Fault
  }

  function Disjunction3(outs: seq<Outcome>): Outcome {
    if outs == [] then FALSE else Or3(outs[0], Disjunction3(outs[1..]))
  }

  function Conjunction3(outs: seq<Outcome>): Outcome {
    if outs == [] then TRUE else And3(outs[0], Conjunction3(outs[1..]))
  }

  predicate Truths(outs: seq<Outcome>) {
    forall i :: 0 <= i < |outs| ==> IsTruth(outs[i])
  }

  lemma {:induction false} FoldsAreTruths(outs: seq<Outcome>)
    requires Truths(outs)
    ensures IsTruth(Disjunction3(outs)) && IsTruth(Conjunction3(outs))
  {
    if outs != [] { FoldsAreTruths(outs[1..]); }
  }

  /** ANY is the three-valued disjunction and ALL the three-valued conjunction over the rows. */
  lemma {:induction false} ScanIsQuantifier(outs: seq<Outcome>, sawNull: bool)
    requires Truths(outs)
    ensures ScanQuantified(false, outs, sawNull) == Or3(if sawNull then NULL else FALSE, Disjunction3(outs))
    ensures ScanQuantified(true, outs, sawNull) == And3(if sawNull then NULL else TRUE, Conjunction3(outs))
  {
    FoldsAreTruths(outs);
    if outs != [] {
      FoldsAreTruths(outs[1..]);
      ScanIsQuantifier(outs[1..], sawNull);
      ScanIsQuantifier(outs[1..], true);
    }
  }

  /** The scan fails exactly when a comparison fails before an outcome that decides: TRUE for ANY, FALSE for ALL. */
  lemma {:induction false} ScanFailsIff(all: bool, outs: seq<Outcome>, sawNull: bool)
    ensures ScanQuantified(all, outs, sawNull) == Fault <==>
            exists i :: 0 <= i < |outs| && !IsTruth(outs[i]) && Ok(Boolean(!all)) !in outs[..i]
  {
    if outs != [] {
      var decides, rest := Ok(Boolean(!all)), outs[1..];
      ScanFailsIff(all, rest, sawNull);
      ScanFailsIff(all, rest, true);
      if i :| 0 <= i < |outs| && !IsTruth(outs[i]) && decides !in outs[..i] {
        if i > 0 {
          assert outs[..i] == [outs[0]] + rest[..i - 1] && rest[i - 1] == outs[i];
        }
      }
      if i :| 0 <= i < |rest| && !IsTruth(rest[i]) && decides !in rest[..i] {
        assert outs[..i + 1] == [outs[0]] + rest[..i] && outs[i + 1] == rest[i];
      }
      if !IsTruth(outs[0]) { assert outs[..0] == []; }
    }
  }

  // ---------------------------------------------------------- the main theorem

  /** How one leaf row fares in two scans: it passes the first exactly when it passes the second
      and is not skipped there, and both scans then yield the same outcome. */
  ghost predicate RowAgrees(k: Row, passA: Row -> bool, projA: Row -> Row, outA: Row -> Outcome, passB: Row -> bool,
                            projB: Row -> Row, testB: Row -> bool, outB: Row -> Outcome)
  {
    && (passA(k) <==> passB(k) && testB(projB(k)))
    && outA(projA(k)) == outB(projB(k))
  }

  lemma {:induction false} CollectAgrees(rows: seq<Row>, passA: Row -> bool, projA: Row -> Row, outA: Row -> Outcome,
                                         passB: Row -> bool, projB: Row -> Row, testB: Row -> bool,
                                         outB: Row -> Outcome)
    requires forall k :: k in rows ==> RowAgrees(k, passA, projA, outA, passB, projB, testB, outB)
    ensures Collect(Mapped(Keep(rows, passA), projA), _ => true, outA) ==
            Collect(Mapped(Keep(rows, passB), projB), testB, outB)
  {
    if rows != [] {
      CollectAgrees(rows[1..], passA, projA, outA, passB, projB, testB, outB);
      CollectStep(rows, passA, projA, _ => true, outA);
      CollectStep(rows, passB, projB, testB, outB);
      assert RowAgrees(rows[0], passA, projA, outA, passB, projB, testB, outB);
    }
  }

  lemma CollectStep(rows: seq<Row>, pass: Row -> bool, f: Row -> Row, test: Row -> bool, out: Row -> Outcome)
    requires rows != []
    ensures Collect(Mapped(Keep(rows, pass), f), test, out) ==
            (if pass(rows[0]) && test(f(rows[0])) then [out(f(rows[0]))] else []) +
              Collect(Mapped(Keep(rows[1..], pass), f), test, out)
  {
    var rest := Mapped(Keep(rows[1..], pass), f);
    MapKeepStep(rows, pass, f);
    if pass(rows[0]) {
      assert ([f(rows[0])] + rest)[1..] == rest;
    } else {
      assert [] + rest == rest;
    }
  }

  lemma MapKeepStep(rows: seq<Row>, pass: Row -> bool, f: Row -> Row)
    requires rows != []
    ensures Mapped(Keep(rows, pass), f) == (if pass(rows[0]) then [f(rows[0])] else []) +
            Mapped(Keep(rows[1..], pass), f)
  {
  }

  /** A predicate after binding: it stands in the three rows and is among `preds`. */
  lemma PredicateOnJoinedRow(e: Expr, i: nat, exprs: seq<Expr>, naming: Expr -> ColumnRef, left: Schema, child: Schema,
                             out: Schema, preds: seq<Expr>, appended: seq<AppendedOutput>, outer: Row, row: Row, op: Op,
                             projected: Row, grown: Row)
    requires Setting(exprs, naming, left, child) && |outer| == |left|
    requires out == OutputColumns(exprs, naming) && appended == AppendedUpTo(child, out, preds, |child|)
    requires Projections(exprs, appended, row, op, projected, grown)
    requires i < |preds| && preds[i] == e && LiveAll(e, Standing(left, out, child))
    ensures
      var right := out + AppendedColumns(appended);
      Eval(MapPositions(MapPositions(e, Localize(appended)), Globalize(right, |left|)), RowEnv(outer + grown, op))
        == Eval(e, MidEnv(left, outer, out, projected, row, op))
  {
    var right := out + AppendedColumns(appended);
    LiveIsReferenced(e, preds, i);
    LocalizePreservesMeaning(e, exprs, naming, left, child, out, preds, appended, outer, row, op, projected, grown);
    GrownCells(exprs, appended, row, op, projected, grown);
    RightIsDisjoint(exprs, naming, left, child, preds);
    AtEitherIsPlaced(MapPositions(e, Localize(appended)), left, right);
    GlobalizedFilter(MapPositions(e, Localize(appended)), left, right, outer, grown, op);
  }

  /** A pulled filter, bound, localised and globalised, yields on the joined row what it yielded
      on the outer row and the child row. */
  lemma FilterOnJoinedRow(f: Expr, i: nat, exprs: seq<Expr>, naming: Expr -> ColumnRef, left: Schema, child: Schema,
                          out: Schema, preds: seq<Expr>, appended: seq<AppendedOutput>, outer: Row, row: Row, op: Op,
                          projected: Row, grown: Row)
    requires Setting(exprs, naming, left, child) && |outer| == |left|
    requires out == OutputColumns(exprs, naming) && appended == AppendedUpTo(child, out, preds, |child|)
    requires Projections(exprs, appended, row, op, projected, grown)
    requires LiveAll(f, AtEither(left, child)) && i < |preds| && preds[i] == BindProjection(f, exprs, naming)
    ensures
      var right := out + AppendedColumns(appended);
      Eval(MapPositions(MapPositions(preds[i], Localize(appended)), Globalize(right, |left|)),
           RowEnv(outer + grown, op))
        == Eval(f, SideEnv(left, outer, row, op))
  {
    BindProjectionStands(f, exprs, naming, left, child);
    BindProjectionPreservesMeaning(f, exprs, naming, left, child, outer, row, op,
                                   MidEnv(left, outer, out, projected, row, op));
    PredicateOnJoinedRow(preds[i], i, exprs, naming, left, child, out, preds, appended, outer, row, op, projected,
                         grown);
  }

  lemma RightIsDisjoint(exprs: seq<Expr>, naming: Expr -> ColumnRef, left: Schema, child: Schema, preds: seq<Expr>)
    requires Setting(exprs, naming, left, child)
    ensures
      var out := OutputColumns(exprs, naming);
      Disjoint(left, out + AppendedColumns(AppendedUpTo(child, out, preds, |child|)))
  {
    var out := OutputColumns(exprs, naming);
    var appended := AppendedUpTo(child, out, preds, |child|);
    AppendedFacts(child, out, preds, |child|);
    forall c: ColumnRef | Contains(out + AppendedColumns(appended), c) ensures Contains(out, c) || Contains(child, c) {
      AppendedComesFromChild(c, out, child, appended);
    }
  }

  lemma AppendedComesFromChild(c: ColumnRef, out: Schema, child: Schema, appended: seq<AppendedOutput>)
    requires PlacedPast(appended, child, |out|)
    requires Contains(out + AppendedColumns(appended), c)
    ensures Contains(out, c) || Contains(child, c)
  {
    var right := out + AppendedColumns(appended);
    var i :| 0 <= i < |right| && SameColumn(right[i], c);
    if i < |out| {
      assert SameColumn(out[i], c);
    } else {
      var t := i - |out|;
      assert right[i] == appended[t].column && SameColumn(child[appended[t].childPosition], c);
    }
  }

  /** Localising with nothing appended changes nothing. */
  lemma {:induction false} LocalizeNothing(e: Expr)
    ensures MapPositions(e, Localize([])) == e
    decreases e
  {
    if e.Call? {
      forall i | 0 <= i < |e.args| ensures MapPositions(e.args[i], Localize([])) == e.args[i] {
        LocalizeNothing(e.args[i]);
      }
      assert MapPositions(e, Localize([])).args == e.args;
    }
  }

  lemma GrownSchema(exprs: seq<Expr>, appended: seq<AppendedOutput>, naming: Expr -> ColumnRef)
    ensures OutputColumns(exprs + Carried(appended), naming) == OutputColumns(exprs, naming) + AppendedColumns(appended)
  {
    var all := exprs + Carried(appended);
    forall i | 0 <= i < |all|
      ensures OutputColumns(all, naming)[i] == (OutputColumns(exprs, naming) + AppendedColumns(appended))[i]
    {
      if i >= |exprs| { assert all[i] == Carried(appended)[i - |exprs|]; }
    }
  }

  /** The comparison reads the projected row like the outer query does. */
  lemma ComparisonStands(q: Expr, exprs: seq<Expr>, naming: Expr -> ColumnRef, left: Schema, child: Schema, outer: Row,
                         row: Row, op: Op, projected: Row)
    requires Setting(exprs, naming, left, child)
    requires LiveAll(q, AtEither(left, OutputColumns(exprs, naming)))
    ensures LiveAll(q, Standing(left, OutputColumns(exprs, naming), child))
    ensures Eval(q, MidEnv(left, outer, OutputColumns(exprs, naming), projected, row, op)) ==
            Eval(q, SideEnv(left, outer, projected, op))
  {
    var out := OutputColumns(exprs, naming);
    var mid, side := MidEnv(left, outer, out, projected, row, op), SideEnv(left, outer, projected, op);
    forall c: ColumnRef, p: nat | AtEither(left, out)(c, p)
      ensures Standing(left, out, child)(c, p) && side.col(c, p) == mid.col(c, p)
    {
      NeverInBoth(left, out, c);
      if At(left)(c, p) { assert Contains(left, c); } else { assert Contains(out, c); }
    }
    LiveAllWeaken(q, AtEither(left, out), Standing(left, out, child));
    LiveAllWeaken(q, AtEither(left, out), (c: ColumnRef, p: nat) => side.col(c, p) == mid.col(c, p));
    AgreeOnLive(q, side, mid);
  }

  /** A kept projection over filters over an uncorrelated leaf. */
  ghost predicate KeptProjection(p: Plan, left: Schema, naming: Expr -> ColumnRef) {
    && p.Project? && !IsTempAliasProjection(p.exprs) && FilterZone(p.child)
    && !Correlated(LeafOf(p.child), left) && ZoneBound(p.child, left)
    && Setting(p.exprs, naming, left, LeafOf(p.child).schema)
    && (forall row :: row in LeafOf(p.child).rows ==> |row| == |LeafOf(p.child).schema|)
  }

  lemma LocalizeAllNothing(es: seq<Expr>)
    ensures LocalizeAll(es, []) == es
  {
    forall i | 0 <= i < |es| ensures LocalizeAll(es, [])[i] == es[i] { LocalizeNothing(es[i]); }
  }

  lemma AimedPredicates(exprs: seq<Expr>, zone: Plan, preds: seq<Expr>, left: Schema, naming: Expr -> ColumnRef)
    ensures
      var out, child := OutputColumns(exprs, naming), OutputSchema(zone, naming);
      var appended := AppendedUpTo(child, out, preds, |child|);
      AimAtProjection(exprs, zone, preds, left, naming) ==
        MarkPlan(Project(exprs + Carried(appended), zone),
                 GlobalizeAll(LocalizeAll(preds, appended), out + AppendedColumns(appended), |left|))
  {
    var out, child := OutputColumns(exprs, naming), OutputSchema(zone, naming);
    GrownSchema(exprs, AppendedUpTo(child, out, preds, |child|), naming);
    LocalizeAllNothing(preds);
  }

  /** The rewritten mark apply, spelled out. */
  lemma PreparedMarkApply(p: Plan, q: Expr, left: Schema, naming: Expr -> ColumnRef)
    requires p.Project? && !IsTempAliasProjection(p.exprs) && FilterZone(p.child) && !Correlated(LeafOf(p.child), left)
    ensures
      var r := Prepare(p.child, left, true, naming);
      && r.Prepared? && FilterZone(r.plan) && LeafOf(r.plan) == LeafOf(p.child)
      && OutputSchema(r.plan, naming) == LeafOf(p.child).schema
      && PrepareMarkApply(p, q, left, naming) ==
           Some(AimAtProjection(p.exprs, r.plan, [q] + BindProjections(r.filters, p.exprs, naming), left, naming))
  {
    PullUp(p.child, left, true, naming, [], (h, s) => Fault, []);
    ZoneSchema(Prepare(p.child, left, true, naming).plan, naming);
  }

  lemma ComparisonOnJoinedRow(q: Expr, exprs: seq<Expr>, naming: Expr -> ColumnRef, left: Schema, child: Schema,
                              out: Schema, preds: seq<Expr>, appended: seq<AppendedOutput>, outer: Row, row: Row,
                              op: Op, projected: Row, grown: Row)
    requires Setting(exprs, naming, left, child) && |outer| == |left|
    requires out == OutputColumns(exprs, naming) && appended == AppendedUpTo(child, out, preds, |child|)
    requires Projections(exprs, appended, row, op, projected, grown)
    requires LiveAll(q, AtEither(left, out)) && |preds| > 0 && preds[0] == q
    ensures
      var right := out + AppendedColumns(appended);
      Eval(MapPositions(MapPositions(q, Localize(appended)), Globalize(right, |left|)), RowEnv(outer + grown, op))
        == Eval(q, SideEnv(left, outer, projected, op))
  {
    ComparisonStands(q, exprs, naming, left, child, outer, row, op, projected);
    PredicateOnJoinedRow(q, 0, exprs, naming, left, child, out, preds, appended, outer, row, op, projected, grown);
  }

  lemma FinalPredicate(preds: seq<Expr>, appended: seq<AppendedOutput>, right: Schema, leftLen: nat, final: seq<Expr>,
                       i: nat)
    requires final == GlobalizeAll(LocalizeAll(preds, appended), right, leftLen) && i < |preds|
    ensures |final| == |preds| && final[i] == MapPositions(MapPositions(preds[i], Localize(appended)),
                                                           Globalize(right, leftLen))
  {
    assert LocalizeAll(preds, appended)[i] == MapPositions(preds[i], Localize(appended));
  }

  ghost predicate FilterAgreesAt(filters: seq<Expr>, final: seq<Expr>, i: nat, envA: Env, envB: Env)
    requires i < |filters| && 1 + i < |final|
  {
    Eval(final[1 + i], envB) == Eval(filters[i], envA)
  }

  lemma PulledFilterShape(q: Expr, filters: seq<Expr>, exprs: seq<Expr>, naming: Expr -> ColumnRef, preds: seq<Expr>,
                          appended: seq<AppendedOutput>, right: Schema, leftLen: nat, final: seq<Expr>, i: nat)
    requires preds == [q] + BindProjections(filters, exprs, naming) && i < |filters|
    requires final == GlobalizeAll(LocalizeAll(preds, appended), right, leftLen)
    ensures |final| == |preds| == 1 + |filters| && preds[1 + i] == BindProjection(filters[i], exprs, naming)
    ensures final[1 + i] == MapPositions(MapPositions(preds[1 + i], Localize(appended)), Globalize(right, leftLen))
  {
    assert preds[1 + i] == BindProjections(filters, exprs, naming)[i];
    FinalPredicate(preds, appended, right, leftLen, final, 1 + i);
  }

  function Projecting(exprs: seq<Expr>, op: Op): Row -> Row {
    (row: Row) => ProjectRow(exprs, RowEnv(row, op))
  }

  /** The shape of the rewritten plan. */
  ghost predicate MarkShape(m: MarkPlan, p: Plan)
    requires p.Project? && FilterZone(p.child)
  {
    m.plan.Project? && FilterZone(m.plan.child) && LeafOf(m.plan.child) == LeafOf(p.child)
  }

  /** Passing a zone that is run without an outer row. */
  function Standalone(p: Plan, op: Op): Row -> bool
    requires FilterZone(p)
  {
    Passing(p, [], [], op)
  }

  /** The comparison's outcome on a projected row. */
  function Comparing(q: Expr, left: Schema, outer: Row, op: Op): Row -> Outcome {
    (row: Row) => Eval(q, SideEnv(left, outer, row, op))
  }

  /** A leaf row passes the subquery's filters exactly when it passes what is left of them and the mark
      apply does not skip its projection, whatever the comparison. */
  lemma {:induction false} LeafRowPasses(p: Plan, q: Expr, left: Schema, naming: Expr -> ColumnRef, outer: Row, op: Op,
                                         k: Row)
    requires KeptProjection(p, left, naming) && |outer| == |left|
    ensures
      var m := MarkApply(p, q, left, naming);
      && MarkShape(m, p)
      && (Passing(p.child, left, outer, op)(k) <==>
            Standalone(m.plan.child, op)(k) && MarkTest(m.predicates, outer, op)(Projecting(m.plan.exprs, op)(k)))
  {
    PreparedMarkApply(p, q, left, naming);
    var m := MarkApply(p, q, left, naming);
    var filters := Prepare(p.child, left, true, naming).filters;
    var out, child := OutputColumns(p.exprs, naming), LeafOf(p.child).schema;
    var preds := [q] + BindProjections(filters, p.exprs, naming);
    var appended := AppendedUpTo(child, out, preds, |child|);
    AimedPredicates(p.exprs, Prepare(p.child, left, true, naming).plan, preds, left, naming);
    var grown := ProjectRow(p.exprs + Carried(appended), RowEnv(k, op));
    assert grown == Projecting(m.plan.exprs, op)(k);
    PullUp(p.child, left, true, naming, outer, op, k);
    FiltersKeepLive(p.child, left, true, naming);
    forall i | 0 <= i < |filters|
      ensures FilterAgreesAt(filters, m.predicates, i, SideEnv(left, outer, k, op), RowEnv(outer + grown, op))
    {
      assert filters[i] in filters;
      PulledFilterShape(q, filters, p.exprs, naming, preds, appended, out + AppendedColumns(appended), |left|,
                        m.predicates, i);
      FilterOnJoinedRow(filters[i], 1 + i, p.exprs, naming, left, child, out, preds, appended, outer, k, op,
                        ProjectRow(p.exprs, RowEnv(k, op)), grown);
    }
    TailTrue(filters, SideEnv(left, outer, k, op), m.predicates, RowEnv(outer + grown, op));
  }

  /** What the mark apply makes of the comparison. */
  lemma {:induction false} AimedComparison(p: Plan, q: Expr, left: Schema, naming: Expr -> ColumnRef)
    requires KeptProjection(p, left, naming)
    ensures Prepare(p.child, left, true, naming).Prepared?
    ensures
      var m := MarkApply(p, q, left, naming);
      var out, child := OutputColumns(p.exprs, naming), LeafOf(p.child).schema;
      var preds := [q] + BindProjections(Prepare(p.child, left, true, naming).filters, p.exprs, naming);
      var appended := AppendedUpTo(child, out, preds, |child|);
      && m.plan.Project? && m.plan.exprs == p.exprs + Carried(appended) && m.predicates != []
      && m.predicates[0] ==
           MapPositions(MapPositions(q, Localize(appended)), Globalize(out + AppendedColumns(appended), |left|))
  {
    PreparedMarkApply(p, q, left, naming);
    var m := MarkApply(p, q, left, naming);
    var r := Prepare(p.child, left, true, naming);
    var out, child := OutputColumns(p.exprs, naming), LeafOf(p.child).schema;
    var preds := [q] + BindProjections(r.filters, p.exprs, naming);
    var appended := AppendedUpTo(child, out, preds, |child|);
    AimedPredicates(p.exprs, r.plan, preds, left, naming);
    FinalPredicate(preds, appended, out + AppendedColumns(appended), |left|, m.predicates, 0);
  }

  lemma {:induction false} LeafRowAgrees(p: Plan, q: Expr, left: Schema, naming: Expr -> ColumnRef, outer: Row, op: Op,
                                         k: Row)
    requires KeptProjection(p, left, naming) && |outer| == |left|
    requires LiveAll(q, AtEither(left, OutputColumns(p.exprs, naming)))
    ensures
      var m := MarkApply(p, q, left, naming);
      && MarkShape(m, p)
      && RowAgrees(k, Passing(p.child, left, outer, op), Projecting(p.exprs, op), Comparing(q, left, outer, op),
                   Standalone(m.plan.child, op), Projecting(m.plan.exprs, op),
                   MarkTest(m.predicates, outer, op), MarkOutcome(m.predicates, outer, op))
  {
    var m := MarkApply(p, q, left, naming);
    LeafRowPasses(p, q, left, naming, outer, op, k);
    AimedComparison(p, q, left, naming);
    var out, child := OutputColumns(p.exprs, naming), LeafOf(p.child).schema;
    var preds := [q] + BindProjections(Prepare(p.child, left, true, naming).filters, p.exprs, naming);
    var appended := AppendedUpTo(child, out, preds, |child|);
    ComparisonOnJoinedRow(q, p.exprs, naming, left, child, out, preds, appended, outer, k, op,
                          ProjectRow(p.exprs, RowEnv(k, op)), ProjectRow(m.plan.exprs, RowEnv(k, op)));
  }

  /** The comparison's outcome on every row of the original subquery. */
  ghost function ComparisonOutcomes(p: Plan, q: Expr, left: Schema, outer: Row, op: Op): seq<Outcome> {
    Collect(Rows(p, left, outer, op), _ => true, Comparing(q, left, outer, op))
  }

  lemma ProjectRows(exprs: seq<Expr>, c: Plan, left: Schema, outer: Row, op: Op, f: Row -> Row)
    requires forall row :: f(row) == ProjectRow(exprs, RowEnv(row, op))
    requires forall j :: 0 <= j < |exprs| ==> !AnyColumn(exprs[j], InSchema(left))
    ensures Rows(Project(exprs, c), left, outer, op) == Mapped(Rows(c, left, outer, op), f)
  {
    var rows := Rows(c, left, outer, op);
    forall i | 0 <= i < |rows|
      ensures Rows(Project(exprs, c), left, outer, op)[i] == f(rows[i])
    {
      var a, b := ProjectRow(exprs, SideEnv(left, outer, rows[i], op)), f(rows[i]);
      forall j | 0 <= j < |exprs| ensures a[j] == b[j] {
        LocalReadsInner(exprs[j], left, outer, rows[i], op);
        EmptySideIsRow(exprs[j], rows[i], op);
      }
    }
  }

  /** A kept projection and a comparison over its output: for every outer row, the outcomes the mark
      apply scans over the rewritten plan, run without the outer row, are, in order, the comparison's
      outcomes on the rows of the original subquery. */
  lemma ScanPreservesMeaning(p: Plan, q: Expr, left: Schema, naming: Expr -> ColumnRef, outer: Row, op: Op)
    requires KeptProjection(p, left, naming) && LiveAll(q, AtEither(left, OutputColumns(p.exprs, naming))) &&
             |outer| == |left|
    ensures PrepareMarkApply(p, q, left, naming).Some?
    ensures Scanned(PrepareMarkApply(p, q, left, naming).value, outer, op) == ComparisonOutcomes(p, q, left, outer, op)
  {
    PreparedMarkApply(p, q, left, naming);
    var m := MarkApply(p, q, left, naming);
    LeafRowAgrees(p, q, left, naming, outer, op, []);
    OriginalScan(p, q, left, outer, op);
    MarkScan(m, outer, op);
    var rows := LeafOf(p.child).rows;
    var projA, projB := Projecting(p.exprs, op), Projecting(m.plan.exprs, op);
    var passA, passB := Passing(p.child, left, outer, op), Standalone(m.plan.child, op);
    var outA, outB := Comparing(q, left, outer, op), MarkOutcome(m.predicates, outer, op);
    var test := MarkTest(m.predicates, outer, op);
    forall k | k in rows ensures RowAgrees(k, passA, projA, outA, passB, projB, test, outB) {
      LeafRowAgrees(p, q, left, naming, outer, op, k);
    }
    CollectAgrees(rows, passA, projA, outA, passB, projB, test, outB);
  }

  lemma OriginalScan(p: Plan, q: Expr, left: Schema, outer: Row, op: Op)
    requires p.Project? && FilterZone(p.child)
    requires forall j :: 0 <= j < |p.exprs| ==> !AnyColumn(p.exprs[j], InSchema(left))
    ensures ComparisonOutcomes(p, q, left, outer, op) ==
            Collect(Mapped(Keep(LeafOf(p.child).rows, Passing(p.child, left, outer, op)), Projecting(p.exprs, op)),
                    _ => true, Comparing(q, left, outer, op))
  {
    ProjectRows(p.exprs, p.child, left, outer, op, Projecting(p.exprs, op));
    ZoneRows(p.child, left, outer, op);
  }

  lemma MarkScan(m: MarkPlan, outer: Row, op: Op)
    requires m.plan.Project? && FilterZone(m.plan.child)
    ensures Scanned(m, outer, op) ==
            Collect(Mapped(Keep(LeafOf(m.plan.child).rows, Standalone(m.plan.child, op)), Projecting(m.plan.exprs, op)),
                    MarkTest(m.predicates, outer, op), MarkOutcome(m.predicates, outer, op))
  {
    NothingInEmpty(m.plan.exprs);
    ProjectRows(m.plan.exprs, m.plan.child, [], [], op, Projecting(m.plan.exprs, op));
    ZoneRows(m.plan.child, [], [], op);
  }

  lemma NothingInEmpty(exprs: seq<Expr>)
    ensures forall j :: 0 <= j < |exprs| ==> !AnyColumn(exprs[j], InSchema([]))
  {
    forall j | 0 <= j < |exprs| ensures !AnyColumn(exprs[j], InSchema([])) { NoneInEmpty(exprs[j]); }
  }

  lemma {:induction false} NoneInEmpty(e: Expr)
    ensures !AnyColumn(e, InSchema([]))
    decreases e
  {
    if e.Call? {
      forall i | 0 <= i < |e.args| ensures !AnyColumn(e.args[i], InSchema([])) { NoneInEmpty(e.args[i]); }
    }
  }

  lemma TailTrue(filters: seq<Expr>, envA: Env, final: seq<Expr>, envB: Env)
    requires |final| == 1 + |filters|
    requires forall i :: 0 <= i < |filters| ==> FilterAgreesAt(filters, final, i, envA, envB)
    ensures AllTrue(final[1..], envB) <==> AllTrue(filters, envA)
  {
    forall i | 0 <= i < |filters| ensures Eval(final[1..][i], envB) == Eval(filters[i], envA) {
      assert final[1..][i] == final[1 + i] && FilterAgreesAt(filters, final, i, envA, envB);
    }
  }
}
