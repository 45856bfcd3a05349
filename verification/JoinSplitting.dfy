/** Splitting a join predicate into hash keys and a residual filter, in the ON scope and
    in the split scope used for a scalar subquery. */
module JoinSplitting {
  import opened Expressions
  import opened Rewriting

  datatype JoinSplit = JoinSplit(keys: seq<(Expr, Expr)>, filter: seq<Expr>)

  /** The condition handed to the join operator. */
  datatype JoinCondition = JoinCondition(on: seq<(Expr, Expr)>, filter: Option<Expr>)

  function InEither(left: Schema, right: Schema): ColumnRef -> bool {
    (c: ColumnRef) => Contains(left, c) || Contains(right, c)
  }

  predicate IsBinary(e: Expr) {
    e.Call? && e.head.Binary? && |e.args| == 2
  }

  const NOTHING := JoinSplit([], [])

  function Residual(e: Expr): JoinSplit {
    JoinSplit([], [e])
  }

  /** An equality: a key when it links the two sides, otherwise residual. */
  function ExtractEquality(x: Expr, left: Schema, right: Schema): JoinSplit
    requires IsBinary(x)
  {
    var a, b := Unpack(x.args[0]), Unpack(x.args[1]);
    var known := InEither(left, right);
    if a.Column? && b.Column? then
      if Contains(left, a.ref) && Contains(right, b.ref) then JoinSplit([(x.args[0], x.args[1])], [])
      else if Contains(left, b.ref) && Contains(right, a.ref) then JoinSplit([(x.args[1], x.args[0])], [])
      else if known(a.ref) || known(b.ref) then Residual(x)
      else NOTHING
    else if a.Column? || b.Column? then
      if known(if a.Column? then a.ref else b.ref) then Residual(x) else NOTHING
    else if AllColumns(x.args[0], known) && AllColumns(x.args[1], known) then Residual(x)
    else NOTHING
  }

  function ExtractJoinKeys(e: Expr, left: Schema, right: Schema): JoinSplit
    decreases e
  {
    var x := Unpack(e);
    var known := InEither(left, right);
    if IsBinary(x) then
      match x.head.binary
      case Eq => ExtractEquality(x, left, right)
      case And =>
        var a := ExtractJoinKeys(x.args[0], left, right);
        var b := ExtractJoinKeys(x.args[1], left, right);
        JoinSplit(a.keys + b.keys, a.filter + b.filter)
      case Or => Residual(x)
      case OtherBinary(_) =>
        if AllColumns(x.args[0], known) && AllColumns(x.args[1], known) then Residual(x) else NOTHING
    else if AllColumns(x, known) then Residual(x)
    else NOTHING
  }

  // --------------------------------------------------------------- the split

  ghost predicate KeysEqual(keys: seq<(Expr, Expr)>, envL: Env, envR: Env) {
    forall i :: 0 <= i < |keys| ==> Eq3(Eval(keys[i].0, envL), Eval(keys[i].1, envR)) == TRUE
  }

  /** Columns of the left schema read alike in `env` and `envL`, those of the right in `envR`. */
  function Sided(left: Schema, right: Schema, env: Env, envL: Env, envR: Env): (ColumnRef, nat) -> bool {
    (c: ColumnRef, p: nat) =>
      && (Contains(left, c) ==> env.col(c, p) == envL.col(c, p))
      && (Contains(right, c) ==> env.col(c, p) == envR.col(c, p))
  }

  lemma {:induction false} UnpackAllColumns(e: Expr, p: ColumnRef -> bool)
    requires AllColumns(e, p)
    ensures AllColumns(Unpack(e), p)
  {
    if IsAlias(e) { UnpackAllColumns(e.args[0], p); }
  }

  lemma {:induction false} UnpackLiveAll(e: Expr, p: (ColumnRef, nat) -> bool)
    requires LiveAll(e, p)
    ensures LiveAll(Unpack(e), p)
  {
    if IsAlias(e) { UnpackLiveAll(LiveArgs(e)[0], p); }
  }

  /** Eq3 is true in either order or in neither, so a swapped key pair means the same. */
  lemma Eq3Commutes(x: Outcome, y: Outcome)
    ensures Eq3(x, y) == Eq3(y, x)
  {
  }

  lemma NeverInBoth(left: Schema, right: Schema, c: ColumnRef)
    requires Disjoint(left, right)
    ensures !(Contains(left, c) && Contains(right, c))
  {
  }

  lemma ResidualMeaning(x: Expr, env: Env, envL: Env, envR: Env)
    ensures Eval(x, env) == TRUE <==> KeysEqual(Residual(x).keys, envL, envR) && AllTrue(Residual(x).filter, env)
  {
    assert Residual(x).filter[0] == x;
  }

  lemma OneKeyMeaning(a: Expr, b: Expr, env: Env, envL: Env, envR: Env)
    ensures Eq3(Eval(a, envL), Eval(b, envR)) == TRUE <==> KeysEqual([(a, b)], envL, envR) && AllTrue([], env)
  {
    assert [(a, b)][0] == (a, b);
  }

  lemma EqualitySplits(x: Expr, left: Schema, right: Schema, env: Env, envL: Env, envR: Env)
    requires IsBinary(x) && x.head.binary == Eq && ExtractEquality(x, left, right) != NOTHING
    requires LiveAll(x, Sided(left, right, env, envL, envR))
    ensures
      var s := ExtractEquality(x, left, right);
      Eval(x, env) == TRUE <==> KeysEqual(s.keys, envL, envR) && AllTrue(s.filter, env)
  {
    var l, r := x.args[0], x.args[1];
    var a, b := Unpack(l), Unpack(r);
    assert LiveArgs(x) == x.args;
    EvalCall(x, env);
    ResidualMeaning(x, env, envL, envR);
    if a.Column? && b.Column? {
      OneKeyMeaning(l, r, env, envL, envR);
      OneKeyMeaning(r, l, env, envL, envR);
      UnpackEval(l, env); UnpackEval(l, envL); UnpackEval(l, envR);
      UnpackEval(r, env); UnpackEval(r, envL); UnpackEval(r, envR);
      assert LiveAll(LiveArgs(x)[0], Sided(left, right, env, envL, envR));
      assert LiveAll(LiveArgs(x)[1], Sided(left, right, env, envL, envR));
      UnpackLiveAll(l, Sided(left, right, env, envL, envR));
      UnpackLiveAll(r, Sided(left, right, env, envL, envR));
      Eq3Commutes(Eval(l, env), Eval(r, env));
    }
  }

  /** The splits of the conjuncts, one after the other. */
  function SplitAll(conjuncts: seq<Expr>, left: Schema, right: Schema): JoinSplit {
    if conjuncts == [] then NOTHING
    else
      var rest, last := SplitAll(conjuncts[..|conjuncts| - 1], left, right), conjuncts[|conjuncts| - 1];
      var s := ExtractJoinKeys(last, left, right);
      JoinSplit(rest.keys + s.keys, rest.filter + s.filter)
  }

  lemma {:induction false} SplitAllAppend(a: seq<Expr>, b: seq<Expr>, left: Schema, right: Schema)
    ensures
      var s, t := SplitAll(a, left, right), SplitAll(b, left, right);
      SplitAll(a + b, left, right) == JoinSplit(s.keys + t.keys, s.filter + t.filter)
    decreases b
  {
    var s := SplitAll(a, left, right);
    if b == [] {
      assert a + b == a && s.keys + [] == s.keys && s.filter + [] == s.filter;
    } else {
      var n := |b| - 1;
      assert (a + b)[..|a + b| - 1] == a + b[..n] && (a + b)[|a + b| - 1] == b[n];
      SplitAllAppend(a, b[..n], left, right);
      var t, last := SplitAll(b[..n], left, right), ExtractJoinKeys(b[n], left, right);
      JoinsLeft(s.keys, t.keys, last.keys);
      JoinsLeft(s.filter, t.filter, last.filter);
    }
  }

  lemma {:induction false} JoinsLeft<T>(a: seq<T>, b: seq<T>, c: seq<T>)
    ensures a + b + c == a + (b + c)
  {
  }

  /** Keys and filters stand in the order of the conjuncts they come from. */
  lemma {:induction false} SplitInOrder(e: Expr, left: Schema, right: Schema)
    ensures ExtractJoinKeys(e, left, right) == SplitAll(SplitConjuncts(e), left, right)
    decreases e
  {
    var x := Unpack(e);
    if IsAnd(x) {
      SplitInOrder(x.args[0], left, right);
      SplitInOrder(x.args[1], left, right);
      SplitAllAppend(SplitConjuncts(x.args[0]), SplitConjuncts(x.args[1]), left, right);
    } else {
      assert [x][..0] == [] && Unpack(x) == x;
      var s := ExtractJoinKeys(x, left, right);
      assert [] + s.keys == s.keys && [] + s.filter == s.filter;
    }
  }

  /** An equality of two columns of which the first is on the one side and the second on the other. */
  predicate Links(x: Expr, first: Schema, second: Schema) {
    IsBinary(x) && x.head.binary.Eq? && Unpack(x.args[0]).Column? && Unpack(x.args[1]).Column? &&
      Contains(first, Unpack(x.args[0]).ref) && Contains(second, Unpack(x.args[1]).ref)
  }

  /** A conjunct gives a key exactly when it equates a column of either side with one of the other; the key has the left
      side's operand first. */
  lemma {:induction false} KeyIff(x: Expr, left: Schema, right: Schema)
    requires !IsAlias(x) && !IsAnd(x)
    ensures ExtractJoinKeys(x, left, right).keys ==
      if Links(x, left, right) then [(x.args[0], x.args[1])]
      else if Links(x, right, left) then [(x.args[1], x.args[0])]
      else []
  {
  }

  /** The conjuncts that become neither a key nor a filter. */
  function Dropped(e: Expr, left: Schema, right: Schema): (r: seq<Expr>)
    decreases e
  {
    var x := Unpack(e);
    if IsAnd(x) then Dropped(x.args[0], left, right) + Dropped(x.args[1], left, right)
    else if ExtractJoinKeys(x, left, right) == NOTHING then [x]
    else []
  }

  /** Every key pair compares equal, and every residual and every dropped conjunct is TRUE. */
  ghost predicate Holds(s: JoinSplit, dropped: seq<Expr>, env: Env, envL: Env, envR: Env) {
    KeysEqual(s.keys, envL, envR) && AllTrue(s.filter, env) && AllTrue(dropped, env)
  }

  lemma {:induction false} PartsAppend(e: Expr, f: Expr, left: Schema, right: Schema, env: Env, envL: Env, envR: Env)
    ensures
      var a, b := ExtractJoinKeys(e, left, right), ExtractJoinKeys(f, left, right);
      var c, d := Dropped(e, left, right), Dropped(f, left, right);
      Holds(JoinSplit(a.keys + b.keys, a.filter + b.filter), c + d, env, envL, envR) <==>
      Holds(a, c, env, envL, envR) && Holds(b, d, env, envL, envR)
  {
    var a, b := ExtractJoinKeys(e, left, right), ExtractJoinKeys(f, left, right);
    KeysEqualAppend(a.keys, b.keys, envL, envR);
    AllTrueAppend(a.filter, b.filter, env);
    AllTrueAppend(Dropped(e, left, right), Dropped(f, left, right), env);
  }

  /** What the split means for any predicate: it is TRUE exactly when every extracted key pair compares equal
      and every residual and every dropped conjunct is TRUE. */
  lemma {:induction false} SplitUpToDropped(e: Expr, left: Schema, right: Schema, env: Env, envL: Env, envR: Env)
    requires LiveAll(e, Sided(left, right, env, envL, envR))
    ensures
      var s := ExtractJoinKeys(e, left, right);
      Eval(e, env) == TRUE <==> Holds(s, Dropped(e, left, right), env, envL, envR)
    decreases e
  {
    var x := Unpack(e);
    var s := ExtractJoinKeys(e, left, right);
    UnpackEval(e, env);
    UnpackLiveAll(e, Sided(left, right, env, envL, envR));
    if IsAnd(x) {
      assert LiveArgs(x) == x.args;
      SplitUpToDropped(x.args[0], left, right, env, envL, envR);
      SplitUpToDropped(x.args[1], left, right, env, envL, envR);
      EvalConjunction(x, env);
      PartsAppend(x.args[0], x.args[1], left, right, env, envL, envR);
      assert Holds(s, Dropped(e, left, right), env, envL, envR) <==> Eval(x, env) == TRUE;
    } else if s == NOTHING {
      assert Dropped(e, left, right)[0] == x;
    } else if IsBinary(x) && x.head.binary == Eq {
      EqualitySplits(x, left, right, env, envL, envR);
    } else {
      assert s == Residual(x);
      ResidualMeaning(x, env, envL, envR);
    }
  }

  /** A conjunct becomes a key or a filter: the guards of the split, as a caller can check them. */
  predicate Retained(x: Expr, left: Schema, right: Schema) {
    var known := InEither(left, right);
    if !IsBinary(x) then AllColumns(x, known)
    else if x.head.binary == Or then true
    else if x.head.binary == Eq then
      var a, b := Unpack(x.args[0]), Unpack(x.args[1]);
      if a.Column? && b.Column? then known(a.ref) || known(b.ref)
      else if a.Column? then known(a.ref)
      else if b.Column? then known(b.ref)
      else AllColumns(x.args[0], known) && AllColumns(x.args[1], known)
    else AllColumns(x.args[0], known) && AllColumns(x.args[1], known)
  }

  ghost predicate AllRetained(es: seq<Expr>, left: Schema, right: Schema) {
    forall i :: 0 <= i < |es| ==> Retained(es[i], left, right)
  }

  /** Nothing is dropped exactly when every conjunct is retained. */
  lemma {:induction false} DropsNothingIff(e: Expr, left: Schema, right: Schema)
    ensures Dropped(e, left, right) == [] <==> AllRetained(SplitConjuncts(e), left, right)
    decreases e
  {
    var x := Unpack(e);
    if IsAnd(x) {
      DropsNothingIff(x.args[0], left, right);
      DropsNothingIff(x.args[1], left, right);
      RetainedAppend(SplitConjuncts(x.args[0]), SplitConjuncts(x.args[1]), left, right);
    } else {
      assert SplitConjuncts(e)[0] == x;
      assert Unpack(x) == x;
    }
  }

  lemma {:induction false} RetainedAppend(a: seq<Expr>, b: seq<Expr>, left: Schema, right: Schema)
    ensures AllRetained(a + b, left, right) <==> AllRetained(a, left, right) && AllRetained(b, left, right)
  {
    assert forall i :: 0 <= i < |a| ==> (a + b)[i] == a[i];
    forall i | 0 <= i < |b| ensures (a + b)[|a| + i] == b[i] {}
  }

  /** Nothing is dropped when every column is known. */
  lemma {:induction false} NothingIsDropped(e: Expr, left: Schema, right: Schema)
    requires AllColumns(e, InEither(left, right))
    ensures Dropped(e, left, right) == []
    decreases e
  {
    var x := Unpack(e);
    UnpackAllColumns(e, InEither(left, right));
    if IsAnd(x) {
      NothingIsDropped(x.args[0], left, right);
      NothingIsDropped(x.args[1], left, right);
    } else if IsBinary(x) {
      UnpackAllColumns(x.args[0], InEither(left, right));
      UnpackAllColumns(x.args[1], InEither(left, right));
    }
  }

  /** A predicate over the columns of both sides is TRUE exactly when every extracted key
      pair compares equal and every residual conjunct is TRUE. */
  lemma SplitIsExact(e: Expr, left: Schema, right: Schema, env: Env, envL: Env, envR: Env)
    requires AllColumns(e, InEither(left, right))
    requires LiveAll(e, Sided(left, right, env, envL, envR))
    ensures
      var s := ExtractJoinKeys(e, left, right);
      Eval(e, env) == TRUE <==> KeysEqual(s.keys, envL, envR) && AllTrue(s.filter, env)
  {
    SplitUpToDropped(e, left, right, env, envL, envR);
    NothingIsDropped(e, left, right);
  }

  lemma KeysEqualAppend(a: seq<(Expr, Expr)>, b: seq<(Expr, Expr)>, envL: Env, envR: Env)
    ensures KeysEqual(a + b, envL, envR) <==> KeysEqual(a, envL, envR) && KeysEqual(b, envL, envR)
  {
    forall i | 0 <= i < |b| ensures (a + b)[|a| + i] == b[i] {}
    assert forall i :: 0 <= i < |a| ==> (a + b)[i] == a[i];
  }

  lemma AllTrueAppend(a: seq<Expr>, b: seq<Expr>, env: Env)
    ensures AllTrue(a + b, env) <==> AllTrue(a, env) && AllTrue(b, env)
  {
    forall i | 0 <= i < |b| ensures (a + b)[|a| + i] == b[i] {}
    assert forall i :: 0 <= i < |a| ==> (a + b)[i] == a[i];
  }

  // -------------------------------------------------------------- ON clauses

  /** The shift that localises right keys: positions below the left width saturate at 0. */
  function ShiftDown(leftLen: nat): (ColumnRef, nat) -> nat {
    (c: ColumnRef, p: nat) => if p >= leftLen then p - leftLen else 0
  }

  function LocalizeKeys(keys: seq<(Expr, Expr)>, leftLen: nat): (r: seq<(Expr, Expr)>)
    ensures |r| == |keys|
    ensures forall i :: 0 <= i < |keys| ==> r[i] == (keys[i].0, MapPositions(keys[i].1, ShiftDown(leftLen)))
  {
    seq(|keys|, i requires 0 <= i < |keys| => (keys[i].0, MapPositions(keys[i].1, ShiftDown(leftLen))))
  }

  /** `bind_join_plans` for an ON constraint: split, combine, localise the right keys. */
  function BindOn(e: Expr, left: Schema, right: Schema): JoinCondition {
    var s := ExtractJoinKeys(e, left, right);
    JoinCondition(LocalizeKeys(s.keys, |left|), CombineConjuncts(s.filter))
  }

  /** The join operator's test of one pair of rows. */
  ghost predicate JoinMatches(cond: JoinCondition, l: Row, r: Row, op: Op) {
    && KeysEqual(cond.on, RowEnv(l, op), RowEnv(r, op))
    && (cond.filter.Some? ==> Eval(cond.filter.value, RowEnv(l + r, op)) == TRUE)
  }

  function ShiftedEnv(r: Row, leftLen: nat, op: Op): Env {
    Env((c: ColumnRef, p: nat) => Cell(r, ShiftDown(leftLen)(c, p)), _ => Fault, _ => Fault, op)
  }

  /** A column of either side stands where the joined schema has it; other columns may stand anywhere. */
  function KnownAt(left: Schema, right: Schema): (ColumnRef, nat) -> bool {
    (c: ColumnRef, p: nat) =>
      Contains(left, c) || Contains(right, c) ==> p < |left + right| && SameColumn((left + right)[p], c)
  }

  lemma SidedInJoinScope(left: Schema, right: Schema, l: Row, r: Row, op: Op)
    requires Disjoint(left, right) && |l| == |left| && |r| == |right|
    ensures forall c, p :: KnownAt(left, right)(c, p) ==>
      Sided(left, right, RowEnv(l + r, op), RowEnv(l, op), ShiftedEnv(r, |left|, op))(c, p)
  {
    forall c: ColumnRef, p: nat | KnownAt(left, right)(c, p)
      ensures Sided(left, right, RowEnv(l + r, op), RowEnv(l, op), ShiftedEnv(r, |left|, op))(c, p)
    {
      if Contains(left, c) || Contains(right, c) {
        NeverInBoth(left, right, c);
        if p < |left| {
          assert (left + right)[p] == left[p] && Contains(left, c);
          assert Cell(l + r, p) == Cell(l, p);
        } else {
          assert (left + right)[p] == right[p - |left|] && Contains(right, c);
          assert Cell(l + r, p) == Cell(r, ShiftDown(|left|)(c, p));
        }
      }
    }
  }

  lemma LocalizedKeysEqual(keys: seq<(Expr, Expr)>, leftLen: nat, envL: Env, r: Row, op: Op)
    ensures KeysEqual(LocalizeKeys(keys, leftLen), envL, RowEnv(r, op)) <==>
            KeysEqual(keys, envL, ShiftedEnv(r, leftLen, op))
  {
    var local := LocalizeKeys(keys, leftLen);
    forall i | 0 <= i < |keys|
      ensures Eval(local[i].1, RowEnv(r, op)) == Eval(keys[i].1, ShiftedEnv(r, leftLen, op))
    {
      var before, after := ShiftedEnv(r, leftLen, op), RowEnv(r, op);
      LiveAllTrivial(keys[i].1, (c: ColumnRef, p: nat) => before.col(c, p) == after.col(c, ShiftDown(leftLen)(c, p)));
      MovePreservesMeaning(keys[i].1, ShiftDown(leftLen), before, after);
    }
  }

  lemma {:induction false} LiveAllTrivial(e: Expr, p: (ColumnRef, nat) -> bool)
    requires forall c, pos :: p(c, pos)
    ensures LiveAll(e, p)
    decreases e
  {
    if e.Call? {
      var live := LiveArgs(e);
      forall i | 0 <= i < |live| ensures LiveAll(live[i], p) { LiveAllTrivial(live[i], p); }
    }
  }

  /** What splitting an ON predicate means in general: it is TRUE on the concatenated row exactly when the
      join operator matches the pair and every dropped conjunct is TRUE. */
  lemma OnSplittingUpToDropped(e: Expr, left: Schema, right: Schema, l: Row, r: Row, op: Op)
    requires Disjoint(left, right) && |l| == |left| && |r| == |right|
    requires LiveAll(e, KnownAt(left, right))
    ensures Eval(e, RowEnv(l + r, op)) == TRUE <==>
      JoinMatches(BindOn(e, left, right), l, r, op) && AllTrue(Dropped(e, left, right), RowEnv(l + r, op))
  {
    var env, envL, envR := RowEnv(l + r, op), RowEnv(l, op), ShiftedEnv(r, |left|, op);
    var s := ExtractJoinKeys(e, left, right);
    SidedInJoinScope(left, right, l, r, op);
    LiveAllWeaken(e, KnownAt(left, right), Sided(left, right, env, envL, envR));
    SplitUpToDropped(e, left, right, env, envL, envR);
    LocalizedKeysEqual(s.keys, |left|, envL, r, op);
    CombineTrueIffAllTrue(s.filter, env);
  }

  /** ON splitting preserves meaning: for every predicate bound to the joined schema and
      every pair of rows, the predicate is TRUE on the concatenated row exactly when the
      join operator, given the localised keys and the combined filter, matches the pair. */
  lemma OnSplittingPreservesMeaning(e: Expr, left: Schema, right: Schema, l: Row, r: Row, op: Op)
    requires Disjoint(left, right) && |l| == |left| && |r| == |right|
    requires AllColumns(e, InEither(left, right)) && Bound(e, left + right)
    ensures Eval(e, RowEnv(l + r, op)) == TRUE <==> JoinMatches(BindOn(e, left, right), l, r, op)
  {
    BoundIsLive(e, left + right);
    LiveAllWeaken(e, At(left + right), KnownAt(left, right));
    OnSplittingUpToDropped(e, left, right, l, r, op);
    NothingIsDropped(e, left, right);
  }

  function Comparison(x: Expr, y: Expr): Expr {
    Call(Binary(Eq, None, BooleanType), [x, y])
  }

  /** `a = b AND z` over the joined columns (a, b), where `z` belongs to neither side, as in the ON clause of a join
      inside a correlated subquery. */
  function OuterInOn(a: ColumnRef, b: ColumnRef, z: ColumnRef): Expr {
    Call(Binary(And, None, BooleanType), [Comparison(Column(a, 0), Column(b, 1)), Column(z, 0)])
  }

  lemma {:induction false} OuterIsDropped(a: ColumnRef, b: ColumnRef, z: ColumnRef)
    requires !SameColumn(a, b) && !SameColumn(a, z) && !SameColumn(b, z)
    ensures BindOn(OuterInOn(a, b, z), [a], [b]) == JoinCondition([(Column(a, 0), Column(b, 0))], None)
  {
    var e, eq := OuterInOn(a, b, z), Comparison(Column(a, 0), Column(b, 1));
    assert Contains([a], a) by { assert SameColumn([a][0], a); }
    assert Contains([b], b) by { assert SameColumn([b][0], b); }
    assert !Contains([a], z) && !Contains([b], z);
    assert ExtractJoinKeys(eq, [a], [b]) == JoinSplit([(Column(a, 0), Column(b, 1))], []);
    assert ExtractJoinKeys(Column(z, 0), [a], [b]) == NOTHING;
    assert ExtractJoinKeys(e, [a], [b]) == JoinSplit([(Column(a, 0), Column(b, 1))], []);
    assert MapPositions(Column(b, 1), ShiftDown(1)) == Column(b, 0);
  }

  /** A conjunct over a column of neither side is dropped: the join then matches a pair on which the
      predicate is FALSE. */
  lemma {:induction false} DroppedConjunctMatches(a: ColumnRef, b: ColumnRef, z: ColumnRef, op: Op)
    requires !SameColumn(a, b) && !SameColumn(a, z) && !SameColumn(b, z)
    ensures
      var e := OuterInOn(a, b, z);
      && Eval(e, RowEnv([FALSE] + [FALSE], op)) == FALSE
      && JoinMatches(BindOn(e, [a], [b]), [FALSE], [FALSE], op)
  {
    var e, eq, env := OuterInOn(a, b, z), Comparison(Column(a, 0), Column(b, 1)), RowEnv([FALSE] + [FALSE], op);
    OuterIsDropped(a, b, z);
    EvalCall(eq, env);
    EvalCall(e, env);
    assert Eval(eq, env) == Eq3(FALSE, FALSE) == TRUE && Eval(Column(z, 0), env) == FALSE;
  }

  // ------------------------------------------------ split scope (one subquery)

  function IndexOf(schema: Schema, c: ColumnRef): (i: nat)
    ensures i <= |schema|
    ensures Contains(schema, c) ==> i < |schema| && SameColumn(schema[i], c)
  {
    if schema == [] then 0
    else if SameColumn(schema[0], c) then 0
    else 1 + IndexOf(schema[1..], c)
  }

  /** `SplitScopePositionRebinder`: each column is placed within its own side. */
  function Rebind(left: Schema, right: Schema): (ColumnRef, nat) -> nat {
    (c: ColumnRef, p: nat) =>
      if Contains(left, c) then IndexOf(left, c)
      else if Contains(right, c) then IndexOf(right, c)
      else p
  }

  /** `RightSidePositionGlobalizer`: right columns move past the left row. */
  function Globalize(right: Schema, leftLen: nat): (ColumnRef, nat) -> nat {
    (c: ColumnRef, p: nat) => if Contains(right, c) then p + leftLen else p
  }

  /** `build_join_from_split_scope_predicates` for one predicate with rebinding. */
  function BindSplitScope(e: Expr, left: Schema, right: Schema): JoinCondition {
    var s := ExtractJoinKeys(MapPositions(e, Rebind(left, right)), left, right);
    var filter := CombineConjuncts(s.filter);
    JoinCondition(s.keys,
      if filter.Some? then Some(MapPositions(filter.value, Globalize(right, |left|))) else None)
  }

  /** Resolving columns by name, whatever positions the expression carries. */
  function NameEnv(left: Schema, l: Row, right: Schema, r: Row, op: Op): Env {
    Env((c: ColumnRef, p: nat) =>
          if Contains(left, c) then Cell(l, IndexOf(left, c))
          else if Contains(right, c) then Cell(r, IndexOf(right, c))
          else Fault,
        _ => Fault, _ => Fault, op)
  }

  /** Resolving a position within the side its column belongs to. */
  function SideEnv(left: Schema, l: Row, r: Row, op: Op): Env {
    Env((c: ColumnRef, p: nat) => if Contains(left, c) then Cell(l, p) else Cell(r, p), _ => Fault, _ => Fault, op)
  }

  /** A column of either side at a position inside that side. */
  function Placed(left: Schema, right: Schema): (ColumnRef, nat) -> bool {
    (c: ColumnRef, p: nat) =>
      InEither(left, right)(c) && p < (if Contains(left, c) then |left| else |right|)
  }

  lemma {:induction false} MapAllColumns(e: Expr, move: (ColumnRef, nat) -> nat, p: ColumnRef -> bool)
    requires AllColumns(e, p)
    ensures AllColumns(MapPositions(e, move), p)
    decreases e
  {
    if e.Call? {
      forall i | 0 <= i < |e.args| ensures AllColumns(MapPositions(e, move).args[i], p) {
        MapAllColumns(e.args[i], move, p);
      }
    }
  }

  lemma RebindPlaces(e: Expr, left: Schema, right: Schema)
    requires AllColumns(e, InEither(left, right))
    ensures LiveAll(MapPositions(e, Rebind(left, right)), Placed(left, right))
  {
    var move := Rebind(left, right);
    AllColumnsIsLive(e, InEither(left, right));
    assert forall c: ColumnRef, pos: nat :: InEither(left, right)(c) ==> Placed(left, right)(c, move(c, pos));
    LiveAllWeaken(e, (c, pos) => InEither(left, right)(c), (c: ColumnRef, pos: nat) =>
                  Placed(left, right)(c, move(c, pos)));
    MovePlaces(e, move, Placed(left, right));
  }

  /** The residual keeps what holds of every live column of the predicate. */
  lemma {:induction false} FilterKeepsLive(e: Expr, left: Schema, right: Schema, p: (ColumnRef, nat) -> bool)
    requires LiveAll(e, p)
    ensures forall f :: f in ExtractJoinKeys(e, left, right).filter ==> LiveAll(f, p)
    decreases e
  {
    var x := Unpack(e);
    UnpackLiveAll(e, p);
    if IsAnd(x) {
      assert LiveArgs(x) == x.args;
      FilterKeepsLive(x.args[0], left, right, p);
      FilterKeepsLive(x.args[1], left, right, p);
    }
  }

  lemma {:induction false} CombineKeepsLive(es: seq<Expr>, p: (ColumnRef, nat) -> bool)
    requires es != []
    requires forall f :: f in es ==> LiveAll(f, p)
    ensures LiveAll(CombineConjuncts(es).value, p)
  {
    if |es| > 1 {
      var c := CombineConjuncts(es).value;
      CombineKeepsLive(es[..|es| - 1], p);
      assert LiveArgs(c) == c.args;
    }
  }

  lemma GlobalizedFilter(f: Expr, left: Schema, right: Schema, l: Row, r: Row, op: Op)
    requires Disjoint(left, right) && |l| == |left| && |r| == |right|
    requires LiveAll(f, Placed(left, right))
    ensures Eval(MapPositions(f, Globalize(right, |left|)), RowEnv(l + r, op)) == Eval(f, SideEnv(left, l, r, op))
  {
    var before, after, move := SideEnv(left, l, r, op), RowEnv(l + r, op), Globalize(right, |left|);
    forall c: ColumnRef, p: nat | Placed(left, right)(c, p)
      ensures before.col(c, p) == after.col(c, move(c, p))
    {
      NeverInBoth(left, right, c);
      assert before.col(c, p) == if Contains(left, c) then Cell(l, p) else Cell(r, p);
      assert after.col(c, move(c, p)) == Cell(l + r, move(c, p));
      if Contains(left, c) {
        assert move(c, p) == p && (l + r)[p] == l[p];
      } else {
        assert InEither(left, right)(c);
        assert move(c, p) == p + |left| && (l + r)[p + |left|] == r[p];
      }
    }
    LiveAllWeaken(f, Placed(left, right), (c: ColumnRef, p: nat) => before.col(c, p) == after.col(c, move(c, p)));
    MovePreservesMeaning(f, move, before, after);
  }

  /** The split-scope builder preserves meaning: a predicate over an outer row and the row of
      one scalar subquery is TRUE, columns resolved by name, exactly when the join built from
      it matches the two rows, whatever positions the predicate carried before. */
  lemma SplitScopePreservesMeaning(e: Expr, left: Schema, right: Schema, l: Row, r: Row, op: Op)
    requires Disjoint(left, right) && |l| == |left| && |r| == |right|
    requires AllColumns(e, InEither(left, right))
    ensures Eval(e, NameEnv(left, l, right, r, op)) == TRUE <==> JoinMatches(BindSplitScope(e, left, right), l, r, op)
  {
    var names, side := NameEnv(left, l, right, r, op), SideEnv(left, l, r, op);
    var move := Rebind(left, right);
    var m := MapPositions(e, move);
    var s := ExtractJoinKeys(m, left, right);
    AllColumnsIsLive(e, InEither(left, right));
    LiveAllWeaken(e, (c, pos) => InEither(left, right)(c), (c: ColumnRef, p: nat) => names.col(c, p) ==
                  side.col(c, move(c, p)));
    MovePreservesMeaning(e, move, names, side);
    MapAllColumns(e, move, InEither(left, right));
    RebindPlaces(e, left, right);
    forall c: ColumnRef, p: nat ensures Sided(left, right, side, RowEnv(l, op), RowEnv(r, op))(c, p) {
      NeverInBoth(left, right, c);
    }
    LiveAllWeaken(m, Placed(left, right), Sided(left, right, side, RowEnv(l, op), RowEnv(r, op)));
    SplitIsExact(m, left, right, side, RowEnv(l, op), RowEnv(r, op));
    CombineTrueIffAllTrue(s.filter, side);
    if s.filter != [] {
      FilterKeepsLive(m, left, right, Placed(left, right));
      CombineKeepsLive(s.filter, Placed(left, right));
      GlobalizedFilter(CombineConjuncts(s.filter).value, left, right, l, r, op);
    }
  }
}
