/** Joins with USING: which columns are joined, and what the one visible column means on every row
    of the join. */
module UsingColumns {
  import opened Expressions

  datatype JoinType = Inner | LeftOuter | RightOuter | Full

  /** Both columns of the pair, at their positions in the joined row. */
  datatype UsingColumn = UsingColumn(joinType: JoinType, left: ColumnRef, leftPosition: nat, right: ColumnRef,
                                     rightPosition: nat)

  function LeftExpr(u: UsingColumn): Expr {
    Column(u.left, u.leftPosition)
  }

  function RightExpr(u: UsingColumn): Expr {
    Column(u.right, u.rightPosition)
  }

  function VisibleExpr(u: UsingColumn, ty: LogicalType): Expr {
    match u.joinType
    case RightOuter => RightExpr(u)
    case Full => Call(Coalesce(ty), [LeftExpr(u), RightExpr(u)])
    case _ => LeftExpr(u)
  }

  // ------------------------------------------------------------------ binding the names

  /** The first column of this name. */
  function FindColumn(schema: Schema, name: string): (i: nat)
    ensures i <= |schema|
    ensures i < |schema| ==> schema[i].summary.name == name
    ensures forall j :: 0 <= j < i ==> schema[j].summary.name != name
  {
    if schema == [] || schema[0].summary.name == name then 0 else 1 + FindColumn(schema[1..], name)
  }

  /** The pair joins the first columns of its name on either side, at their places in left ++ right. */
  ghost predicate Pairs(u: UsingColumn, name: string, left: Schema, right: Schema) {
    var i, j := FindColumn(left, name), FindColumn(right, name);
    && i < |left| && j < |right|
    && u.left == left[i] && u.leftPosition == i
    && u.right == right[j] && u.rightPosition == |left| + j
  }

  /** The name can be used: it is on both sides, and neither used by an earlier join nor repeated. */
  ghost predicate Usable(names: seq<string>, k: nat, known: set<string>, left: Schema, right: Schema)
    requires k < |names|
  {
    && FindColumn(left, names[k]) < |left| && FindColumn(right, names[k]) < |right|
    && names[k] !in known && forall i :: 0 <= i < k ==> names[i] != names[k]
  }

  method BindUsing(names: seq<string>, joinType: JoinType, left: Schema, right: Schema, known: set<string>)
    returns (r: Option<seq<UsingColumn>>)
    ensures r.Some? <==> forall k :: 0 <= k < |names| ==> Usable(names, k, known, left, right)
    ensures r.Some? ==> |r.value| == |names|
    ensures r.Some? ==> forall k :: 0 <= k < |names| ==>
      r.value[k].joinType == joinType && Pairs(r.value[k], names[k], left, right)
  {
    var columns: seq<UsingColumn> := [];
    var used := known;
    for k := 0 to |names|
      invariant |columns| == k && used == known + set i | 0 <= i < k :: names[i]
      invariant forall i :: 0 <= i < k ==> Usable(names, i, known, left, right)
      invariant forall i :: 0 <= i < k ==> columns[i].joinType == joinType && Pairs(columns[i], names[i], left, right)
    {
      var i, j := FindColumn(left, names[k]), FindColumn(right, names[k]);
      if i == |left| || j == |right| {
        assert !Usable(names, k, known, left, right);
        return None;
      }
      if names[k] in used {
        assert !Usable(names, k, known, left, right);
        return None;
      }
      used := used + {names[k]};
      columns := columns + [UsingColumn(joinType, left[i], i, right[j], |left| + j)];
    }
    r := Some(columns);
  }

  // ------------------------------------------------------------------ the rows of the join

  /** Rows of one side: of its width, and of values. */
  ghost predicate AreRows(rows: seq<Row>, width: nat) {
    forall i :: 0 <= i < |rows| ==> |rows[i]| == width && forall p :: 0 <= p < width ==> rows[i][p].Ok?
  }

  /** The rows agree in every joined column; NULL agrees with nothing. */
  ghost predicate Matches(l: Row, r: Row, columns: seq<UsingColumn>, width: nat) {
    forall k :: 0 <= k < |columns| ==>
      columns[k].rightPosition >= width && Eq3(Cell(l, columns[k].leftPosition),
                                               Cell(r, columns[k].rightPosition - width)) == TRUE
  }

  function Nulls(width: nat): Row {
    seq(width, _ => NULL)
  }

  ghost predicate LeftMatched(ls: seq<Row>, rs: seq<Row>, i: nat, columns: seq<UsingColumn>, width: nat)
    requires i < |ls|
  {
    exists j :: 0 <= j < |rs| && Matches(ls[i], rs[j], columns, width)
  }

  ghost predicate RightMatched(ls: seq<Row>, rs: seq<Row>, j: nat, columns: seq<UsingColumn>, width: nat)
    requires j < |rs|
  {
    exists i :: 0 <= i < |ls| && Matches(ls[i], rs[j], columns, width)
  }

  /** The row is in the join of `ls` and `rs`. */
  ghost predicate InJoin(row: Row, kind: JoinType, ls: seq<Row>, rs: seq<Row>, columns: seq<UsingColumn>,
                         leftWidth: nat, rightWidth: nat)
  {
    || (exists i, j ::
          0 <= i < |ls| && 0 <= j < |rs| && row == ls[i] + rs[j] && Matches(ls[i], rs[j], columns, leftWidth))
    || ((kind.LeftOuter? || kind.Full?)
        && exists i :: 0 <= i < |ls| && row == ls[i] + Nulls(rightWidth) && !LeftMatched(ls, rs, i, columns, leftWidth))
    || ((kind.RightOuter? || kind.Full?)
        && exists j :: 0 <= j < |rs| && row == Nulls(leftWidth) + rs[j] && !RightMatched(ls, rs, j, columns, leftWidth))
  }

  /** Only in a full join does the visible expression look at both sides: in an inner or left join the left cell
      decides, in a right join the right one. */
  lemma {:induction false} VisibleReadsKeptSide(u: UsingColumn, ty: LogicalType, row: Row, other: Row, op: Op)
    requires !u.joinType.Full?
    requires
      var kept := if u.joinType.RightOuter? then u.rightPosition else u.leftPosition;
      Cell(row, kept) == Cell(other, kept)
    ensures Eval(VisibleExpr(u, ty), RowEnv(row, op)) == Eval(VisibleExpr(u, ty), RowEnv(other, op))
  {
  }

  lemma {:induction false} CoalesceOfTwo(u: UsingColumn, ty: LogicalType, row: Row, op: Op)
    ensures Eval(Call(Coalesce(ty), [LeftExpr(u), RightExpr(u)]), RowEnv(row, op)) ==
      if Cell(row, u.leftPosition) == NULL then Cell(row, u.rightPosition) else Cell(row, u.leftPosition)
  {
    var e := Call(Coalesce(ty), [LeftExpr(u), RightExpr(u)]);
    var env := RowEnv(row, op);
    var l, r := Cell(row, u.leftPosition), Cell(row, u.rightPosition);
    EvalCall(e, env);
    assert EvalArgs(LiveArgs(e), env) == [l, r];
    assert [l, r][1..] == [r] && [r][1..] == [];
    assert FirstNonNull([r]) == r;
  }

  /** On every row of an inner, left, right or full join, the visible expression of a USING column is
      the COALESCE of its two columns. */
  lemma {:induction false} VisibleIsCoalesce(row: Row, kind: JoinType, ls: seq<Row>, rs: seq<Row>, names: seq<string>,
                                             columns: seq<UsingColumn>, left: Schema, right: Schema, k: nat,
                                             ty: LogicalType, op: Op)
    requires AreRows(ls, |left|) && AreRows(rs, |right|) && |columns| == |names| && k < |names|
    requires forall i :: 0 <= i < |names| ==> columns[i].joinType == kind && Pairs(columns[i], names[i], left, right)
    requires InJoin(row, kind, ls, rs, columns, |left|, |right|)
    ensures Eval(VisibleExpr(columns[k], ty), RowEnv(row, op)) ==
            Eval(Call(Coalesce(ty), [LeftExpr(columns[k]), RightExpr(columns[k])]), RowEnv(row, op))
  {
    var u := columns[k];
    assert Pairs(u, names[k], left, right);
    CoalesceOfTwo(u, ty, row, op);
    var p, q := u.leftPosition, u.rightPosition;
    if i, j :| 0 <= i < |ls| && 0 <= j < |rs| && row == ls[i] + rs[j] && Matches(ls[i], rs[j], columns, |left|) {
      assert Cell(row, p) == ls[i][p] && Cell(row, q) == rs[j][q - |left|];
      assert Eq3(Cell(ls[i], p), Cell(rs[j], q - |left|)) == TRUE;
    } else if i :| 0 <= i < |ls| && row == ls[i] + Nulls(|right|) && (kind.LeftOuter? || kind.Full?) {
      assert Cell(row, q) == NULL;
    } else {
      var j :| 0 <= j < |rs| && row == Nulls(|left|) + rs[j];
      assert Cell(row, p) == NULL;
    }
  }
}
