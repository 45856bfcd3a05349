/** Expressions as they are stored: nodes in an arena that refer to one another by index.
    Comparing expressions and moving positions work on references, and nodes may be shared. */
module ExpressionArena {
  import opened Expressions
  import opened Rewriting

  datatype Node =
    | ColumnNode(column: ColumnRef, position: nat)
    | CallNode(head: Head, kids: seq<nat>)

  /** What stands in a slot while a visitor holds its expression. */
  const EMPTY_NODE := CallNode(Empty, [])

  /** The unfolding of an acyclic graph below one reference. */
  datatype Tree = Tree(ref: nat, kids: seq<Tree>)

  ghost predicate Unfolds(nodes: seq<Node>, t: Tree)
    decreases t
  {
    && t.ref < |nodes|
    && match nodes[t.ref]
       case ColumnNode(_, _) => t.kids == []
       case CallNode(_, kids) =>
         |t.kids| == |kids| && forall i :: 0 <= i < |kids| ==> t.kids[i].ref == kids[i] && Unfolds(nodes, t.kids[i])
  }

  ghost predicate UnfoldsAll(nodes: seq<Node>, ts: seq<Tree>) {
    forall i :: 0 <= i < |ts| ==> Unfolds(nodes, ts[i])
  }

  ghost function Denote(nodes: seq<Node>, t: Tree): (e: Expr)
    requires Unfolds(nodes, t)
    decreases t
  {
    match nodes[t.ref]
    case ColumnNode(c, p) => Column(c, p)
    case CallNode(head, _) => Call(head, seq(|t.kids|, i requires 0 <= i < |t.kids| => Denote(nodes, t.kids[i])))
  }

  /** A reference has one unfolding. */
  lemma {:induction false} UnfoldingIsUnique(nodes: seq<Node>, a: Tree, b: Tree)
    requires Unfolds(nodes, a) && Unfolds(nodes, b) && a.ref == b.ref
    ensures a == b
    decreases a
  {
    forall i | 0 <= i < |a.kids| ensures a.kids[i] == b.kids[i] {
      UnfoldingIsUnique(nodes, a.kids[i], b.kids[i]);
    }
    assert a.kids == b.kids;
  }

  // ---------------------------------------------------------------- comparison

  predicate IsAliasNode(n: Node) {
    n.CallNode? && (n.head.AliasName? || n.head.AliasExpr?) && |n.kids| > 0
  }

  ghost function UnpackTree(nodes: seq<Node>, t: Tree): (u: Tree)
    requires Unfolds(nodes, t)
    ensures Unfolds(nodes, u) && (u == t || u < t)
    decreases t
  {
    if IsAliasNode(nodes[t.ref]) then UnpackTree(nodes, t.kids[0]) else t
  }

  lemma {:induction false} UnpackDenotes(nodes: seq<Node>, t: Tree)
    requires Unfolds(nodes, t)
    ensures Denote(nodes, UnpackTree(nodes, t)) == Unpack(Denote(nodes, t))
    decreases t
  {
    if IsAliasNode(nodes[t.ref]) { UnpackDenotes(nodes, t.kids[0]); }
  }

  /** Following aliases by reference. */
  function UnpackRef(nodes: seq<Node>, ref: nat, ghost t: Tree): (r: nat)
    requires Unfolds(nodes, t) && t.ref == ref
    ensures r == UnpackTree(nodes, t).ref
    decreases t
  {
    if IsAliasNode(nodes[ref]) then UnpackRef(nodes, nodes[ref].kids[0], t.kids[0]) else ref
  }

  /** The comparing visitor, with its shortcut for identical references, decides equality of
      the denoted expressions on every acyclic graph, however much of it is shared. */
  method Equals(nodes: seq<Node>, lhs: nat, rhs: nat, ghost l: Tree, ghost r: Tree) returns (equal: bool)
    requires Unfolds(nodes, l) && Unfolds(nodes, r) && l.ref == lhs && r.ref == rhs
    ensures equal == EqIgnore(Denote(nodes, l), Denote(nodes, r))
    decreases l
  {
    var left, right := UnpackRef(nodes, lhs, l), UnpackRef(nodes, rhs, r);
    ghost var x, y := UnpackTree(nodes, l), UnpackTree(nodes, r);
    UnpackDenotes(nodes, l);
    UnpackDenotes(nodes, r);
    if left == right {
      UnfoldingIsUnique(nodes, x, y);
      SameUnpackedIsEqual(Denote(nodes, l), Denote(nodes, r));
      return true;
    }
    match (nodes[left], nodes[right])
    case (ColumnNode(c, _), ColumnNode(d, _)) => equal := SameColumn(c, d);
    case (CallNode(h, xs), CallNode(k, ys)) =>
      UnpackedCallsCompare(Denote(nodes, l), Denote(nodes, r));
      assert forall j :: 0 <= j < |xs| ==> Denote(nodes, x).args[j] == Denote(nodes, x.kids[j]);
      assert forall j :: 0 <= j < |ys| ==> Denote(nodes, y).args[j] == Denote(nodes, y.kids[j]);
      if h != k { return false; }
      equal := RefsEqual(nodes, xs, ys, x.kids, y.kids);
    case _ => equal := false;
  }

  method RefsEqual(nodes: seq<Node>, lhs: seq<nat>, rhs: seq<nat>, ghost ls: seq<Tree>, ghost rs: seq<Tree>)
    returns (equal: bool)
    requires UnfoldsAll(nodes, ls) && |ls| == |lhs| && forall i :: 0 <= i < |lhs| ==> ls[i].ref == lhs[i]
    requires UnfoldsAll(nodes, rs) && |rs| == |rhs| && forall i :: 0 <= i < |rhs| ==> rs[i].ref == rhs[i]
    ensures equal <==>
      |lhs| == |rhs| && forall j :: 0 <= j < |ls| ==> EqIgnore(Denote(nodes, ls[j]), Denote(nodes, rs[j]))
    decreases ls
  {
    if |lhs| != |rhs| { return false; }
    var i := 0;
    equal := true;
    while i < |lhs| && equal
      invariant 0 <= i <= |lhs|
      invariant equal <==> forall j :: 0 <= j < i ==> EqIgnore(Denote(nodes, ls[j]), Denote(nodes, rs[j]))
    {
      equal := Equals(nodes, lhs[i], rhs[i], ls[i], rs[i]);
      i := i + 1;
    }
  }

  /** Two calls are equal when their heads are and their arguments are, pairwise. */
  lemma UnpackedCallsCompare(a: Expr, b: Expr)
    requires Unpack(a).Call? && Unpack(b).Call?
    ensures
      var x, y := Unpack(a), Unpack(b);
      EqIgnore(a, b) <==>
      x.head == y.head && |x.args| == |y.args| && forall j :: 0 <= j < |x.args| ==> EqIgnore(x.args[j], y.args[j])
  {
  }

  lemma SameUnpackedIsEqual(a: Expr, b: Expr)
    requires Unpack(a) == Unpack(b)
    ensures EqIgnore(a, b)
  {
    CanonUnpack(a);
    CanonUnpack(b);
    EqIffSameCanon(a, b);
  }

  // ------------------------------------------------------------ moving positions

  type Move = (ColumnRef, nat) -> nat

  function Iterate(move: Move, c: ColumnRef, p: nat, n: nat): nat {
    if n == 0 then p else move(c, Iterate(move, c, p, n - 1))
  }

  /** The number of paths from the roots `ts` to slot `r`. */
  ghost function PathsAll(ts: seq<Tree>, r: nat): (n: nat)
    decreases ts
  {
    if ts == [] then 0 else PathsAll(ts[..|ts| - 1], r) + Paths(ts[|ts| - 1], r)
  }

  ghost function Paths(t: Tree, r: nat): (n: nat)
    decreases t
  {
    (if t.ref == r then 1 else 0) + PathsAll(t.kids, r)
  }

  function Moved(n: Node, move: Move, times: nat): Node {
    match n
    case ColumnNode(c, p) => ColumnNode(c, Iterate(move, c, p, times))
    case CallNode(_, _) => n
  }

  /** The arena after a position visitor has walked `ts`: a column node is moved once for
      every path that leads to it. */
  ghost function Visited(nodes: seq<Node>, ts: seq<Tree>, move: Move): (r: seq<Node>) {
    seq(|nodes|, i requires 0 <= i < |nodes| => Moved(nodes[i], move, PathsAll(ts, i)))
  }

  predicate SameLinks(a: Node, b: Node) {
    (a.ColumnNode? && b.ColumnNode?) || (a.CallNode? && b.CallNode? && a.kids == b.kids)
  }

  /** An unfolding depends only on the links of the slots it reaches. */
  lemma {:induction false} LinksDecide(nodes: seq<Node>, other: seq<Node>, t: Tree)
    requires Unfolds(nodes, t) && |other| == |nodes|
    requires forall r :: 0 <= r < |nodes| && Paths(t, r) > 0 ==> SameLinks(nodes[r], other[r])
    ensures Unfolds(other, t)
    decreases t
  {
    forall i | 0 <= i < |t.kids| ensures Unfolds(other, t.kids[i]) {
      forall r | 0 <= r < |nodes| && Paths(t.kids[i], r) > 0 ensures SameLinks(nodes[r], other[r]) {
        PathsThroughKid(t.kids, i, r);
      }
      LinksDecide(nodes, other, t.kids[i]);
    }
    assert Paths(t, t.ref) > 0;
  }

  lemma {:induction false} PathsThroughKid(ts: seq<Tree>, i: nat, r: nat)
    requires i < |ts|
    ensures PathsAll(ts, r) >= Paths(ts[i], r)
    decreases ts
  {
    if i < |ts| - 1 { PathsThroughKid(ts[..|ts| - 1], i, r); }
  }

  /** No path leads from a node back to it. */
  lemma {:induction false} Acyclic(nodes: seq<Node>, t: Tree, below: Tree)
    requires Unfolds(nodes, t) && Unfolds(nodes, below) && below < t
    ensures Paths(below, t.ref) == 0
    decreases below
  {
    if below.ref == t.ref { UnfoldingIsUnique(nodes, below, t); }
    AcyclicAll(nodes, t, below, |below.kids|);
    assert below.kids[..|below.kids|] == below.kids;
  }

  lemma {:induction false} AcyclicAll(nodes: seq<Node>, t: Tree, parent: Tree, n: nat)
    requires Unfolds(nodes, t) && Unfolds(nodes, parent) && n <= |parent.kids| && (parent < t || parent == t)
    ensures PathsAll(parent.kids[..n], t.ref) == 0
    decreases parent, n
  {
    if n > 0 {
      AcyclicAll(nodes, t, parent, n - 1);
      assert parent.kids[..n][..n - 1] == parent.kids[..n - 1];
      Acyclic(nodes, t, parent.kids[n - 1]);
    }
  }

  lemma {:induction false} SomeKidIsReached(ts: seq<Tree>, r: nat) returns (i: nat)
    requires PathsAll(ts, r) > 0
    ensures i < |ts| && Paths(ts[i], r) > 0
    decreases ts
  {
    if Paths(ts[|ts| - 1], r) > 0 { i := |ts| - 1; } else { i := SomeKidIsReached(ts[..|ts| - 1], r); }
  }

  lemma {:induction false} IterateAdds(move: Move, c: ColumnRef, p: nat, m: nat, n: nat)
    ensures Iterate(move, c, Iterate(move, c, p, m), n) == Iterate(move, c, p, m + n)
    decreases n
  {
    if n > 0 { IterateAdds(move, c, p, m, n - 1); }
  }

  /** Walking one more root after `n` of them. */
  lemma VisitedNext(nodes: seq<Node>, ts: seq<Tree>, n: nat, move: Move)
    requires n < |ts|
    ensures Visited(Visited(nodes, ts[..n], move), [ts[n]], move) == Visited(nodes, ts[..n + 1], move)
  {
    assert ts[..n + 1][..n] == ts[..n];
    forall i | 0 <= i < |nodes|
      ensures Visited(Visited(nodes, ts[..n], move), [ts[n]], move)[i] == Visited(nodes, ts[..n + 1], move)[i]
    {
      assert PathsAll([], i) == 0 && [ts[n]][..0] == [];
      if nodes[i].ColumnNode? {
        IterateAdds(move, nodes[i].column, nodes[i].position, PathsAll(ts[..n], i), Paths(ts[n], i));
      }
    }
  }

  lemma VisitedUnfolds(nodes: seq<Node>, ts: seq<Tree>, move: Move, t: Tree)
    requires Unfolds(nodes, t)
    ensures Unfolds(Visited(nodes, ts, move), t)
  {
    LinksDecide(nodes, Visited(nodes, ts, move), t);
  }

  /** Taking a node out leaves what is below it in place. */
  lemma KidsSurvive(nodes: seq<Node>, t: Tree)
    requires Unfolds(nodes, t)
    ensures PathsAll(t.kids, t.ref) == 0
    ensures UnfoldsAll(nodes[t.ref := EMPTY_NODE], t.kids)
  {
    AcyclicAll(nodes, t, t, |t.kids|);
    assert t.kids[..|t.kids|] == t.kids;
    forall i | 0 <= i < |t.kids| ensures Unfolds(nodes[t.ref := EMPTY_NODE], t.kids[i]) {
      PathsThroughKid(t.kids, i, t.ref);
      LinksDecide(nodes, nodes[t.ref := EMPTY_NODE], t.kids[i]);
    }
  }

  /** A column of the catalog, as far as `alloc_column` compares it. */
  datatype Catalog = Catalog(summary: Summary, nullable: bool, ty: LogicalType)

  function FirstEqual<T(==)>(items: seq<T>, item: T): (i: nat)
    ensures i <= |items|
    ensures i < |items| ==> items[i] == item
    ensures forall j :: 0 <= j < i ==> items[j] != item
  {
    if items == [] || items[0] == item then 0 else 1 + FirstEqual(items[1..], item)
  }

  /** The arena of one plan: expressions, and the columns visible to it. */
  class Arena {
    var nodes: seq<Node>
    var columns: seq<Catalog>

    constructor ()
      ensures nodes == [] && columns == []
    {
      nodes, columns := [], [];
    }

    /** A column equal to one already there is not stored again. */
    method AllocColumn(column: Catalog) returns (ref: ColumnRef)
      modifies `columns
      ensures old(columns) <= columns && ref.slot < |columns|
      ensures columns[ref.slot] == column && ref.summary == column.summary
      ensures ref.slot == FirstEqual(old(columns), column)
      ensures |columns| == if column in old(columns) then |old(columns)| else |old(columns)| + 1
    {
      var i := FirstEqual(columns, column);
      if i == |columns| {
        columns := columns + [column];
      }
      ref := ColumnRef(i, column.summary);
    }

    /** Every position visitor: take the expression out, move a column or walk the children,
        put the expression back. */
    method MovePositions(expr: nat, move: Move, ghost t: Tree)
      requires Unfolds(nodes, t) && t.ref == expr
      modifies `nodes
      ensures nodes == Visited(old(nodes), [t], move)
      decreases t
    {
      var expression := nodes[expr];
      ghost var before := nodes;
      nodes := nodes[expr := EMPTY_NODE];
      assert forall i :: PathsAll([t], i) == Paths(t, i) by { assert [t][..0] == []; }
      match expression
      case ColumnNode(c, p) =>
        assert Iterate(move, c, p, 0) == p && Iterate(move, c, p, 1) == move(c, p);
        nodes := nodes[expr := ColumnNode(c, move(c, p))];
      case CallNode(_, kids) =>
        KidsSurvive(before, t);
        MoveAll(kids, move, t.kids);
        nodes := nodes[expr := expression];
    }

    method MoveAll(exprs: seq<nat>, move: Move, ghost ts: seq<Tree>)
      requires UnfoldsAll(nodes, ts) && |ts| == |exprs| && forall i :: 0 <= i < |ts| ==> ts[i].ref == exprs[i]
      modifies `nodes
      ensures nodes == Visited(old(nodes), ts, move)
      decreases ts
    {
      ghost var before := nodes;
      for k := 0 to |exprs|
        invariant nodes == Visited(before, ts[..k], move)
      {
        VisitedUnfolds(before, ts[..k], move, ts[k]);
        VisitedNext(before, ts, k, move);
        MovePositions(exprs[k], move, ts[k]);
      }
      assert ts[..|ts|] == ts;
    }
  }

  /** On every path the node is moved as if it were moved once. */
  ghost predicate MovedOnce(nodes: seq<Node>, ts: seq<Tree>, t: Tree, move: Move) {
    forall r :: 0 <= r < |nodes| && Paths(t, r) > 0 && nodes[r].ColumnNode? ==>
      Iterate(move, nodes[r].column, nodes[r].position, PathsAll(ts, r)) == move(nodes[r].column, nodes[r].position)
  }

  /** A walk in place computes `MapPositions` of a root exactly when no column below it is
      moved differently by being reached several times. */
  lemma {:induction false} VisitedDenotes(nodes: seq<Node>, ts: seq<Tree>, move: Move, t: Tree)
    requires Unfolds(nodes, t) && Unfolds(Visited(nodes, ts, move), t)
    ensures Denote(Visited(nodes, ts, move), t) == MapPositions(Denote(nodes, t), move) <==>
            MovedOnce(nodes, ts, t, move)
    decreases t
  {
    var after := Visited(nodes, ts, move);
    var e, m := Denote(after, t), MapPositions(Denote(nodes, t), move);
    if nodes[t.ref].CallNode? {
      forall i | 0 <= i < |t.kids|
        ensures e.args[i] == m.args[i] <==> MovedOnce(nodes, ts, t.kids[i], move)
      {
        VisitedDenotes(nodes, ts, move, t.kids[i]);
      }
      assert e == m <==> forall i :: 0 <= i < |t.kids| ==> e.args[i] == m.args[i] by {
        assert e.args == m.args <==> forall i :: 0 <= i < |t.kids| ==> e.args[i] == m.args[i];
      }
      MovedOnceBelow(nodes, ts, t, move);
    } else {
      assert Paths(t, t.ref) > 0;
      assert forall r :: Paths(t, r) > 0 ==> r == t.ref;
    }
  }

  lemma MovedOnceBelow(nodes: seq<Node>, ts: seq<Tree>, t: Tree, move: Move)
    requires Unfolds(nodes, t) && nodes[t.ref].CallNode?
    ensures MovedOnce(nodes, ts, t, move) <==> forall i :: 0 <= i < |t.kids| ==> MovedOnce(nodes, ts, t.kids[i], move)
  {
    forall r: nat, i | 0 <= i < |t.kids| && Paths(t.kids[i], r) > 0 ensures Paths(t, r) > 0 {
      PathsThroughKid(t.kids, i, r);
    }
    forall r: nat | Paths(t, r) > 0 && r != t.ref ensures exists i :: 0 <= i < |t.kids| && Paths(t.kids[i], r) > 0 {
      var i := SomeKidIsReached(t.kids, r);
    }
  }

  /** No node is reached twice. */
  ghost predicate TreeShaped(ts: seq<Tree>) {
    forall r: nat :: PathsAll(ts, r) <= 1
  }

  /** The visitors are safe on tree-shaped roots, and on any roots when moving twice is moving once. */
  lemma WalkMovesEachRoot(nodes: seq<Node>, ts: seq<Tree>, move: Move, k: nat)
    requires UnfoldsAll(nodes, ts) && k < |ts|
    requires TreeShaped(ts) || forall c, p :: move(c, move(c, p)) == move(c, p)
    ensures Unfolds(Visited(nodes, ts, move), ts[k])
    ensures Denote(Visited(nodes, ts, move), ts[k]) == MapPositions(Denote(nodes, ts[k]), move)
  {
    VisitedUnfolds(nodes, ts, move, ts[k]);
    forall r | 0 <= r < |nodes| && Paths(ts[k], r) > 0 && nodes[r].ColumnNode?
      ensures Iterate(move, nodes[r].column, nodes[r].position, PathsAll(ts, r)) ==
              move(nodes[r].column, nodes[r].position)
    {
      PathsThroughKid(ts, k, r);
      var c, p := nodes[r].column, nodes[r].position;
      if PathsAll(ts, r) == 1 {
        assert Iterate(move, c, p, 0) == p;
      } else {
        IterateSettles(move, c, p, PathsAll(ts, r));
      }
    }
    VisitedDenotes(nodes, ts, move, ts[k]);
  }

  lemma {:induction false} IterateSettles(move: Move, c: ColumnRef, p: nat, n: nat)
    requires n > 0 && forall c, p :: move(c, move(c, p)) == move(c, p)
    ensures Iterate(move, c, p, n) == move(c, p)
  {
    assert Iterate(move, c, p, 0) == p;
    if n > 1 { IterateSettles(move, c, p, n - 1); }
  }

  /** A shared column is shifted twice: in `x = x` over one node, a shift by one moves it by two. */
  lemma SharedColumnIsShiftedTwice(c: ColumnRef, h: Head)
    ensures
      var nodes := [ColumnNode(c, 0), CallNode(h, [0, 0])];
      var t := Tree(1, [Tree(0, []), Tree(0, [])]);
      var shift := (c: ColumnRef, p: nat) => p + 1;
      && Unfolds(nodes, t)
      && Unfolds(Visited(nodes, [t], shift), t)
      && Denote(nodes, t) == Call(h, [Column(c, 0), Column(c, 0)])
      && Denote(Visited(nodes, [t], shift), t) == Call(h, [Column(c, 2), Column(c, 2)])
      && MapPositions(Denote(nodes, t), shift) == Call(h, [Column(c, 1), Column(c, 1)])
  {
    var nodes := [ColumnNode(c, 0), CallNode(h, [0, 0])];
    var leaf := Tree(0, []);
    var t := Tree(1, [leaf, leaf]);
    var shift := (c: ColumnRef, p: nat) => p + 1;
    assert Unfolds(nodes, leaf) && Unfolds(nodes, t);
    VisitedUnfolds(nodes, [t], shift, t);
    assert Paths(leaf, 0) == 1;
    assert t.kids[..1] == [leaf] && [leaf][..0] == [] && [t][..0] == [];
    assert PathsAll([leaf], 0) == 1 && PathsAll(t.kids, 0) == 2 && PathsAll([t], 0) == 2;
    assert Iterate(shift, c, 0, 0) == 0 && Iterate(shift, c, 0, 1) == 1 && Iterate(shift, c, 0, 2) == 2;
    var after := Visited(nodes, [t], shift);
    assert after[0] == ColumnNode(c, 2);
    assert Denote(after, t).args == [Column(c, 2), Column(c, 2)];
    assert Denote(nodes, t).args == [Column(c, 0), Column(c, 0)];
    assert MapPositions(Denote(nodes, t), shift).args == [Column(c, 1), Column(c, 1)];
  }

  // ------------------------------------------------------------ what a tree depends on

  /** The arena may grow and change elsewhere. */
  ghost predicate AgreeBelow(nodes: seq<Node>, other: seq<Node>, t: Tree) {
    |nodes| <= |other| && forall r :: 0 <= r < |nodes| && Paths(t, r) > 0 ==> other[r] == nodes[r]
  }

  lemma {:induction false} AgreeBelowKid(nodes: seq<Node>, other: seq<Node>, t: Tree, i: nat)
    requires AgreeBelow(nodes, other, t) && i < |t.kids|
    ensures AgreeBelow(nodes, other, t.kids[i])
  {
    forall r: nat | Paths(t.kids[i], r) > 0 ensures Paths(t, r) > 0 { PathsThroughKid(t.kids, i, r); }
  }

  lemma {:induction false} SameNodesDenoteSame(nodes: seq<Node>, other: seq<Node>, t: Tree)
    requires Unfolds(nodes, t) && AgreeBelow(nodes, other, t)
    ensures Unfolds(other, t) && Denote(other, t) == Denote(nodes, t)
    decreases t
  {
    assert Paths(t, t.ref) > 0;
    forall i | 0 <= i < |t.kids|
      ensures Unfolds(other, t.kids[i]) && Denote(other, t.kids[i]) == Denote(nodes, t.kids[i])
    {
      AgreeBelowKid(nodes, other, t, i);
      SameNodesDenoteSame(nodes, other, t.kids[i]);
    }
  }

  lemma {:induction false} ReachedIsStored(nodes: seq<Node>, t: Tree, r: nat)
    requires Unfolds(nodes, t) && Paths(t, r) > 0
    ensures r < |nodes|
    decreases t
  {
    if t.ref != r {
      var i := SomeKidIsReached(t.kids, r);
      ReachedIsStored(nodes, t.kids[i], r);
    }
  }

  /** What two roots reach is reached twice. */
  lemma {:induction false} PathsAddUp(ts: seq<Tree>, i: nat, k: nat, r: nat)
    requires i < k < |ts|
    ensures PathsAll(ts, r) >= Paths(ts[i], r) + Paths(ts[k], r)
    decreases ts
  {
    if k < |ts| - 1 { PathsAddUp(ts[..|ts| - 1], i, k, r); } else { PathsThroughKid(ts[..|ts| - 1], i, r); }
  }
}
