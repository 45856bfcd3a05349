/** Replacing, in the arena, what a projection or an aggregation already computes by references to
    its output: the walk that reallocates matches and rewrites the nodes above them. */
module OutputBinding {
  import opened Expressions
  import opened ExpressionArena
  import CorrelatedSubqueries
  import AggregateBinding

  type Naming = Expr -> ColumnRef

  /** The outputs as expressions, their output columns, and whether named aliases are always kept. */
  datatype Target = Target(outs: seq<Expr>, columns: seq<ColumnRef>, keepNamed: bool)

  predicate Matched(e: Expr, g: Target) {
    CorrelatedSubqueries.FindOutput(g.outs, e) < |g.outs| && !(g.keepNamed && e.Call? && e.head.AliasName?)
  }

  /** The rewriting on values: both binders at once. */
  function Replace(e: Expr, g: Target): Expr
    requires |g.columns| == |g.outs|
    decreases e
  {
    if Matched(e, g) then
      var j := CorrelatedSubqueries.FindOutput(g.outs, e);
      Column(g.columns[j], j)
    else match e
      case Column(_, _) => e
      case Call(head, args) => Call(head, seq(|args|, i requires 0 <= i < |args| => Replace(args[i], g)))
  }

  lemma {:induction false} ReplaceIsBindOutput(e: Expr, outs: seq<Expr>, naming: Naming)
    ensures Replace(e, Target(outs, CorrelatedSubqueries.OutputColumns(outs, naming), true)) ==
            AggregateBinding.BindOutput(e, outs, naming)
    decreases e
  {
    if e.Call? {
      forall i | 0 <= i < |e.args|
        ensures Replace(e.args[i], Target(outs, CorrelatedSubqueries.OutputColumns(outs, naming), true)) ==
                AggregateBinding.BindOutput(e.args[i], outs, naming)
      {
        ReplaceIsBindOutput(e.args[i], outs, naming);
      }
    }
  }

  lemma {:induction false} ReplaceIsBindProjection(e: Expr, outs: seq<Expr>, naming: Naming)
    ensures Replace(e, Target(outs, CorrelatedSubqueries.OutputColumns(outs, naming), false)) ==
            CorrelatedSubqueries.BindProjection(e, outs, naming)
    decreases e
  {
    if e.Call? {
      forall i | 0 <= i < |e.args|
        ensures Replace(e.args[i], Target(outs, CorrelatedSubqueries.OutputColumns(outs, naming), false)) ==
                CorrelatedSubqueries.BindProjection(e.args[i], outs, naming)
      {
        ReplaceIsBindProjection(e.args[i], outs, naming);
      }
    }
  }

  // ------------------------------------------------------------------ in the arena

  /** The slots the walk rewrites: those above and beside the matches, never one inside a match. */
  ghost predicate Walks(nodes: seq<Node>, t: Tree, g: Target, r: nat)
    requires Unfolds(nodes, t)
    decreases t
  {
    !Matched(Denote(nodes, t), g) && (t.ref == r || exists i :: 0 <= i < |t.kids| && Walks(nodes, t.kids[i], g, r))
  }

  lemma {:induction false} WalkedIsReached(nodes: seq<Node>, t: Tree, g: Target, r: nat)
    requires Unfolds(nodes, t) && Walks(nodes, t, g, r)
    ensures Paths(t, r) > 0 && r < |nodes|
    decreases t
  {
    if t.ref != r {
      var i :| 0 <= i < |t.kids| && Walks(nodes, t.kids[i], g, r);
      WalkedIsReached(nodes, t.kids[i], g, r);
      PathsThroughKid(t.kids, i, r);
    }
  }

  lemma {:induction false} SameNodesWalkSame(nodes: seq<Node>, other: seq<Node>, t: Tree, g: Target, r: nat)
    requires Unfolds(nodes, t) && AgreeBelow(nodes, other, t) && Unfolds(other, t)
    ensures Walks(other, t, g, r) <==> Walks(nodes, t, g, r)
    decreases t
  {
    SameNodesDenoteSame(nodes, other, t);
    forall i | 0 <= i < |t.kids| ensures Walks(other, t.kids[i], g, r) <==> Walks(nodes, t.kids[i], g, r) {
      AgreeBelowKid(nodes, other, t, i);
      SameNodesWalkSame(nodes, other, t.kids[i], g, r);
    }
  }

  /** No output shares a slot with what is rewritten. */
  ghost predicate Apart(nodes: seq<Node>, t: Tree, g: Target, os: seq<Tree>)
    requires Unfolds(nodes, t)
  {
    forall r: nat :: Walks(nodes, t, g, r) ==> PathsAll(os, r) == 0
  }

  /** `u` in the arena `after` is the rewriting of `t` in the arena `before`, made of walked and new slots. */
  ghost predicate Result(before: seq<Node>, after: seq<Node>, t: Tree, u: Tree, g: Target) {
    && |before| <= |after| && |g.columns| == |g.outs|
    && Unfolds(before, t) && Unfolds(after, u)
    && Denote(after, u) == Replace(Denote(before, t), g)
    && (forall r: nat :: Paths(u, r) > 0 ==> r >= |before| || Walks(before, t, g, r))
  }

  /** Slots that are not walked from the first `k` roots are as they were. */
  ghost predicate Framed(before: seq<Node>, after: seq<Node>, ts: seq<Tree>, k: nat, g: Target)
    requires k <= |ts| && UnfoldsAll(before, ts)
  {
    && |before| <= |after|
    && forall r :: 0 <= r < |before| && (forall i :: 0 <= i < k ==> !Walks(before, ts[i], g, r)) ==>
         after[r] == before[r]
  }

  ghost predicate Results(before: seq<Node>, after: seq<Node>, ts: seq<Tree>, us: seq<Tree>, g: Target) {
    |us| <= |ts| && forall i :: 0 <= i < |us| ==> Result(before, after, ts[i], us[i], g)
  }

  ghost predicate OutputsAre(nodes: seq<Node>, refs: seq<nat>, os: seq<Tree>, g: Target) {
    && |refs| == |os| == |g.outs| == |g.columns|
    && UnfoldsAll(nodes, os)
    && forall j :: 0 <= j < |os| ==> os[j].ref == refs[j] && Denote(nodes, os[j]) == g.outs[j]
  }

  method FindOutputRef(nodes: seq<Node>, expr: nat, refs: seq<nat>, ghost t: Tree, ghost os: seq<Tree>, ghost g: Target)
    returns (j: nat)
    requires Unfolds(nodes, t) && t.ref == expr && OutputsAre(nodes, refs, os, g)
    ensures j == CorrelatedSubqueries.FindOutput(g.outs, Denote(nodes, t))
  {
    j := 0;
    while j < |refs|
      invariant j <= |refs|
      invariant forall k :: 0 <= k < j ==> !EqIgnore(g.outs[k], Denote(nodes, t))
    {
      var equal := Equals(nodes, refs[j], expr, os[j], t);
      if equal { return; }
      j := j + 1;
    }
  }

  /** A root that is still to be walked is untouched: no slot is reached from two roots. */
  lemma {:induction false} StillUntouched(before: seq<Node>, middle: seq<Node>, ts: seq<Tree>, k: nat, g: Target)
    requires UnfoldsAll(before, ts) && TreeShaped(ts) && k < |ts| && Framed(before, middle, ts, k, g)
    ensures AgreeBelow(before, middle, ts[k])
  {
    forall r | 0 <= r < |before| && Paths(ts[k], r) > 0 ensures middle[r] == before[r] {
      forall i | 0 <= i < k ensures !Walks(before, ts[i], g, r) {
        PathsAddUp(ts, i, k, r);
        if Walks(before, ts[i], g, r) { WalkedIsReached(before, ts[i], g, r); }
      }
    }
  }

  lemma {:induction false} ResultKept(before: seq<Node>, middle: seq<Node>, after: seq<Node>, ts: seq<Tree>, i: nat,
                                      k: nat, u: Tree, g: Target)
    requires UnfoldsAll(before, ts) && TreeShaped(ts) && i < k < |ts|
    requires Result(before, middle, ts[i], u, g) && |middle| <= |after|
    requires forall r :: 0 <= r < |middle| && !(r < |before| && Walks(before, ts[k], g, r)) ==> after[r] == middle[r]
    ensures Result(before, after, ts[i], u, g)
  {
    forall r | 0 <= r < |middle| && Paths(u, r) > 0 ensures after[r] == middle[r] {
      if r < |before| {
        WalkedIsReached(before, ts[i], g, r);
        PathsAddUp(ts, i, k, r);
        if Walks(before, ts[k], g, r) { WalkedIsReached(before, ts[k], g, r); }
      }
    }
    SameNodesDenoteSame(middle, after, u);
  }

  /** One more root: the earlier results stand, and its own is a result over the original arena. */
  lemma {:induction false} OneMoreResult(before: seq<Node>, middle: seq<Node>, after: seq<Node>, ts: seq<Tree>,
                                         us: seq<Tree>, u: Tree, g: Target)
    requires UnfoldsAll(before, ts) && TreeShaped(ts) && |us| < |ts|
    requires Results(before, middle, ts, us, g) && Framed(before, middle, ts, |us|, g)
    requires Result(middle, after, ts[|us|], u, g) && Framed(middle, after, [ts[|us|]], 1, g)
    ensures Results(before, after, ts, us + [u], g) && Framed(before, after, ts, |us| + 1, g)
  {
    var k := |us|;
    StillUntouched(before, middle, ts, k, g);
    SameNodesDenoteSame(before, middle, ts[k]);
    forall r: nat ensures Walks(middle, ts[k], g, r) <==> Walks(before, ts[k], g, r) {
      SameNodesWalkSame(before, middle, ts[k], g, r);
    }
    forall r | 0 <= r < |middle| && !(r < |before| && Walks(before, ts[k], g, r)) ensures after[r] == middle[r] {
      if Walks(before, ts[k], g, r) { WalkedIsReached(before, ts[k], g, r); }
      assert [ts[k]][0] == ts[k];
    }
    forall i | 0 <= i < k ensures Result(before, after, ts[i], us[i], g) {
      ResultKept(before, middle, after, ts, i, k, us[i], g);
    }
  }

  /** The outputs are untouched by what was walked so far. */
  lemma {:induction false} OutputsKept(before: seq<Node>, middle: seq<Node>, ts: seq<Tree>, k: nat, refs: seq<nat>,
                                       os: seq<Tree>, g: Target)
    requires UnfoldsAll(before, ts) && k <= |ts| && Framed(before, middle, ts, k, g) && OutputsAre(before, refs, os, g)
    requires forall i :: 0 <= i < |ts| ==> Apart(before, ts[i], g, os)
    ensures OutputsAre(middle, refs, os, g)
  {
    forall j | 0 <= j < |os| ensures Unfolds(middle, os[j]) && Denote(middle, os[j]) == g.outs[j] {
      forall r | 0 <= r < |before| && Paths(os[j], r) > 0 ensures middle[r] == before[r] {
        PathsThroughKid(os, j, r);
        forall i | 0 <= i < k ensures !Walks(before, ts[i], g, r) { assert Apart(before, ts[i], g, os); }
      }
      SameNodesDenoteSame(before, middle, os[j]);
    }
  }

  lemma {:induction false} StillApart(before: seq<Node>, middle: seq<Node>, t: Tree, os: seq<Tree>, g: Target)
    requires Unfolds(before, t) && AgreeBelow(before, middle, t) && Apart(before, t, g, os) && Unfolds(middle, t)
    ensures Apart(middle, t, g, os)
  {
    forall r: nat | Walks(middle, t, g, r) ensures PathsAll(os, r) == 0 { SameNodesWalkSame(before, middle, t, g, r); }
  }

  lemma {:induction false} KidsAreTreeShaped(t: Tree)
    requires TreeShaped([t])
    ensures TreeShaped(t.kids)
  {
    forall r: nat ensures PathsAll(t.kids, r) <= 1 {
      assert [t][..0] == [] && PathsAll([], r) == 0;
      assert PathsAll([t], r) == PathsAll([t][..0], r) + Paths(t, r);
    }
  }

  /** Taking out an unmatched node leaves its children, and the outputs, ready to be walked. */
  lemma {:induction false} KidsAreReady(nodes: seq<Node>, t: Tree, refs: seq<nat>, os: seq<Tree>, g: Target)
    requires Unfolds(nodes, t) && TreeShaped([t]) && OutputsAre(nodes, refs, os, g) && Apart(nodes, t, g, os)
    requires !Matched(Denote(nodes, t), g)
    ensures
      var taken := nodes[t.ref := EMPTY_NODE];
      && UnfoldsAll(taken, t.kids) && TreeShaped(t.kids) && OutputsAre(taken, refs, os, g)
      && (forall i :: 0 <= i < |t.kids| ==> Apart(taken, t.kids[i], g, os) && AgreeBelow(nodes, taken, t.kids[i]))
  {
    var taken := nodes[t.ref := EMPTY_NODE];
    KidsSurvive(nodes, t);
    KidsAreTreeShaped(t);
    assert Walks(nodes, t, g, t.ref);
    forall j | 0 <= j < |os| ensures Unfolds(taken, os[j]) && Denote(taken, os[j]) == g.outs[j] {
      PathsThroughKid(os, j, t.ref);
      SameNodesDenoteSame(nodes, taken, os[j]);
    }
    forall i | 0 <= i < |t.kids| ensures Apart(taken, t.kids[i], g, os) && AgreeBelow(nodes, taken, t.kids[i]) {
      PathsThroughKid(t.kids, i, t.ref);
      forall r: nat | Walks(nodes, t.kids[i], g, r) ensures PathsAll(os, r) == 0 { assert Walks(nodes, t, g, r); }
      StillApart(nodes, taken, t.kids[i], os, g);
    }
  }

  /** The children were rewritten while their parent was out. */
  ghost predicate KidsRewritten(before: seq<Node>, inner: seq<Node>, t: Tree, kids: seq<nat>, us: seq<Tree>, g: Target)
  {
    && |g.columns| == |g.outs|
    && Unfolds(before, t) && before[t.ref].CallNode? && !Matched(Denote(before, t), g)
    && |us| == |t.kids| == |kids| && (forall i :: 0 <= i < |us| ==> us[i].ref == kids[i])
    && UnfoldsAll(before[t.ref := EMPTY_NODE], t.kids)
    && Results(before[t.ref := EMPTY_NODE], inner, t.kids, us, g)
    && Framed(before[t.ref := EMPTY_NODE], inner, t.kids, |t.kids|, g)
  }

  /** What is walked below a child is walked below its parent, and is not the parent. */
  lemma {:induction false} KidWalkIsWalk(before: seq<Node>, t: Tree, i: nat, g: Target, r: nat)
    requires Unfolds(before, t) && i < |t.kids| && !Matched(Denote(before, t), g)
    requires Unfolds(before[t.ref := EMPTY_NODE], t.kids[i]) && Walks(before[t.ref := EMPTY_NODE], t.kids[i], g, r)
    ensures r != t.ref && Walks(before, t, g, r)
  {
    var taken := before[t.ref := EMPTY_NODE];
    KidsSurvive(before, t);
    PathsThroughKid(t.kids, i, t.ref);
    WalkedIsReached(taken, t.kids[i], g, r);
    SameNodesWalkSame(before, taken, t.kids[i], g, r);
  }

  lemma {:induction false} KidIsRewritten(before: seq<Node>, inner: seq<Node>, t: Tree, kids: seq<nat>, us: seq<Tree>,
                                          g: Target, node: Node, i: nat)
    requires KidsRewritten(before, inner, t, kids, us, g) && i < |us|
    ensures
      var after := inner[t.ref := node];
      && Unfolds(after, us[i]) && Denote(after, us[i]) == Replace(Denote(before, t.kids[i]), g)
      && forall r: nat :: Paths(us[i], r) > 0 ==> r >= |before| || Walks(before, t, g, r)
  {
    var taken := before[t.ref := EMPTY_NODE];
    assert Result(taken, inner, t.kids[i], us[i], g);
    forall r: nat | Paths(us[i], r) > 0 ensures r != t.ref && (r >= |before| || Walks(before, t, g, r)) {
      if r < |before| { KidWalkIsWalk(before, t, i, g, r); }
    }
    SameNodesDenoteSame(inner, inner[t.ref := node], us[i]);
    KidsSurvive(before, t);
    PathsThroughKid(t.kids, i, t.ref);
    SameNodesDenoteSame(before, taken, t.kids[i]);
  }

  /** Putting the node back over its rewritten children. */
  lemma {:induction false} CallIsRewritten(before: seq<Node>, inner: seq<Node>, t: Tree, kids: seq<nat>, us: seq<Tree>,
                                           g: Target)
    requires KidsRewritten(before, inner, t, kids, us, g)
    ensures Result(before, inner[t.ref := CallNode(before[t.ref].head, kids)], t, Tree(t.ref, us), g)
  {
    var node := CallNode(before[t.ref].head, kids);
    var after, u := inner[t.ref := node], Tree(t.ref, us);
    forall i | 0 <= i < |us|
      ensures Unfolds(after, us[i]) && Denote(after, us[i]) == Replace(Denote(before, t.kids[i]), g)
    {
      KidIsRewritten(before, inner, t, kids, us, g, node, i);
    }
    assert Unfolds(after, u);
    assert Denote(after, u).args == Replace(Denote(before, t), g).args;
    forall r: nat | Paths(u, r) > 0 ensures r >= |before| || Walks(before, t, g, r) {
      if r != t.ref {
        var i := SomeKidIsReached(us, r);
        KidIsRewritten(before, inner, t, kids, us, g, node, i);
      }
    }
  }

  lemma {:induction false} CallIsFramed(before: seq<Node>, inner: seq<Node>, t: Tree, kids: seq<nat>, us: seq<Tree>,
                                        g: Target)
    requires KidsRewritten(before, inner, t, kids, us, g)
    ensures Framed(before, inner[t.ref := CallNode(before[t.ref].head, kids)], [t], 1, g)
  {
    var taken := before[t.ref := EMPTY_NODE];
    assert [t][0] == t;
    forall r | 0 <= r < |before| && !Walks(before, t, g, r) ensures r != t.ref && inner[r] == before[r] {
      forall i | 0 <= i < |t.kids| ensures !Walks(taken, t.kids[i], g, r) {
        if Walks(taken, t.kids[i], g, r) { KidWalkIsWalk(before, t, i, g, r); }
      }
    }
  }

  /** A match becomes a new reference; any other node is taken out, its children are rewritten, and it is put back. */
  method BindInPlace(arena: Arena, expr: nat, refs: seq<nat>, columns: seq<ColumnRef>, keepNamed: bool, ghost t: Tree,
                     ghost os: seq<Tree>, ghost g: Target)
    returns (ref: nat, ghost u: Tree)
    requires Unfolds(arena.nodes, t) && t.ref == expr && TreeShaped([t])
    requires OutputsAre(arena.nodes, refs, os, g) && Apart(arena.nodes, t, g, os) && g.columns == columns &&
             g.keepNamed == keepNamed
    modifies arena`nodes
    ensures u.ref == ref && Result(old(arena.nodes), arena.nodes, t, u, g) &&
            Framed(old(arena.nodes), arena.nodes, [t], 1, g)
    decreases t
  {
    ghost var before := arena.nodes;
    var expression := arena.nodes[expr];
    assert [t][0] == t;
    var j := FindOutputRef(arena.nodes, expr, refs, t, os, g);
    if j < |refs| && !(keepNamed && expression.CallNode? && expression.head.AliasName?) {
      ref := |arena.nodes|;
      arena.nodes := arena.nodes + [ColumnNode(columns[j], j)];
      u := Tree(ref, []);
      assert PathsAll([], ref) == 0;
      return;
    }
    ref := expr;
    match expression
    case ColumnNode(_, _) => u := t;
    case CallNode(head, kids) =>
      KidsAreReady(before, t, refs, os, g);
      arena.nodes := arena.nodes[expr := EMPTY_NODE];
      var bound;
      ghost var us;
      bound, us := BindAllInPlace(arena, kids, refs, columns, keepNamed, t.kids, os, g);
      CallIsRewritten(before, arena.nodes, t, bound, us, g);
      CallIsFramed(before, arena.nodes, t, bound, us, g);
      arena.nodes := arena.nodes[expr := CallNode(head, bound)];
      u := Tree(expr, us);
  }

  method BindAllInPlace(arena: Arena, exprs: seq<nat>, refs: seq<nat>, columns: seq<ColumnRef>, keepNamed: bool,
                        ghost ts: seq<Tree>, ghost os: seq<Tree>, ghost g: Target)
    returns (bound: seq<nat>, ghost us: seq<Tree>)
    requires UnfoldsAll(arena.nodes, ts) && |ts| == |exprs| && (forall i :: 0 <= i < |ts| ==> ts[i].ref == exprs[i]) &&
             TreeShaped(ts)
    requires OutputsAre(arena.nodes, refs, os, g) && (forall i :: 0 <= i < |ts| ==> Apart(arena.nodes, ts[i], g, os))
    requires g.columns == columns && g.keepNamed == keepNamed
    modifies arena`nodes
    ensures |bound| == |us| == |ts| && forall i :: 0 <= i < |us| ==> us[i].ref == bound[i]
    ensures Results(old(arena.nodes), arena.nodes, ts, us, g) && Framed(old(arena.nodes), arena.nodes, ts, |ts|, g)
    decreases ts
  {
    ghost var before := arena.nodes;
    bound, us := [], [];
    for k := 0 to |exprs|
      invariant |bound| == |us| == k && forall i :: 0 <= i < k ==> us[i].ref == bound[i]
      invariant Results(before, arena.nodes, ts, us, g) && Framed(before, arena.nodes, ts, k, g)
    {
      ghost var middle := arena.nodes;
      RootIsReady(before, middle, ts, k, refs, os, g);
      var ref;
      ghost var u;
      ref, u := BindInPlace(arena, exprs[k], refs, columns, keepNamed, ts[k], os, g);
      OneMoreResult(before, middle, arena.nodes, ts, us, u, g);
      bound, us := bound + [ref], us + [u];
    }
  }

  lemma {:induction false} RootIsReady(before: seq<Node>, middle: seq<Node>, ts: seq<Tree>, k: nat, refs: seq<nat>,
                                       os: seq<Tree>, g: Target)
    requires UnfoldsAll(before, ts) && TreeShaped(ts) && k < |ts| && Framed(before, middle, ts, k, g) &&
             OutputsAre(before, refs, os, g)
    requires forall i :: 0 <= i < |ts| ==> Apart(before, ts[i], g, os)
    ensures Unfolds(middle, ts[k]) && TreeShaped([ts[k]]) && OutputsAre(middle, refs, os, g) &&
            Apart(middle, ts[k], g, os)
  {
    StillUntouched(before, middle, ts, k, g);
    SameNodesDenoteSame(before, middle, ts[k]);
    OutputsKept(before, middle, ts, k, refs, os, g);
    StillApart(before, middle, ts[k], os, g);
    forall r: nat ensures PathsAll([ts[k]], r) <= 1 {
      PathsThroughKid(ts, k, r);
      assert [ts[k]][..0] == [] && PathsAll([], r) == 0;
      assert PathsAll([ts[k]], r) == PathsAll([ts[k]][..0], r) + Paths(ts[k], r);
    }
  }

  /** In place, the aggregation's binder computes what it computes on values. */
  lemma InPlaceIsBindOutput(before: seq<Node>, after: seq<Node>, t: Tree, u: Tree, outs: seq<Expr>, naming: Naming)
    requires Result(before, after, t, u, Target(outs, CorrelatedSubqueries.OutputColumns(outs, naming), true))
    ensures Denote(after, u) == AggregateBinding.BindOutput(Denote(before, t), outs, naming)
  {
    ReplaceIsBindOutput(Denote(before, t), outs, naming);
  }

  /** And so does the projection's. */
  lemma InPlaceIsBindProjection(before: seq<Node>, after: seq<Node>, t: Tree, u: Tree, outs: seq<Expr>, naming: Naming)
    requires Result(before, after, t, u, Target(outs, CorrelatedSubqueries.OutputColumns(outs, naming), false))
    ensures Denote(after, u) == CorrelatedSubqueries.BindProjection(Denote(before, t), outs, naming)
  {
    ReplaceIsBindProjection(Denote(before, t), outs, naming);
  }
}
