/** Collecting the window calls of a select list and its ORDER BY: each distinct call is recorded
    once, and an output column takes its place in the arena. */
module WindowCalls {
  import opened Expressions
  import opened ExpressionArena

  // ------------------------------------------------------------- collecting calls

  predicate IsWindowNode(n: Node) {
    n.CallNode? && n.head.WindowCall?
  }

  /** A collected call, compared by its function and the references below it, and its output column. */
  datatype Entry = Entry(call: Node, output: ColumnRef)

  function Find(windows: seq<Entry>, call: Node): (i: nat)
    ensures i <= |windows|
    ensures i < |windows| ==> windows[i].call == call
    ensures forall j :: 0 <= j < i ==> windows[j].call != call
  {
    if windows == [] || windows[0].call == call then 0 else 1 + Find(windows[1..], call)
  }

  /** The slots the collector visits: it does not look inside a window call. */
  ghost predicate Visits(nodes: seq<Node>, t: Tree, r: nat)
    decreases t
  {
    || t.ref == r
    || (t.ref < |nodes| && !IsWindowNode(nodes[t.ref]) && exists i :: 0 <= i < |t.kids| && Visits(nodes, t.kids[i], r))
  }

  ghost predicate VisitsAny(nodes: seq<Node>, ts: seq<Tree>, r: nat) {
    exists i :: 0 <= i < |ts| && Visits(nodes, ts[i], r)
  }

  /** Slot `r` holds what it held originally, or the output column of the call it held. */
  ghost predicate Current(original: seq<Node>, nodes: seq<Node>, windows: seq<Entry>, r: nat)
    requires |original| == |nodes| && r < |nodes|
  {
    || nodes[r] == original[r]
    || (IsWindowNode(original[r]) && Replaced(original, nodes, windows, r))
  }

  ghost predicate Replaced(original: seq<Node>, nodes: seq<Node>, windows: seq<Entry>, r: nat)
    requires |original| == |nodes| && r < |nodes|
  {
    var k := Find(windows, original[r]);
    k < |windows| && nodes[r] == ColumnNode(windows[k].output, 0)
  }

  /** Everything below `ts`, inside window calls too, is as it was or replaced. */
  ghost predicate Ready(original: seq<Node>, nodes: seq<Node>, windows: seq<Entry>, ts: seq<Tree>) {
    && |original| == |nodes|
    && forall r :: 0 <= r < |nodes| && PathsAll(ts, r) > 0 ==> Current(original, nodes, windows, r)
  }

  lemma {:induction false} ReadyBelow(original: seq<Node>, nodes: seq<Node>, windows: seq<Entry>, ts: seq<Tree>, k: nat)
    requires Ready(original, nodes, windows, ts) && k < |ts|
    ensures Ready(original, nodes, windows, [ts[k]])
  {
    forall r: nat | PathsAll([ts[k]], r) > 0 ensures PathsAll(ts, r) > 0 {
      PathsOfOne(ts[k], r);
      PathsThroughKid(ts, k, r);
    }
  }

  lemma {:induction false} PathsOfOne(t: Tree, r: nat)
    ensures PathsAll([t], r) == Paths(t, r)
  {
    assert [t][..0] == [] && PathsAll([], r) == 0;
  }

  /** What collecting from `ts` does to the arena: the visited calls are replaced, nothing else changes. */
  ghost predicate Step(original: seq<Node>, before: seq<Node>, after: seq<Node>, windows: seq<Entry>, ts: seq<Tree>) {
    && |original| == |before| == |after|
    && forall r :: 0 <= r < |original| ==>
         if VisitsAny(original, ts, r) && IsWindowNode(original[r]) then Replaced(original, after, windows, r)
         else after[r] == before[r]
  }

  lemma FindExtends(windows: seq<Entry>, more: seq<Entry>, call: Node)
    requires windows <= more && Find(windows, call) < |windows|
    ensures Find(more, call) == Find(windows, call)
  {
    assert more[Find(windows, call)] == windows[Find(windows, call)];
  }

  lemma StepKeepsReady(original: seq<Node>, before: seq<Node>, after: seq<Node>, known: seq<Entry>, grown: seq<Entry>,
                       done: seq<Tree>, ts: seq<Tree>)
    requires Ready(original, before, known, ts) && Step(original, before, after, grown, done) && known <= grown
    ensures Ready(original, after, grown, ts)
  {
    forall r | 0 <= r < |original| && PathsAll(ts, r) > 0 ensures Current(original, after, grown, r) {
      if !(VisitsAny(original, done, r) && IsWindowNode(original[r])) && before[r] != original[r] {
        FindExtends(known, grown, original[r]);
      }
    }
  }

  lemma StepsChain(original: seq<Node>, a: seq<Node>, b: seq<Node>, c: seq<Node>, known: seq<Entry>, grown: seq<Entry>,
                   ts: seq<Tree>, n: nat)
    requires n < |ts| && known <= grown
    requires Step(original, a, b, known, ts[..n]) && Step(original, b, c, grown, [ts[n]])
    ensures Step(original, a, c, grown, ts[..n + 1])
  {
    forall r | 0 <= r < |original|
      ensures if VisitsAny(original, ts[..n + 1], r) && IsWindowNode(original[r]) then Replaced(original, c, grown, r)
              else c[r] == a[r]
    {
      VisitsOneMore(original, ts, n, r);
      if VisitsAny(original, ts[..n], r) && IsWindowNode(original[r]) { FindExtends(known, grown, original[r]); }
    }
  }

  lemma VisitsOneMore(nodes: seq<Node>, ts: seq<Tree>, n: nat, r: nat)
    requires n < |ts|
    ensures VisitsAny(nodes, ts[..n + 1], r) <==> VisitsAny(nodes, ts[..n], r) || VisitsAny(nodes, [ts[n]], r)
    ensures VisitsAny(nodes, [ts[n]], r) <==> Visits(nodes, ts[n], r)
  {
    assert [ts[n]][0] == ts[n];
    if VisitsAny(nodes, ts[..n], r) {
      var i :| 0 <= i < n && Visits(nodes, ts[..n][i], r);
      assert ts[..n + 1][i] == ts[..n][i];
    }
    if Visits(nodes, ts[n], r) { assert ts[..n + 1][n] == ts[n]; }
    if VisitsAny(nodes, ts[..n + 1], r) {
      var i :| 0 <= i < n + 1 && Visits(nodes, ts[..n + 1][i], r);
      if i < n { assert ts[..n][i] == ts[i]; }
    }
  }

  lemma {:induction false} VisitedIsReached(nodes: seq<Node>, t: Tree, r: nat)
    requires Visits(nodes, t, r)
    ensures Paths(t, r) > 0
    decreases t
  {
    if t.ref != r {
      var i :| 0 <= i < |t.kids| && Visits(nodes, t.kids[i], r);
      VisitedIsReached(nodes, t.kids[i], r);
      PathsThroughKid(t.kids, i, r);
    }
  }

  /** The collected calls are distinct, and each stood in a visited slot. */
  ghost predicate Collected(original: seq<Node>, ts: seq<Tree>, windows: seq<Entry>, origins: seq<Tree>) {
    && |origins| == |windows|
    && (forall i, j :: 0 <= i < j < |windows| ==> windows[i].call != windows[j].call)
    && forall i :: 0 <= i < |windows| ==>
         && IsWindowNode(windows[i].call)
         && Unfolds(original, origins[i])
         && original[origins[i].ref] == windows[i].call
         && VisitsAny(original, ts, origins[i].ref)
  }

  /** The printer depends on the expression a reference stands for: `shows` prints it. */
  ghost predicate Prints(naming: (seq<Node>, nat) -> string, shows: Expr -> string) {
    forall nodes: seq<Node>, t: Tree :: Unfolds(nodes, t) ==> naming(nodes, t.ref) == shows(Denote(nodes, t))
  }

  /** No window call lies below another, as the check when a call is bound ensures. */
  ghost predicate Unnested(nodes: seq<Node>) {
    forall t: Tree, r ::
      Unfolds(nodes, t) && IsWindowNode(nodes[t.ref]) && 0 <= r < |nodes| && PathsAll(t.kids, r) > 0 ==>
        !IsWindowNode(nodes[r])
  }

  /** A call that is met still has its arguments and keys below it. */
  lemma {:induction false} CallIsIntact(original: seq<Node>, nodes: seq<Node>, windows: seq<Entry>, t: Tree)
    requires Unfolds(original, t) && Unnested(original) && Ready(original, nodes, windows, [t]) &&
             IsWindowNode(nodes[t.ref])
    ensures nodes[t.ref] == original[t.ref] && Unfolds(nodes, t) && Denote(nodes, t) == Denote(original, t)
  {
    PathsOfOne(t, t.ref);
    forall r | 0 <= r < |original| && Paths(t, r) > 0 ensures nodes[r] == original[r] {
      PathsOfOne(t, r);
      assert Current(original, nodes, windows, r);
      if r != t.ref { assert PathsAll(t.kids, r) > 0 && !IsWindowNode(original[r]); }
    }
    SameNodesDenoteSame(original, nodes, t);
  }

  function OutputCatalog(name: string, ty: LogicalType): Catalog {
    Catalog(Summary(name, NoRelation), true, ty)
  }

  /** Each output column is the first stored column with the call's printed text as its name and the call's type. */
  ghost predicate Outputs(columns: seq<Catalog>, windows: seq<Entry>, original: seq<Node>, origins: seq<Tree>,
                          shows: Expr -> string)
  {
    && |origins| == |windows| && UnfoldsAll(original, origins)
    && forall i :: 0 <= i < |windows| ==>
         IsWindowNode(windows[i].call) && IsOutput(columns, windows[i], shows(Denote(original, origins[i])))
  }

  ghost predicate IsOutput(columns: seq<Catalog>, w: Entry, name: string)
    requires IsWindowNode(w.call)
  {
    var column := OutputCatalog(name, w.call.head.windowType);
    && FirstEqual(columns, column) < |columns|
    && w.output == ColumnRef(FirstEqual(columns, column), column.summary)
  }

  lemma {:induction false} FirstEqualExtends(columns: seq<Catalog>, more: seq<Catalog>, column: Catalog)
    requires columns <= more && FirstEqual(columns, column) < |columns|
    ensures FirstEqual(more, column) == FirstEqual(columns, column)
  {
    assert more[FirstEqual(columns, column)] == columns[FirstEqual(columns, column)];
    assert forall j :: 0 <= j < FirstEqual(columns, column) ==> more[j] == columns[j];
  }

  /** Two calls share an output column exactly when they print alike and have the same type. */
  lemma {:induction false} ShareOutputIff(columns: seq<Catalog>, windows: seq<Entry>, original: seq<Node>,
                                          origins: seq<Tree>, shows: Expr -> string, i: nat, j: nat)
    requires Outputs(columns, windows, original, origins, shows) && i < |windows| && j < |windows|
    ensures windows[i].output == windows[j].output <==>
            && shows(Denote(original, origins[i])) == shows(Denote(original, origins[j]))
            && windows[i].call.head.windowType == windows[j].call.head.windowType
  {
    var a := OutputCatalog(shows(Denote(original, origins[i])), windows[i].call.head.windowType);
    var b := OutputCatalog(shows(Denote(original, origins[j])), windows[j].call.head.windowType);
    assert columns[FirstEqual(columns, a)] == a && columns[FirstEqual(columns, b)] == b;
  }

  /** Whatever is visited from `ts` is visited from `roots`. */
  ghost predicate Within(original: seq<Node>, ts: seq<Tree>, roots: seq<Tree>) {
    forall r: nat :: VisitsAny(original, ts, r) ==> VisitsAny(original, roots, r)
  }

  lemma {:induction false} OutputsKept(columns: seq<Catalog>, more: seq<Catalog>, windows: seq<Entry>,
                                       original: seq<Node>, origins: seq<Tree>, shows: Expr -> string)
    requires Outputs(columns, windows, original, origins, shows) && columns <= more
    ensures Outputs(more, windows, original, origins, shows)
  {
    forall i | 0 <= i < |windows| ensures IsOutput(more, windows[i], shows(Denote(original, origins[i]))) {
      FirstEqualExtends(columns, more, OutputCatalog(shows(Denote(original, origins[i])),
                                                     windows[i].call.head.windowType));
    }
  }

  lemma {:induction false} OneMoreOutput(columns: seq<Catalog>, windows: seq<Entry>, original: seq<Node>,
                                         origins: seq<Tree>, shows: Expr -> string, w: Entry, t: Tree)
    requires Outputs(columns, windows, original, origins, shows) && Unfolds(original, t) && IsWindowNode(w.call)
    requires IsOutput(columns, w, shows(Denote(original, t)))
    ensures Outputs(columns, windows + [w], original, origins + [t], shows)
  {
    var more, trees := windows + [w], origins + [t];
    assert more[|windows|] == w && trees[|windows|] == t;
    assert forall i :: 0 <= i < |windows| ==> more[i] == windows[i] && trees[i] == origins[i];
  }

  /** Visiting a node that is not a call leads to its children, none of which leads back. */
  lemma KidsAreVisited(original: seq<Node>, nodes: seq<Node>, windows: seq<Entry>, t: Tree)
    requires Unfolds(original, t) && !IsWindowNode(original[t.ref])
    requires Ready(original, nodes, windows, [t])
    ensures !VisitsAny(original, t.kids, t.ref)
    ensures Within(original, t.kids, [t])
    ensures forall r: nat :: VisitsAny(original, [t], r) <==> r == t.ref || VisitsAny(original, t.kids, r)
    ensures Ready(original, nodes[t.ref := EMPTY_NODE], windows, t.kids)
  {
    assert [t][0] == t;
    KidsSurvive(original, t);
    forall r: nat ensures PathsAll(t.kids, r) > 0 ==> PathsAll([t], r) > 0 { PathsOfOne(t, r); }
    forall i | 0 <= i < |t.kids| ensures !Visits(original, t.kids[i], t.ref) {
      PathsThroughKid(t.kids, i, t.ref);
      if Visits(original, t.kids[i], t.ref) { VisitedIsReached(original, t.kids[i], t.ref); }
    }
    forall r: nat ensures VisitsAny(original, [t], r) <==> r == t.ref || VisitsAny(original, t.kids, r) {
      assert VisitsAny(original, [t], r) <==> Visits(original, t, r);
    }
  }

  lemma OneIsReplaced(original: seq<Node>, before: seq<Node>, windows: seq<Entry>, k: nat, t: Tree)
    requires t.ref < |original| == |before| && IsWindowNode(original[t.ref])
    requires k < |windows| && k == Find(windows, original[t.ref])
    ensures Step(original, before, before[t.ref := ColumnNode(windows[k].output, 0)], windows, [t])
  {
    forall r: nat ensures VisitsAny(original, [t], r) <==> r == t.ref {
      assert [t][0] == t;
      assert VisitsAny(original, [t], r) <==> Visits(original, t, r);
    }
  }

  lemma {:induction false} OneMoreCall(original: seq<Node>, roots: seq<Tree>, windows: seq<Entry>, origins: seq<Tree>,
                                       w: Entry, t: Tree)
    requires Collected(original, roots, windows, origins) && Find(windows, w.call) == |windows|
    requires Unfolds(original, t) && original[t.ref] == w.call && IsWindowNode(w.call) &&
             VisitsAny(original, roots, t.ref)
    ensures Collected(original, roots, windows + [w], origins + [t])
    ensures Find(windows + [w], w.call) == |windows|
  {
    var more := windows + [w];
    assert more[|windows|] == w && forall i :: 0 <= i < |windows| ==> more[i] == windows[i];
  }

  /** `naming` prints the expression at a reference; `shows` is the text of an expression. */
  class WindowCollector {
    const arena: Arena
    const naming: (seq<Node>, nat) -> string
    ghost const shows: Expr -> string
    var windows: seq<Entry>
    ghost var origins: seq<Tree>

    constructor (arena: Arena, naming: (seq<Node>, nat) -> string, ghost shows: Expr -> string)
      ensures this.arena == arena && this.naming == naming && this.shows == shows && windows == [] && origins == []
    {
      this.arena, this.naming, this.shows := arena, naming, shows;
      windows, origins := [], [];
    }

    ghost predicate Valid(original: seq<Node>, roots: seq<Tree>)
      reads this, arena
    {
      && Prints(naming, shows) && Unnested(original)
      && Collected(original, roots, windows, origins) && Outputs(arena.columns, windows, original, origins, shows)
    }

    /** Collects the calls below `expr` and puts their output columns in their place. */
    method Visit(expr: nat, ghost original: seq<Node>, ghost roots: seq<Tree>, ghost t: Tree)
      requires Unfolds(original, t) && t.ref == expr && Within(original, [t], roots)
      requires Ready(original, arena.nodes, windows, [t]) && Valid(original, roots)
      modifies this, arena
      ensures Valid(original, roots)
      ensures old(windows) <= windows && old(arena.columns) <= arena.columns
      ensures Step(original, old(arena.nodes), arena.nodes, windows, [t])
      decreases t, 1
    {
      assert [t][0] == t && VisitsAny(original, [t], expr);
      PathsOfOne(t, expr);
      var node := arena.nodes[expr];
      if !IsWindowNode(node) {
        Walk(expr, original, roots, t);
        return;
      }
      ghost var before := arena.nodes;
      CallIsIntact(original, before, windows, t);
      var k := Find(windows, node);
      if k < |windows| {
        arena.nodes := arena.nodes[expr := ColumnNode(windows[k].output, 0)];
        OneIsReplaced(original, before, windows, k, t);
        return;
      }
      Add(expr, naming(arena.nodes, expr), original, roots, t);
    }

    /** A call met for the first time gets an output column that bears its printed text. */
    method Add(expr: nat, name: string, ghost original: seq<Node>, ghost roots: seq<Tree>, ghost t: Tree)
      requires Unfolds(original, t) && t.ref == expr && VisitsAny(original, roots, expr)
      requires |arena.nodes| == |original| && arena.nodes[expr] == original[expr] && IsWindowNode(original[expr])
      requires Find(windows, original[expr]) == |windows| && Valid(original, roots)
      requires name == shows(Denote(original, t))
      modifies this, arena
      ensures Valid(original, roots)
      ensures |windows| == |old(windows)| + 1 && windows[|old(windows)|].call == original[expr]
      ensures windows[|old(windows)|].output.summary == Summary(name, NoRelation)
      ensures windows[|old(windows)|].output.slot == FirstEqual(arena.columns,
                                                                OutputCatalog(name, original[expr].head.windowType))
      ensures old(windows) <= windows && old(arena.columns) <= arena.columns
      ensures Step(original, old(arena.nodes), arena.nodes, windows, [t])
    {
      var node := arena.nodes[expr];
      arena.nodes := arena.nodes[expr := EMPTY_NODE];
      ghost var columns := arena.columns;
      var column := OutputCatalog(name, node.head.windowType);
      var output := arena.AllocColumn(column);
      StoredFirst(columns, arena.columns, column, output);
      OutputsKept(columns, arena.columns, windows, original, origins, shows);
      OneMoreCall(original, roots, windows, origins, Entry(node, output), t);
      OneMoreOutput(arena.columns, windows, original, origins, shows, Entry(node, output), t);
      windows, origins := windows + [Entry(node, output)], origins + [t];
      arena.nodes := arena.nodes[expr := ColumnNode(output, 0)];
      OneIsReplaced(original, old(arena.nodes), windows, |windows| - 1, t);
      assert arena.nodes == old(arena.nodes)[expr := ColumnNode(output, 0)];
    }

    method Walk(expr: nat, ghost original: seq<Node>, ghost roots: seq<Tree>, ghost t: Tree)
      requires Unfolds(original, t) && t.ref == expr && Within(original, [t], roots)
      requires Ready(original, arena.nodes, windows, [t]) && Valid(original, roots)
      requires expr < |arena.nodes| && !IsWindowNode(arena.nodes[expr])
      modifies this, arena
      ensures Valid(original, roots)
      ensures old(windows) <= windows && old(arena.columns) <= arena.columns
      ensures Step(original, old(arena.nodes), arena.nodes, windows, [t])
      decreases t, 0
    {
      assert [t][0] == t && VisitsAny(original, [t], expr);
      PathsOfOne(t, expr);
      assert Current(original, arena.nodes, windows, expr);
      var expression := arena.nodes[expr];
      match expression
      case ColumnNode(_, _) =>
        assert forall r: nat :: VisitsAny(original, [t], r) <==> r == expr;
      case CallNode(_, kids) =>
        KidsAreVisited(original, arena.nodes, windows, t);
        arena.nodes := arena.nodes[expr := EMPTY_NODE];
        VisitAll(kids, original, roots, t.kids);
        arena.nodes := arena.nodes[expr := expression];
    }

    method VisitAll(exprs: seq<nat>, ghost original: seq<Node>, ghost roots: seq<Tree>, ghost ts: seq<Tree>)
      requires UnfoldsAll(original, ts) && |ts| == |exprs| && forall i :: 0 <= i < |ts| ==> ts[i].ref == exprs[i]
      requires Within(original, ts, roots)
      requires Ready(original, arena.nodes, windows, ts) && Valid(original, roots)
      modifies this, arena
      ensures Valid(original, roots)
      ensures old(windows) <= windows && old(arena.columns) <= arena.columns
      ensures Step(original, old(arena.nodes), arena.nodes, windows, ts)
      decreases ts
    {
      ghost var before, calls := arena.nodes, windows;
      for k := 0 to |exprs|
        invariant Valid(original, roots)
        invariant calls <= windows && old(arena.columns) <= arena.columns
        invariant Step(original, before, arena.nodes, windows, ts[..k])
      {
        ghost var middle, known := arena.nodes, windows;
        StepKeepsReady(original, before, middle, calls, known, ts[..k], ts);
        ReadyBelow(original, middle, known, ts, k);
        forall r: nat | VisitsAny(original, [ts[k]], r) ensures VisitsAny(original, ts, r) {
          assert Visits(original, ts[k], r) by { assert [ts[k]][0] == ts[k]; }
        }
        Visit(exprs[k], original, roots, ts[k]);
        StepsChain(original, before, middle, arena.nodes, known, windows, ts, k);
      }
      assert ts[..|ts|] == ts;
    }
  }

  /** The stored column is the first of its kind, before and after it is stored. */
  lemma {:induction false} StoredFirst(before: seq<Catalog>, after: seq<Catalog>, column: Catalog, ref: ColumnRef)
    requires before <= after && ref.slot == FirstEqual(before, column) && ref.slot < |after| &&
             after[ref.slot] == column
    ensures FirstEqual(after, column) == ref.slot
  {
    assert forall j :: 0 <= j < ref.slot ==> after[j] == before[j];
  }
}
