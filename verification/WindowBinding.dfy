/** Binding window functions as a whole: after collecting, grouping, placing outputs and stacking
    operators, every rewritten expression means what it meant with its calls evaluated directly. */
module WindowBinding {
  import opened Expressions
  import opened Rewriting
  import opened ExpressionArena
  import opened WindowCalls
  import opened WindowGroups

  // --------------------------------------------------------------- output positions

  /** What the output binder does with a position. */
  function BindMove(base: nat, outs: seq<ColumnRef>): Move {
    (c: ColumnRef, p: nat) => if FirstEqual(outs, c) < |outs| then base + FirstEqual(outs, c) else p
  }

  /** The position given to an output column is where the stack's schema has it. */
  lemma OutputStandsInSchema(base: Schema, groups: seq<WindowGroup>, layers: seq<Layer>, c: ColumnRef, p: nat)
    requires Stacked(base, groups, layers) && c in FlatOutputs(groups)
    ensures
      var q := BindMove(|base|, FlatOutputs(groups))(c, p);
      q < |SchemaOf(base, layers)| && SchemaOf(base, layers)[q] == c
  {
  }

  // ---------------------------------------------------------------------- the passes

  /** The expression after collecting: a call is a leaf. */
  ghost function Prune(nodes: seq<Node>, t: Tree): (p: Tree)
    ensures p.ref == t.ref
    decreases t
  {
    if t.ref < |nodes| && IsWindowNode(nodes[t.ref]) then Tree(t.ref, [])
    else Tree(t.ref, seq(|t.kids|, i requires 0 <= i < |t.kids| => Prune(nodes, t.kids[i])))
  }

  ghost function PruneAll(nodes: seq<Node>, ts: seq<Tree>): (ps: seq<Tree>) {
    seq(|ts|, i requires 0 <= i < |ts| => Prune(nodes, ts[i]))
  }

  /** Of the slots visited below `t`, exactly those that held a call hold its output column now. */
  ghost predicate Swapped(original: seq<Node>, after: seq<Node>, windows: seq<Entry>, t: Tree) {
    && |original| == |after|
    && forall r :: 0 <= r < |original| && Visits(original, t, r) ==>
         if IsWindowNode(original[r]) then Replaced(original, after, windows, r) else after[r] == original[r]
  }

  lemma {:induction false} SwappedBelow(original: seq<Node>, after: seq<Node>, windows: seq<Entry>, t: Tree, i: nat)
    requires t.ref < |original| && !IsWindowNode(original[t.ref]) && i < |t.kids| &&
             Swapped(original, after, windows, t)
    ensures Swapped(original, after, windows, t.kids[i])
  {
    forall r: nat | Visits(original, t.kids[i], r) ensures Visits(original, t, r) {}
  }

  lemma {:induction false} PrunedUnfolds(original: seq<Node>, after: seq<Node>, windows: seq<Entry>, t: Tree)
    requires Unfolds(original, t) && Swapped(original, after, windows, t)
    ensures Unfolds(after, Prune(original, t))
    decreases t
  {
    assert Visits(original, t, t.ref);
    if !IsWindowNode(original[t.ref]) {
      forall i | 0 <= i < |t.kids| ensures Unfolds(after, Prune(original, t.kids[i])) {
        SwappedBelow(original, after, windows, t, i);
        PrunedUnfolds(original, after, windows, t.kids[i]);
      }
    }
  }

  /** Everything `bind_window` leaves behind. */
  datatype Binding = Binding(windows: seq<Entry>, groups: seq<WindowGroup>, layers: seq<Layer>)

  /** The arena after collecting, and then after the output binder. */
  ghost predicate Bound(original: seq<Node>, ts: seq<Tree>, origins: seq<Tree>, collected: seq<Node>, final: seq<Node>,
                        base: Schema, b: Binding)
  {
    && Collected(original, ts, b.windows, origins)
    && Step(original, original, collected, b.windows, ts)
    && AllCalls(b.windows) && Grouped(b.windows, b.groups)
    && Stacked(base, b.groups, b.layers)
    && final == Visited(collected, PruneAll(original, ts), BindMove(|base|, FlatOutputs(b.groups)))
  }

  lemma {:induction false} StepSwaps(original: seq<Node>, after: seq<Node>, windows: seq<Entry>, ts: seq<Tree>, k: nat)
    requires Step(original, original, after, windows, ts) && k < |ts|
    ensures Swapped(original, after, windows, ts[k])
  {
    forall r: nat | Visits(original, ts[k], r) ensures VisitsAny(original, ts, r) {}
  }

  lemma {:induction false} IdleMove(nodes: seq<Node>, ts: seq<Tree>, base: nat)
    ensures Visited(nodes, ts, BindMove(base, [])) == nodes
  {
    forall r | 0 <= r < |nodes| && nodes[r].ColumnNode?
      ensures Moved(nodes[r], BindMove(base, []), PathsAll(ts, r)) == nodes[r]
    {
      IterateIdle(BindMove(base, []), nodes[r].column, nodes[r].position, PathsAll(ts, r));
    }
  }

  lemma {:induction false} IterateIdle(move: Move, c: ColumnRef, p: nat, n: nat)
    requires move(c, p) == p
    ensures Iterate(move, c, p, n) == p
  {
    if n > 0 { IterateIdle(move, c, p, n - 1); }
  }

  lemma CollectedAreCalls(original: seq<Node>, ts: seq<Tree>, windows: seq<Entry>, origins: seq<Tree>)
    requires Collected(original, ts, windows, origins)
    requires forall r :: 0 <= r < |original| && IsWindowNode(original[r]) ==> IsCall(original[r])
    ensures AllCalls(windows)
  {
    forall i | 0 <= i < |windows| ensures IsCall(windows[i].call) {
      assert original[origins[i].ref] == windows[i].call;
    }
  }

  /** Collects the calls of the select list and ORDER BY (`exprs`), groups them, puts the outputs
      at their positions and stacks the operators over a child whose schema is `base`. */
  method BindWindow(arena: Arena, exprs: seq<nat>, base: Schema, naming: (seq<Node>, nat) -> string,
                    ghost shows: Expr -> string, ghost ts: seq<Tree>)
    returns (b: Binding, ghost origins: seq<Tree>, ghost collected: seq<Node>)
    requires Prints(naming, shows) && Unnested(arena.nodes)
    requires UnfoldsAll(arena.nodes, ts) && |ts| == |exprs| && forall i :: 0 <= i < |ts| ==> ts[i].ref == exprs[i]
    requires forall r :: 0 <= r < |arena.nodes| && IsWindowNode(arena.nodes[r]) ==> IsCall(arena.nodes[r])
    modifies arena
    ensures Bound(old(arena.nodes), ts, origins, collected, arena.nodes, base, b)
    ensures Outputs(arena.columns, b.windows, old(arena.nodes), origins, shows)
  {
    ghost var original := arena.nodes;
    var collector := new WindowCollector(arena, naming, shows);
    collector.VisitAll(exprs, original, ts, ts);
    collected, origins := arena.nodes, collector.origins;
    var windows := collector.windows;
    CollectedAreCalls(original, ts, windows, origins);
    if windows == [] {
      NothingGrouped();
      IdleMove(collected, PruneAll(original, ts), |base|);
      b := Binding([], [], []);
      return;
    }
    var groups := GroupWindows(windows);
    ghost var pruned := PruneAll(original, ts);
    forall i | 0 <= i < |ts| ensures Unfolds(collected, pruned[i]) {
      StepSwaps(original, collected, windows, ts, i);
      PrunedUnfolds(original, collected, windows, ts[i]);
    }
    arena.MoveAll(exprs, BindMove(|base|, FlatOutputs(groups)), pruned);
    var layers := Stack(groups, base);
    b := Binding(windows, groups, layers);
  }

  // ------------------------------------------------------------------------ meaning

  /** Evaluating with the calls resolved directly: `win` gives each call's value for the row. */
  function DirectEnv(row: Row, win: Expr -> Outcome, op: Op): Env {
    Env((c: ColumnRef, p: nat) => Cell(row, p), _ => Fault, win, op)
  }

  /** The column lies in the child's row and is not one of the output columns. */
  function OnBase(width: nat, outs: seq<ColumnRef>): (ColumnRef, nat) -> bool {
    (c: ColumnRef, p: nat) => p < width && c !in outs
  }

  /** What the operators append to a row of the child: in stacking order, the value of each call. */
  ghost function Appended(original: seq<Node>, origins: seq<Tree>, windows: seq<Entry>, calls: seq<Entry>,
                          win: Expr -> Outcome): (cells: Row)
    requires UnfoldsAll(original, origins) && |origins| == |windows|
    requires forall j :: 0 <= j < |calls| ==> Find(windows, calls[j].call) < |windows|
  {
    seq(|calls|, j requires 0 <= j < |calls| => win(Denote(original, origins[Find(windows, calls[j].call)])))
  }

  /** Each call finds its own value at the position of its output column. */
  ghost predicate ReadsOwn(original: seq<Node>, origins: seq<Tree>, windows: seq<Entry>, outs: seq<ColumnRef>,
                           cells: Row, win: Expr -> Outcome)
  {
    && UnfoldsAll(original, origins) && |origins| == |windows| && |cells| == |outs|
    && forall i :: 0 <= i < |windows| ==>
         && FirstEqual(outs, windows[i].output) < |outs|
         && cells[FirstEqual(outs, windows[i].output)] == win(Denote(original, origins[i]))
  }

  /** What a node denotes depends on its content, not on its slot. */
  lemma {:induction false} SameNodeDenotesSame(nodes: seq<Node>, a: Tree, b: Tree)
    requires Unfolds(nodes, a) && Unfolds(nodes, b) && nodes[a.ref] == nodes[b.ref]
    ensures Denote(nodes, a) == Denote(nodes, b)
  {
    forall i | 0 <= i < |a.kids| ensures a.kids[i] == b.kids[i] { UnfoldingIsUnique(nodes, a.kids[i], b.kids[i]); }
    assert a.kids == b.kids;
  }

  /** A call in the pruned expression reads the cell of its output column. */
  lemma {:induction false} CallReads(original: seq<Node>, after: seq<Node>, origins: seq<Tree>, windows: seq<Entry>,
                                     roots: seq<Tree>, t: Tree, row: Row, outs: seq<ColumnRef>, cells: Row,
                                     win: Expr -> Outcome, op: Op)
    requires Unfolds(original, t) && IsWindowNode(original[t.ref]) && Swapped(original, after, windows, t)
    requires Collected(original, roots, windows, origins) && ReadsOwn(original, origins, windows, outs, cells, win)
    requires Unfolds(after, Prune(original, t))
    ensures Eval(MapPositions(Denote(after, Prune(original, t)), BindMove(|row|, outs)), RowEnv(row + cells, op))
         == Eval(Denote(original, t), DirectEnv(row, win, op))
  {
    assert Visits(original, t, t.ref);
    var k := Find(windows, original[t.ref]);
    SameNodeDenotesSame(original, origins[k], t);
    assert Denote(after, Prune(original, t)) == Column(windows[k].output, 0);
    var q := FirstEqual(outs, windows[k].output);
    assert (row + cells)[|row| + q] == cells[q];
  }

  /** By induction over the expression: reading the outputs is evaluating the calls. */
  lemma {:induction false} PrunedMeansOriginal(original: seq<Node>, after: seq<Node>, origins: seq<Tree>,
                                               windows: seq<Entry>, roots: seq<Tree>, t: Tree, row: Row,
                                               outs: seq<ColumnRef>, cells: Row, win: Expr -> Outcome, op: Op)
    requires Unfolds(original, t) && Swapped(original, after, windows, t) && Unfolds(after, Prune(original, t))
    requires Collected(original, roots, windows, origins) && ReadsOwn(original, origins, windows, outs, cells, win)
    requires LiveAll(Denote(original, t), OnBase(|row|, outs))
    ensures Eval(MapPositions(Denote(after, Prune(original, t)), BindMove(|row|, outs)), RowEnv(row + cells, op))
         == Eval(Denote(original, t), DirectEnv(row, win, op))
    decreases t
  {
    var before, later := DirectEnv(row, win, op), RowEnv(row + cells, op);
    var e, m := Denote(original, t), MapPositions(Denote(after, Prune(original, t)), BindMove(|row|, outs));
    assert Visits(original, t, t.ref);
    if IsWindowNode(original[t.ref]) {
      CallReads(original, after, origins, windows, roots, t, row, outs, cells, win, op);
    } else if e.Column? {
      assert FirstEqual(outs, e.ref) == |outs|;
      assert m == e;
    } else if !IsAgg(e) {
      forall i | 0 <= i < |LiveArgs(e)| ensures Eval(LiveArgs(m)[i], later) == Eval(LiveArgs(e)[i], before) {
        KidOf(original, after, t, i, BindMove(|row|, outs));
        SwappedBelow(original, after, windows, t, i);
        PrunedMeansOriginal(original, after, origins, windows, roots, t.kids[i], row, outs, cells, win, op);
      }
      SameCall(e, m, before, later);
    }
  }

  /** The operands of the rewritten node are the rewritten operands. */
  lemma {:induction false} KidOf(original: seq<Node>, after: seq<Node>, t: Tree, i: nat, move: Move)
    requires Unfolds(original, t) && Unfolds(after, Prune(original, t)) && !IsWindowNode(original[t.ref])
    requires original[t.ref].CallNode? && after[t.ref] == original[t.ref]
    requires i < |LiveArgs(Denote(original, t))|
    ensures
      var e, m := Denote(original, t), MapPositions(Denote(after, Prune(original, t)), move);
      && m.Call? && m.head == e.head && |LiveArgs(m)| == |LiveArgs(e)| && i < |t.kids|
      && LiveArgs(e)[i] == Denote(original, t.kids[i])
      && Unfolds(after, Prune(original, t.kids[i]))
      && LiveArgs(m)[i] == MapPositions(Denote(after, Prune(original, t.kids[i])), move)
  {
  }

  lemma {:induction false} SameMultisetSameMembers(a: seq<Entry>, b: seq<Entry>, i: nat) returns (j: nat)
    requires multiset(a) == multiset(b) && i < |a|
    ensures j < |b| && b[j] == a[i]
  {
    assert a[i] in multiset(a);
    assert a[i] in multiset(b);
    j :| 0 <= j < |b| && b[j] == a[i];
  }

  /** Every call the operators evaluate was collected, with the output column it has there. */
  lemma {:induction false} StackedCallsAreCollected(original: seq<Node>, ts: seq<Tree>, origins: seq<Tree>,
                                                    windows: seq<Entry>, groups: seq<WindowGroup>)
    requires Collected(original, ts, windows, origins) && AllCalls(windows) && Grouped(windows, groups)
    ensures forall j :: 0 <= j < |Flatten(groups)| ==>
      var k := Find(windows, Flatten(groups)[j].call);
      k < |windows| && windows[k] == Flatten(groups)[j]
  {
    var calls := Flatten(groups);
    forall j | 0 <= j < |calls|
      ensures Find(windows, calls[j].call) < |windows| && windows[Find(windows, calls[j].call)] == calls[j]
    {
      var i := SameMultisetSameMembers(calls, windows, j);
      var k := Find(windows, calls[j].call);
      assert k == i;
    }
  }

  /** The first call in stacking order that shares the output column of call `i`. */
  ghost function Reader(windows: seq<Entry>, groups: seq<WindowGroup>, i: nat): (k: nat)
    requires i < |windows| && AllGroups(groups)
  {
    var q := FirstEqual(FlatOutputs(groups), windows[i].output);
    if q < |Flatten(groups)| then Find(windows, Flatten(groups)[q].call) else |windows|
  }

  /** The cell at the position of a call's output column holds the value of the first call that shares the column. */
  lemma {:induction false} OutputCell(original: seq<Node>, ts: seq<Tree>, origins: seq<Tree>, windows: seq<Entry>,
                                      groups: seq<WindowGroup>, i: nat, win: Expr -> Outcome)
    requires Collected(original, ts, windows, origins) && AllCalls(windows) && Grouped(windows, groups) && i < |windows|
    requires forall j :: 0 <= j < |Flatten(groups)| ==> Find(windows, Flatten(groups)[j].call) < |windows|
    ensures
      var outs, k := FlatOutputs(groups), Reader(windows, groups, i);
      var q := FirstEqual(outs, windows[i].output);
      && q < |outs| == |Flatten(groups)|
      && k < |windows| && windows[k].output == windows[i].output
      && Appended(original, origins, windows, Flatten(groups), win)[q] == win(Denote(original, origins[k]))
  {
    FlatOutputsOfMembers(groups);
    StackedCallsAreCollected(original, ts, origins, windows, groups);
    var j := SameMultisetSameMembers(windows, Flatten(groups), i);
    assert FlatOutputs(groups)[j] == windows[i].output;
  }

  /** Calls that share an output column are the same expression. */
  ghost predicate Faithful(original: seq<Node>, origins: seq<Tree>, windows: seq<Entry>)
    requires UnfoldsAll(original, origins) && |origins| == |windows|
  {
    forall i, j :: 0 <= i < |windows| && 0 <= j < |windows| && windows[i].output == windows[j].output ==>
      Denote(original, origins[i]) == Denote(original, origins[j])
  }

  lemma {:induction false} FaithfulReadsOwn(original: seq<Node>, ts: seq<Tree>, origins: seq<Tree>, windows: seq<Entry>,
                                            groups: seq<WindowGroup>, win: Expr -> Outcome)
    requires Collected(original, ts, windows, origins) && AllCalls(windows) && Grouped(windows, groups)
    requires forall j :: 0 <= j < |Flatten(groups)| ==> Find(windows, Flatten(groups)[j].call) < |windows|
    requires Faithful(original, origins, windows)
    ensures ReadsOwn(original, origins, windows, FlatOutputs(groups),
                     Appended(original, origins, windows, Flatten(groups), win), win)
  {
    FlatOutputsOfMembers(groups);
    forall i | 0 <= i < |windows|
      ensures
        var q := FirstEqual(FlatOutputs(groups), windows[i].output);
        q < |Flatten(groups)| && Appended(original, origins, windows, Flatten(groups), win)[q] ==
          win(Denote(original, origins[i]))
    {
      OutputCell(original, ts, origins, windows, groups, i, win);
    }
  }

  /** Two different calls with one output column: there are values for which one of them is misread. */
  lemma {:induction false} SharedOutputMisreads(original: seq<Node>, ts: seq<Tree>, origins: seq<Tree>,
                                                windows: seq<Entry>, groups: seq<WindowGroup>, i: nat, j: nat)
    returns (win: Expr -> Outcome)
    requires Collected(original, ts, windows, origins) && AllCalls(windows) && Grouped(windows, groups)
    requires forall j :: 0 <= j < |Flatten(groups)| ==> Find(windows, Flatten(groups)[j].call) < |windows|
    requires i < |windows| && j < |windows| && windows[i].output == windows[j].output
    requires Denote(original, origins[i]) != Denote(original, origins[j])
    ensures !ReadsOwn(original, origins, windows, FlatOutputs(groups),
                      Appended(original, origins, windows, Flatten(groups), win), win)
  {
    var d := Denote(original, origins[i]);
    win := (e: Expr) => if e == d then TRUE else FALSE;
    OutputCell(original, ts, origins, windows, groups, i, win);
    var q := FirstEqual(FlatOutputs(groups), windows[i].output);
    assert q == FirstEqual(FlatOutputs(groups), windows[j].output);
    var cell := Appended(original, origins, windows, Flatten(groups), win)[q];
    assert cell != win(Denote(original, origins[i])) || cell != win(Denote(original, origins[j]));
  }

  ghost predicate AlwaysReadsOwn(original: seq<Node>, origins: seq<Tree>, windows: seq<Entry>, groups: seq<WindowGroup>)
    requires UnfoldsAll(original, origins) && |origins| == |windows| && AllGroups(groups)
    requires forall j :: 0 <= j < |Flatten(groups)| ==> Find(windows, Flatten(groups)[j].call) < |windows|
  {
    forall win: Expr -> Outcome ::
      ReadsOwn(original, origins, windows, FlatOutputs(groups),
               Appended(original, origins, windows, Flatten(groups), win), win)
  }

  /** Every call reads its own value, whatever the values are, exactly when calls that share an
      output column are the same expression. */
  lemma {:induction false} FaithfulIffAlwaysReadsOwn(original: seq<Node>, ts: seq<Tree>, origins: seq<Tree>,
                                                     windows: seq<Entry>, groups: seq<WindowGroup>)
    requires Collected(original, ts, windows, origins) && AllCalls(windows) && Grouped(windows, groups)
    requires forall j :: 0 <= j < |Flatten(groups)| ==> Find(windows, Flatten(groups)[j].call) < |windows|
    ensures Faithful(original, origins, windows) <==> AlwaysReadsOwn(original, origins, windows, groups)
  {
    if Faithful(original, origins, windows) {
      forall win: Expr -> Outcome
        ensures ReadsOwn(original, origins, windows, FlatOutputs(groups),
                         Appended(original, origins, windows, Flatten(groups), win), win)
      {
        FaithfulReadsOwn(original, ts, origins, windows, groups, win);
      }
    } else {
      var i, j :| 0 <= i < |windows| && 0 <= j < |windows| && windows[i].output == windows[j].output
        && Denote(original, origins[i]) != Denote(original, origins[j]);
      var win := SharedOutputMisreads(original, ts, origins, windows, groups, i, j);
    }
  }

  // --------------------------------------------------------- what the text tells apart

  /** `a` is a window call that the collector meets in the select list or ORDER BY. */
  ghost predicate Meets(original: seq<Node>, ts: seq<Tree>, a: Tree) {
    Unfolds(original, a) && IsWindowNode(original[a.ref]) && VisitsAny(original, ts, a.ref)
  }

  /** Two expressions with the same text; for window calls of one type this is all an output column keeps. */
  ghost predicate Confused(original: seq<Node>, shows: Expr -> string, a: Tree, b: Tree)
    requires Unfolds(original, a) && Unfolds(original, b) && IsWindowNode(original[a.ref]) &&
             IsWindowNode(original[b.ref])
  {
    && shows(Denote(original, a)) == shows(Denote(original, b))
    && original[a.ref].head.windowType == original[b.ref].head.windowType
  }

  /** Calls of the query that print alike and have the same type are the same expression. */
  ghost predicate PrintsApart(original: seq<Node>, ts: seq<Tree>, shows: Expr -> string) {
    forall a: Tree, b: Tree :: Meets(original, ts, a) && Meets(original, ts, b) && Confused(original, shows, a, b) ==>
      Denote(original, a) == Denote(original, b)
  }

  /** A call that is met was collected, if not itself then an equal one. */
  lemma {:induction false} MetIsCollected(original: seq<Node>, ts: seq<Tree>, origins: seq<Tree>, collected: seq<Node>,
                                          windows: seq<Entry>, a: Tree)
    returns (k: nat)
    requires Collected(original, ts, windows, origins) && Step(original, original, collected, windows, ts) &&
             Meets(original, ts, a)
    ensures k < |windows| && windows[k].call == original[a.ref] && Denote(original, origins[k]) == Denote(original, a)
  {
    k := Find(windows, original[a.ref]);
    assert Replaced(original, collected, windows, a.ref);
    SameNodeDenotesSame(original, origins[k], a);
  }

  /** The condition on the outputs is a condition on the calls' text alone. */
  lemma {:induction false} FaithfulIffPrintsApart(original: seq<Node>, ts: seq<Tree>, origins: seq<Tree>,
                                                  collected: seq<Node>, windows: seq<Entry>, columns: seq<Catalog>,
                                                  shows: Expr -> string)
    requires Collected(original, ts, windows, origins) && Step(original, original, collected, windows, ts)
    requires Outputs(columns, windows, original, origins, shows)
    ensures Faithful(original, origins, windows) <==> PrintsApart(original, ts, shows)
  {
    if Faithful(original, origins, windows) {
      forall a: Tree, b: Tree | Meets(original, ts, a) && Meets(original, ts, b) && Confused(original, shows, a, b)
        ensures Denote(original, a) == Denote(original, b)
      {
        var i := MetIsCollected(original, ts, origins, collected, windows, a);
        var j := MetIsCollected(original, ts, origins, collected, windows, b);
        ShareOutputIff(columns, windows, original, origins, shows, i, j);
      }
    } else {
      var i, j :| 0 <= i < |windows| && 0 <= j < |windows| && windows[i].output == windows[j].output
        && Denote(original, origins[i]) != Denote(original, origins[j]);
      ShareOutputIff(columns, windows, original, origins, shows, i, j);
      assert Meets(original, ts, origins[i]) && Meets(original, ts, origins[j]);
      assert Confused(original, shows, origins[i], origins[j]);
    }
  }

  /** Every call reads its own value, whatever the values are, exactly when the query's calls that print alike
      and have the same type are the same expression. */
  lemma {:induction false} ReadsOwnIffPrintsApart(original: seq<Node>, ts: seq<Tree>, origins: seq<Tree>,
                                                  collected: seq<Node>, final: seq<Node>, base: Schema, b: Binding,
                                                  columns: seq<Catalog>, shows: Expr -> string)
    requires Bound(original, ts, origins, collected, final, base, b) &&
             Outputs(columns, b.windows, original, origins, shows)
    ensures forall j :: 0 <= j < |Flatten(b.groups)| ==> Find(b.windows, Flatten(b.groups)[j].call) < |b.windows|
    ensures AlwaysReadsOwn(original, origins, b.windows, b.groups) <==> PrintsApart(original, ts, shows)
  {
    StackedCallsAreCollected(original, ts, origins, b.windows, b.groups);
    FaithfulIffAlwaysReadsOwn(original, ts, origins, b.windows, b.groups);
    FaithfulIffPrintsApart(original, ts, origins, collected, b.windows, columns, shows);
  }

  /** An output column bears no table and the text of a call of the query, so any other column is none. */
  lemma {:induction false} OutputsBearCallText(original: seq<Node>, ts: seq<Tree>, origins: seq<Tree>,
                                               collected: seq<Node>, final: seq<Node>, base: Schema, b: Binding,
                                               columns: seq<Catalog>, shows: Expr -> string, c: ColumnRef)
    returns (a: Tree)
    requires Bound(original, ts, origins, collected, final, base, b) &&
             Outputs(columns, b.windows, original, origins, shows)
    requires c in FlatOutputs(b.groups)
    ensures Meets(original, ts, a) && c.summary == Summary(shows(Denote(original, a)), NoRelation)
  {
    FlatOutputsOfMembers(b.groups);
    var j :| 0 <= j < |FlatOutputs(b.groups)| && FlatOutputs(b.groups)[j] == c;
    var i := SameMultisetSameMembers(Flatten(b.groups), b.windows, j);
    assert IsOutput(columns, b.windows[i], shows(Denote(original, origins[i])));
    a := origins[i];
  }

  // ------------------------------------------------------------------- the printer

  function Join(parts: seq<string>): string {
    if parts == [] then "" else if |parts| == 1 then parts[0] else parts[0] + ", " + Join(parts[1..])
  }

  /** The printer of expressions.  `kinds` names the window functions; `other` prints the variants that are not
      spelled out from the text of their children. */
  function Explain(e: Expr, kinds: nat -> string, other: (Head, seq<string>) -> string): string
    decreases e
  {
    match e
    case Column(c, _) =>
      if c.summary.relation.TableColumn? then c.summary.relation.table + "." + c.summary.name else c.summary.name
    case Call(head, args) =>
      var parts := seq(|args|, i requires 0 <= i < |args| => Explain(args[i], kinds, other));
      if head.Operator? && (head.kind.IfNull? || head.kind.NullIf?) && |parts| == 2 then
        "ifnull(" + parts[0] + ", " + parts[1] + ")"
      else if head.WindowCall? && |parts| == head.argCount + head.partitionCount + |head.order| then
        ExplainWindow(head, parts, kinds)
      else other(head, parts)
  }

  function ExplainWindow(head: Head, parts: seq<string>, kinds: nat -> string): string
    requires head.WindowCall? && |parts| == head.argCount + head.partitionCount + |head.order|
  {
    var start := head.argCount + head.partitionCount;
    var partition := if head.partitionCount == 0 then "" else "partition by " + Join(parts[head.argCount..start]);
    var fields := seq(|head.order|, i requires 0 <= i < |head.order| => ExplainField(parts[start + i], head.order[i]));
    var order := if head.order == [] then "" else (if partition == "" then "" else " ") + "order by " + Join(fields);
    kinds(head.windowKind) + "(" + Join(parts[..head.argCount]) + ") over (" + partition + order + ")"
  }

  function ExplainField(text: string, flags: SortFlags): string {
    text + (if flags.asc then " Asc" else " Desc") + (if flags.nullsFirst then " Nulls First" else " Nulls Last")
  }

  lemma {:induction false} JoinAppend(a: seq<string>, b: seq<string>)
    requires a != [] && b != []
    ensures Join(a + b) == Join(a) + ", " + Join(b)
    decreases a
  {
    assert (a + b)[0] == a[0] && (a + b)[1..] == a[1..] + b;
    if |a| == 1 {
      assert a[1..] + b == b;
    } else {
      JoinAppend(a[1..], b);
      assert a[0] + ", " + (Join(a[1..]) + ", " + Join(b)) == a[0] + ", " + Join(a[1..]) + ", " + Join(b);
    }
  }

  /** A column is printed behind its table, if it has one. */
  lemma {:induction false} ColumnText(slot: nat, name: string, id: nat, table: string, temp: bool, p: nat,
                                      kinds: nat -> string, other: (Head, seq<string>) -> string)
    ensures Explain(Column(ColumnRef(slot, Summary(name, TableColumn(id, table, temp))), p), kinds, other) ==
            table + "." + name
    ensures Explain(Column(ColumnRef(slot, Summary(name, NoRelation)), p), kinds, other) == name
  {
  }

  lemma {:induction false} FieldText(text: string)
    ensures ExplainField(text, SortFlags(true, true)) == text + " Asc Nulls First"
    ensures ExplainField(text, SortFlags(true, false)) == text + " Asc Nulls Last"
    ensures ExplainField(text, SortFlags(false, true)) == text + " Desc Nulls First"
    ensures ExplainField(text, SortFlags(false, false)) == text + " Desc Nulls Last"
  {
    assert " Asc" + " Nulls First" == " Asc Nulls First" && " Asc" + " Nulls Last" == " Asc Nulls Last";
    assert " Desc" + " Nulls First" == " Desc Nulls First" && " Desc" + " Nulls Last" == " Desc Nulls Last";
    JoinsLeft(text, " Asc", " Nulls First");
    JoinsLeft(text, " Asc", " Nulls Last");
    JoinsLeft(text, " Desc", " Nulls First");
    JoinsLeft(text, " Desc", " Nulls Last");
  }

  lemma {:induction false} JoinsLeft(a: string, b: string, c: string)
    ensures a + b + c == a + (b + c)
  {
  }

  /** What stands in a window call's brackets: partition keys, sort fields, and a blank between the two. */
  lemma {:induction false} WindowText(f: nat, ty: LogicalType, args: seq<string>, keys: seq<string>,
                                      fields: seq<string>, order: seq<SortFlags>, kinds: nat -> string)
    requires |fields| == |order|
    ensures
      var text := ExplainWindow(WindowCall(f, ty, |args|, |keys|, order), args + keys + fields, kinds);
      var sorted := Join(seq(|order|, i requires 0 <= i < |order| => ExplainField(fields[i], order[i])));
      text == kinds(f) + "(" + Join(args) + ") over (" +
        (if keys == [] && order == [] then ""
         else if order == [] then "partition by " + Join(keys)
         else if keys == [] then "order by " + sorted
         else "partition by " + Join(keys) + (" order by " + sorted)) + ")"
  {
    var head, parts := WindowCall(f, ty, |args|, |keys|, order), args + keys + fields;
    var start := |args| + |keys|;
    assert parts[..|args|] == args && parts[|args|..start] == keys;
    var sorted := seq(|order|, i requires 0 <= i < |order| => ExplainField(fields[i], order[i]));
    assert seq(|order|, i requires 0 <= i < |order| => ExplainField(parts[start + i], order[i])) == sorted;
    assert " " + "order by " == " order by " && "" + "order by " == "order by ";
  }

  /** A window call is printed from the texts of its children. */
  lemma {:induction false} CallText(head: Head, args: seq<Expr>, kinds: nat -> string,
                                    other: (Head, seq<string>) -> string)
    requires head.WindowCall? && |args| == head.argCount + head.partitionCount + |head.order|
    ensures Explain(Call(head, args), kinds, other) ==
            ExplainWindow(head, seq(|args|, i requires 0 <= i < |args| => Explain(args[i], kinds, other)), kinds)
  {
  }

  function Explaining(kinds: nat -> string, other: (Head, seq<string>) -> string): Expr -> string {
    (e: Expr) => Explain(e, kinds, other)
  }

  lemma {:induction false} SameHeadSameText(head: Head, xs: seq<Expr>, ys: seq<Expr>, kinds: nat -> string,
                                            other: (Head, seq<string>) -> string)
    requires |xs| == |ys| && forall i :: 0 <= i < |xs| ==> Explain(xs[i], kinds, other) == Explain(ys[i], kinds, other)
    ensures Explain(Call(head, xs), kinds, other) == Explain(Call(head, ys), kinds, other)
  {
    assert seq(|xs|, i requires 0 <= i < |xs| => Explain(xs[i], kinds, other))
        == seq(|ys|, i requires 0 <= i < |ys| => Explain(ys[i], kinds, other));
  }

  /** IFNULL and NULLIF print alike, so calls that differ only there are one text. */
  lemma {:induction false} IfNullPrintsAsNullIf(over: Head, x: Expr, y: Expr, kinds: nat -> string,
                                                other: (Head, seq<string>) -> string)
    ensures
      var f, g := Call(Operator(IfNull, []), [x, y]), Call(Operator(NullIf, []), [x, y]);
      Explain(Call(over, [f]), kinds, other) == Explain(Call(over, [g]), kinds, other)
  {
    SameHeadSameText(over, [Call(Operator(IfNull, []), [x, y])], [Call(Operator(NullIf, []), [x, y])], kinds, other);
  }

  /** `f(ifnull(a, b)) over (), f(nullif(a, b)) over ()`. */
  function TwoCalls(a: ColumnRef, b: ColumnRef, over: Head): seq<Node> {
    [ColumnNode(a, 0), ColumnNode(b, 1), CallNode(Operator(IfNull, []), [0, 1]), CallNode(Operator(NullIf, []), [0, 1]),
     CallNode(over, [2]), CallNode(over, [3])]
  }

  ghost function CallTree(call: nat, arg: nat): Tree {
    Tree(call, [Tree(arg, [Tree(0, []), Tree(1, [])])])
  }

  lemma {:induction false} CallDenotes(a: ColumnRef, b: ColumnRef, over: Head, i: nat, kind: OperatorKind)
    requires i < 2 && kind == if i == 0 then IfNull else NullIf
    ensures
      var nodes, t := TwoCalls(a, b, over), CallTree(4 + i, 2 + i);
      Unfolds(nodes, t) && Denote(nodes, t) == Call(over, [Call(Operator(kind, []), [Column(a, 0), Column(b, 1)])])
  {
    var nodes, t := TwoCalls(a, b, over), CallTree(4 + i, 2 + i);
    var arg := t.kids[0];
    assert Unfolds(nodes, arg.kids[0]) && Unfolds(nodes, arg.kids[1]);
    assert Unfolds(nodes, arg) && Unfolds(nodes, t);
    assert Denote(nodes, arg).args == [Column(a, 0), Column(b, 1)];
    assert Denote(nodes, t).args == [Denote(nodes, arg)];
  }

  /** The two calls are told apart by nothing that an output column keeps, so binding the query lets one of
      them read the other's value. */
  lemma {:induction false} IfNullAndNullIfShareAnOutput(a: ColumnRef, b: ColumnRef, sum: nat, ty: LogicalType,
                                                        kinds: nat -> string, other: (Head, seq<string>) -> string)
    ensures
      var nodes, ts := TwoCalls(a, b, WindowCall(sum, ty, 1, 0, [])), [CallTree(4, 2), CallTree(5, 3)];
      UnfoldsAll(nodes, ts) && !PrintsApart(nodes, ts, Explaining(kinds, other))
  {
    var over := WindowCall(sum, ty, 1, 0, []);
    var nodes, ts := TwoCalls(a, b, over), [CallTree(4, 2), CallTree(5, 3)];
    CallDenotes(a, b, over, 0, IfNull);
    CallDenotes(a, b, over, 1, NullIf);
    IfNullPrintsAsNullIf(over, Column(a, 0), Column(b, 1), kinds, other);
    assert Denote(nodes, ts[0]).args[0] != Denote(nodes, ts[1]).args[0];
    assert Visits(nodes, ts[0], 4) && Visits(nodes, ts[1], 5);
    assert Meets(nodes, ts, ts[0]) && Meets(nodes, ts, ts[1]);
    assert Confused(nodes, Explaining(kinds, other), ts[0], ts[1]);
  }

  /** A column of the child keeps its cell under the output binder exactly when it is not an output column. */
  lemma {:induction false} BaseColumnKeepsItsCell(width: nat, outs: seq<ColumnRef>, c: ColumnRef, p: nat)
    requires p < width
    ensures c !in outs <==>
      forall row: Row, cells: Row :: |row| == width && |cells| == |outs| ==>
             Cell(row + cells, BindMove(width, outs)(c, p)) == Cell(row, p)
  {
    var q := FirstEqual(outs, c);
    if c in outs {
      var row: Row := seq(width, i => TRUE);
      var cells: Row := seq(|outs|, i => FALSE);
      assert |row| == width && |cells| == |outs|;
      assert Cell(row + cells, width + q) == FALSE;
      assert Cell(row + cells, BindMove(width, outs)(c, p)) != Cell(row, p);
    } else {
      assert q == |outs|;
    }
  }

  /** Main result: over the child's row followed by the operators' outputs, every rewritten select
      or ORDER BY expression has the value of the original with its calls evaluated directly. */
  lemma {:induction false} WindowBindingPreservesMeaning(original: seq<Node>, ts: seq<Tree>, origins: seq<Tree>,
                                                         collected: seq<Node>, final: seq<Node>, base: Schema,
                                                         b: Binding, columns: seq<Catalog>, shows: Expr -> string,
                                                         k: nat, row: Row, win: Expr -> Outcome, op: Op)
    requires UnfoldsAll(original, ts) && Bound(original, ts, origins, collected, final, base, b) && k < |ts|
    requires Outputs(columns, b.windows, original, origins, shows) && PrintsApart(original, ts, shows)
    requires |row| == |base| && LiveAll(Denote(original, ts[k]), OnBase(|base|, FlatOutputs(b.groups)))
    ensures forall j :: 0 <= j < |Flatten(b.groups)| ==> Find(b.windows, Flatten(b.groups)[j].call) < |b.windows|
    ensures Unfolds(final, Prune(original, ts[k]))
    ensures
      var cells := Appended(original, origins, b.windows, Flatten(b.groups), win);
      && |row + cells| == |SchemaOf(base, b.layers)|
      && Eval(Denote(final, Prune(original, ts[k])), RowEnv(row + cells, op)) ==
         Eval(Denote(original, ts[k]), DirectEnv(row, win, op))
  {
    StackedCallsAreCollected(original, ts, origins, b.windows, b.groups);
    FaithfulIffPrintsApart(original, ts, origins, collected, b.windows, columns, shows);
    FaithfulReadsOwn(original, ts, origins, b.windows, b.groups, win);
    FlatOutputsOfMembers(b.groups);
    FinalRoot(original, ts, collected, b.windows, BindMove(|base|, FlatOutputs(b.groups)), k);
    StepSwaps(original, collected, b.windows, ts, k);
    var cells := Appended(original, origins, b.windows, Flatten(b.groups), win);
    PrunedMeansOriginal(original, collected, origins, b.windows, ts, ts[k], row, FlatOutputs(b.groups), cells, win, op);
  }

  /** The output binder settles each root, however much of it is shared. */
  lemma {:induction false} FinalRoot(original: seq<Node>, ts: seq<Tree>, collected: seq<Node>, windows: seq<Entry>,
                                     move: Move, k: nat)
    requires UnfoldsAll(original, ts) && Step(original, original, collected, windows, ts) && k < |ts|
    requires forall c, p :: move(c, move(c, p)) == move(c, p)
    ensures
      var p, final := Prune(original, ts[k]), Visited(collected, PruneAll(original, ts), move);
      Unfolds(collected, p) && Unfolds(final, p) && Denote(final, p) == MapPositions(Denote(collected, p), move)
  {
    var pruned := PruneAll(original, ts);
    forall i | 0 <= i < |ts| ensures Unfolds(collected, pruned[i]) {
      StepSwaps(original, collected, windows, ts, i);
      PrunedUnfolds(original, collected, windows, ts[i]);
    }
    WalkMovesEachRoot(collected, pruned, move, k);
  }

  /** No call and no output column lies below `t`, as the check against nested calls ensures for arguments. */
  ghost predicate Untouched(original: seq<Node>, outs: seq<ColumnRef>, t: Tree) {
    forall r :: 0 <= r < |original| && Paths(t, r) > 0 ==>
      !IsWindowNode(original[r]) && (original[r].ColumnNode? ==> original[r].column !in outs)
  }

  /** The arguments, partition keys and sort keys an operator evaluates are still what they were. */
  lemma {:induction false} ArgumentsAreKept(original: seq<Node>, ts: seq<Tree>, origins: seq<Tree>,
                                            collected: seq<Node>, final: seq<Node>, base: Schema, b: Binding, t: Tree)
    requires Bound(original, ts, origins, collected, final, base, b)
    requires Unfolds(original, t) && Untouched(original, FlatOutputs(b.groups), t)
    ensures Unfolds(final, t) && Denote(final, t) == Denote(original, t)
  {
    var move := BindMove(|base|, FlatOutputs(b.groups));
    forall r | 0 <= r < |original| && Paths(t, r) > 0 ensures final[r] == original[r] {
      assert collected[r] == original[r];
      if original[r].ColumnNode? {
        IterateIdle(move, original[r].column, original[r].position, PathsAll(PruneAll(original, ts), r));
      }
    }
    SameNodesDenoteSame(original, final, t);
  }
}
