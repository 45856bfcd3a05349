/** Window calls that share a specification share one operator; the operators are stacked and
    each appends its outputs to the rows below it. */
module WindowGroups {
  import opened Expressions
  import opened ExpressionArena
  import opened WindowCalls

  datatype WindowFunction = WindowFunction(kind: nat, ty: LogicalType, args: seq<nat>)

  datatype SortField = SortField(expr: nat, flags: SortFlags)

  datatype WindowSpec = WindowSpec(partitionBy: seq<nat>, orderBy: seq<SortField>)

  datatype WindowGroup = WindowGroup(spec: WindowSpec, functions: seq<WindowFunction>, outputs: seq<ColumnRef>)

  /** The children of a window call are its arguments, its partition keys and its sort keys. */
  predicate IsCall(n: Node) {
    && IsWindowNode(n)
    && |n.kids| == n.head.argCount + n.head.partitionCount + |n.head.order|
  }

  function FunctionOf(call: Node): WindowFunction
    requires IsCall(call)
  {
    WindowFunction(call.head.windowKind, call.head.windowType, call.kids[..call.head.argCount])
  }

  function SpecOf(call: Node): WindowSpec
    requires IsCall(call)
  {
    var h := call.head;
    var start := h.argCount + h.partitionCount;
    WindowSpec(call.kids[h.argCount..start],
               seq(|h.order|, i requires 0 <= i < |h.order| => SortField(call.kids[start + i], h.order[i])))
  }

  /** The call an operator evaluates for one of its functions. */
  function CallOf(f: WindowFunction, s: WindowSpec): (call: Node)
    ensures IsCall(call)
  {
    CallNode(
      WindowCall(f.kind, f.ty, |f.args|, |s.partitionBy|,
                 seq(|s.orderBy|, i requires 0 <= i < |s.orderBy| => s.orderBy[i].flags)),
      f.args + s.partitionBy + seq(|s.orderBy|, i requires 0 <= i < |s.orderBy| => s.orderBy[i].expr))
  }

  lemma CallOfParts(call: Node)
    requires IsCall(call)
    ensures CallOf(FunctionOf(call), SpecOf(call)) == call
  {
    var again := CallOf(FunctionOf(call), SpecOf(call));
    assert again.head.order == call.head.order;
    assert again.kids == call.kids;
  }

  /** Two calls share a specification exactly when they agree on all their children behind the arguments, on how many of
      them are partition keys, and on the sort flags; the arguments do not matter. */
  lemma {:induction false} SameSpecIff(a: Node, b: Node)
    requires IsCall(a) && IsCall(b)
    ensures SpecOf(a) == SpecOf(b) <==>
      && a.kids[a.head.argCount..] == b.kids[b.head.argCount..]
      && a.head.partitionCount == b.head.partitionCount && a.head.order == b.head.order
  {
    var s, t := SpecOf(a), SpecOf(b);
    TailOfSpec(a);
    TailOfSpec(b);
    if a.kids[a.head.argCount..] == b.kids[b.head.argCount..] && a.head.partitionCount == b.head.partitionCount &&
       a.head.order == b.head.order {
      var p := a.head.partitionCount;
      assert a.kids[a.head.argCount..][..p] == s.partitionBy && b.kids[b.head.argCount..][..p] == t.partitionBy;
      assert s.orderBy == t.orderBy;
    }
  }

  lemma {:induction false} TailOfSpec(call: Node)
    requires IsCall(call)
    ensures
      var s := SpecOf(call);
      && |s.partitionBy| == call.head.partitionCount && |s.orderBy| == |call.head.order|
      && call.head.order == seq(|s.orderBy|, i requires 0 <= i < |s.orderBy| => s.orderBy[i].flags)
      && call.kids[call.head.argCount..] ==
         s.partitionBy + seq(|s.orderBy|, i requires 0 <= i < |s.orderBy| => s.orderBy[i].expr)
  {
  }

  /** Two calls are the same function exactly when kind, type and the leading children agree. */
  lemma {:induction false} SameFunctionIff(a: Node, b: Node)
    requires IsCall(a) && IsCall(b)
    ensures FunctionOf(a) == FunctionOf(b) <==>
      && a.head.windowKind == b.head.windowKind && a.head.windowType == b.head.windowType
      && a.kids[..a.head.argCount] == b.kids[..b.head.argCount]
  {
  }

  predicate IsGroup(g: WindowGroup) {
    |g.functions| == |g.outputs| > 0
  }

  /** The calls a group evaluates, with their output columns. */
  function Members(g: WindowGroup): (r: seq<Entry>)
    requires IsGroup(g)
  {
    seq(|g.functions|, i requires 0 <= i < |g.functions| => Entry(CallOf(g.functions[i], g.spec), g.outputs[i]))
  }

  ghost function WithSpec(windows: seq<Entry>, s: WindowSpec): (r: seq<Entry>)
    requires AllCalls(windows)
  {
    if windows == [] then []
    else
      var rest, last := WithSpec(windows[..|windows| - 1], s), windows[|windows| - 1];
      if SpecOf(last.call) == s then rest + [last] else rest
  }

  ghost predicate AllCalls(windows: seq<Entry>) {
    forall i :: 0 <= i < |windows| ==> IsCall(windows[i].call)
  }

  function Concat(parts: seq<seq<Entry>>): (r: seq<Entry>) {
    if parts == [] then [] else Concat(parts[..|parts| - 1]) + parts[|parts| - 1]
  }

  function Parts(groups: seq<WindowGroup>): (r: seq<seq<Entry>>)
    requires AllGroups(groups)
  {
    seq(|groups|, g requires 0 <= g < |groups| => Members(groups[g]))
  }

  /** All calls in stacking order. */
  function Flatten(groups: seq<WindowGroup>): (r: seq<Entry>)
    requires AllGroups(groups)
  {
    Concat(Parts(groups))
  }

  predicate AllGroups(groups: seq<WindowGroup>) {
    forall g :: 0 <= g < |groups| ==> IsGroup(groups[g])
  }

  /** One group for each specification that occurs, holding exactly the calls with it, in order;
      so each call lies in exactly one group. */
  ghost predicate Grouped(windows: seq<Entry>, groups: seq<WindowGroup>)
    requires AllCalls(windows)
  {
    && AllGroups(groups)
    && DistinctSpecs(groups)
    && Sorted(windows, groups)
    && Covered(windows, groups)
    && multiset(Flatten(groups)) == multiset(windows)
  }

  ghost predicate HasSpec(groups: seq<WindowGroup>, s: WindowSpec) {
    exists g :: 0 <= g < |groups| && groups[g].spec == s
  }

  function FindSpec(groups: seq<WindowGroup>, s: WindowSpec): (g: nat)
    ensures g <= |groups|
    ensures g < |groups| ==> groups[g].spec == s
    ensures forall h :: 0 <= h < g ==> groups[h].spec != s
  {
    if groups == [] || groups[0].spec == s then 0 else 1 + FindSpec(groups[1..], s)
  }

  function Joined(g: WindowGroup, w: Entry): WindowGroup
    requires IsCall(w.call)
  {
    WindowGroup(g.spec, g.functions + [FunctionOf(w.call)], g.outputs + [w.output])
  }

  lemma JoinedMembers(g: WindowGroup, w: Entry)
    requires IsGroup(g) && IsCall(w.call) && SpecOf(w.call) == g.spec
    ensures IsGroup(Joined(g, w)) && Members(Joined(g, w)) == Members(g) + [w]
  {
    CallOfParts(w.call);
  }

  function Alone(w: Entry): (g: WindowGroup)
    requires IsCall(w.call)
    ensures IsGroup(g) && g.spec == SpecOf(w.call)
  {
    WindowGroup(SpecOf(w.call), [FunctionOf(w.call)], [w.output])
  }

  lemma AloneMembers(w: Entry)
    requires IsCall(w.call)
    ensures Members(Alone(w)) == [w]
  {
    CallOfParts(w.call);
  }

  lemma {:induction false} ConcatCounts(parts: seq<seq<Entry>>, k: nat, w: Entry)
    requires k < |parts|
    ensures multiset(Concat(parts[k := parts[k] + [w]])) == multiset(Concat(parts)) + multiset{w}
  {
    var after, n := parts[k := parts[k] + [w]], |parts| - 1;
    if k == n {
      assert after[..n] == parts[..n];
    } else {
      ConcatCounts(parts[..n], k, w);
      assert after[..n] == parts[..n][k := parts[k] + [w]];
    }
  }

  lemma {:induction false} JoinCounts(groups: seq<WindowGroup>, k: nat, w: Entry)
    requires AllGroups(groups) && k < |groups| && IsCall(w.call) && SpecOf(w.call) == groups[k].spec
    ensures AllGroups(groups[k := Joined(groups[k], w)])
    ensures multiset(Flatten(groups[k := Joined(groups[k], w)])) == multiset(Flatten(groups)) + multiset{w}
  {
    JoinedMembers(groups[k], w);
    ConcatCounts(Parts(groups), k, w);
    assert Parts(groups[k := Joined(groups[k], w)]) == Parts(groups)[k := Members(groups[k]) + [w]];
  }

  lemma {:induction false} AloneCounts(groups: seq<WindowGroup>, w: Entry)
    requires AllGroups(groups) && IsCall(w.call)
    ensures AllGroups(groups + [Alone(w)])
    ensures multiset(Flatten(groups + [Alone(w)])) == multiset(Flatten(groups)) + multiset{w}
  {
    AloneMembers(w);
    var after := Parts(groups + [Alone(w)]);
    assert after[|groups|] == [w] && after[..|groups|] == Parts(groups);
  }

  lemma {:induction false} WithSpecNext(windows: seq<Entry>, w: Entry, s: WindowSpec)
    requires AllCalls(windows) && IsCall(w.call)
    ensures AllCalls(windows + [w])
    ensures WithSpec(windows + [w], s) == if SpecOf(w.call) == s then WithSpec(windows, s) + [w]
            else WithSpec(windows, s)
  {
    assert (windows + [w])[..|windows|] == windows;
  }

  /** Every member of every group is where its specification says. */
  ghost predicate Sorted(windows: seq<Entry>, groups: seq<WindowGroup>)
    requires AllCalls(windows) && AllGroups(groups)
  {
    forall g :: 0 <= g < |groups| ==> Members(groups[g]) == WithSpec(windows, groups[g].spec)
  }

  lemma {:induction false} JoinSorts(windows: seq<Entry>, groups: seq<WindowGroup>, k: nat, w: Entry)
    requires AllCalls(windows) && AllGroups(groups) && Sorted(windows, groups)
    requires k < |groups| && IsCall(w.call) && SpecOf(w.call) == groups[k].spec
    requires forall g :: 0 <= g < |groups| && g != k ==> groups[g].spec != groups[k].spec
    ensures AllCalls(windows + [w]) && AllGroups(groups[k := Joined(groups[k], w)])
    ensures Sorted(windows + [w], groups[k := Joined(groups[k], w)])
  {
    var after := groups[k := Joined(groups[k], w)];
    JoinedMembers(groups[k], w);
    forall g | 0 <= g < |after| ensures Members(after[g]) == WithSpec(windows + [w], after[g].spec) {
      WithSpecNext(windows, w, groups[g].spec);
      if g != k { assert after[g] == groups[g]; }
    }
  }

  lemma {:induction false} AloneSorts(windows: seq<Entry>, groups: seq<WindowGroup>, w: Entry)
    requires AllCalls(windows) && AllGroups(groups) && Sorted(windows, groups) && IsCall(w.call)
    requires forall g :: 0 <= g < |groups| ==> groups[g].spec != SpecOf(w.call)
    requires forall i :: 0 <= i < |windows| ==> SpecOf(windows[i].call) != SpecOf(w.call)
    ensures AllCalls(windows + [w]) && AllGroups(groups + [Alone(w)])
    ensures Sorted(windows + [w], groups + [Alone(w)])
  {
    var after := groups + [Alone(w)];
    AloneMembers(w);
    forall g | 0 <= g < |after| ensures Members(after[g]) == WithSpec(windows + [w], after[g].spec) {
      WithSpecNext(windows, w, after[g].spec);
      if g < |groups| {
        assert after[g] == groups[g];
      } else {
        NoneWithSpec(windows, SpecOf(w.call));
      }
    }
  }

  /** Every specification among the calls has a group. */
  ghost predicate Covered(windows: seq<Entry>, groups: seq<WindowGroup>)
    requires AllCalls(windows)
  {
    forall i :: 0 <= i < |windows| ==> HasSpec(groups, SpecOf(windows[i].call))
  }

  lemma {:induction false} CoverGrows(windows: seq<Entry>, groups: seq<WindowGroup>, after: seq<WindowGroup>, w: Entry,
                                      k: nat)
    requires AllCalls(windows) && IsCall(w.call) && Covered(windows, groups)
    requires |groups| <= |after| && forall g :: 0 <= g < |groups| ==> after[g].spec == groups[g].spec
    requires k < |after| && after[k].spec == SpecOf(w.call)
    ensures AllCalls(windows + [w]) && Covered(windows + [w], after)
  {
    forall i | 0 <= i < |windows + [w]| ensures HasSpec(after, SpecOf((windows + [w])[i].call)) {
      if i < |windows| {
        var g :| 0 <= g < |groups| && groups[g].spec == SpecOf(windows[i].call);
        assert after[g].spec == groups[g].spec;
      }
    }
  }

  ghost predicate DistinctSpecs(groups: seq<WindowGroup>) {
    forall g, h :: 0 <= g < h < |groups| ==> groups[g].spec != groups[h].spec
  }

  /** A call with a known specification joins its group. */
  lemma {:induction false} CallJoins(windows: seq<Entry>, groups: seq<WindowGroup>, k: nat, w: Entry)
    requires AllCalls(windows) && IsCall(w.call) && Grouped(windows, groups)
    requires k < |groups| && groups[k].spec == SpecOf(w.call)
    ensures AllCalls(windows + [w]) && Grouped(windows + [w], groups[k := Joined(groups[k], w)])
  {
    JoinCounts(groups, k, w);
    JoinSorts(windows, groups, k, w);
    CoverGrows(windows, groups, groups[k := Joined(groups[k], w)], w, k);
    assert multiset(windows + [w]) == multiset(windows) + multiset{w};
  }

  /** A call with a new specification opens a group. */
  lemma {:induction false} CallOpens(windows: seq<Entry>, groups: seq<WindowGroup>, w: Entry)
    requires AllCalls(windows) && IsCall(w.call) && Grouped(windows, groups)
    requires forall g :: 0 <= g < |groups| ==> groups[g].spec != SpecOf(w.call)
    ensures AllCalls(windows + [w]) && Grouped(windows + [w], groups + [Alone(w)])
  {
    AloneCounts(groups, w);
    forall i | 0 <= i < |windows| ensures SpecOf(windows[i].call) != SpecOf(w.call) {
      assert HasSpec(groups, SpecOf(windows[i].call));
    }
    AloneSorts(windows, groups, w);
    CoverGrows(windows, groups, groups + [Alone(w)], w, |groups|);
    assert multiset(windows + [w]) == multiset(windows) + multiset{w};
  }

  lemma {:induction false} NoneWithSpec(windows: seq<Entry>, s: WindowSpec)
    requires AllCalls(windows) && forall i :: 0 <= i < |windows| ==> SpecOf(windows[i].call) != s
    ensures WithSpec(windows, s) == []
  {
    if windows != [] {
      var n := |windows| - 1;
      assert forall i :: 0 <= i < n ==> windows[..n][i] == windows[i];
      NoneWithSpec(windows[..n], s);
    }
  }

  /** The first call with the one specification comes before every call with the other. */
  ghost predicate ComesFirst(windows: seq<Entry>, s: WindowSpec, t: WindowSpec)
    requires AllCalls(windows)
  {
    exists i :: 0 <= i < |windows| && SpecOf(windows[i].call) == s && NotUpTo(windows, i, t)
  }

  ghost predicate NotUpTo(windows: seq<Entry>, i: nat, t: WindowSpec)
    requires AllCalls(windows) && i < |windows|
  {
    forall j :: 0 <= j <= i ==> SpecOf(windows[j].call) != t
  }

  /** The groups stand in the order in which their specifications first occur. */
  ghost predicate InFirstOrder(windows: seq<Entry>, groups: seq<WindowGroup>)
    requires AllCalls(windows)
  {
    forall g, h :: 0 <= g < h < |groups| ==> ComesFirst(windows, groups[g].spec, groups[h].spec)
  }

  lemma {:induction false} StillFirst(windows: seq<Entry>, w: Entry, s: WindowSpec, t: WindowSpec)
    requires AllCalls(windows) && IsCall(w.call) && ComesFirst(windows, s, t)
    ensures AllCalls(windows + [w]) && ComesFirst(windows + [w], s, t)
  {
    var i :| 0 <= i < |windows| && SpecOf(windows[i].call) == s && NotUpTo(windows, i, t);
    var more := windows + [w];
    assert forall j :: 0 <= j <= i ==> more[j] == windows[j];
    assert SpecOf(more[i].call) == s && NotUpTo(more, i, t);
  }

  /** A new specification comes behind all those that have a group. */
  lemma {:induction false} NewComesLast(windows: seq<Entry>, groups: seq<WindowGroup>, g: nat, w: Entry)
    requires AllCalls(windows) && IsCall(w.call) && Grouped(windows, groups) && g < |groups|
    requires forall k :: 0 <= k < |groups| ==> groups[k].spec != SpecOf(w.call)
    ensures ComesFirst(windows, groups[g].spec, SpecOf(w.call))
  {
    var s := groups[g].spec;
    assert |Members(groups[g])| > 0 && Members(groups[g]) == WithSpec(windows, s);
    if forall i :: 0 <= i < |windows| ==> SpecOf(windows[i].call) != s { NoneWithSpec(windows, s); }
    var i :| 0 <= i < |windows| && SpecOf(windows[i].call) == s;
    forall j | 0 <= j <= i ensures SpecOf(windows[j].call) != SpecOf(w.call) {
      assert HasSpec(groups, SpecOf(windows[j].call));
    }
    assert NotUpTo(windows, i, SpecOf(w.call));
  }

  lemma {:induction false} OrderKept(windows: seq<Entry>, groups: seq<WindowGroup>, after: seq<WindowGroup>, w: Entry)
    requires AllCalls(windows) && IsCall(w.call) && Grouped(windows, groups) && InFirstOrder(windows, groups)
    requires |groups| <= |after| <= |groups| + 1
    requires forall g :: 0 <= g < |groups| ==> after[g].spec == groups[g].spec
    requires |after| > |groups| ==>
      after[|groups|].spec == SpecOf(w.call) && forall g :: 0 <= g < |groups| ==> groups[g].spec != SpecOf(w.call)
    ensures AllCalls(windows + [w]) && InFirstOrder(windows + [w], after)
  {
    forall g, h | 0 <= g < h < |after| ensures ComesFirst(windows + [w], after[g].spec, after[h].spec) {
      if h == |groups| { NewComesLast(windows, groups, g, w); }
      StillFirst(windows, w, after[g].spec, after[h].spec);
    }
  }

  /** Puts one more call in the group of its specification. */
  method Place(groups: seq<WindowGroup>, w: Entry, ghost windows: seq<Entry>) returns (after: seq<WindowGroup>)
    requires AllCalls(windows) && IsCall(w.call) && Grouped(windows, groups) && InFirstOrder(windows, groups)
    ensures AllCalls(windows + [w]) && Grouped(windows + [w], after) && InFirstOrder(windows + [w], after)
  {
    var k := FindSpec(groups, SpecOf(w.call));
    if k < |groups| {
      CallJoins(windows, groups, k, w);
      after := groups[k := Joined(groups[k], w)];
    } else {
      CallOpens(windows, groups, w);
      after := groups + [Alone(w)];
    }
    OrderKept(windows, groups, after, w);
  }

  method GroupWindows(windows: seq<Entry>) returns (groups: seq<WindowGroup>)
    requires AllCalls(windows)
    ensures Grouped(windows, groups) && InFirstOrder(windows, groups)
  {
    groups := [];
    NothingGrouped();
    assert windows[..0] == [];
    for i := 0 to |windows|
      invariant AllCalls(windows[..i]) && Grouped(windows[..i], groups) && InFirstOrder(windows[..i], groups)
    {
      groups := Place(groups, windows[i], windows[..i]);
      TakeNext(windows, i);
    }
    assert windows[..|windows|] == windows;
  }

  lemma {:induction false} TakeNext(windows: seq<Entry>, i: nat)
    requires i < |windows|
    ensures windows[..i] + [windows[i]] == windows[..i + 1]
  {
  }

  lemma {:induction false} NothingGrouped()
    ensures AllCalls([]) && Grouped([], [])
  {
  }

  // ---------------------------------------------------------------------- stacking

  /** The operators put on top of the child plan, bottom first. */
  datatype Layer =
    | SortLayer(fields: seq<SortField>)
    | WindowLayer(fields: seq<SortField>, partitionLen: nat, functions: seq<WindowFunction>, outputs: seq<ColumnRef>)

  /** A window operator appends its outputs to its child's schema; a sort changes no column. */
  function SchemaOf(base: Schema, layers: seq<Layer>): (r: Schema) {
    if layers == [] then base
    else
      var below, top := SchemaOf(base, layers[..|layers| - 1]), layers[|layers| - 1];
      if top.WindowLayer? then below + top.outputs else below
  }

  const ASCENDING := SortFlags(true, false)

  function SortFieldsOf(s: WindowSpec): (fields: seq<SortField>)
    ensures |fields| == |s.partitionBy| + |s.orderBy|
  {
    seq(|s.partitionBy|, i requires 0 <= i < |s.partitionBy| => SortField(s.partitionBy[i], ASCENDING)) + s.orderBy
  }

  /** The input is sorted by the partition keys first, ascending and nulls last, and within a partition as asked. */
  lemma {:induction false} PartitionKeysFirst(s: WindowSpec, i: nat)
    requires i < |SortFieldsOf(s)|
    ensures SortFieldsOf(s)[i] ==
      if i < |s.partitionBy| then SortField(s.partitionBy[i], SortFlags(true, false))
      else s.orderBy[i - |s.partitionBy|]
  {
  }

  /** The specification an operator works by. */
  function LayerSpec(l: Layer): WindowSpec
    requires l.WindowLayer? && l.partitionLen <= |l.fields|
  {
    WindowSpec(seq(l.partitionLen, i requires 0 <= i < l.partitionLen => l.fields[i].expr), l.fields[l.partitionLen..])
  }

  lemma SpecSurvives(s: WindowSpec, functions: seq<WindowFunction>, outputs: seq<ColumnRef>)
    ensures LayerSpec(WindowLayer(SortFieldsOf(s), |s.partitionBy|, functions, outputs)) == s
  {
    var again := LayerSpec(WindowLayer(SortFieldsOf(s), |s.partitionBy|, functions, outputs));
    assert again.partitionBy == s.partitionBy;
    assert again.orderBy == s.orderBy;
  }

  /** The window operators of a stack, as the groups they evaluate. */
  ghost function Evaluated(layers: seq<Layer>): (groups: seq<WindowGroup>) {
    if layers == [] then []
    else
      var below, top := Evaluated(layers[..|layers| - 1]), layers[|layers| - 1];
      if top.WindowLayer? && top.partitionLen <= |top.fields|
      then below + [WindowGroup(LayerSpec(top), top.functions, top.outputs)]
      else below
  }

  /** Every window operator with keys stands directly on a sort by exactly those keys. */
  ghost predicate InputsSorted(layers: seq<Layer>) {
    forall i :: 0 <= i < |layers| ==> InputSorted(layers, i)
  }

  ghost predicate InputSorted(layers: seq<Layer>, i: nat)
    requires i < |layers|
  {
    layers[i].WindowLayer? && layers[i].fields != [] ==> i > 0 && layers[i - 1] == SortLayer(layers[i].fields)
  }

  function FlatOutputs(groups: seq<WindowGroup>): (r: seq<ColumnRef>)
  {
    if groups == [] then [] else FlatOutputs(groups[..|groups| - 1]) + groups[|groups| - 1].outputs
  }

  lemma {:induction false} FlatOutputsOfMembers(groups: seq<WindowGroup>)
    requires AllGroups(groups)
    ensures |FlatOutputs(groups)| == |Flatten(groups)|
    ensures forall j :: 0 <= j < |Flatten(groups)| ==> FlatOutputs(groups)[j] == Flatten(groups)[j].output
  {
    if groups != [] {
      var n := |groups| - 1;
      FlatOutputsOfMembers(groups[..n]);
      assert Parts(groups)[..n] == Parts(groups[..n]);
      assert |Members(groups[n])| == |groups[n].outputs|;
    }
  }

  /** The stack evaluates the groups in order, each on rows sorted by its keys, and its schema
      is the child's followed by all outputs in that order. */
  ghost predicate Stacked(base: Schema, groups: seq<WindowGroup>, layers: seq<Layer>) {
    && Evaluated(layers) == groups
    && InputsSorted(layers)
    && SchemaOf(base, layers) == base + FlatOutputs(groups)
  }

  lemma {:induction false} OneMoreLayer(layers: seq<Layer>, top: Layer, base: Schema)
    ensures SchemaOf(base, layers + [top]) == if top.WindowLayer? then SchemaOf(base, layers) + top.outputs
            else SchemaOf(base, layers)
    ensures Evaluated(layers + [top]) ==
      if top.WindowLayer? && top.partitionLen <= |top.fields|
      then Evaluated(layers) + [WindowGroup(LayerSpec(top), top.functions, top.outputs)] else Evaluated(layers)
  {
    assert (layers + [top])[..|layers|] == layers;
  }

  lemma {:induction false} OneMoreSorted(layers: seq<Layer>, top: Layer)
    requires InputsSorted(layers)
    requires top.WindowLayer? && top.fields != [] ==> layers != [] && layers[|layers| - 1] == SortLayer(top.fields)
    ensures InputsSorted(layers + [top])
  {
    forall i | 0 <= i < |layers| ensures InputSorted(layers + [top], i) { assert InputSorted(layers, i); }
  }

  /** The operators of one group. */
  function LayersOf(g: WindowGroup): (layers: seq<Layer>) {
    if SortFieldsOf(g.spec) == [] then [TopOf(g)] else [SortLayer(SortFieldsOf(g.spec)), TopOf(g)]
  }

  function SortedInput(layers: seq<Layer>, fields: seq<SortField>): seq<Layer> {
    if fields == [] then layers else layers + [SortLayer(fields)]
  }

  lemma {:induction false} SortedInputKeeps(base: Schema, layers: seq<Layer>, fields: seq<SortField>)
    requires InputsSorted(layers)
    ensures
      var below := SortedInput(layers, fields);
      && InputsSorted(below)
      && SchemaOf(base, below) == SchemaOf(base, layers)
      && Evaluated(below) == Evaluated(layers)
      && (fields != [] ==> below != [] && below[|below| - 1] == SortLayer(fields))
  {
    if fields != [] {
      OneMoreLayer(layers, SortLayer(fields), base);
      OneMoreSorted(layers, SortLayer(fields));
    }
  }

  function TopOf(g: WindowGroup): Layer {
    WindowLayer(SortFieldsOf(g.spec), |g.spec.partitionBy|, g.functions, g.outputs)
  }

  lemma {:induction false} LayersSplit(layers: seq<Layer>, g: WindowGroup)
    ensures layers + LayersOf(g) == SortedInput(layers, SortFieldsOf(g.spec)) + [TopOf(g)]
  {
  }

  lemma {:induction false} OneMoreTop(base: Schema, groups: seq<WindowGroup>, below: seq<Layer>, g: WindowGroup)
    requires Stacked(base, groups, below)
    requires SortFieldsOf(g.spec) != [] ==> below != [] && below[|below| - 1] == SortLayer(SortFieldsOf(g.spec))
    ensures Stacked(base, groups + [g], below + [TopOf(g)])
  {
    OneMoreLayer(below, TopOf(g), base);
    OneMoreSorted(below, TopOf(g));
    SpecSurvives(g.spec, g.functions, g.outputs);
    FlatOutputsNext(groups, g);
    assert base + FlatOutputs(groups) + g.outputs == base + (FlatOutputs(groups) + g.outputs);
  }

  lemma {:induction false} OneMoreGroup(base: Schema, groups: seq<WindowGroup>, layers: seq<Layer>, g: WindowGroup)
    requires Stacked(base, groups, layers)
    ensures Stacked(base, groups + [g], layers + LayersOf(g))
  {
    SortedInputKeeps(base, layers, SortFieldsOf(g.spec));
    OneMoreTop(base, groups, SortedInput(layers, SortFieldsOf(g.spec)), g);
    LayersSplit(layers, g);
  }

  lemma {:induction false} FlatOutputsNext(groups: seq<WindowGroup>, g: WindowGroup)
    ensures FlatOutputs(groups + [g]) == FlatOutputs(groups) + g.outputs
  {
    assert (groups + [g])[..|groups|] == groups;
  }

  method Stack(groups: seq<WindowGroup>, ghost base: Schema) returns (layers: seq<Layer>)
    ensures Stacked(base, groups, layers)
  {
    layers := [];
    ghost var done: seq<WindowGroup> := [];
    for g := 0 to |groups|
      invariant done == groups[..g] && Stacked(base, done, layers)
    {
      OneMoreGroup(base, done, layers, groups[g]);
      layers := layers + LayersOf(groups[g]);
      done := done + [groups[g]];
    }
    assert done == groups;
  }
}
