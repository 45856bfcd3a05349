/** Common table expressions: the binder's stack of bindings against lexical scoping. */
module CteScoping {
  import opened Expressions

  // ------------------------------------------------------------------ queries and plans

  datatype Query = Query(withClause: Option<With>, body: Body, orderBy: bool, orderByAll: bool, limit: bool)

  datatype With = With(recursive: bool, ctes: seq<Cte>)

  /** `compatible` tells whether the aliases fit, and for a recursive one whether the columns of its two terms agree. */
  datatype Cte = Cte(name: string, query: Query, hasFrom: bool, materialized: bool, compatible: bool)

  datatype Body =
    | Select(sources: seq<Source>)
    | Nested(query: Query)
    | SetOperation(supported: bool, union: bool, all: bool, left: Body, right: Body)
    | Values
    | OtherBody

  /** Where a select reads from: a name, or a query in FROM or in an expression. */
  datatype Source = Named(name: string) | Derived(subquery: Query)

  /** A plan as far as names matter: what every reference was resolved to.  Binding makes every recursive
      scan with `own` false; statements about one recursive CTE set it in the scans of that CTE. */
  datatype Plan =
    | BaseScan(table: string)
    | RecursiveScan(own: bool)
    | SelectPlan(inputs: seq<Plan>)
    | SetPlan(left: Plan, right: Plan)
    | RecursivePlan(anchor: Plan, step: Plan)
    | ValuesPlan

  predicate Scans(p: Plan, table: string)
    decreases p
  {
    match p
    case BaseScan(t) => t == table
    case SelectPlan(inputs) => exists i :: 0 <= i < |inputs| && Scans(inputs[i], table)
    case SetPlan(l, r) => Scans(l, table) || Scans(r, table)
    case RecursivePlan(a, s) => Scans(a, table) || Scans(s, table)
    case _ => false
  }

  function RecursiveScans(p: Plan): nat
    decreases p
  {
    match p
    case RecursiveScan(_) => 1
    case SelectPlan(inputs) => RecursiveScansAll(inputs)
    case SetPlan(l, r) => RecursiveScans(l) + RecursiveScans(r)
    case RecursivePlan(a, s) => RecursiveScans(a) + RecursiveScans(s)
    case _ => 0
  }

  function RecursiveScansAll(ps: seq<Plan>): nat
    decreases ps
  {
    if ps == [] then 0 else RecursiveScans(ps[0]) + RecursiveScansAll(ps[1..])
  }

  // ------------------------------------------------------------------ lexical scoping

  type Env = map<string, Plan>

  /** Resolving by environments: each WITH extends the environment of its query and of nothing else;
      a binding is visible to the later ones and to the body, and hides an outer one of its name. */
  function ResolveQuery(q: Query, env: Env, catalog: set<string>): (r: Option<Plan>)
    decreases q
  {
    if q.withClause.Some? && q.withClause.value.recursive && |q.withClause.value.ctes| != 1 then None
    else
      var inner := if q.withClause.None? then Some(env) else ResolveCtes(q.withClause.value.recursive,
          q.withClause.value.ctes, env, {}, catalog);
      if inner.None? || q.orderByAll then None
      else if q.body.Values? then Some(ValuesPlan)
      else ResolveBody(q.body, inner.value, catalog)
  }

  function ResolveCtes(recursive: bool, ctes: seq<Cte>, env: Env, bound: set<string>,
                       catalog: set<string>): (r: Option<Env>)
    decreases ctes
  {
    if ctes == [] then Some(env)
    else
      var c := ctes[0];
      if c.hasFrom || c.materialized then None
      else
        var plan := if recursive then ResolveRecursive(c, env, catalog) else ResolvePlain(c, env, catalog);
        if plan.None? || c.name in bound then None
        else ResolveCtes(recursive, ctes[1..], env[c.name := plan.value], bound + {c.name}, catalog)
  }

  function ResolvePlain(c: Cte, env: Env, catalog: set<string>): (r: Option<Plan>)
    decreases c
  {
    var plan := ResolveQuery(c.query, env, catalog);
    if c.compatible then plan else None
  }

  /** The recursive term, and only it, sees its own name, as a scan of the rows so far. */
  function ResolveRecursive(c: Cte, env: Env, catalog: set<string>): (r: Option<Plan>)
    decreases c
  {
    var q := c.query;
    if q.withClause.Some? || q.orderBy || q.orderByAll || q.limit || !q.body.SetOperation? || !q.body.union ||
       !q.body.all then None
    else
      var anchor := ResolveBody(q.body.left, env, catalog);
      if anchor.None? || Scans(anchor.value, c.name) then None
      else
        var step := ResolveBody(q.body.right, env[c.name := RecursiveScan(false)], catalog);
        if step.None? || RecursiveScans(step.value) != 1 || !c.compatible then None
        else Some(RecursivePlan(anchor.value, step.value))
  }

  function ResolveBody(b: Body, env: Env, catalog: set<string>): (r: Option<Plan>)
    decreases b
  {
    match b
    case Select(sources) =>
      var inputs := ResolveSources(sources, env, catalog);
      if inputs.Some? then Some(SelectPlan(inputs.value)) else None
    case Nested(q) => ResolveQuery(q, env, catalog)
    case SetOperation(supported, _, _, left, right) =>
      if !supported then None
      else
        var l := ResolveBody(left, env, catalog);
        var r := ResolveBody(right, env, catalog);
        if l.Some? && r.Some? then Some(SetPlan(l.value, r.value)) else None
    case _ => None
  }

  function ResolveSource(s: Source, env: Env, catalog: set<string>): (r: Option<Plan>)
    decreases s
  {
    match s
    case Named(name) => if name in env then Some(env[name]) else if name in catalog then Some(BaseScan(name)) else None
    case Derived(q) => ResolveQuery(q, env, catalog)
  }

  function ResolveSources(ss: seq<Source>, env: Env, catalog: set<string>): (r: Option<seq<Plan>>)
    decreases ss
  {
    if ss == [] then Some([])
    else
      var first := ResolveSource(ss[0], env, catalog);
      var rest := ResolveSources(ss[1..], env, catalog);
      if first.Some? && rest.Some? then Some([first.value] + rest.value) else None
  }

  // ------------------------------------------------------------------ the stack

  datatype Binding = Binding(name: string, depth: nat, plan: Plan)

  /** Depths never fall along the stack, and a level binds a name once. */
  ghost predicate InOrder(below: Binding, above: Binding) {
    below.depth <= above.depth && (below.depth == above.depth ==> below.name != above.name)
  }

  ghost predicate Ordered(ctes: seq<Binding>) {
    forall i, j :: 0 <= i < j < |ctes| ==> InOrder(ctes[i], ctes[j])
  }

  /** The stack is in order and no binding is above the current depth. */
  ghost predicate Scoped(ctes: seq<Binding>, depth: nat) {
    Ordered(ctes) && forall i :: 0 <= i < |ctes| ==> ctes[i].depth <= depth
  }

  /** The environment a stack stands for: later bindings hide earlier ones. */
  ghost function EnvOf(ctes: seq<Binding>): Env {
    if ctes == [] then map[] else EnvOf(ctes[..|ctes| - 1])[ctes[|ctes| - 1].name := ctes[|ctes| - 1].plan]
  }

  /** Searching the stack from its top. */
  function Lookup(ctes: seq<Binding>, name: string): (r: Option<Plan>) {
    if ctes == [] then None
    else if ctes[|ctes| - 1].name == name then Some(ctes[|ctes| - 1].plan)
    else Lookup(ctes[..|ctes| - 1], name)
  }

  /** `ctes[i]` is the binding of `name` nearest to the top. */
  ghost predicate Innermost(ctes: seq<Binding>, i: nat, name: string) {
    i < |ctes| && ctes[i].name == name && forall j :: i < j < |ctes| ==> ctes[j].name != name
  }

  /** The search finds the innermost binding, which is what the environment has. */
  lemma {:induction false} LookupIsInnermost(ctes: seq<Binding>, name: string)
    ensures Lookup(ctes, name) == if name in EnvOf(ctes) then Some(EnvOf(ctes)[name]) else None
    ensures name in EnvOf(ctes) ==> exists i: nat :: Innermost(ctes, i, name) && ctes[i].plan == EnvOf(ctes)[name]
    ensures name !in EnvOf(ctes) ==> forall i :: 0 <= i < |ctes| ==> ctes[i].name != name
  {
    if ctes != [] {
      var n := |ctes| - 1;
      LookupIsInnermost(ctes[..n], name);
      if ctes[n].name == name {
        assert Innermost(ctes, n, name);
      } else if name in EnvOf(ctes) {
        var i: nat :| Innermost(ctes[..n], i, name) && ctes[..n][i].plan == EnvOf(ctes[..n])[name];
        assert ctes[i] == ctes[..n][i];
        forall j | i < j < |ctes| ensures ctes[j].name != name { if j < n { assert ctes[j] == ctes[..n][j]; } }
        assert Innermost(ctes, i, name);
      } else {
        forall i | 0 <= i < n ensures ctes[i].name != name { assert ctes[i] == ctes[..n][i]; }
      }
    }
  }

  lemma {:induction false} EnvOfPush(ctes: seq<Binding>, b: Binding)
    ensures EnvOf(ctes + [b]) == EnvOf(ctes)[b.name := b.plan]
  {
    assert (ctes + [b])[..|ctes|] == ctes;
  }

  /** A name bound at the given depth, among the bindings at the top that have this depth. */
  predicate TakenAtTop(ctes: seq<Binding>, depth: nat, name: string) {
    ctes != [] && ctes[|ctes| - 1].depth == depth && (ctes[|ctes| - 1].name == name ||
                                                      TakenAtTop(ctes[..|ctes| - 1], depth, name))
  }

  ghost function NamesFrom(ctes: seq<Binding>, start: nat): set<string> {
    set i | start <= i < |ctes| :: ctes[i].name
  }

  /** The bindings made since `start` are the ones at the current depth. */
  ghost predicate LevelFrom(ctes: seq<Binding>, start: nat, depth: nat) {
    && start <= |ctes|
    && (forall i :: 0 <= i < start ==> ctes[i].depth < depth)
    && (forall i :: start <= i < |ctes| ==> ctes[i].depth == depth)
  }

  lemma {:induction false} TakenIsBound(ctes: seq<Binding>, start: nat, depth: nat, name: string)
    requires LevelFrom(ctes, start, depth)
    ensures TakenAtTop(ctes, depth, name) <==> name in NamesFrom(ctes, start)
    decreases |ctes|
  {
    if start < |ctes| {
      var n := |ctes| - 1;
      assert forall i :: 0 <= i < n ==> ctes[..n][i] == ctes[i];
      TakenIsBound(ctes[..n], start, depth, name);
      NamesFromPush(ctes[..n], start, ctes[n]);
      assert ctes[..n] + [ctes[n]] == ctes;
    }
  }

  lemma {:induction false} NamesFromPush(ctes: seq<Binding>, start: nat, b: Binding)
    requires start <= |ctes|
    ensures NamesFrom(ctes + [b], start) == NamesFrom(ctes, start) + {b.name}
  {
    var more := ctes + [b];
    forall name | name in NamesFrom(ctes, start) + {b.name} ensures name in NamesFrom(more, start) {
      if name == b.name {
        assert more[|ctes|].name == name;
      } else {
        var i :| start <= i < |ctes| && ctes[i].name == name;
        assert more[i].name == name;
      }
    }
  }

  lemma {:induction false} ScopedPush(ctes: seq<Binding>, start: nat, b: Binding)
    requires Scoped(ctes, b.depth) && LevelFrom(ctes, start, b.depth) && b.name !in NamesFrom(ctes, start)
    ensures Scoped(ctes + [b], b.depth) && LevelFrom(ctes + [b], start, b.depth)
  {
    forall i | start <= i < |ctes| ensures ctes[i].name != b.name { assert ctes[i].name in NamesFrom(ctes, start); }
  }

  class BinderContext {
    var ctes: seq<Binding>
    var depth: nat
    var step: nat

    constructor (ctes: seq<Binding>, depth: nat, step: nat)
      ensures this.ctes == ctes && this.depth == depth && this.step == step
    {
      this.ctes, this.depth, this.step := ctes, depth, step;
    }

    ghost predicate Valid()
      reads this
    {
      Scoped(ctes, depth)
    }

    /** The stack only grew, and is well scoped, whether or not binding succeeded. */
    twostate predicate Grown()
      reads this
    {
      Valid() && old(ctes) <= ctes && old(depth) <= depth
    }

    /** The name must be new at its level. */
    method AddCte(name: string, plan: Plan, ghost start: nat) returns (ok: bool)
      requires Valid() && LevelFrom(ctes, start, depth)
      modifies `ctes
      ensures Grown() && LevelFrom(ctes, start, depth)
      ensures ok == (name !in NamesFrom(old(ctes), start))
      ensures ctes == if ok then old(ctes) + [Binding(name, depth, plan)] else old(ctes)
    {
      TakenIsBound(ctes, start, depth, name);
      if TakenAtTop(ctes, depth, name) { return false; }
      ScopedPush(ctes, start, Binding(name, depth, plan));
      ctes := ctes + [Binding(name, depth, plan)];
      return true;
    }

    method BindSource(s: Source, catalog: set<string>) returns (r: Option<Plan>)
      requires Valid()
      ensures r == ResolveSource(s, EnvOf(ctes), catalog)
      decreases s
    {
      match s
      case Named(name) =>
        LookupIsInnermost(ctes, name);
        r := Lookup(ctes, name);
        if r.None? && name in catalog { r := Some(BaseScan(name)); }
      case Derived(q) =>
        var fork := new BinderContext(ctes, depth, step);
        r := fork.BindQuery(q, catalog);
    }

    /** Leaves the bind step wherever the clauses of the select left it. */
    method BindSelect(sources: seq<Source>, catalog: set<string>) returns (r: Option<Plan>)
      requires Valid()
      modifies `step
      ensures r == ResolveBody(Select(sources), EnvOf(ctes), catalog)
      decreases sources
    {
      step := *;
      var inputs: seq<Plan> := [];
      ghost var env := EnvOf(ctes);
      for k := 0 to |sources|
        invariant ResolveSources(sources[..k], env, catalog) == Some(inputs)
      {
        ResolveOneMore(sources, k, env, catalog);
        var input := BindSource(sources[k], catalog);
        if input.None? {
          PrefixFails(sources, k + 1, env, catalog);
          return None;
        }
        inputs := inputs + [input.value];
      }
      assert sources[..|sources|] == sources;
      r := Some(SelectPlan(inputs));
    }

    method BindSetOperation(b: Body, catalog: set<string>) returns (r: Option<Plan>)
      requires Valid() && b.SetOperation?
      ensures r == ResolveBody(b, EnvOf(ctes), catalog)
      decreases b, 0
    {
      if !b.supported { return None; }
      var left := new BinderContext(ctes, depth, step);
      var l := left.BindSetExpr(b.left, catalog);
      if l.None? { return None; }
      var right := new BinderContext(ctes, depth, step);
      var rr := right.BindSetExpr(b.right, catalog);
      if rr.None? { return None; }
      r := Some(SetPlan(l.value, rr.value));
    }

    method BindSetExpr(b: Body, catalog: set<string>) returns (r: Option<Plan>)
      requires Valid()
      modifies this
      ensures Grown() && r == ResolveBody(b, EnvOf(old(ctes)), catalog)
      ensures r.Some? ==> ctes == old(ctes) && depth == old(depth)
      decreases b, 1
    {
      match b
      case Select(sources) => r := BindSelect(sources, catalog);
      case Nested(q) => r := BindQuery(q, catalog);
      case SetOperation(_, _, _, _, _) => r := BindSetOperation(b, catalog);
      case _ => r := None;
    }

    method BindCtePlan(c: Cte, catalog: set<string>) returns (r: Option<Plan>)
      requires Valid()
      ensures r == ResolvePlain(c, EnvOf(ctes), catalog)
      decreases c, 0
    {
      var fork := new BinderContext(ctes, depth, step);
      r := fork.BindQuery(c.query, catalog);
      if !c.compatible { r := None; }
    }

    /** The name is bound to a scan while the recursive term is bound, and unbound again. */
    method BindRecursiveTerm(name: string, term: Body, catalog: set<string>) returns (r: Option<Plan>)
      requires Valid() && LevelFrom(ctes, |ctes|, depth)
      modifies this
      ensures r == ResolveBody(term, EnvOf(old(ctes))[name := RecursiveScan(false)], catalog)
      ensures ctes == old(ctes) && depth == old(depth) && step == old(step)
      decreases term, 2
    {
      var len, level := |ctes|, depth;
      var _ := AddCte(name, RecursiveScan(false), len);
      EnvOfPush(old(ctes), Binding(name, depth, RecursiveScan(false)));
      var binder := new BinderContext(ctes, depth, step);
      r := binder.BindSetExpr(term, catalog);
      ctes, depth := ctes[..len], level;
    }

    method BindRecursiveCtePlan(c: Cte, catalog: set<string>) returns (r: Option<Plan>)
      requires Valid() && LevelFrom(ctes, |ctes|, depth)
      modifies this
      ensures r == ResolveRecursive(c, EnvOf(old(ctes)), catalog)
      ensures ctes == old(ctes) && depth == old(depth) && step == old(step)
      decreases c, 0
    {
      var q := c.query;
      if q.withClause.Some? || q.orderBy || q.orderByAll || q.limit || !q.body.SetOperation? || !q.body.union ||
         !q.body.all { return None; }
      var binder := new BinderContext(ctes, depth, step);
      var anchor := binder.BindSetExpr(q.body.left, catalog);
      if anchor.None? || Scans(anchor.value, c.name) { return None; }
      var term := BindRecursiveTerm(c.name, q.body.right, catalog);
      if term.None? || RecursiveScans(term.value) != 1 || !c.compatible { return None; }
      r := Some(RecursivePlan(anchor.value, term.value));
    }

    /** Binds one CTE of a WITH that began at `start`. */
    method BindCte(recursive: bool, c: Cte, catalog: set<string>, ghost start: nat) returns (ok: bool)
      requires Valid() && LevelFrom(ctes, start, depth) && (recursive ==> start == |ctes|)
      modifies this
      ensures Grown() && LevelFrom(ctes, start, depth) && depth == old(depth)
      ensures
        var plan := if recursive then ResolveRecursive(c, EnvOf(old(ctes)), catalog)
            else ResolvePlain(c, EnvOf(old(ctes)), catalog);
        && ok == (!c.hasFrom && !c.materialized && plan.Some? && c.name !in NamesFrom(old(ctes), start))
        && (ok ==> ctes == old(ctes) + [Binding(c.name, depth, plan.value)])
      decreases c, 1
    {
      if c.hasFrom || c.materialized { return false; }
      var plan;
      if recursive {
        plan := BindRecursiveCtePlan(c, catalog);
      } else {
        plan := BindCtePlan(c, catalog);
      }
      if plan.None? { return false; }
      ok := AddCte(c.name, plan.value, start);
    }

    /** Binds the CTEs of one WITH, each seeing those before it. */
    method BindCtes(recursive: bool, list: seq<Cte>, catalog: set<string>) returns (ok: bool)
      requires Valid() && LevelFrom(ctes, |ctes|, depth) && (recursive ==> |list| == 1)
      modifies this
      ensures Grown()
      ensures ok == ResolveCtes(recursive, list, EnvOf(old(ctes)), {}, catalog).Some?
      ensures ok ==> Some(EnvOf(ctes)) == ResolveCtes(recursive, list, EnvOf(old(ctes)), {}, catalog)
      decreases list
    {
      ghost var start := |ctes|;
      ghost var all := ResolveCtes(recursive, list, EnvOf(ctes), {}, catalog);
      assert list[0..] == list && NamesFrom(ctes, start) == {};
      for k := 0 to |list|
        invariant Grown() && LevelFrom(ctes, start, depth) && |ctes| == start + k
        invariant all == ResolveCtes(recursive, list[k..], EnvOf(ctes), NamesFrom(ctes, start), catalog)
      {
        ghost var before := ctes;
        CtesUnfold(recursive, list, k, EnvOf(ctes), NamesFrom(ctes, start), catalog);
        ok := BindCte(recursive, list[k], catalog, start);
        if !ok { return; }
        EnvOfPush(before, ctes[|before|]);
        NamesFromPush(before, start, ctes[|before|]);
      }
      return true;
    }

    /** Binds what a query's WITH clause is in front of. */
    method BindBody(b: Body, catalog: set<string>) returns (r: Option<Plan>)
      requires Valid()
      modifies this
      ensures Grown() && r == if b.Values? then Some(ValuesPlan) else ResolveBody(b, EnvOf(old(ctes)), catalog)
      ensures r.Some? ==> ctes == old(ctes) && depth == old(depth)
      decreases b, 1
    {
      match b
      case Select(sources) => r := BindSelect(sources, catalog);
      case Nested(inner) => r := BindQuery(inner, catalog);
      case SetOperation(_, _, _, _, _) => r := BindSetOperation(b, catalog);
      case Values => r := Some(ValuesPlan);
      case OtherBody => r := None;
    }

    /** Opens a level and binds the CTEs of the query's WITH, if it has one. */
    method BindWith(q: Query, catalog: set<string>) returns (ok: bool)
      requires Valid()
      modifies this
      ensures Grown()
      ensures
        var w := q.withClause;
        var inner := if w.None? then Some(EnvOf(old(ctes))) else if w.value.recursive && |w.value.ctes| != 1 then None
                     else ResolveCtes(w.value.recursive, w.value.ctes, EnvOf(old(ctes)), {}, catalog);
        ok == inner.Some? && (ok ==> EnvOf(ctes) == inner.value)
      decreases q, 0
    {
      if q.withClause.None? { return true; }
      var w := q.withClause.value;
      if w.recursive && |w.ctes| != 1 { return false; }
      depth := depth + 1;
      ok := BindCtes(w.recursive, w.ctes, catalog);
    }

    /** Binding a query resolves its names lexically, and a successful one leaves stack, depth and step as it found
        them. */
    method BindQuery(q: Query, catalog: set<string>) returns (r: Option<Plan>)
      requires Valid()
      modifies this
      ensures Grown() && r == ResolveQuery(q, EnvOf(old(ctes)), catalog)
      ensures r.Some? ==> ctes == old(ctes) && depth == old(depth) && step == old(step)
      decreases q
    {
      var originStep, len, level := step, |ctes|, depth;
      var ok := BindWith(q, catalog);
      if !ok || q.orderByAll { return None; }
      ghost var middle := ctes;
      r := BindBody(q.body, catalog);
      if r.None? { return; }
      assert ctes == middle && middle[..len] == old(ctes);
      ctes, depth, step := ctes[..len], level, originStep;
    }
  }

  lemma {:induction false} CtesUnfold(recursive: bool, list: seq<Cte>, k: nat, env: Env, bound: set<string>,
                                      catalog: set<string>)
    requires k < |list|
    ensures
      var c := list[k];
      var plan := if recursive then ResolveRecursive(c, env, catalog) else ResolvePlain(c, env, catalog);
      ResolveCtes(recursive, list[k..], env, bound, catalog) ==
        if c.hasFrom || c.materialized || plan.None? || c.name in bound then None
        else ResolveCtes(recursive, list[k + 1..], env[c.name := plan.value], bound + {c.name}, catalog)
  {
    assert list[k..][0] == list[k] && list[k..][1..] == list[k + 1..];
  }

  lemma {:induction false} ResolveOneMore(ss: seq<Source>, k: nat, env: Env, catalog: set<string>)
    requires k < |ss|
    ensures
      var front, last := ResolveSources(ss[..k], env, catalog), ResolveSource(ss[k], env, catalog);
      ResolveSources(ss[..k + 1], env, catalog) == if front.Some? && last.Some? then Some(front.value + [last.value])
        else None
    decreases k
  {
    if k == 0 {
      assert ss[..1] == [ss[0]] && ss[..0] == [];
      assert ResolveSources([], env, catalog) == Some([]);
      assert [ss[0]][1..] == [];
      var only := ResolveSource(ss[0], env, catalog);
      if only.Some? { assert [only.value] + [] == [] + [only.value]; }
    } else {
      ResolveOneMore(ss[1..], k - 1, env, catalog);
      assert ss[1..][..k - 1] == ss[..k][1..] && ss[1..][..k] == ss[..k + 1][1..] && ss[1..][k - 1] == ss[k];
      var first, middle := ResolveSource(ss[0], env, catalog), ResolveSources(ss[1..][..k - 1], env, catalog);
      var last := ResolveSource(ss[k], env, catalog);
      if first.Some? && middle.Some? && last.Some? {
        assert [first.value] + (middle.value + [last.value]) == [first.value] + middle.value + [last.value];
      }
    }
  }

  lemma {:induction false} PrefixFails(ss: seq<Source>, k: nat, env: Env, catalog: set<string>)
    requires k <= |ss| && ResolveSources(ss[..k], env, catalog).None?
    ensures ResolveSources(ss, env, catalog).None?
    decreases |ss| - k
  {
    if k == |ss| {
      assert ss[..k] == ss;
    } else {
      ResolveOneMore(ss, k, env, catalog);
      PrefixFails(ss, k + 1, env, catalog);
    }
  }

  // ------------------------------------------------------------------ whose scan it is

  function OwnScans(p: Plan): nat
    decreases p
  {
    match p
    case RecursiveScan(own) => if own then 1 else 0
    case SelectPlan(inputs) => OwnScansAll(inputs)
    case SetPlan(l, r) => OwnScans(l) + OwnScans(r)
    case RecursivePlan(a, s) => OwnScans(a) + OwnScans(s)
    case _ => 0
  }

  function OwnScansAll(ps: seq<Plan>): nat
    decreases ps
  {
    if ps == [] then 0 else OwnScans(ps[0]) + OwnScansAll(ps[1..])
  }

  /** The plan as binding makes it. */
  function Unmark(p: Plan): Plan
    decreases p
  {
    match p
    case RecursiveScan(_) => RecursiveScan(false)
    case SelectPlan(inputs) => SelectPlan(UnmarkAll(inputs))
    case SetPlan(l, r) => SetPlan(Unmark(l), Unmark(r))
    case RecursivePlan(a, s) => RecursivePlan(Unmark(a), Unmark(s))
    case _ => p
  }

  function UnmarkAll(ps: seq<Plan>): (r: seq<Plan>)
    ensures |r| == |ps| && forall i :: 0 <= i < |ps| ==> r[i] == Unmark(ps[i])
    decreases ps
  {
    if ps == [] then [] else [Unmark(ps[0])] + UnmarkAll(ps[1..])
  }

  function UnmarkFound(r: Option<Plan>): Option<Plan> {
    if r.Some? then Some(Unmark(r.value)) else None
  }

  function UnmarkEnv(env: Env): Env {
    map n | n in env :: Unmark(env[n])
  }

  lemma {:induction false} UnmarkKeepsScans(p: Plan, table: string)
    ensures Scans(Unmark(p), table) == Scans(p, table) && RecursiveScans(Unmark(p)) == RecursiveScans(p)
    decreases p
  {
    match p
    case SelectPlan(inputs) =>
      UnmarkKeepsCount(inputs);
      forall i | 0 <= i < |inputs| ensures Scans(UnmarkAll(inputs)[i], table) == Scans(inputs[i], table) {
        UnmarkKeepsScans(inputs[i], table);
      }
    case SetPlan(l, r) =>
      UnmarkKeepsScans(l, table);
      UnmarkKeepsScans(r, table);
    case RecursivePlan(a, s) =>
      UnmarkKeepsScans(a, table);
      UnmarkKeepsScans(s, table);
    case _ =>
  }

  lemma {:induction false} UnmarkKeepsCount(ps: seq<Plan>)
    ensures RecursiveScansAll(UnmarkAll(ps)) == RecursiveScansAll(ps)
    decreases ps
  {
    if ps != [] {
      UnmarkKeepsScans(ps[0], "");
      UnmarkKeepsCount(ps[1..]);
      assert UnmarkAll(ps)[1..] == UnmarkAll(ps[1..]);
    }
  }

  lemma {:induction false} UnmarkExtended(env: Env, name: string, plan: Plan)
    ensures UnmarkEnv(env[name := plan]) == UnmarkEnv(env)[name := Unmark(plan)]
  {
  }

  /** Resolving does not look at whose scan a scan is. */
  lemma {:induction false} QueryIgnoresMarks(q: Query, env: Env, catalog: set<string>)
    ensures ResolveQuery(q, UnmarkEnv(env), catalog) == UnmarkFound(ResolveQuery(q, env, catalog))
    decreases q
  {
    if q.withClause.None? {
      BodyIgnoresMarks(q.body, env, catalog);
    } else {
      var w := q.withClause.value;
      CtesIgnoreMarks(w.recursive, w.ctes, env, {}, catalog);
      var inner := ResolveCtes(w.recursive, w.ctes, env, {}, catalog);
      if inner.Some? { BodyIgnoresMarks(q.body, inner.value, catalog); }
    }
  }

  lemma {:induction false} CtesIgnoreMarks(recursive: bool, ctes: seq<Cte>, env: Env, bound: set<string>,
                                           catalog: set<string>)
    ensures
      var r := ResolveCtes(recursive, ctes, env, bound, catalog);
      ResolveCtes(recursive, ctes, UnmarkEnv(env), bound, catalog) == if r.Some? then Some(UnmarkEnv(r.value)) else None
    decreases ctes
  {
    if ctes != [] {
      var c := ctes[0];
      if recursive { RecursiveIgnoresMarks(c, env, catalog); } else { QueryIgnoresMarks(c.query, env, catalog); }
      var plan := if recursive then ResolveRecursive(c, env, catalog) else ResolvePlain(c, env, catalog);
      if plan.Some? {
        UnmarkExtended(env, c.name, plan.value);
        CtesIgnoreMarks(recursive, ctes[1..], env[c.name := plan.value], bound + {c.name}, catalog);
      }
    }
  }

  lemma {:induction false} RecursiveIgnoresMarks(c: Cte, env: Env, catalog: set<string>)
    ensures ResolveRecursive(c, UnmarkEnv(env), catalog) == UnmarkFound(ResolveRecursive(c, env, catalog))
    decreases c
  {
    if c.query.body.SetOperation? {
      var left, right := c.query.body.left, c.query.body.right;
      BodyIgnoresMarks(left, env, catalog);
      UnmarkExtended(env, c.name, RecursiveScan(false));
      BodyIgnoresMarks(right, env[c.name := RecursiveScan(false)], catalog);
      var anchor, step := ResolveBody(left, env, catalog), ResolveBody(right, env[c.name := RecursiveScan(false)],
          catalog);
      if anchor.Some? { UnmarkKeepsScans(anchor.value, c.name); }
      if step.Some? { UnmarkKeepsScans(step.value, c.name); }
    }
  }

  lemma {:induction false} BodyIgnoresMarks(b: Body, env: Env, catalog: set<string>)
    ensures ResolveBody(b, UnmarkEnv(env), catalog) == UnmarkFound(ResolveBody(b, env, catalog))
    decreases b
  {
    match b
    case Select(sources) => SourcesIgnoreMarks(sources, env, catalog);
    case Nested(q) => QueryIgnoresMarks(q, env, catalog);
    case SetOperation(_, _, _, l, r) =>
      BodyIgnoresMarks(l, env, catalog);
      BodyIgnoresMarks(r, env, catalog);
    case _ =>
  }

  lemma {:induction false} SourcesIgnoreMarks(ss: seq<Source>, env: Env, catalog: set<string>)
    ensures
      var r := ResolveSources(ss, env, catalog);
      ResolveSources(ss, UnmarkEnv(env), catalog) == if r.Some? then Some(UnmarkAll(r.value)) else None
    decreases ss
  {
    if ss != [] {
      SourceIgnoresMarks(ss[0], env, catalog);
      SourcesIgnoreMarks(ss[1..], env, catalog);
      var r := ResolveSources(ss, env, catalog);
      if r.Some? { assert UnmarkAll(r.value) == [Unmark(r.value[0])] + UnmarkAll(r.value[1..]); }
    }
  }

  lemma {:induction false} SourceIgnoresMarks(s: Source, env: Env, catalog: set<string>)
    ensures ResolveSource(s, UnmarkEnv(env), catalog) == UnmarkFound(ResolveSource(s, env, catalog))
    decreases s
  {
    if s.Derived? { QueryIgnoresMarks(s.subquery, env, catalog); }
  }

  // ------------------------------------------------------------------ reaching a foreign scan

  /** The query reads a recursive scan that is not the CTE's own; `tainted` are the names whose plans hold one.
      A binding made on the way is tainted exactly when what it stands for reads such a scan. */
  predicate QueryReaches(q: Query, tainted: set<string>)
    decreases q
  {
    var w := q.withClause;
    !q.body.Values? && BodyReaches(q.body, if w.None? then tainted
                                   else CtesTaint(w.value.recursive, w.value.ctes, tainted))
  }

  function CtesTaint(recursive: bool, ctes: seq<Cte>, tainted: set<string>): set<string>
    decreases ctes
  {
    if ctes == [] then tainted
    else
      var c := ctes[0];
      var reaches := if recursive then RecursiveReaches(c, tainted) else QueryReaches(c.query, tainted);
      CtesTaint(recursive, ctes[1..], if reaches then tainted + {c.name} else tainted - {c.name})
  }

  /** A recursive CTE's own scans are foreign to every other. */
  predicate RecursiveReaches(c: Cte, tainted: set<string>)
    decreases c
  {
    && c.query.body.SetOperation?
    && (BodyReaches(c.query.body.left, tainted) || BodyReaches(c.query.body.right, tainted + {c.name}))
  }

  predicate BodyReaches(b: Body, tainted: set<string>)
    decreases b
  {
    match b
    case Select(sources) => SourcesReach(sources, tainted)
    case Nested(q) => QueryReaches(q, tainted)
    case SetOperation(_, _, _, l, r) => BodyReaches(l, tainted) || BodyReaches(r, tainted)
    case _ => false
  }

  predicate SourcesReach(ss: seq<Source>, tainted: set<string>)
    decreases ss
  {
    ss != [] && (SourceReaches(ss[0], tainted) || SourcesReach(ss[1..], tainted))
  }

  predicate SourceReaches(s: Source, tainted: set<string>)
    decreases s
  {
    match s
    case Named(n) => n in tainted
    case Derived(q) => QueryReaches(q, tainted)
  }

  /** The plan holds a recursive scan that is not the CTE's own. */
  predicate Foreign(p: Plan) {
    RecursiveScans(p) != OwnScans(p)
  }

  /** The visible names whose plans hold a foreign scan. */
  function Tainted(env: Env): set<string> {
    set n | n in env && Foreign(env[n])
  }

  lemma {:induction false} OwnAreScans(p: Plan)
    ensures OwnScans(p) <= RecursiveScans(p)
    decreases p
  {
    match p
    case SelectPlan(inputs) => OwnAreScansAll(inputs);
    case SetPlan(l, r) =>
      OwnAreScans(l);
      OwnAreScans(r);
    case RecursivePlan(a, s) =>
      OwnAreScans(a);
      OwnAreScans(s);
    case _ =>
  }

  lemma {:induction false} OwnAreScansAll(ps: seq<Plan>)
    ensures OwnScansAll(ps) <= RecursiveScansAll(ps)
    decreases ps
  {
    if ps != [] {
      OwnAreScans(ps[0]);
      OwnAreScansAll(ps[1..]);
    }
  }

  lemma {:induction false} TaintedExtended(env: Env, name: string, plan: Plan)
    ensures Tainted(env[name := plan]) == if Foreign(plan) then Tainted(env) + {name} else Tainted(env) - {name}
  {
  }

  /** A resolved query holds a foreign scan exactly when its text reaches one. */
  lemma {:induction false} QueryForeignIff(q: Query, env: Env, catalog: set<string>)
    ensures var r := ResolveQuery(q, env, catalog); r.Some? ==> (Foreign(r.value) <==> QueryReaches(q, Tainted(env)))
    decreases q
  {
    if ResolveQuery(q, env, catalog).Some? {
      if q.withClause.None? {
        BodyForeignIff(q.body, env, catalog);
      } else {
        var w := q.withClause.value;
        CtesForeignIff(w.recursive, w.ctes, env, {}, catalog);
        BodyForeignIff(q.body, ResolveCtes(w.recursive, w.ctes, env, {}, catalog).value, catalog);
      }
    }
  }

  lemma {:induction false} CtesForeignIff(recursive: bool, ctes: seq<Cte>, env: Env, bound: set<string>,
                                          catalog: set<string>)
    ensures
      var r := ResolveCtes(recursive, ctes, env, bound, catalog);
      r.Some? ==> Tainted(r.value) == CtesTaint(recursive, ctes, Tainted(env))
    decreases ctes
  {
    if ctes != [] {
      var c := ctes[0];
      if recursive { RecursiveForeignIff(c, env, catalog); } else { QueryForeignIff(c.query, env, catalog); }
      var plan := if recursive then ResolveRecursive(c, env, catalog) else ResolvePlain(c, env, catalog);
      if plan.Some? {
        TaintedExtended(env, c.name, plan.value);
        CtesForeignIff(recursive, ctes[1..], env[c.name := plan.value], bound + {c.name}, catalog);
      }
    }
  }

  lemma {:induction false} RecursiveForeignIff(c: Cte, env: Env, catalog: set<string>)
    ensures var r := ResolveRecursive(c, env, catalog); r.Some? ==>
            (Foreign(r.value) <==> RecursiveReaches(c, Tainted(env)))
    decreases c
  {
    if ResolveRecursive(c, env, catalog).Some? {
      var inner := env[c.name := RecursiveScan(false)];
      BodyForeignIff(c.query.body.left, env, catalog);
      TaintedExtended(env, c.name, RecursiveScan(false));
      BodyForeignIff(c.query.body.right, inner, catalog);
      OwnAreScans(ResolveBody(c.query.body.left, env, catalog).value);
      OwnAreScans(ResolveBody(c.query.body.right, inner, catalog).value);
    }
  }

  lemma {:induction false} BodyForeignIff(b: Body, env: Env, catalog: set<string>)
    ensures var r := ResolveBody(b, env, catalog); r.Some? ==> (Foreign(r.value) <==> BodyReaches(b, Tainted(env)))
    decreases b
  {
    match b
    case Select(sources) => SourcesForeignIff(sources, env, catalog);
    case Nested(q) => QueryForeignIff(q, env, catalog);
    case SetOperation(_, _, _, l, r) =>
      BodyForeignIff(l, env, catalog);
      BodyForeignIff(r, env, catalog);
      if ResolveBody(b, env, catalog).Some? {
        OwnAreScans(ResolveBody(l, env, catalog).value);
        OwnAreScans(ResolveBody(r, env, catalog).value);
      }
    case _ =>
  }

  lemma {:induction false} SourcesForeignIff(ss: seq<Source>, env: Env, catalog: set<string>)
    ensures
      var r := ResolveSources(ss, env, catalog);
      r.Some? ==> (RecursiveScansAll(r.value) != OwnScansAll(r.value) <==> SourcesReach(ss, Tainted(env)))
    decreases ss
  {
    var r := ResolveSources(ss, env, catalog);
    if ss != [] && r.Some? {
      SourceForeignIff(ss[0], env, catalog);
      SourcesForeignIff(ss[1..], env, catalog);
      var rest := ResolveSources(ss[1..], env, catalog).value;
      assert r.value[1..] == rest;
      OwnAreScans(r.value[0]);
      OwnAreScansAll(rest);
    }
  }

  lemma {:induction false} SourceForeignIff(s: Source, env: Env, catalog: set<string>)
    ensures var r := ResolveSource(s, env, catalog); r.Some? ==> (Foreign(r.value) <==> SourceReaches(s, Tainted(env)))
    decreases s
  {
    if s.Derived? { QueryForeignIff(s.subquery, env, catalog); }
  }

  // ------------------------------------------------------------------ the recursive reference

  /** The recursive term with the CTE's own scans told apart. */
  function OwnTerm(c: Cte, env: Env, catalog: set<string>): Option<Plan>
    requires c.query.body.SetOperation?
  {
    ResolveBody(c.query.body.right, env[c.name := RecursiveScan(true)], catalog)
  }

  /** An accepted recursive term holds exactly one scan, and that scan is of its own CTE exactly when the term
      reaches no foreign one; which names are tainted is known before the CTE is bound. */
  lemma {:induction false} RecursiveTermReadsItselfIff(c: Cte, env: Env, catalog: set<string>)
    requires UnmarkEnv(env) == env && ResolveRecursive(c, env, catalog).Some?
    ensures c.query.body.SetOperation? && OwnTerm(c, env, catalog).Some?
    ensures
      var term := OwnTerm(c, env, catalog).value;
      && Unmark(term) == ResolveRecursive(c, env, catalog).value.step && RecursiveScans(term) == 1
      && (OwnScans(term) == 1 <==> !BodyReaches(c.query.body.right, Tainted(env) - {c.name}))
  {
    var inner := env[c.name := RecursiveScan(true)];
    UnmarkExtended(env, c.name, RecursiveScan(true));
    BodyIgnoresMarks(c.query.body.right, inner, catalog);
    var term := OwnTerm(c, env, catalog).value;
    UnmarkKeepsScans(term, "");
    TaintedExtended(env, c.name, RecursiveScan(true));
    BodyForeignIff(c.query.body.right, inner, catalog);
    OwnAreScans(term);
  }

  /** Binding sets no marks, so every environment it makes qualifies. */
  lemma {:induction false} BoundEnvironmentsAreUnmarked(recursive: bool, ctes: seq<Cte>, env: Env, catalog: set<string>)
    requires UnmarkEnv(env) == env
    ensures var r := ResolveCtes(recursive, ctes, env, {}, catalog); r.Some? ==> UnmarkEnv(r.value) == r.value
  {
    CtesIgnoreMarks(recursive, ctes, env, {}, catalog);
  }

  /** The query has no recursive WITH anywhere. */
  predicate PlainQuery(q: Query)
    decreases q
  {
    (q.withClause.Some? ==> !q.withClause.value.recursive && PlainCtes(q.withClause.value.ctes)) && PlainBody(q.body)
  }

  predicate PlainCtes(ctes: seq<Cte>)
    decreases ctes
  {
    ctes == [] || (PlainQuery(ctes[0].query) && PlainCtes(ctes[1..]))
  }

  predicate PlainBody(b: Body)
    decreases b
  {
    match b
    case Select(sources) => PlainSources(sources)
    case Nested(q) => PlainQuery(q)
    case SetOperation(_, _, _, l, r) => PlainBody(l) && PlainBody(r)
    case _ => true
  }

  predicate PlainSources(ss: seq<Source>)
    decreases ss
  {
    ss == [] || (PlainSource(ss[0]) && PlainSources(ss[1..]))
  }

  predicate PlainSource(s: Source)
    decreases s
  {
    s.Derived? ==> PlainQuery(s.subquery)
  }

  lemma {:induction false} PlainQueryReachesNone(q: Query)
    requires PlainQuery(q)
    ensures !QueryReaches(q, {})
    decreases q
  {
    if q.withClause.Some? { PlainCtesTaintNone(q.withClause.value.ctes); }
    PlainBodyReachesNone(q.body);
  }

  lemma {:induction false} PlainCtesTaintNone(ctes: seq<Cte>)
    requires PlainCtes(ctes)
    ensures CtesTaint(false, ctes, {}) == {}
    decreases ctes
  {
    if ctes != [] {
      PlainQueryReachesNone(ctes[0].query);
      PlainCtesTaintNone(ctes[1..]);
      assert {} - {ctes[0].name} == {};
    }
  }

  lemma {:induction false} PlainBodyReachesNone(b: Body)
    requires PlainBody(b)
    ensures !BodyReaches(b, {})
    decreases b
  {
    match b
    case Select(sources) => PlainSourcesReachNone(sources);
    case Nested(q) => PlainQueryReachesNone(q);
    case SetOperation(_, _, _, l, r) =>
      PlainBodyReachesNone(l);
      PlainBodyReachesNone(r);
    case _ =>
  }

  lemma {:induction false} PlainSourcesReachNone(ss: seq<Source>)
    requires PlainSources(ss)
    ensures !SourcesReach(ss, {})
    decreases ss
  {
    if ss != [] {
      PlainSourceReachesNone(ss[0]);
      PlainSourcesReachNone(ss[1..]);
    }
  }

  lemma {:induction false} PlainSourceReachesNone(s: Source)
    requires PlainSource(s)
    ensures !SourceReaches(s, {})
    decreases s
  {
    if s.Derived? { PlainQueryReachesNone(s.subquery); }
  }

  /** With no recursive WITH inside the term and no visible recursive CTE but its own name, an accepted term
      reads its own CTE, exactly once. */
  lemma {:induction false} PlainTermReadsItself(c: Cte, env: Env, catalog: set<string>)
    requires UnmarkEnv(env) == env && ResolveRecursive(c, env, catalog).Some? && PlainQuery(c.query)
    requires forall n :: n in env && n != c.name ==> RecursiveScans(env[n]) == 0
    ensures OwnTerm(c, env, catalog).Some? && OwnScans(OwnTerm(c, env, catalog).value) == 1
  {
    forall n | n in env && n != c.name ensures !Foreign(env[n]) { OwnAreScans(env[n]); }
    assert Tainted(env) - {c.name} == {};
    PlainBodyReachesNone(c.query.body.right);
    RecursiveTermReadsItselfIff(c, env, catalog);
  }

  // ------------------------------------------------------------------ terms that read another recursion

  function FromTable(name: string): Body {
    Select([Named(name)])
  }

  /** `name` AS (SELECT FROM t UNION ALL `term`). */
  function RecursiveOver(name: string, term: Body): Cte {
    Cte(name, Query(None, SetOperation(true, true, true, FromTable("t"), term), false, false, false), false, false,
        true)
  }

  lemma {:induction false} ResolveOne(name: string, env: Env, catalog: set<string>)
    ensures ResolveBody(FromTable(name), env, catalog) ==
      (if name in env then Some(SelectPlan([env[name]]))
       else if name in catalog then Some(SelectPlan([BaseScan(name)])) else None)
  {
    assert [Named(name)][1..] == [] && ResolveSources([], env, catalog) == Some([]);
    var only := ResolveSource(Named(name), env, catalog);
    if only.Some? { assert [only.value] + [] == [only.value]; }
  }

  lemma {:induction false} CountOne(p: Plan)
    ensures RecursiveScans(SelectPlan([p])) == RecursiveScans(p) && OwnScans(SelectPlan([p])) == OwnScans(p)
    ensures forall t :: Scans(SelectPlan([p]), t) == Scans(p, t)
  {
    assert [p][1..] == [] && RecursiveScansAll([]) == 0 && OwnScansAll([]) == 0;
    assert RecursiveScansAll([p]) == RecursiveScans(p) + RecursiveScansAll([p][1..]);
    assert OwnScansAll([p]) == OwnScans(p) + OwnScansAll([p][1..]);
    assert forall t :: Scans(SelectPlan([p]), t) == Scans([p][0], t);
  }

  /** A recursive CTE over table `t` whose term resolves to a plan with one scan is accepted. */
  lemma {:induction false} AcceptedOver(name: string, term: Body, env: Env, step: Plan)
    requires name != "t" && "t" !in env && ResolveBody(term, env[name := RecursiveScan(false)], {"t"}) == Some(step) &&
             RecursiveScans(step) == 1
    ensures ResolveRecursive(RecursiveOver(name, term), env, {"t"}) ==
            Some(RecursivePlan(SelectPlan([BaseScan("t")]), step))
  {
    ResolveOne("t", env, {"t"});
    CountOne(BaseScan("t"));
    assert !Scans(BaseScan("t"), name);
  }

  /** A term that reads another recursive CTE passes the count although it has no scan of its own. */
  lemma {:induction false} AnotherRecursionCountsToo(anchor: Plan)
    requires RecursiveScans(anchor) == 0
    ensures
      var env: Env, b := map["a" := RecursivePlan(anchor, RecursiveScan(false))], RecursiveOver("b", FromTable("a"));
      ResolveRecursive(b, env, {"t"}).Some? && OwnTerm(b, env, {"t"}).Some? &&
        OwnScans(OwnTerm(b, env, {"t"}).value) == 0
  {
    var env: Env := map["a" := RecursivePlan(anchor, RecursiveScan(false))];
    OwnAreScans(anchor);
    CountOne(env["a"]);
    ResolveOne("a", env["b" := RecursiveScan(false)], {"t"});
    ResolveOne("a", env["b" := RecursiveScan(true)], {"t"});
    AcceptedOver("b", FromTable("a"), env, SelectPlan([env["a"]]));
  }

  /** So does a term with a recursive WITH of its own inside, with nothing else in sight. */
  lemma {:induction false} InnerRecursionCountsToo()
    ensures
      var x := RecursiveOver("x", FromTable("x"));
      var b := RecursiveOver("b", Nested(Query(Some(With(true, [x])), FromTable("x"), false, false, false)));
      ResolveRecursive(b, map[], {"t"}).Some? && OwnTerm(b, map[], {"t"}).Some? &&
        OwnScans(OwnTerm(b, map[], {"t"}).value) == 0
  {
    var x := RecursiveOver("x", FromTable("x"));
    var inner := Query(Some(With(true, [x])), FromTable("x"), false, false, false);
    var plan := RecursivePlan(SelectPlan([BaseScan("t")]), SelectPlan([RecursiveScan(false)]));
    InnerRecursion(x, map["b" := RecursiveScan(false)]);
    InnerRecursion(x, map["b" := RecursiveScan(true)]);
    CountOne(plan);
    CountOne(BaseScan("t"));
    CountOne(RecursiveScan(false));
    assert map[]["b" := RecursiveScan(false)] == map["b" := RecursiveScan(false)];
    assert map[]["b" := RecursiveScan(true)] == map["b" := RecursiveScan(true)];
    AcceptedOver("b", Nested(inner), map[], SelectPlan([plan]));
  }

  lemma {:induction false} InnerRecursion(x: Cte, env: Env)
    requires x == RecursiveOver("x", FromTable("x")) && "t" !in env
    ensures
      var plan := RecursivePlan(SelectPlan([BaseScan("t")]), SelectPlan([RecursiveScan(false)]));
      ResolveQuery(Query(Some(With(true, [x])), FromTable("x"), false, false, false), env, {"t"}) ==
        Some(SelectPlan([plan]))
  {
    var plan := RecursivePlan(SelectPlan([BaseScan("t")]), SelectPlan([RecursiveScan(false)]));
    ResolveOne("x", env["x" := RecursiveScan(false)], {"t"});
    CountOne(RecursiveScan(false));
    AcceptedOver("x", FromTable("x"), env, SelectPlan([RecursiveScan(false)]));
    CtesUnfold(true, [x], 0, env, {}, {"t"});
    assert [x][0..] == [x] && [x][1..] == [];
    assert ResolveCtes(true, [x], env, {}, {"t"}) == Some(env["x" := plan]);
    ResolveOne("x", env["x" := plan], {"t"});
  }
}
