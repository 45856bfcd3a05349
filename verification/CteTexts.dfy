/** What a query with common table expressions reads, told from its text alone: which declaration an occurrence of a
    name means, what is read when every declaration is expanded where it is read, and which queries are accepted. */
module CteTexts {
  import Expressions
  import opened CteScoping

  // ------------------------------------------------------------------ scopes

  /** A CTE, a recursive CTE, or inside its recursive term the rows it has so far. */
  datatype Declared = Plainly(query: Query) | Recursively(cte: Cte) | Itself

  /** The declarations before a place in the text, the nearest first. */
  datatype Scope = Outermost | Inside(name: string, what: Declared, outer: Scope)

  function QuerySize(q: Query): nat
    decreases q
  {
    1 + BodySize(q.body) + if q.withClause.Some? then CtesSize(q.withClause.value.ctes) else 0
  }

  function CtesSize(ctes: seq<Cte>): nat
    decreases ctes
  {
    if ctes == [] then 0 else 1 + QuerySize(ctes[0].query) + CtesSize(ctes[1..])
  }

  function BodySize(b: Body): nat
    decreases b
  {
    match b
    case Select(sources) => 1 + SourcesSize(sources)
    case Nested(q) => 1 + QuerySize(q)
    case SetOperation(_, _, _, left, right) => 1 + BodySize(left) + BodySize(right)
    case _ => 1
  }

  function SourcesSize(ss: seq<Source>): nat
    decreases ss
  {
    if ss == [] then 0 else 1 + SourceSize(ss[0]) + SourcesSize(ss[1..])
  }

  function SourceSize(s: Source): nat
    decreases s
  {
    if s.Named? then 1 else 1 + QuerySize(s.subquery)
  }

  function ScopeSize(scope: Scope): nat {
    match scope
    case Outermost => 0
    case Inside(_, Plainly(q), outer) => 1 + QuerySize(q) + ScopeSize(outer)
    case Inside(_, Recursively(c), outer) => 1 + QuerySize(c.query) + ScopeSize(outer)
    case Inside(_, Itself, outer) => 1 + ScopeSize(outer)
  }

  lemma TermsAreSmaller(q: Query)
    requires q.body.SetOperation?
    ensures BodySize(q.body.left) + BodySize(q.body.right) + 2 <= QuerySize(q)
  {
    assert BodySize(q.body) == 1 + BodySize(q.body.left) + BodySize(q.body.right);
  }

  predicate Declares(scope: Scope, name: string) {
    scope.Inside? && (scope.name == name || Declares(scope.outer, name))
  }

  /** The scope behind the CTEs of one WITH. */
  function Behind(recursive: bool, ctes: seq<Cte>, scope: Scope): (r: Scope)
    ensures ScopeSize(r) == ScopeSize(scope) + CtesSize(ctes)
    decreases |ctes|
  {
    if ctes == [] then scope
    else
      var what := if recursive then Recursively(ctes[0]) else Plainly(ctes[0].query);
      Behind(recursive, ctes[1..], Inside(ctes[0].name, what, scope))
  }

  /** The scope of a query's body. */
  function BodyScope(q: Query, scope: Scope): (r: Scope)
    ensures ScopeSize(r) + BodySize(q.body) < ScopeSize(scope) + QuerySize(q)
  {
    if q.withClause.None? then scope else Behind(q.withClause.value.recursive, q.withClause.value.ctes, scope)
  }

  // ------------------------------------------------------------------ what is read, in the order of the text

  datatype Leaf = Table(name: string) | RowsSoFar

  function QueryText(q: Query, scope: Scope): seq<Leaf>
    decreases ScopeSize(scope) + QuerySize(q), 0
  {
    BodyText(q.body, BodyScope(q, scope))
  }

  function BodyText(b: Body, scope: Scope): seq<Leaf>
    decreases ScopeSize(scope) + BodySize(b), 0
  {
    match b
    case Select(sources) => SourcesText(sources, scope)
    case Nested(q) => QueryText(q, scope)
    case SetOperation(_, _, _, left, right) => BodyText(left, scope) + BodyText(right, scope)
    case _ => []
  }

  function SourcesText(ss: seq<Source>, scope: Scope): seq<Leaf>
    decreases ScopeSize(scope) + SourcesSize(ss), 0
  {
    if ss == [] then [] else SourceText(ss[0], scope) + SourcesText(ss[1..], scope)
  }

  function SourceText(s: Source, scope: Scope): seq<Leaf>
    decreases ScopeSize(scope) + SourceSize(s), 0
  {
    if s.Named? then NameText(s.name, scope) else QueryText(s.subquery, scope)
  }

  /** A name means its nearest declaration, which is read in the scope it stands in, or a table. */
  function NameText(name: string, scope: Scope): seq<Leaf>
    decreases ScopeSize(scope), 0
  {
    match scope
    case Outermost => [Table(name)]
    case Inside(n, what, outer) =>
      if n != name then NameText(name, outer)
      else
        match what
        case Plainly(q) => QueryText(q, outer)
        case Recursively(c) => RecursiveText(c, outer)
        case Itself => [RowsSoFar]
  }

  function RecursiveText(c: Cte, outer: Scope): seq<Leaf>
    decreases ScopeSize(outer) + QuerySize(c.query), 1
  {
    var b := c.query.body;
    if !b.SetOperation? then []
    else
      TermsAreSmaller(c.query);
      BodyText(b.left, outer) + BodyText(b.right, Inside(c.name, Itself, outer))
  }

  function Count(leaves: seq<Leaf>, leaf: Leaf): nat {
    if leaves == [] then 0 else (if leaves[0] == leaf then 1 else 0) + Count(leaves[1..], leaf)
  }

  lemma {:induction false} CountConcat(a: seq<Leaf>, b: seq<Leaf>, leaf: Leaf)
    ensures Count(a + b, leaf) == Count(a, leaf) + Count(b, leaf)
    decreases a
  {
    if a == [] {
      assert a + b == b;
    } else {
      assert (a + b)[1..] == a[1..] + b;
      CountConcat(a[1..], b, leaf);
    }
  }

  /** What a plan reads, from left to right. */
  function Leaves(p: Plan): seq<Leaf>
    decreases p
  {
    match p
    case BaseScan(table) => [Table(table)]
    case RecursiveScan(_) => [RowsSoFar]
    case SelectPlan(inputs) => LeavesOfAll(inputs)
    case SetPlan(l, r) => Leaves(l) + Leaves(r)
    case RecursivePlan(a, s) => Leaves(a) + Leaves(s)
    case ValuesPlan => []
  }

  function LeavesOfAll(ps: seq<Plan>): seq<Leaf>
    decreases ps
  {
    if ps == [] then [] else Leaves(ps[0]) + LeavesOfAll(ps[1..])
  }

  /** The questions that binding asks a plan are questions about its leaves. */
  lemma {:induction false} LeavesAnswer(p: Plan, table: string)
    ensures Scans(p, table) <==> Table(table) in Leaves(p)
    ensures RecursiveScans(p) == Count(Leaves(p), RowsSoFar)
    decreases p
  {
    match p
    case SelectPlan(inputs) => LeavesAnswerAll(inputs, table);
    case SetPlan(l, r) =>
      LeavesAnswer(l, table);
      LeavesAnswer(r, table);
      CountConcat(Leaves(l), Leaves(r), RowsSoFar);
    case RecursivePlan(a, s) =>
      LeavesAnswer(a, table);
      LeavesAnswer(s, table);
      CountConcat(Leaves(a), Leaves(s), RowsSoFar);
    case _ =>
  }

  lemma {:induction false} LeavesAnswerAll(ps: seq<Plan>, table: string)
    ensures (exists i :: 0 <= i < |ps| && Scans(ps[i], table)) <==> Table(table) in LeavesOfAll(ps)
    ensures RecursiveScansAll(ps) == Count(LeavesOfAll(ps), RowsSoFar)
    decreases ps
  {
    if ps != [] {
      LeavesAnswer(ps[0], table);
      LeavesAnswerAll(ps[1..], table);
      CountConcat(Leaves(ps[0]), LeavesOfAll(ps[1..]), RowsSoFar);
      assert forall i :: 1 <= i < |ps| ==> ps[i] == ps[1..][i - 1];
      if Table(table) in LeavesOfAll(ps[1..]) {
        var i :| 0 <= i < |ps[1..]| && Scans(ps[1..][i], table);
        assert Scans(ps[i + 1], table);
      }
    }
  }

  // ------------------------------------------------------------------ the shape of a plan

  /** The plan has the shape of the query, with every declaration expanded where it is read. */
  predicate QueryShape(p: Plan, q: Query, scope: Scope)
    decreases ScopeSize(scope) + QuerySize(q), 0
  {
    BodyShape(p, q.body, BodyScope(q, scope))
  }

  predicate BodyShape(p: Plan, b: Body, scope: Scope)
    decreases ScopeSize(scope) + BodySize(b), 0
  {
    match b
    case Select(sources) => p.SelectPlan? && SourcesShape(p.inputs, sources, scope)
    case Nested(q) => QueryShape(p, q, scope)
    case SetOperation(_, _, _, left, right) =>
      p.SetPlan? && BodyShape(p.left, left, scope) && BodyShape(p.right, right, scope)
    case Values => p.ValuesPlan?
    case OtherBody => false
  }

  predicate SourcesShape(ps: seq<Plan>, ss: seq<Source>, scope: Scope)
    decreases ScopeSize(scope) + SourcesSize(ss), 0
  {
    if ss == [] then ps == [] else ps != [] && SourceShape(ps[0], ss[0], scope) && SourcesShape(ps[1..], ss[1..], scope)
  }

  predicate SourceShape(p: Plan, s: Source, scope: Scope)
    decreases ScopeSize(scope) + SourceSize(s), 0
  {
    if s.Named? then NameShape(p, s.name, scope) else QueryShape(p, s.subquery, scope)
  }

  predicate NameShape(p: Plan, name: string, scope: Scope)
    decreases ScopeSize(scope), 0
  {
    match scope
    case Outermost => p == BaseScan(name)
    case Inside(n, what, outer) => if n == name then DeclaredShape(p, n, what, outer) else NameShape(p, name, outer)
  }

  predicate DeclaredShape(p: Plan, name: string, what: Declared, outer: Scope)
    decreases ScopeSize(outer) + (if what.Plainly? then QuerySize(what.query)
                                  else if what.Recursively? then QuerySize(what.cte.query) else 0), 1
  {
    match what
    case Plainly(q) => QueryShape(p, q, outer)
    case Recursively(c) =>
      var b := c.query.body;
      p.RecursivePlan? && b.SetOperation? &&
        (TermsAreSmaller(c.query);
         BodyShape(p.anchor, b.left, outer) && BodyShape(p.step, b.right, Inside(c.name, Itself, outer)))
    case Itself => p.RecursiveScan?
  }

  /** A plan of that shape reads what the text reads, in the same order. */
  lemma {:induction false} QueryReads(p: Plan, q: Query, scope: Scope)
    requires QueryShape(p, q, scope)
    ensures Leaves(p) == QueryText(q, scope)
    decreases ScopeSize(scope) + QuerySize(q), 0
  {
    BodyReads(p, q.body, BodyScope(q, scope));
  }

  lemma {:induction false} BodyReads(p: Plan, b: Body, scope: Scope)
    requires BodyShape(p, b, scope)
    ensures Leaves(p) == BodyText(b, scope)
    decreases ScopeSize(scope) + BodySize(b), 0
  {
    match b
    case Select(sources) => SourcesRead(p.inputs, sources, scope);
    case Nested(q) => QueryReads(p, q, scope);
    case SetOperation(_, _, _, left, right) =>
      BodyReads(p.left, left, scope);
      BodyReads(p.right, right, scope);
    case _ =>
  }

  lemma {:induction false} SourcesRead(ps: seq<Plan>, ss: seq<Source>, scope: Scope)
    requires SourcesShape(ps, ss, scope)
    ensures LeavesOfAll(ps) == SourcesText(ss, scope)
    decreases ScopeSize(scope) + SourcesSize(ss), 0
  {
    if ss != [] {
      SourceReads(ps[0], ss[0], scope);
      SourcesRead(ps[1..], ss[1..], scope);
    }
  }

  lemma {:induction false} SourceReads(p: Plan, s: Source, scope: Scope)
    requires SourceShape(p, s, scope)
    ensures Leaves(p) == SourceText(s, scope)
    decreases ScopeSize(scope) + SourceSize(s), 0
  {
    if s.Named? { NameReads(p, s.name, scope); } else { QueryReads(p, s.subquery, scope); }
  }

  lemma {:induction false} NameReads(p: Plan, name: string, scope: Scope)
    requires NameShape(p, name, scope)
    ensures Leaves(p) == NameText(name, scope)
    decreases ScopeSize(scope), 0
  {
    match scope
    case Outermost =>
    case Inside(n, what, outer) =>
      if n != name {
        NameReads(p, name, outer);
      } else {
        match what
        case Plainly(q) => QueryReads(p, q, outer);
        case Recursively(c) =>
          TermsAreSmaller(c.query);
          BodyReads(p.anchor, c.query.body.left, outer);
          BodyReads(p.step, c.query.body.right, Inside(c.name, Itself, outer));
        case Itself =>
      }
  }

  // ------------------------------------------------------------------ which queries are accepted

  predicate DistinctNames(ctes: seq<Cte>) {
    forall i, j :: 0 <= i < j < |ctes| ==> ctes[i].name != ctes[j].name
  }

  /** Every name is declared or a table, a WITH declares a name once, and nothing unsupported occurs, read or not. */
  predicate LegalQuery(q: Query, scope: Scope, catalog: set<string>)
    decreases q
  {
    && (q.withClause.Some? ==>
      var w := q.withClause.value;
      (w.recursive ==> |w.ctes| == 1) && DistinctNames(w.ctes) && LegalCtes(w.recursive, w.ctes, scope, catalog))
    && !q.orderByAll
    && (q.body.Values? || LegalBody(q.body, BodyScope(q, scope), catalog))
  }

  /** Each CTE is legal in the scope behind those before it. */
  predicate LegalCtes(recursive: bool, ctes: seq<Cte>, scope: Scope, catalog: set<string>)
    decreases ctes
  {
    ctes == [] ||
    (LegalCte(recursive, ctes[0], scope, catalog) &&
     LegalCtes(recursive, ctes[1..], Behind(recursive, [ctes[0]], scope), catalog))
  }

  predicate LegalCte(recursive: bool, c: Cte, scope: Scope, catalog: set<string>)
    decreases c, 1
  {
    !c.hasFrom && !c.materialized && c.compatible &&
    if recursive then LegalRecursive(c, scope, catalog) else LegalQuery(c.query, scope, catalog)
  }

  /** A bare UNION ALL whose first term does not read a table of the CTE's name, and whose second term reads the rows of
      a recursion exactly once. */
  predicate LegalRecursive(c: Cte, scope: Scope, catalog: set<string>)
    decreases c, 0
  {
    var q, within := c.query, Inside(c.name, Itself, scope);
    && q.withClause.None? && !q.orderBy && !q.orderByAll && !q.limit
    && q.body.SetOperation? && q.body.union && q.body.all
    && LegalBody(q.body.left, scope, catalog) && Table(c.name) !in BodyText(q.body.left, scope)
    && LegalBody(q.body.right, within, catalog) && Count(BodyText(q.body.right, within), RowsSoFar) == 1
  }

  predicate LegalBody(b: Body, scope: Scope, catalog: set<string>)
    decreases b
  {
    match b
    case Select(sources) => forall i :: 0 <= i < |sources| ==> LegalSource(sources[i], scope, catalog)
    case Nested(q) => LegalQuery(q, scope, catalog)
    case SetOperation(supported, _, _, left, right) =>
      supported && LegalBody(left, scope, catalog) && LegalBody(right, scope, catalog)
    case _ => false
  }

  predicate LegalSource(s: Source, scope: Scope, catalog: set<string>)
    decreases s
  {
    match s
    case Named(name) => Declares(scope, name) || name in catalog
    case Derived(q) => LegalQuery(q, scope, catalog)
  }

  // ------------------------------------------------------------------ binding follows the text

  /** The environment has what the scope declares, as it is declared. */
  ghost predicate Agrees(env: Env, scope: Scope) {
    forall name :: (name in env <==> Declares(scope, name)) && (name in env ==> NameShape(env[name], name, scope))
  }

  lemma {:induction false} AgreesInside(env: Env, scope: Scope, name: string, what: Declared, plan: Plan)
    requires Agrees(env, scope) && DeclaredShape(plan, name, what, scope)
    ensures Agrees(env[name := plan], Inside(name, what, scope))
  {
  }

  lemma {:induction false} UndeclaredIsTable(name: string, scope: Scope)
    requires !Declares(scope, name)
    ensures NameShape(BaseScan(name), name, scope)
  {
    if scope.Inside? { UndeclaredIsTable(name, scope.outer); }
  }

  /** Resolving a query succeeds exactly when its text is legal, and gives a plan of its shape. */
  lemma {:induction false} QueryFollowsText(q: Query, env: Env, scope: Scope, catalog: set<string>)
    requires Agrees(env, scope)
    ensures
      var r := ResolveQuery(q, env, catalog);
      (r.Some? <==> LegalQuery(q, scope, catalog)) && (r.Some? ==> QueryShape(r.value, q, scope))
    decreases q
  {
    if q.withClause.None? {
      if !q.body.Values? { BodyFollowsText(q.body, env, scope, catalog); }
    } else {
      var w := q.withClause.value;
      CtesFollowText(w.recursive, w.ctes, env, {}, scope, catalog);
      var inner := ResolveCtes(w.recursive, w.ctes, env, {}, catalog);
      if inner.Some? && !q.body.Values? { BodyFollowsText(q.body, inner.value, BodyScope(q, scope), catalog); }
    }
  }

  lemma {:induction false} CtesFollowText(recursive: bool, ctes: seq<Cte>, env: Env, bound: set<string>, scope: Scope,
                                          catalog: set<string>)
    requires Agrees(env, scope)
    ensures
      var r := ResolveCtes(recursive, ctes, env, bound, catalog);
      && (r.Some? <==> LegalCtes(recursive, ctes, scope, catalog) && DistinctNames(ctes) && NoneIn(ctes, bound))
      && (r.Some? ==> Agrees(r.value, Behind(recursive, ctes, scope)))
    decreases ctes
  {
    if ctes != [] {
      var c := ctes[0];
      var what := if recursive then Recursively(c) else Plainly(c.query);
      var plan := if recursive then ResolveRecursive(c, env, catalog) else ResolvePlain(c, env, catalog);
      if recursive {
        RecursiveFollowsText(c, env, scope, catalog);
      } else {
        QueryFollowsText(c.query, env, scope, catalog);
      }
      NamesStep(ctes, bound);
      if plan.Some? {
        assert Behind(recursive, [c], scope) == Inside(c.name, what, scope) by { assert [c][1..] == []; }
        AgreesInside(env, scope, c.name, what, plan.value);
        CtesFollowText(recursive, ctes[1..], env[c.name := plan.value], bound + {c.name}, Inside(c.name, what, scope),
                       catalog);
      }
    }
  }

  ghost predicate NoneIn(ctes: seq<Cte>, bound: set<string>) {
    forall i :: 0 <= i < |ctes| ==> ctes[i].name !in bound
  }

  lemma {:induction false} NamesStep(ctes: seq<Cte>, bound: set<string>)
    requires ctes != []
    ensures DistinctNames(ctes) && NoneIn(ctes, bound) <==>
            ctes[0].name !in bound && DistinctNames(ctes[1..]) && NoneIn(ctes[1..], bound + {ctes[0].name})
  {
    assert forall i :: 1 <= i < |ctes| ==> ctes[i] == ctes[1..][i - 1];
    if DistinctNames(ctes) && NoneIn(ctes, bound) {
      forall i | 0 <= i < |ctes[1..]| ensures ctes[1..][i].name !in bound + {ctes[0].name} {
        assert ctes[1..][i] == ctes[i + 1];
      }
    }
  }

  lemma {:induction false} RecursiveFollowsText(c: Cte, env: Env, scope: Scope, catalog: set<string>)
    requires Agrees(env, scope)
    ensures
      var r := ResolveRecursive(c, env, catalog);
      && (r.Some? <==> LegalRecursive(c, scope, catalog) && c.compatible)
      && (r.Some? ==> DeclaredShape(r.value, c.name, Recursively(c), scope))
    decreases c
  {
    var q, within := c.query, Inside(c.name, Itself, scope);
    if q.body.SetOperation? {
      var anchor := ResolveBody(q.body.left, env, catalog);
      BodyFollowsText(q.body.left, env, scope, catalog);
      if anchor.Some? {
        BodyReads(anchor.value, q.body.left, scope);
        LeavesAnswer(anchor.value, c.name);
      }
      AgreesInside(env, scope, c.name, Itself, RecursiveScan(false));
      var step := ResolveBody(q.body.right, env[c.name := RecursiveScan(false)], catalog);
      BodyFollowsText(q.body.right, env[c.name := RecursiveScan(false)], within, catalog);
      if step.Some? {
        BodyReads(step.value, q.body.right, within);
        LeavesAnswer(step.value, c.name);
      }
    }
  }

  lemma {:induction false} BodyFollowsText(b: Body, env: Env, scope: Scope, catalog: set<string>)
    requires Agrees(env, scope)
    ensures
      var r := ResolveBody(b, env, catalog);
      (r.Some? <==> LegalBody(b, scope, catalog)) && (r.Some? ==> BodyShape(r.value, b, scope))
    decreases b
  {
    match b
    case Select(sources) => SourcesFollowText(sources, env, scope, catalog);
    case Nested(q) => QueryFollowsText(q, env, scope, catalog);
    case SetOperation(_, _, _, left, right) =>
      BodyFollowsText(left, env, scope, catalog);
      BodyFollowsText(right, env, scope, catalog);
    case _ =>
  }

  lemma {:induction false} SourcesFollowText(ss: seq<Source>, env: Env, scope: Scope, catalog: set<string>)
    requires Agrees(env, scope)
    ensures
      var r := ResolveSources(ss, env, catalog);
      && (r.Some? <==> forall i :: 0 <= i < |ss| ==> LegalSource(ss[i], scope, catalog))
      && (r.Some? ==> SourcesShape(r.value, ss, scope))
    decreases ss
  {
    if ss != [] {
      SourceFollowsText(ss[0], env, scope, catalog);
      SourcesFollowText(ss[1..], env, scope, catalog);
      assert forall i :: 1 <= i < |ss| ==> ss[i] == ss[1..][i - 1];
      if forall i :: 0 <= i < |ss| ==> LegalSource(ss[i], scope, catalog) {
        forall i | 0 <= i < |ss[1..]| ensures LegalSource(ss[1..][i], scope, catalog) {
          assert ss[1..][i] == ss[i + 1];
        }
      }
    }
  }

  lemma {:induction false} SourceFollowsText(s: Source, env: Env, scope: Scope, catalog: set<string>)
    requires Agrees(env, scope)
    ensures
      var r := ResolveSource(s, env, catalog);
      (r.Some? <==> LegalSource(s, scope, catalog)) && (r.Some? ==> SourceShape(r.value, s, scope))
    decreases s
  {
    match s
    case Named(name) => if name !in env { UndeclaredIsTable(name, scope); }
    case Derived(q) => QueryFollowsText(q, env, scope, catalog);
  }

  /** Binding a whole query: it is accepted exactly when its text is legal, the plan has the shape of the text, and
      reads from left to right what the text reads in its order. */
  method BindWhole(q: Query, catalog: set<string>) returns (r: Expressions.Option<Plan>)
    ensures r.Some? <==> LegalQuery(q, Outermost, catalog)
    ensures r.Some? ==> QueryShape(r.value, q, Outermost) && Leaves(r.value) == QueryText(q, Outermost)
  {
    var context := new BinderContext([], 0, 0);
    r := context.BindQuery(q, catalog);
    QueryFollowsText(q, map[], Outermost, catalog);
    if r.Some? { QueryReads(r.value, q, Outermost); }
  }
}
