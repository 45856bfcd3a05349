/** The catalog caches and the column arena behind them: applying DDL after commit, loading, and
    recycling column slots, over every run. */
module CatalogCache {
  import opened Expressions
  import opened ResultIterators

  /** A stored column; `id` is absent for a column that belongs to no table. */
  datatype Stored = Stored(name: string, id: Option<nat>, rest: nat)

  datatype ColumnSlot = ColumnSlot(column: Stored, live: bool)

  /** Live slots stay where they are and what they are. */
  ghost predicate Keeps(before: seq<ColumnSlot>, after: seq<ColumnSlot>) {
    |before| <= |after| && forall i :: 0 <= i < |before| && before[i].live ==> after[i] == before[i]
  }

  /** The references denote the given columns, in order. */
  ghost predicate Denote(slots: seq<ColumnSlot>, refs: seq<nat>, columns: seq<Stored>) {
    && |refs| == |columns|
    && forall i :: 0 <= i < |refs| ==> refs[i] < |slots| && slots[refs[i]] == ColumnSlot(columns[i], true)
  }

  /** Every entry of a cache denotes what it denoted when it was cached. */
  ghost predicate CacheHolds(slots: seq<ColumnSlot>, cache: map<string, seq<nat>>, meant: map<string, seq<Stored>>) {
    cache.Keys == meant.Keys && forall k :: k in cache ==> Denote(slots, cache[k], meant[k])
  }

  lemma DenoteKept(before: seq<ColumnSlot>, after: seq<ColumnSlot>, refs: seq<nat>, columns: seq<Stored>)
    requires Keeps(before, after) && Denote(before, refs, columns)
    ensures Denote(after, refs, columns)
  {
  }

  lemma CacheKept(before: seq<ColumnSlot>, after: seq<ColumnSlot>, cache: map<string, seq<nat>>,
                  meant: map<string, seq<Stored>>)
    requires Keeps(before, after) && CacheHolds(before, cache, meant)
    ensures CacheHolds(after, cache, meant)
  {
    forall k | k in cache ensures Denote(after, cache[k], meant[k]) { DenoteKept(before, after, cache[k], meant[k]); }
  }

  // ------------------------------------------------------------------ slots

  function FindLive(slots: seq<ColumnSlot>, c: Stored): (i: nat)
    ensures i <= |slots| && (i < |slots| ==> slots[i] == ColumnSlot(c, true))
    ensures i == |slots| ==> ColumnSlot(c, true) !in slots
  {
    if slots == [] || slots[0] == ColumnSlot(c, true) then 0 else 1 + FindLive(slots[1..], c)
  }

  function FindDead(slots: seq<ColumnSlot>): (i: nat)
    ensures i <= |slots| && (i < |slots| ==> !slots[i].live)
    ensures i == |slots| ==> forall j :: 0 <= j < |slots| ==> slots[j].live
  {
    if slots == [] || !slots[0].live then 0 else 1 + FindDead(slots[1..])
  }

  /** What a column reference denotes while a statement is planned: a slot of the table arena, or a column of the plan.
      */
  datatype PlanArena = PlanArena(base: nat, columns: seq<Stored>)

  /** Every reference of the plan leads to a live slot or to a column of the plan. */
  predicate Resolves(slots: seq<ColumnSlot>, plan: PlanArena, refs: seq<nat>) {
    && plan.base == |slots|
    && forall i :: 0 <= i < |refs| ==>
         if refs[i] < plan.base then slots[refs[i]].live else refs[i] - plan.base < |plan.columns|
  }

  function Meaning(slots: seq<ColumnSlot>, plan: PlanArena, refs: seq<nat>): (columns: seq<Stored>)
    requires Resolves(slots, plan, refs)
  {
    seq(|refs|, i requires 0 <= i < |refs| =>
      if refs[i] < plan.base then slots[refs[i]].column else plan.columns[refs[i] - plan.base])
  }

  function Materialized(slots: seq<ColumnSlot>, plan: PlanArena): seq<ColumnSlot> {
    slots + seq(|plan.columns|, i requires 0 <= i < |plan.columns| => ColumnSlot(plan.columns[i], true))
  }

  /** Appending a plan's columns behind the slots it was built over preserves its references verbatim. */
  lemma MaterializedDenotes(slots: seq<ColumnSlot>, plan: PlanArena, refs: seq<nat>)
    requires Resolves(slots, plan, refs)
    ensures Keeps(slots, Materialized(slots, plan))
    ensures Denote(Materialized(slots, plan), refs, Meaning(slots, plan, refs))
  {
  }

  /** Some entry of the cache refers to the slot. */
  ghost predicate Refers(cache: map<string, seq<nat>>, ref: nat) {
    exists k :: k in cache && ref in cache[k]
  }

  function RefsOf(cache: map<string, seq<nat>>): (r: set<nat>)
    ensures forall ref :: ref in r <==> Refers(cache, ref)
  {
    set k, i | k in cache && 0 <= i < |cache[k]| :: cache[k][i]
  }

  function Recycled(slots: seq<ColumnSlot>, live: set<nat>): (r: seq<ColumnSlot>) {
    seq(|slots|, i requires 0 <= i < |slots| => slots[i].(live := i in live))
  }

  /** Recycling everything that is not held leaves what is held as it was. */
  lemma RecycledHolds(slots: seq<ColumnSlot>, live: set<nat>, cache: map<string, seq<nat>>,
                      meant: map<string, seq<Stored>>)
    requires CacheHolds(slots, cache, meant) && RefsOf(cache) <= live
    ensures CacheHolds(Recycled(slots, live), cache, meant)
  {
    forall k | k in cache ensures Denote(Recycled(slots, live), cache[k], meant[k]) {
      forall i | 0 <= i < |cache[k]| ensures Recycled(slots, live)[cache[k][i]] == ColumnSlot(meant[k][i], true) {
        assert cache[k][i] in RefsOf(cache);
        assert Denote(slots, cache[k], meant[k]);
      }
    }
  }

  // ------------------------------------------------------------------ the state

  /** What a statement wants done to the caches once it is committed. */
  datatype DDLApply =
    | UpsertTable(name: string, refs: seq<nat>, clearStatistics: bool)
    | DropTable(name: string)
    | UpsertView(name: string, refs: seq<nat>)
    | DropView(name: string)
    | UpsertStatistics(name: string, index: nat, meta: nat)
    | RemoveStatistics(name: string, index: nat)

  predicate Upserts(d: DDLApply) {
    d.UpsertTable? || d.UpsertView?
  }

  type Statistics = map<(string, nat), nat>

  function Without(statistics: Statistics, table: string): Statistics {
    map k | k in statistics && k.0 != table :: statistics[k]
  }

  /** What the caches mean: the columns of each table and view, and the statistics. */
  datatype Caches = Caches(tables: map<string, seq<Stored>>, views: map<string, seq<Stored>>, statistics: Statistics)

  /** A change in terms of what it means: the columns of a table or view instead of references to them. */
  datatype Change =
    | TableSet(name: string, columns: seq<Stored>, clear: bool)
    | TableGone(name: string)
    | ViewSet(name: string, columns: seq<Stored>)
    | ViewGone(name: string)
    | StatisticsSet(name: string, index: nat, meta: nat)
    | StatisticsGone(name: string, index: nat)

  /** What a change means for a plan over the slots it was planned on. */
  function ChangeOf(slots: seq<ColumnSlot>, plan: PlanArena, d: DDLApply): Change
    requires Upserts(d) ==> Resolves(slots, plan, d.refs)
  {
    match d
    case UpsertTable(n, refs, clear) => TableSet(n, Meaning(slots, plan, refs), clear)
    case DropTable(n) => TableGone(n)
    case UpsertView(n, refs) => ViewSet(n, Meaning(slots, plan, refs))
    case DropView(n) => ViewGone(n)
    case UpsertStatistics(n, i, meta) => StatisticsSet(n, i, meta)
    case RemoveStatistics(n, i) => StatisticsGone(n, i)
  }

  predicate AllResolve(slots: seq<ColumnSlot>, plan: PlanArena, applies: seq<DDLApply>) {
    forall i :: 0 <= i < |applies| && Upserts(applies[i]) ==> Resolves(slots, plan, applies[i].refs)
  }

  function ChangesOf(slots: seq<ColumnSlot>, plan: PlanArena, applies: seq<DDLApply>): (r: seq<Change>)
    requires AllResolve(slots, plan, applies)
    ensures |r| == |applies| && forall i :: 0 <= i < |applies| ==> r[i] == ChangeOf(slots, plan, applies[i])
  {
    seq(|applies|, i requires 0 <= i < |applies| => ChangeOf(slots, plan, applies[i]))
  }

  function Changed(c: Caches, d: Change): Caches {
    match d
    case TableSet(n, columns, clear) =>
      Caches(c.tables[n := columns], c.views, if clear then Without(c.statistics, n) else c.statistics)
    case TableGone(n) => Caches(c.tables - {n}, c.views, Without(c.statistics, n))
    case ViewSet(n, columns) => Caches(c.tables, c.views[n := columns], c.statistics)
    case ViewGone(n) => Caches(c.tables, c.views - {n}, c.statistics)
    case StatisticsSet(n, i, meta) => Caches(c.tables, c.views, c.statistics[(n, i) := meta])
    case StatisticsGone(n, i) => Caches(c.tables, c.views, c.statistics - {(n, i)})
  }

  /** The first `k` changes, one after the other. */
  function ChangedAll(c: Caches, changes: seq<Change>, k: nat): Caches
    requires k <= |changes|
  {
    if k == 0 then c else Changed(ChangedAll(c, changes, k - 1), changes[k - 1])
  }

  function Lookup<K, V>(m: map<K, V>, k: K): Option<V> {
    if k in m then Some(m[k]) else None
  }

  predicate OfTable(d: Change, name: string) {
    (d.TableSet? || d.TableGone?) && d.name == name
  }

  predicate OfView(d: Change, name: string) {
    (d.ViewSet? || d.ViewGone?) && d.name == name
  }

  /** The statistics of an index are set, removed, or removed with all those of their table. */
  predicate OfStatistics(d: Change, table: string, index: nat) {
    d.name == table && ((d.StatisticsSet? && d.index == index) || (d.StatisticsGone? && d.index == index) ||
                        d.TableGone? || (d.TableSet? && d.clear))
  }

  /** Of the first `k` changes, the last one about a table decides what it is; without one it is what it was. */
  lemma {:induction false} LastTableChangeDecides(c: Caches, changes: seq<Change>, k: nat, j: nat, name: string)
    requires j <= k <= |changes| && forall i :: j <= i < k ==> !OfTable(changes[i], name)
    requires j == 0 || OfTable(changes[j - 1], name)
    ensures Lookup(ChangedAll(c, changes, k).tables, name) ==
            if j == 0 then Lookup(c.tables, name)
            else if changes[j - 1].TableSet? then Some(changes[j - 1].columns) else None
  {
    if k > j { LastTableChangeDecides(c, changes, k - 1, j, name); }
  }

  lemma {:induction false} LastViewChangeDecides(c: Caches, changes: seq<Change>, k: nat, j: nat, name: string)
    requires j <= k <= |changes| && forall i :: j <= i < k ==> !OfView(changes[i], name)
    requires j == 0 || OfView(changes[j - 1], name)
    ensures Lookup(ChangedAll(c, changes, k).views, name) ==
            if j == 0 then Lookup(c.views, name)
            else if changes[j - 1].ViewSet? then Some(changes[j - 1].columns) else None
  {
    if k > j { LastViewChangeDecides(c, changes, k - 1, j, name); }
  }

  lemma {:induction false} LastStatisticsChangeDecides(c: Caches, changes: seq<Change>, k: nat, j: nat, table: string,
                                                       index: nat)
    requires j <= k <= |changes| && forall i :: j <= i < k ==> !OfStatistics(changes[i], table, index)
    requires j == 0 || OfStatistics(changes[j - 1], table, index)
    ensures Lookup(ChangedAll(c, changes, k).statistics, (table, index)) ==
            if j == 0 then Lookup(c.statistics, (table, index))
            else if changes[j - 1].StatisticsSet? then Some(changes[j - 1].meta) else None
  {
    if k > j { LastStatisticsChangeDecides(c, changes, k - 1, j, table, index); }
  }

  predicate AllNumbered(columns: seq<Stored>) {
    forall i :: 0 <= i < |columns| ==> columns[i].id.Some?
  }

  /** A table with a column without an id is refused; every other change goes through. */
  predicate Accepted(d: Change) {
    d.TableSet? ==> AllNumbered(d.columns)
  }

  /** How many changes are made: all of them, or those before the first that is refused. */
  function Made(changes: seq<Change>): (n: nat)
    ensures n <= |changes| && (n < |changes| ==> !Accepted(changes[n]))
    ensures forall i :: 0 <= i < n ==> Accepted(changes[i])
  {
    if changes == [] || !Accepted(changes[0]) then 0
    else
      var n := 1 + Made(changes[1..]);
      assert forall i :: 1 <= i < n ==> changes[i] == changes[1..][i - 1];
      n
  }

  lemma {:induction false} MadeNext(changes: seq<Change>, k: nat)
    requires k < |changes| && k <= Made(changes)
    ensures if Accepted(changes[k]) then k + 1 <= Made(changes) else Made(changes) == k
  {
  }

  /** The change touches tables or views. */
  predicate Restructures(d: Change) {
    !d.StatisticsSet? && !d.StatisticsGone?
  }

  const NO_CACHES := Caches(map[], map[], map[])

  /** Those are the changes that can make a difference to the tables or views. */
  lemma {:induction false} RestructuresIff(d: Change)
    ensures Restructures(d) <==> exists c :: Changed(c, d).tables != c.tables || Changed(c, d).views != c.views
  {
    var full := Caches(map[d.name := []], map[d.name := []], map[]);
    match d
    case TableSet(n, _, _) => assert n in Changed(NO_CACHES, d).tables && n !in NO_CACHES.tables;
    case TableGone(n) => assert n !in Changed(full, d).tables && n in full.tables;
    case ViewSet(n, _) => assert n in Changed(NO_CACHES, d).views && n !in NO_CACHES.views;
    case ViewGone(n) => assert n !in Changed(full, d).views && n in full.views;
    case _ =>
  }

  /** The references a plan holds are good for one change of the arena. */
  predicate SingleUpsert(applies: seq<DDLApply>) {
    forall i, j :: 0 <= i < j < |applies| ==> !(Upserts(applies[i]) && Upserts(applies[j]))
  }

  class State {
    var slots: seq<ColumnSlot>
    var tables: map<string, seq<nat>>
    var views: map<string, seq<nat>>
    var functions: map<string, seq<nat>>
    var statistics: Statistics
    ghost var tablesMeant: map<string, seq<Stored>>
    ghost var viewsMeant: map<string, seq<Stored>>
    ghost var functionsMeant: map<string, seq<Stored>>

    constructor ()
      ensures Valid() && StatisticsNamed() && Means() == NOTHING
    {
      slots, tables, views, functions, statistics := [], map[], map[], map[], map[];
      tablesMeant, viewsMeant, functionsMeant := map[], map[], map[];
    }

    /** Every column reference held by a cached table, view or table function denotes the column it
        denoted when it was cached. */
    ghost predicate Valid()
      reads this
    {
      CacheHolds(slots, tables, tablesMeant) && CacheHolds(slots, views, viewsMeant) &&
        CacheHolds(slots, functions, functionsMeant)
    }

    /** Every statistics entry belongs to a cached table. */
    predicate StatisticsNamed()
      reads this
    {
      forall k :: k in statistics ==> k.0 in tables
    }

    /** A slot is live exactly when a cached table, view or table function refers to it. */
    ghost predicate Tight()
      reads this
    {
      forall i :: 0 <= i < |slots| ==>
        (slots[i].live <==> Refers(tables, i) || Refers(views, i) || Refers(functions, i))
    }

    ghost function Meant(): Caches
      reads this
    {
      Caches(tablesMeant, viewsMeant, statistics)
    }

    /** Everything the caches mean, table functions included. */
    ghost function Means(): Catalogue
      reads this
    {
      Catalogue(Meant(), functionsMeant)
    }

    twostate predicate CachesKept()
      reads this
    {
      && tables == old(tables) && views == old(views) && functions == old(functions) && statistics == old(statistics)
      && tablesMeant == old(tablesMeant) && viewsMeant == old(viewsMeant) && functionsMeant == old(functionsMeant)
    }

    lemma SlotsChanged(before: seq<ColumnSlot>)
      requires Keeps(before, slots)
      requires CacheHolds(before, tables, tablesMeant) && CacheHolds(before, views, viewsMeant) &&
               CacheHolds(before, functions, functionsMeant)
      ensures Valid()
    {
      CacheKept(before, slots, tables, tablesMeant);
      CacheKept(before, slots, views, viewsMeant);
      CacheKept(before, slots, functions, functionsMeant);
    }

    /** An equal live column is shared; otherwise a dead slot is reused, or a new one appended. */
    method AllocColumn(c: Stored) returns (ref: nat)
      modifies `slots
      ensures Keeps(old(slots), slots) && ref < |slots| && slots[ref] == ColumnSlot(c, true)
      ensures ColumnSlot(c, true) in old(slots) ==> slots == old(slots)
      ensures forall i :: 0 <= i < |old(slots)| && i != ref ==> slots[i] == old(slots)[i]
      ensures |slots| > |old(slots)| ==>
        |slots| == |old(slots)| + 1 && forall i :: 0 <= i < |old(slots)| ==> old(slots)[i].live
    {
      ref := FindLive(slots, c);
      if ref < |slots| { return; }
      ref := FindDead(slots);
      if ref < |slots| {
        slots := slots[ref := ColumnSlot(c, true)];
      } else {
        slots := slots + [ColumnSlot(c, true)];
      }
    }

    /** Storing the columns of a table in the arena; a column without an id is refused. */
    method Reload(columns: seq<Stored>) returns (ok: bool, refs: seq<nat>)
      modifies `slots
      ensures Keeps(old(slots), slots)
      ensures ok == AllNumbered(columns)
      ensures ok ==> Denote(slots, refs, columns)
    {
      refs := [];
      for k := 0 to |columns|
        invariant Keeps(old(slots), slots) && Denote(slots, refs, columns[..k])
        invariant forall i :: 0 <= i < k ==> columns[i].id.Some?
      {
        if columns[k].id.None? { return false, []; }
        ghost var before := slots;
        var ref := AllocColumn(columns[k]);
        DenoteKept(before, slots, refs, columns[..k]);
        refs := refs + [ref];
      }
      ok := true;
      assert columns[..|columns|] == columns;
    }

    /** Frees every slot that no table, view or table function refers to; `visited` tells whether the
        plans of the cached views could be walked. */
    method RecycleTableArena(visited: bool) returns (ok: bool)
      requires Valid()
      modifies `slots
      ensures Valid() && ok == visited
      ensures if !visited then slots == old(slots) else
        && Tight() && |slots| == |old(slots)|
        && forall i :: 0 <= i < |slots| ==> slots[i].column == old(slots)[i].column
    {
      if !visited { return false; }
      var live := RefsOf(tables) + RefsOf(views) + RefsOf(functions);
      RecycledHolds(slots, live, tables, tablesMeant);
      RecycledHolds(slots, live, views, viewsMeant);
      RecycledHolds(slots, live, functions, functionsMeant);
      slots := Recycled(slots, live);
      return true;
    }

    /** Storing columns without asking for ids, as decoding a view and declaring a table function do. */
    method AllocAll(columns: seq<Stored>) returns (refs: seq<nat>)
      modifies `slots
      ensures Keeps(old(slots), slots) && Denote(slots, refs, columns)
    {
      refs := [];
      for k := 0 to |columns|
        invariant Keeps(old(slots), slots) && Denote(slots, refs, columns[..k])
      {
        ghost var before := slots;
        var ref := AllocColumn(columns[k]);
        DenoteKept(before, slots, refs, columns[..k]);
        refs := refs + [ref];
      }
      assert columns[..|columns|] == columns;
    }

    /** A table moves from the plan's arena to the table arena and into the cache. */
    method ApplyTable(d: DDLApply, plan: PlanArena) returns (ok: bool)
      requires Valid() && d.UpsertTable? && Resolves(slots, plan, d.refs)
      modifies this
      ensures Valid() && Keeps(old(slots), slots)
      ensures ok == AllNumbered(old(Meaning(slots, plan, d.refs)))
      ensures views == old(views) && viewsMeant == old(viewsMeant) && functions == old(functions) &&
              functionsMeant == old(functionsMeant)
      ensures !ok ==> CachesKept()
      ensures ok ==>
        && d.name in tables && tables == old(tables)[d.name := tables[d.name]]
        && tablesMeant == old(tablesMeant)[d.name := old(Meaning(slots, plan, d.refs))]
        && statistics == if d.clearStatistics then Without(old(statistics), d.name) else old(statistics)
    {
      var columns := Meaning(slots, plan, d.refs);
      var refs;
      ok, refs := Reload(columns);
      SlotsChanged(old(slots));
      if ok {
        tables, tablesMeant := tables[d.name := refs], tablesMeant[d.name := columns];
        if d.clearStatistics { statistics := Without(statistics, d.name); }
      }
    }

    /** A view keeps its references; the plan's columns are appended behind the slots they were numbered from. */
    method ApplyView(d: DDLApply, plan: PlanArena)
      requires Valid() && d.UpsertView? && Resolves(slots, plan, d.refs)
      modifies this
      ensures Valid() && Keeps(old(slots), slots)
      ensures tables == old(tables) && tablesMeant == old(tablesMeant) && functions == old(functions) &&
              functionsMeant == old(functionsMeant)
      ensures statistics == old(statistics) && views == old(views)[d.name := d.refs]
      ensures viewsMeant == old(viewsMeant)[d.name := old(Meaning(slots, plan, d.refs))]
    {
      MaterializedDenotes(slots, plan, d.refs);
      ghost var columns := Meaning(slots, plan, d.refs);
      slots := Materialized(slots, plan);
      SlotsChanged(old(slots));
      views, viewsMeant := views[d.name := d.refs], viewsMeant[d.name := columns];
    }

    method ForgetTable(name: string)
      requires Valid()
      modifies `tables, `tablesMeant, `statistics
      ensures Valid() && tables == old(tables) - {name} && tablesMeant == old(tablesMeant) - {name}
      ensures statistics == Without(old(statistics), name)
    {
      tables, tablesMeant := tables - {name}, tablesMeant - {name};
      statistics := Without(statistics, name);
    }

    method ForgetView(name: string)
      requires Valid()
      modifies `views, `viewsMeant
      ensures Valid() && views == old(views) - {name} && viewsMeant == old(viewsMeant) - {name}
    {
      views, viewsMeant := views - {name}, viewsMeant - {name};
    }

    method ApplyTo(d: DDLApply, plan: PlanArena) returns (ok: bool, changed: bool)
      requires Valid() && (Upserts(d) ==> Resolves(slots, plan, d.refs))
      modifies this
      ensures Valid() && Keeps(old(slots), slots) && functions == old(functions) &&
              functionsMeant == old(functionsMeant)
      ensures !Upserts(d) ==> slots == old(slots)
      ensures ok == Accepted(old(ChangeOf(slots, plan, d)))
      ensures if ok then Meant() == Changed(old(Meant()), old(ChangeOf(slots, plan, d))) else CachesKept()
      ensures changed == (ok && Restructures(old(ChangeOf(slots, plan, d))))
    {
      ok, changed := true, true;
      match d
      case UpsertTable(_, _, _) =>
        ok := ApplyTable(d, plan);
        changed := ok;
      case DropTable(name) => ForgetTable(name);
      case UpsertView(_, _) => ApplyView(d, plan);
      case DropView(name) => ForgetView(name);
      case UpsertStatistics(name, index, meta) =>
        statistics := statistics[(name, index) := meta];
        changed := false;
      case RemoveStatistics(name, index) =>
        statistics := statistics - {(name, index)};
        changed := false;
    }

    /** Applies one change of a statement that was planned over the slots `before`. */
    method ApplyNext(applies: seq<DDLApply>, k: nat, plan: PlanArena, ghost before: seq<ColumnSlot>)
      returns (ok: bool, changed: bool)
      requires Valid() && k < |applies| && SingleUpsert(applies) && AllResolve(before, plan, applies)
      requires NoneUpserts(applies, k) ==> slots == before
      modifies this
      ensures Valid() && functions == old(functions) && functionsMeant == old(functionsMeant)
      ensures NoneUpserts(applies, k + 1) ==> slots == before
      ensures
        var d := ChangesOf(before, plan, applies)[k];
        && ok == Accepted(d) && changed == (ok && Restructures(d))
        && Meant() == if ok then Changed(old(Meant()), d) else old(Meant())
    {
      ChangeIsFixed(before, slots, plan, applies, k);
      ok, changed := ApplyTo(applies[k], plan);
    }

    /** Applies the changes in order.  One that is refused ends the loop, and those before it stay. */
    method ApplyAll(applies: seq<DDLApply>, plan: PlanArena) returns (ok: bool, changed: bool)
      requires Valid() && SingleUpsert(applies) && AllResolve(slots, plan, applies)
      modifies this
      ensures Valid() && functions == old(functions) && functionsMeant == old(functionsMeant)
      ensures
        var changes := old(ChangesOf(slots, plan, applies));
        && ok == (Made(changes) == |changes|)
        && Meant() == ChangedAll(old(Meant()), changes, Made(changes))
        && changed == SomeRestructure(changes, Made(changes))
    {
      changed := false;
      ghost var before, changes := slots, ChangesOf(slots, plan, applies);
      for k := 0 to |applies|
        invariant Valid() && functions == old(functions) && functionsMeant == old(functionsMeant)
        invariant NoneUpserts(applies, k) ==> slots == before
        invariant k <= Made(changes) && Meant() == ChangedAll(old(Meant()), changes, k)
        invariant changed == SomeRestructure(changes, k)
      {
        MadeNext(changes, k);
        var applied, change := ApplyNext(applies, k, plan, before);
        if !applied { return false, changed; }
        changed := changed || change;
      }
      ok := true;
    }

    /** Executes a catalog statement: begin its scope, plan it, drain its iterator, commit, and only then apply the
        changes taken from the iterator.  `visited` tells whether the views could be walked for recycling. */
    method ExecuteMut(s: Statement<DDLApply>, plan: PlanArena, transaction: Transaction, visited: bool)
      returns (ok: bool)
      requires Valid() && SingleUpsert(s.executor.effects) && AllResolve(slots, plan, s.executor.effects)
      modifies this, transaction
      ensures Valid() && functions == old(functions) && functionsMeant == old(functionsMeant)
      ensures Extends(old(transaction.log), transaction.log, s)
      ensures !CachesKept() || slots != old(slots) ==> Commit in transaction.log[|old(transaction.log)|..]
      ensures !(GetsToCommit(s) && transaction.commitsCleanly) ==> !ok && CachesKept() && slots == old(slots)
      ensures GetsToCommit(s) && transaction.commitsCleanly ==>
        var changes := old(ChangesOf(slots, plan, s.executor.effects));
        && Meant() == ChangedAll(old(Meant()), changes, Made(changes))
        && ok == (Made(changes) == |changes| && (SomeRestructure(changes, |changes|) ==> visited))
        && (ok && SomeRestructure(changes, |changes|) ==> Tight())
    {
      var committed, applies := CommitStatement(s, transaction);
      if !committed { return false; }
      assert Commit in transaction.log[|old(transaction.log)|..];
      var catalogChanged;
      ok, catalogChanged := ApplyAll(applies, plan);
      if ok && catalogChanged { ok := RecycleTableArena(visited); }
    }

    /** Caches the statistics of a table's indexes one by one, up to the first that cannot be read. */
    method LoadStatistics(name: string, metas: seq<StatisticsRead>) returns (ok: bool)
      modifies `statistics
      ensures statistics == Read(old(statistics), name, metas, Readable(metas))
      ensures ok == (Readable(metas) == |metas|)
    {
      for k := 0 to |metas|
        invariant k <= Readable(metas) && statistics == Read(old(statistics), name, metas, k)
      {
        match metas[k]
        case NoMeta =>
        case ReadFails => return false;
        case Meta(index, meta) => statistics := statistics[(name, index) := meta];
      }
      ok := true;
    }

    /** Loads a table and its statistics; the statistics are cached before the table is. */
    method LoadTable(name: string, found: Option<seq<Stored>>, metas: seq<StatisticsRead>, visited: bool)
      returns (ok: bool)
      requires Valid()
      modifies this
      ensures Valid() && functions == old(functions) && functionsMeant == old(functionsMeant)
      ensures Meant() == TableLoaded(old(Meant()), name, found, metas)
      ensures ok == (found.Some? && AllNumbered(found.value) && Readable(metas) == |metas| && visited)
      ensures ok ==> Tight()
    {
      if found.None? { return false; }
      var refs;
      ok, refs := Reload(found.value);
      SlotsChanged(old(slots));
      if !ok { return; }
      ok := LoadStatistics(name, metas);
      if !ok { return; }
      tables, tablesMeant := tables[name := refs], tablesMeant[name := found.value];
      ok := RecycleTableArena(visited);
    }

    method LoadView(name: string, found: Option<seq<Stored>>, visited: bool) returns (ok: bool)
      requires Valid()
      modifies this
      ensures Valid() && tables == old(tables) && functions == old(functions) && functionsMeant == old(functionsMeant)
      ensures Meant() == if found.Some? then Changed(old(Meant()), ViewSet(name, found.value)) else old(Meant())
      ensures ok == (found.Some? && visited) && (ok ==> Tight())
    {
      if found.None? { return false; }
      var refs := AllocAll(found.value);
      SlotsChanged(old(slots));
      views, viewsMeant := views[name := refs], viewsMeant[name := found.value];
      ok := RecycleTableArena(visited);
    }

    method LoadTableFunction(name: string, columns: seq<Stored>, visited: bool) returns (ok: bool)
      requires Valid()
      modifies this
      ensures Valid() && tables == old(tables) && views == old(views) && Meant() == old(Meant())
      ensures functionsMeant == old(functionsMeant)[name := columns] && ok == visited && (ok ==> Tight())
    {
      var refs := AllocAll(columns);
      SlotsChanged(old(slots));
      functions, functionsMeant := functions[name := refs], functionsMeant[name := columns];
      ok := RecycleTableArena(visited);
    }
  }

  ghost predicate NoneUpserts(applies: seq<DDLApply>, k: nat)
    requires k <= |applies|
  {
    forall i :: 0 <= i < k ==> !Upserts(applies[i])
  }

  /** One of the first `k` changes touches tables or views. */
  predicate SomeRestructure(changes: seq<Change>, k: nat)
    requires k <= |changes|
  {
    k > 0 && (SomeRestructure(changes, k - 1) || Restructures(changes[k - 1]))
  }

  lemma {:induction false} SomeRestructureIff(changes: seq<Change>, k: nat)
    requires k <= |changes|
    ensures SomeRestructure(changes, k) <==> exists i :: 0 <= i < k && Restructures(changes[i])
  {
    if k > 0 { SomeRestructureIff(changes, k - 1); }
  }

  /** A change means at its turn what it meant when the statement was planned. */
  lemma {:induction false} ChangeIsFixed(before: seq<ColumnSlot>, slots: seq<ColumnSlot>, plan: PlanArena,
                                         applies: seq<DDLApply>, k: nat)
    requires k < |applies| && SingleUpsert(applies) && AllResolve(before, plan, applies)
    requires NoneUpserts(applies, k) ==> slots == before
    ensures Upserts(applies[k]) ==> Resolves(slots, plan, applies[k].refs)
    ensures ChangeOf(slots, plan, applies[k]) == ChangesOf(before, plan, applies)[k]
    ensures NoneUpserts(applies, k + 1) <==> NoneUpserts(applies, k) && !Upserts(applies[k])
  {
    if Upserts(applies[k]) { assert slots == before; }
  }

  /** Drains a planned statement; its changes are handed over only when it drained. */
  method DrainStatement(s: Statement<DDLApply>, transaction: Transaction) returns (ok: bool, applies: seq<DDLApply>)
    modifies transaction
    ensures transaction.log == old(transaction.log) + [ExecutorDropped, ScopeEnded]
    ensures ok == Drains(IterOf(s)) && applies == if ok then s.executor.effects else []
  {
    var iter := new TransactionIter(s.executor, transaction, s.endsCleanly);
    ok, applies := iter.DoneWithDdl();
    assert ok ==> applies == s.executor.effects;
  }

  lemma {:induction false} LogJoins(before: seq<Event>)
    ensures before + [ScopeBegun] + [Freed] == before + ([ScopeBegun] + [Freed])
    ensures before + [ScopeBegun] + [ExecutorDropped, ScopeEnded] + [Freed] == before + (WHOLE + [Freed])
    ensures before + [ScopeBegun] + [ExecutorDropped, ScopeEnded] + [Commit] + [Freed] ==
            before + (WHOLE + [Commit] + [Freed])
  {
    assert [ScopeBegun] + [ExecutorDropped, ScopeEnded] == WHOLE;
  }

  /** A catalog statement adds its events to the log, and leaves what is there. */
  ghost predicate Extends(before: seq<Event>, after: seq<Event>, s: Statement<DDLApply>) {
    |before| <= |after| && after[..|before|] == before && RecordsStatement(after[|before|..], s)
  }

  lemma {:induction false} LogExtends(before: seq<Event>, after: seq<Event>, s: Statement<DDLApply>)
    requires after == before + CatalogLog(s)
    ensures Extends(before, after, s) && (GetsToCommit(s) ==> Commit in after[|before|..])
  {
    assert after[..|before|] == before && after[|before|..] == CatalogLog(s);
    CatalogLogRecords(s);
  }

  /** The transaction of a catalog statement: it is freed once on every path, committed once its iterator drained,
      and its changes are handed over only then. */
  method CommitStatement(s: Statement<DDLApply>, transaction: Transaction) returns (ok: bool, applies: seq<DDLApply>)
    modifies transaction
    ensures Extends(old(transaction.log), transaction.log, s)
    ensures ok ==> Commit in transaction.log[|old(transaction.log)|..]
    ensures ok == (GetsToCommit(s) && transaction.commitsCleanly)
    ensures applies == if ok then s.executor.effects else []
  {
    LogJoins(transaction.log);
    DrainsIff(IterOf(s));
    ok, applies := false, [];
    if s.begins {
      transaction.log := transaction.log + [ScopeBegun];
      if s.builds {
        ok, applies := DrainStatement(s, transaction);
        if ok {
          transaction.log := transaction.log + [Commit];
          if !transaction.commitsCleanly { ok, applies := false, []; }
        }
      }
    }
    transaction.log := transaction.log + [Freed];
    LogExtends(old(transaction.log), transaction.log, s);
  }

  /** What reading the statistics of one index comes to. */
  datatype StatisticsRead = NoMeta | Meta(index: nat, meta: nat) | ReadFails

  /** The statistics after the first `k` reads. */
  function Read(statistics: Statistics, name: string, metas: seq<StatisticsRead>, k: nat): Statistics
    requires k <= |metas|
  {
    if k == 0 then statistics
    else
      var before := Read(statistics, name, metas, k - 1);
      if metas[k - 1].Meta? then before[(name, metas[k - 1].index) := metas[k - 1].meta] else before
  }

  /** Loading a table's statistics keeps those of every other table, and of an index read twice the last read counts. */
  lemma {:induction false} LastReadDecides(statistics: Statistics, name: string, metas: seq<StatisticsRead>, k: nat,
                                           j: nat, table: string, index: nat)
    requires j <= k <= |metas|
    requires forall i :: j <= i < k ==> !(table == name && metas[i].Meta? && metas[i].index == index)
    requires j == 0 || (table == name && metas[j - 1].Meta? && metas[j - 1].index == index)
    ensures Lookup(Read(statistics, name, metas, k), (table, index)) ==
            if j == 0 then Lookup(statistics, (table, index)) else Some(metas[j - 1].meta)
  {
    if k > j { LastReadDecides(statistics, name, metas, k - 1, j, table, index); }
  }

  /** How many reads there are before the first that fails. */
  function Readable(metas: seq<StatisticsRead>): (n: nat)
    ensures n <= |metas| && (n < |metas| ==> metas[n].ReadFails?)
    ensures forall i :: 0 <= i < n ==> !metas[i].ReadFails?
  {
    if metas == [] || metas[0].ReadFails? then 0
    else
      var n := 1 + Readable(metas[1..]);
      assert forall i :: 1 <= i < n ==> metas[i] == metas[1..][i - 1];
      n
  }

  /** Statistics read before a failure stay cached, the table does not get there. */
  function TableLoaded(c: Caches, name: string, found: Option<seq<Stored>>, metas: seq<StatisticsRead>): Caches {
    if found.None? || !AllNumbered(found.value) then c
    else
      Caches(if Readable(metas) == |metas| then c.tables[name := found.value] else c.tables, c.views,
             Read(c.statistics, name, metas, Readable(metas)))
  }

  // ------------------------------------------------------------------ every run

  datatype Catalogue = Catalogue(caches: Caches, functions: map<string, seq<Stored>>)

  /** What planning a statement in some state of the arena comes to. */
  datatype Planning = Planning(plan: PlanArena, applies: seq<DDLApply>)

  /** `Execute` is a catalog statement by what each of its stages comes to and by the changes it means; `planner`
      numbers their columns in the state of the arena that it finds. */
  datatype Operation =
    | Execute(begins: bool, builds: bool, steps: seq<Step>, endsCleanly: bool, commits: bool,
              planner: seq<ColumnSlot> -> Planning, changes: seq<Change>, walked: bool)
    | TableLoad(table: string, columns: Option<seq<Stored>>, metas: seq<StatisticsRead>, tableWalked: bool)
    | ViewLoad(view: string, viewColumns: Option<seq<Stored>>, viewWalked: bool)
    | FunctionLoad(routine: string, functionColumns: seq<Stored>, functionWalked: bool)

  /** In every state of the arena, planning means the changes. */
  ghost predicate PlansAs(planner: seq<ColumnSlot> -> Planning, changes: seq<Change>) {
    forall slots: seq<ColumnSlot> :: PlansOn(slots, planner(slots), changes)
  }

  predicate PlansOn(slots: seq<ColumnSlot>, planning: Planning, changes: seq<Change>) {
    && SingleUpsert(planning.applies) && AllResolve(slots, planning.plan, planning.applies)
    && ChangesOf(slots, planning.plan, planning.applies) == changes
  }

  ghost predicate WellPlanned(op: Operation) {
    op.Execute? ==> PlansAs(op.planner, op.changes)
  }

  predicate Sets(d: Change) {
    d.TableSet? || d.ViewSet?
  }

  predicate SingleSet(changes: seq<Change>) {
    forall i, j :: 0 <= i < j < |changes| ==> !(Sets(changes[i]) && Sets(changes[j]))
  }

  /** The change with its columns numbered from `base` on. */
  function ApplyOf(d: Change, base: nat): DDLApply {
    match d
    case TableSet(n, columns, clear) => UpsertTable(n, seq(|columns|, i => base + i), clear)
    case TableGone(n) => DropTable(n)
    case ViewSet(n, columns) => UpsertView(n, seq(|columns|, i => base + i))
    case ViewGone(n) => DropView(n)
    case StatisticsSet(n, i, meta) => UpsertStatistics(n, i, meta)
    case StatisticsGone(n, i) => RemoveStatistics(n, i)
  }

  function ColumnsSet(changes: seq<Change>): seq<Stored> {
    if changes == [] then [] else if Sets(changes[0]) then changes[0].columns else ColumnsSet(changes[1..])
  }

  lemma {:induction false} ColumnsOfTheSet(changes: seq<Change>, i: nat)
    requires SingleSet(changes) && i < |changes| && Sets(changes[i])
    ensures ColumnsSet(changes) == changes[i].columns
  {
    if i > 0 { ColumnsOfTheSet(changes[1..], i - 1); }
  }

  /** Whatever is to change, a plan that keeps the new columns in its own arena means it in every state. */
  lemma {:induction false} EveryChangeCanBePlanned(changes: seq<Change>, slots: seq<ColumnSlot>)
    requires SingleSet(changes)
    ensures
      var applies := seq(|changes|, i requires 0 <= i < |changes| => ApplyOf(changes[i], |slots|));
      PlansOn(slots, Planning(PlanArena(|slots|, ColumnsSet(changes)), applies), changes)
  {
    var plan := PlanArena(|slots|, ColumnsSet(changes));
    var applies := seq(|changes|, i requires 0 <= i < |changes| => ApplyOf(changes[i], |slots|));
    forall i | 0 <= i < |changes|
      ensures Upserts(applies[i]) <==> Sets(changes[i])
      ensures Upserts(applies[i]) ==> Resolves(slots, plan, applies[i].refs)
      ensures ChangeOf(slots, plan, applies[i]) == changes[i]
    {
      if Sets(changes[i]) {
        ColumnsOfTheSet(changes, i);
        assert Meaning(slots, plan, applies[i].refs) == changes[i].columns;
      }
    }
  }

  /** No other changes can be planned: of those a plan means, at most one sets a table or a view. */
  lemma {:induction false} PlannedSetOnce(slots: seq<ColumnSlot>, planning: Planning, changes: seq<Change>)
    requires PlansOn(slots, planning, changes)
    ensures SingleSet(changes)
  {
    forall i, j | 0 <= i < j < |changes| ensures !(Sets(changes[i]) && Sets(changes[j])) {
      assert changes[i] == ChangeOf(slots, planning.plan, planning.applies[i]);
      assert changes[j] == ChangeOf(slots, planning.plan, planning.applies[j]);
    }
  }

  predicate Commits(op: Operation)
    requires op.Execute?
  {
    op.begins && op.builds && !Fails(op.steps) && op.endsCleanly && op.commits
  }

  /** What one operation makes of the catalog. */
  function AfterOperation(c: Catalogue, op: Operation): Catalogue {
    match op
    case Execute(_, _, _, _, _, _, changes, _) =>
      if Commits(op) then c.(caches := ChangedAll(c.caches, changes, Made(changes))) else c
    case TableLoad(name, columns, metas, _) => c.(caches := TableLoaded(c.caches, name, columns, metas))
    case ViewLoad(name, columns, _) => if columns.Some? then c.(caches :=
                                                                Changed(c.caches, ViewSet(name, columns.value))) else c
    case FunctionLoad(name, columns, _) => c.(functions := c.functions[name := columns])
  }

  function AfterRun(c: Catalogue, operations: seq<Operation>, k: nat): Catalogue
    requires k <= |operations|
  {
    if k == 0 then c else AfterOperation(AfterRun(c, operations, k - 1), operations[k - 1])
  }

  method Perform(state: State, op: Operation)
    requires state.Valid() && WellPlanned(op)
    modifies state
    ensures state.Valid() && state.Means() == AfterOperation(old(state.Means()), op)
  {
    match op
    case Execute(begins, builds, steps, endsCleanly, commits, planner, changes, walked) =>
      var planning := planner(state.slots);
      assert PlansOn(state.slots, planning, changes);
      var transaction := new Transaction(commits);
      var s := Statement(begins, builds, Executor(steps, planning.applies), endsCleanly);
      DrainsIff(IterOf(s));
      var _ := state.ExecuteMut(s, planning.plan, transaction, walked);
    case TableLoad(name, columns, metas, walked) => var _ := state.LoadTable(name, columns, metas, walked);
    case ViewLoad(name, columns, walked) => var _ := state.LoadView(name, columns, walked);
    case FunctionLoad(name, columns, walked) => var _ := state.LoadTableFunction(name, columns, walked);
  }

  /** Over every run of statements and loads, in any order and with any failures, the caches mean what the
      operations say, through every reuse and recycling of column slots; and from an orderly run the
      statistics belong to cached tables. */
  method Run(state: State, operations: seq<Operation>)
    requires state.Valid() && forall k :: 0 <= k < |operations| ==> WellPlanned(operations[k])
    modifies state
    ensures state.Valid() && state.Means() == AfterRun(old(state.Means()), operations, |operations|)
    ensures old(state.StatisticsNamed()) && Orderly(old(state.tables).Keys, operations, |operations|) ==>
            state.StatisticsNamed()
  {
    ghost var start := state.Means();
    for k := 0 to |operations|
      invariant state.Valid() && state.Means() == AfterRun(start, operations, k)
    {
      Perform(state, operations[k]);
    }
    if old(state.StatisticsNamed()) { RunNamedIff(start, operations, |operations|); }
  }

  // ------------------------------------------------------------------ statistics and tables

  /** Every statistics entry belongs to a cached table. */
  predicate Named(c: Caches) {
    forall k :: k in c.statistics ==> k.0 in c.tables
  }

  /** The tables cached after the first `k` changes. */
  function NamesAfter(names: set<string>, changes: seq<Change>, k: nat): set<string>
    requires k <= |changes|
  {
    if k == 0 then names
    else
      var before, d := NamesAfter(names, changes, k - 1), changes[k - 1];
      if d.TableSet? then before + {d.name} else if d.TableGone? then before - {d.name} else before
  }

  /** Statistics are set only for tables that are cached at that point. */
  predicate Targets(names: set<string>, changes: seq<Change>, k: nat)
    requires k <= |changes|
  {
    k == 0 ||
    (Targets(names, changes, k - 1) && (changes[k - 1].StatisticsSet? ==>
                                        changes[k - 1].name in NamesAfter(names, changes, k - 1)))
  }

  lemma {:induction false} ChangeNamedIff(c: Caches, d: Change)
    requires Named(c)
    ensures Named(Changed(c, d)) <==> (d.StatisticsSet? ==> d.name in c.tables)
  {
    if d.StatisticsSet? { assert (d.name, d.index) in Changed(c, d).statistics; }
  }

  lemma {:induction false} ChangedNames(c: Caches, changes: seq<Change>, k: nat)
    requires k <= |changes|
    ensures ChangedAll(c, changes, k).tables.Keys == NamesAfter(c.tables.Keys, changes, k)
  {
    if k > 0 { ChangedNames(c, changes, k - 1); }
  }

  predicate NamedThrough(c: Caches, changes: seq<Change>, k: nat)
    requires k <= |changes|
    ensures NamedThrough(c, changes, k) ==> Named(ChangedAll(c, changes, k))
  {
    Named(ChangedAll(c, changes, k)) && (k == 0 || NamedThrough(c, changes, k - 1))
  }

  /** Statistics belong to cached tables after every one of the changes exactly when they are set only for such. */
  lemma {:induction false} ChangesNamedIff(c: Caches, changes: seq<Change>, k: nat)
    requires Named(c) && k <= |changes|
    ensures NamedThrough(c, changes, k) <==> Targets(c.tables.Keys, changes, k)
  {
    if k == 0 {
      assert ChangedAll(c, changes, 0) == c;
    } else {
      ChangesNamedIff(c, changes, k - 1);
      ChangedNames(c, changes, k - 1);
      if NamedThrough(c, changes, k - 1) { ChangeNamedIff(ChangedAll(c, changes, k - 1), changes[k - 1]); }
    }
  }

  /** Statistics of a table that is not cached are read, and then a read fails. */
  predicate LeavesOrphans(names: set<string>, name: string, found: Option<seq<Stored>>, metas: seq<StatisticsRead>) {
    && name !in names && found.Some? && AllNumbered(found.value)
    && Readable(metas) < |metas| && exists i :: 0 <= i < Readable(metas) && metas[i].Meta?
  }

  lemma {:induction false} ReadKeys(statistics: Statistics, name: string, metas: seq<StatisticsRead>, k: nat)
    requires k <= |metas|
    ensures
      var r := Read(statistics, name, metas, k);
      && statistics.Keys <= r.Keys && (forall key :: key in r && key !in statistics ==> key.0 == name)
      && (forall i :: 0 <= i < k && metas[i].Meta? ==> (name, metas[i].index) in r)
      && ((forall i :: 0 <= i < k ==> !metas[i].Meta?) ==> r == statistics)
  {
    if k > 0 { ReadKeys(statistics, name, metas, k - 1); }
  }

  lemma {:induction false} LoadNamedIff(c: Caches, name: string, found: Option<seq<Stored>>, metas: seq<StatisticsRead>)
    requires Named(c)
    ensures Named(TableLoaded(c, name, found, metas)) <==> !LeavesOrphans(c.tables.Keys, name, found, metas)
  {
    ReadKeys(c.statistics, name, metas, Readable(metas));
    if LeavesOrphans(c.tables.Keys, name, found, metas) {
      var i :| 0 <= i < Readable(metas) && metas[i].Meta?;
      assert (name, metas[i].index) in TableLoaded(c, name, found, metas).statistics;
    }
  }

  /** Statistics belong to cached tables when the operation is over, and after each change of a committed statement. */
  ghost predicate StaysNamed(c: Caches, op: Operation) {
    match op
    case Execute(_, _, _, _, _, _, changes, _) =>
      Commits(op) ==> NamedThrough(c, changes, Made(changes))
    case TableLoad(name, columns, metas, _) => Named(TableLoaded(c, name, columns, metas))
    case _ => true
  }

  /** The condition on the operation and the names of the cached tables alone. */
  predicate OrderlyOn(names: set<string>, op: Operation) {
    match op
    case Execute(_, _, _, _, _, _, changes, _) => Commits(op) ==> Targets(names, changes, Made(changes))
    case TableLoad(name, columns, metas, _) => !LeavesOrphans(names, name, columns, metas)
    case _ => true
  }

  function NamesAfterOperation(names: set<string>, op: Operation): set<string> {
    match op
    case Execute(_, _, _, _, _, _, changes, _) => if Commits(op) then NamesAfter(names, changes, Made(changes))
         else names
    case TableLoad(name, columns, metas, _) =>
      if columns.Some? && AllNumbered(columns.value) && Readable(metas) == |metas| then names + {name} else names
    case _ => names
  }

  function NamesAfterRun(names: set<string>, operations: seq<Operation>, k: nat): set<string>
    requires k <= |operations|
  {
    if k == 0 then names else NamesAfterOperation(NamesAfterRun(names, operations, k - 1), operations[k - 1])
  }

  predicate Orderly(names: set<string>, operations: seq<Operation>, k: nat)
    requires k <= |operations|
  {
    k == 0 || (Orderly(names, operations, k - 1) && OrderlyOn(NamesAfterRun(names, operations, k - 1),
                                                              operations[k - 1]))
  }

  lemma {:induction false} OperationNamedIff(c: Catalogue, op: Operation)
    requires Named(c.caches)
    ensures StaysNamed(c.caches, op) <==> OrderlyOn(c.caches.tables.Keys, op)
    ensures StaysNamed(c.caches, op) ==> Named(AfterOperation(c, op).caches)
    ensures AfterOperation(c, op).caches.tables.Keys == NamesAfterOperation(c.caches.tables.Keys, op)
  {
    match op
    case Execute(_, _, _, _, _, _, changes, _) =>
      ChangesNamedIff(c.caches, changes, Made(changes));
      ChangedNames(c.caches, changes, Made(changes));
    case TableLoad(name, columns, metas, _) => LoadNamedIff(c.caches, name, columns, metas);
    case _ =>
  }

  ghost predicate StaysNamedThrough(c: Catalogue, operations: seq<Operation>, k: nat)
    requires k <= |operations|
  {
    k == 0 || (StaysNamedThrough(c, operations, k - 1) && StaysNamed(AfterRun(c, operations, k - 1).caches,
                                                                     operations[k - 1]))
  }

  /** Statistics belong to cached tables throughout a run exactly when every operation is orderly, which the
      operations alone decide; the names are those of the tables cached at the start. */
  lemma {:induction false} RunNamedIff(c: Catalogue, operations: seq<Operation>, k: nat)
    requires Named(c.caches) && k <= |operations|
    ensures StaysNamedThrough(c, operations, k) <==> Orderly(c.caches.tables.Keys, operations, k)
    ensures Orderly(c.caches.tables.Keys, operations, k) ==>
      var r := AfterRun(c, operations, k).caches;
      Named(r) && r.tables.Keys == NamesAfterRun(c.caches.tables.Keys, operations, k)
  {
    if k > 0 {
      RunNamedIff(c, operations, k - 1);
      if Orderly(c.caches.tables.Keys, operations, k - 1) {
        OperationNamedIff(AfterRun(c, operations, k - 1), operations[k - 1]);
      }
    }
  }

  const NOTHING := Catalogue(Caches(map[], map[], map[]), map[])

  /** Loading a table into an empty cache, when its second index cannot be read, leaves the statistics of its
      first and no table. */
  lemma {:induction false} OrphanedStatistics(c: Stored, meta: nat, walked: bool)
    requires c.id.Some?
    ensures
      var r := AfterRun(NOTHING, [TableLoad("t", Some([c]), [Meta(0, meta), ReadFails], walked)], 1).caches;
      r == Caches(map[], map[], map[("t", 0) := meta]) && !Named(r)
  {
    var metas := [Meta(0, meta), ReadFails];
    var op := TableLoad("t", Some([c]), metas, walked);
    assert metas[1..] == [ReadFails] && Readable(metas) == 1;
    assert Read(map[], "t", metas, 0) == map[];
    assert Read(map[], "t", metas, 1) == map[("t", 0) := meta];
    assert AfterRun(NOTHING, [op], 0) == NOTHING;
    assert ("t", 0) in AfterRun(NOTHING, [op], 1).caches.statistics;
  }
}
