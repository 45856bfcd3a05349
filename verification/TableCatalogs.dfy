/** A table's catalog entry: three indexes over one list of columns, its primary key, and moving it
    from one arena to another. */
module TableCatalogs {
  import opened Expressions

  const MAX_ID := 0xFFFF_FFFF   // column ids are 32 bits wide

  /** A column; `primary` is its place in the primary key. */
  datatype Column = Column(name: string, id: Option<nat>, ty: nat, primary: Option<nat>, rest: nat)

  datatype KeyType = Single(ty: nat) | TupleOf(tys: seq<nat>) | Unset

  datatype IndexMeta = IndexMeta(id: nat, columnIds: seq<nat>, keyType: KeyType, valueType: KeyType, name: string,
                                 kind: nat)

  function TypeOf(tys: seq<nat>): KeyType {
    if |tys| == 1 then Single(tys[0]) else TupleOf(tys)
  }

  // ------------------------------------------------------------------ the primary key

  predicate IsKey(cs: seq<Column>, i: nat) {
    i < |cs| && cs[i].primary.Some?
  }

  predicate AllKeys(cs: seq<Column>, order: seq<nat>) {
    forall k {:trigger order[k]} :: 0 <= k < |order| ==> IsKey(cs, order[k])
  }

  /** Inserting after every entry whose key is not larger, as a stable sort does. */
  function Insert(cs: seq<Column>, order: seq<nat>, i: nat): (r: seq<nat>)
    requires IsKey(cs, i) && AllKeys(cs, order)
    ensures |r| == |order| + 1 && forall x :: x in r <==> x in order || x == i
  {
    if order == [] || cs[order[|order| - 1]].primary.value <= cs[i].primary.value then order + [i]
    else
      var n := |order| - 1;
      assert order == order[..n] + [order[n]];
      Insert(cs, order[..n], i) + [order[n]]
  }

  /** The key columns among the first `n`, sorted by their place in the key. */
  function KeyOrder(cs: seq<Column>, n: nat): (r: seq<nat>)
    requires n <= |cs|
    ensures AllKeys(cs, r)
    ensures forall x :: x in r <==> 0 <= x < n && IsKey(cs, x)
  {
    if n == 0 then []
    else if cs[n - 1].primary.Some? then
      var r := Insert(cs, KeyOrder(cs, n - 1), n - 1);
      assert forall k :: 0 <= k < |r| ==> r[k] in r;
      r
    else KeyOrder(cs, n - 1)
  }

  /** By place in the key, and by place in the table where that is the same. */
  ghost predicate Precedes(cs: seq<Column>, a: nat, b: nat) {
    && IsKey(cs, a) && IsKey(cs, b)
    && (cs[a].primary.value < cs[b].primary.value || (cs[a].primary.value == cs[b].primary.value && a < b))
  }

  ghost predicate KeySorted(cs: seq<Column>, order: seq<nat>) {
    forall j, k :: 0 <= j < k < |order| ==> Precedes(cs, order[j], order[k])
  }

  lemma {:induction false} AppendSorts(cs: seq<Column>, order: seq<nat>, i: nat)
    requires KeySorted(cs, order) && forall k :: 0 <= k < |order| ==> Precedes(cs, order[k], i)
    ensures KeySorted(cs, order + [i])
  {
  }

  lemma {:induction false} InsertSorts(cs: seq<Column>, order: seq<nat>, i: nat)
    requires IsKey(cs, i) && AllKeys(cs, order) && forall k :: 0 <= k < |order| ==> order[k] < i
    requires KeySorted(cs, order)
    ensures KeySorted(cs, Insert(cs, order, i))
  {
    if order != [] {
      var n := |order| - 1;
      var last, front := order[n], order[..n];
      if cs[last].primary.value > cs[i].primary.value {
        InsertSorts(cs, front, i);
        var inserted := Insert(cs, front, i);
        forall k | 0 <= k < |inserted| ensures Precedes(cs, inserted[k], last) {
          assert inserted[k] in inserted;
          if inserted[k] != i { var j :| 0 <= j < n && front[j] == inserted[k]; }
        }
        AppendSorts(cs, inserted, last);
      } else {
        forall k | 0 <= k < |order| ensures Precedes(cs, order[k], i) {
          if k < n { assert Precedes(cs, order[k], last); }
        }
        AppendSorts(cs, order, i);
      }
    }
  }

  /** The list is sorted, and by its contract holds exactly the key columns. */
  lemma {:induction false} KeyOrderSorts(cs: seq<Column>, n: nat)
    requires n <= |cs|
    ensures KeySorted(cs, KeyOrder(cs, n))
  {
    if n > 0 {
      KeyOrderSorts(cs, n - 1);
      var rest := KeyOrder(cs, n - 1);
      if cs[n - 1].primary.Some? {
        forall k | 0 <= k < |rest| ensures rest[k] < n - 1 { assert rest[k] in rest; }
        InsertSorts(cs, rest, n - 1);
      }
    }
  }

  /** The order looks only at the columns in front of it. */
  lemma {:induction false} KeyOrderPrefix(cs: seq<Column>, more: seq<Column>, n: nat)
    requires n <= |cs| && cs <= more
    ensures KeyOrder(more, n) == KeyOrder(cs, n)
  {
    if n > 0 {
      KeyOrderPrefix(cs, more, n - 1);
      if cs[n - 1].primary.Some? { InsertPrefix(cs, more, KeyOrder(cs, n - 1), n - 1); }
    }
  }

  lemma {:induction false} InsertPrefix(cs: seq<Column>, more: seq<Column>, order: seq<nat>, i: nat)
    requires IsKey(cs, i) && cs <= more && AllKeys(cs, order)
    ensures Insert(more, order, i) == Insert(cs, order, i)
  {
    if order != [] && cs[order[|order| - 1]].primary.value > cs[i].primary.value { InsertPrefix(cs, more,
        order[..|order| - 1], i); }
  }

  /** A primary-key list stays up to date when a column is added exactly if the column is not part of the key. */
  lemma {:induction false} AddedColumnKeepsKeyOrder(cs: seq<Column>, c: Column)
    ensures KeyOrder(cs + [c], |cs| + 1) == KeyOrder(cs, |cs|) <==> c.primary.None?
  {
    KeyOrderPrefix(cs, cs + [c], |cs|);
    if c.primary.Some? {
      assert |cs| in KeyOrder(cs + [c], |cs| + 1);
      assert |cs| !in KeyOrder(cs, |cs|);
    }
  }

  // ------------------------------------------------------------------ arenas

  class MetaArena {
    var columns: seq<Column>
    var indexes: seq<IndexMeta>

    constructor ()
      ensures columns == [] && indexes == []
    {
      columns, indexes := [], [];
    }

    method AllocColumn(c: Column) returns (ref: nat)
      modifies `columns
      ensures columns == if c in old(columns) then old(columns) else old(columns) + [c]
      ensures ref < |columns| && columns[ref] == c
    {
      ref := 0;
      while ref < |columns| && columns[ref] != c
        invariant ref <= |columns| && c !in columns[..ref]
      {
        ref := ref + 1;
      }
      if ref == |columns| { columns := columns + [c]; }
    }

    method AllocIndex(m: IndexMeta) returns (ref: nat)
      modifies `indexes
      ensures indexes == if m in old(indexes) then old(indexes) else old(indexes) + [m]
      ensures ref < |indexes| && indexes[ref] == m
    {
      ref := 0;
      while ref < |indexes| && indexes[ref] != m
        invariant ref <= |indexes| && m !in indexes[..ref]
      {
        ref := ref + 1;
      }
      if ref == |indexes| { indexes := indexes + [m]; }
    }
  }

  predicate InRange(refs: seq<nat>, size: nat) {
    forall i :: 0 <= i < |refs| ==> refs[i] < size
  }

  /** What the references stand for. */
  function Deref<T>(refs: seq<nat>, stored: seq<T>): (r: seq<T>)
    requires InRange(refs, |stored|)
  {
    seq(|refs|, i requires 0 <= i < |refs| => stored[refs[i]])
  }

  lemma {:induction false} DerefAppend<T>(refs: seq<nat>, ref: nat, stored: seq<T>, more: seq<T>)
    requires InRange(refs, |stored|) && stored <= more && ref < |more|
    ensures InRange(refs + [ref], |more|) && Deref(refs + [ref], more) == Deref(refs, stored) + [more[ref]]
  {
  }

  // ------------------------------------------------------------------ the three indexes

  type NameMap = map<string, (nat, nat)>
  type IdMap = map<nat, nat>

  /** The name map, the id map and the column list agree, and ids strictly increase along the list. */
  ghost predicate Consistent(names: NameMap, ids: IdMap, cs: seq<Column>) {
    && (forall i :: 0 <= i < |cs| ==> Listed(names, ids, cs, i))
    && (forall n :: n in names ==> names[n].1 < |cs| && cs[names[n].1].name == n)
    && (forall d :: d in ids ==> ids[d] < |cs| && cs[ids[d]].id == Some(d))
    && (forall i, j :: 0 <= i < j < |cs| ==> Before(cs[i], cs[j]))
  }

  ghost predicate Listed(names: NameMap, ids: IdMap, cs: seq<Column>, i: nat)
    requires i < |cs|
  {
    && cs[i].id.Some?
    && cs[i].name in names && names[cs[i].name] == (cs[i].id.value, i)
    && cs[i].id.value in ids && ids[cs[i].id.value] == i
  }

  ghost predicate Before(a: Column, b: Column) {
    a.id.Some? && b.id.Some? && a.id.value < b.id.value
  }

  ghost predicate Increasing(metas: seq<IndexMeta>) {
    forall i, j :: 0 <= i < j < |metas| ==> metas[i].id < metas[j].id
  }

  lemma {:induction false} AppendedIncreases(metas: seq<IndexMeta>, m: IndexMeta)
    requires Increasing(metas) && (metas != [] ==> metas[|metas| - 1].id < m.id)
    ensures Increasing(metas + [m])
  {
    forall i | 0 <= i < |metas| ensures metas[i].id < m.id {
      if i < |metas| - 1 { assert metas[i].id < metas[|metas| - 1].id; }
    }
  }

  function LastId(cs: seq<Column>): nat {
    if cs == [] || cs[|cs| - 1].id.None? then 0 else cs[|cs| - 1].id.value
  }

  /** The largest id in the map is the last column's. */
  lemma {:induction false} LastIdIsLargest(names: NameMap, ids: IdMap, cs: seq<Column>)
    requires Consistent(names, ids, cs)
    ensures forall d :: d in ids ==> d <= LastId(cs)
    ensures cs != [] ==> LastId(cs) in ids
    ensures cs == [] ==> ids == map[]
  {
    if cs != [] {
      assert Listed(names, ids, cs, |cs| - 1);
      forall d | d in ids ensures d <= LastId(cs) {
        if ids[d] < |cs| - 1 { assert Before(cs[ids[d]], cs[|cs| - 1]); }
      }
    }
  }

  method LargestKey(ids: IdMap) returns (r: Option<nat>)
    ensures r.None? <==> ids == map[]
    ensures r.Some? ==> r.value in ids && forall d :: d in ids ==> d <= r.value
  {
    r := None;
    var left := ids.Keys;
    while left != {}
      invariant left <= ids.Keys
      invariant r.None? <==> left == ids.Keys && (forall d :: d in ids ==> d in left)
      invariant r.Some? ==> r.value in ids && forall d :: d in ids && d !in left ==> d <= r.value
      decreases left
    {
      var d :| d in left;
      left := left - {d};
      if r.None? || r.value < d { r := Some(d); }
    }
  }

  lemma {:induction false} AppendedConsistent(names: NameMap, ids: IdMap, cs: seq<Column>, c: Column)
    requires Consistent(names, ids, cs) && c.name !in names && c.id.Some? && c.id.value > LastId(cs)
    ensures Consistent(names[c.name := (c.id.value, |cs|)], ids[c.id.value := |cs|], cs + [c])
  {
    var names2, ids2, cs2 := names[c.name := (c.id.value, |cs|)], ids[c.id.value := |cs|], cs + [c];
    LastIdIsLargest(names, ids, cs);
    forall i | 0 <= i < |cs2| ensures Listed(names2, ids2, cs2, i) {
      if i < |cs| { assert Listed(names, ids, cs, i); }
    }
    forall i, j | 0 <= i < j < |cs2| ensures Before(cs2[i], cs2[j]) {
      assert Listed(names, ids, cs, i);
      if j < |cs| { assert Before(cs[i], cs[j]); }
    }
  }

  // ------------------------------------------------------------------ rebuilding the indexes

  function NamesOf(cs: seq<Column>): NameMap
    requires forall i :: 0 <= i < |cs| ==> cs[i].id.Some?
  {
    if cs == [] then map[]
    else
      var n := |cs| - 1;
      NamesOf(cs[..n])[cs[n].name := (cs[n].id.value, n)]
  }

  function IdsOf(cs: seq<Column>): IdMap
    requires forall i :: 0 <= i < |cs| ==> cs[i].id.Some?
  {
    if cs == [] then map[]
    else
      var n := |cs| - 1;
      IdsOf(cs[..n])[cs[n].id.value := n]
  }

  lemma {:induction false} MapsNext(columns: seq<Column>, i: nat)
    requires i < |columns| && forall k :: 0 <= k <= i ==> columns[k].id.Some?
    ensures NamesOf(columns[..i + 1]) == NamesOf(columns[..i])[columns[i].name := (columns[i].id.value, i)]
    ensures IdsOf(columns[..i + 1]) == IdsOf(columns[..i])[columns[i].id.value := i]
    ensures columns[..i + 1] == columns[..i] + [columns[i]]
  {
    assert columns[..i + 1][..i] == columns[..i];
  }

  /** Filling the maps from the list gives back the maps that agree with it. */
  lemma {:induction false} RebuiltNames(names: NameMap, ids: IdMap, cs: seq<Column>, n: nat)
    requires Consistent(names, ids, cs) && n <= |cs|
    requires forall i :: 0 <= i < |cs| ==> cs[i].id.Some?
    ensures forall s :: s in NamesOf(cs[..n]) <==> s in names && names[s].1 < n
    ensures forall s :: s in NamesOf(cs[..n]) ==> NamesOf(cs[..n])[s] == names[s]
  {
    if n > 0 {
      RebuiltNames(names, ids, cs, n - 1);
      MapsNext(cs, n - 1);
      assert Listed(names, ids, cs, n - 1);
    }
  }

  lemma {:induction false} RebuiltIds(names: NameMap, ids: IdMap, cs: seq<Column>, n: nat)
    requires Consistent(names, ids, cs) && n <= |cs|
    requires forall i :: 0 <= i < |cs| ==> cs[i].id.Some?
    ensures forall d :: d in IdsOf(cs[..n]) <==> d in ids && ids[d] < n
    ensures forall d :: d in IdsOf(cs[..n]) ==> IdsOf(cs[..n])[d] == ids[d]
  {
    if n > 0 {
      RebuiltIds(names, ids, cs, n - 1);
      MapsNext(cs, n - 1);
      assert Listed(names, ids, cs, n - 1);
      forall d | d in ids && ids[d] == n - 1 ensures d == cs[n - 1].id.value { assert cs[ids[d]].id == Some(d); }
    }
  }

  lemma {:induction false} RebuiltMaps(names: NameMap, ids: IdMap, cs: seq<Column>)
    requires Consistent(names, ids, cs)
    ensures forall i :: 0 <= i < |cs| ==> cs[i].id.Some?
    ensures NamesOf(cs) == names && IdsOf(cs) == ids
  {
    forall i | 0 <= i < |cs| ensures cs[i].id.Some? { assert Listed(names, ids, cs, i); }
    RebuiltNames(names, ids, cs, |cs|);
    RebuiltIds(names, ids, cs, |cs|);
    assert cs[..|cs|] == cs;
  }

  // ------------------------------------------------------------------ the catalog entry

  function KeyPairs(order: seq<nat>, refs: seq<nat>): seq<(nat, nat)>
    requires forall k {:trigger order[k]} :: 0 <= k < |order| ==> order[k] < |refs|
  {
    seq(|order|, k requires 0 <= k < |order| => (order[k], refs[order[k]]))
  }

  function KeyTypeOf(cs: seq<Column>, order: seq<nat>): KeyType
    requires AllKeys(cs, order)
  {
    TypeOf(seq(|order|, k requires 0 <= k < |order| => cs[order[k]].ty))
  }

  ghost predicate HasType(cs: seq<Column>, id: nat, ty: nat) {
    exists j :: 0 <= j < |cs| && cs[j].id == Some(id) && cs[j].ty == ty
  }

  /** The types of the columns with these ids, in order. */
  ghost predicate TypesOf(tys: seq<nat>, columnIds: seq<nat>, cs: seq<Column>) {
    |tys| == |columnIds| && forall i :: 0 <= i < |tys| ==> HasType(cs, columnIds[i], tys[i])
  }

  /** The type of an index over these columns: the type of its one column, or the tuple of theirs in order. */
  ghost predicate IndexTyped(t: KeyType, columnIds: seq<nat>, cs: seq<Column>) {
    if |columnIds| == 1 then t.Single? && HasType(cs, columnIds[0], t.ty)
    else t.TupleOf? && TypesOf(t.tys, columnIds, cs)
  }

  /** A primary key in terms of the columns: the positions of exactly the key columns, by their place in the key, each
      with its reference, and the type of the one key column or the tuple of their types in key order. */
  ghost predicate DescribesKey(cs: seq<Column>, refs: seq<nat>, keyIndices: seq<nat>, keys: seq<(nat, nat)>, t: KeyType)
    requires |cs| == |refs|
  {
    && KeySorted(cs, keyIndices) && AllKeys(cs, keyIndices)
    && (forall i :: 0 <= i < |cs| && cs[i].primary.Some? ==> i in keyIndices)
    && |keys| == |keyIndices| && (forall k :: 0 <= k < |keys| ==> keys[k] == (keyIndices[k], refs[keyIndices[k]]))
    && if |keyIndices| == 1 then t == Single(cs[keyIndices[0]].ty)
       else t.TupleOf? && |t.tys| == |keyIndices| &&
            forall k :: 0 <= k < |t.tys| ==> t.tys[k] == cs[keyIndices[k]].ty
  }

  lemma {:induction false} KeyIsDescribed(cs: seq<Column>, refs: seq<nat>)
    requires |cs| == |refs|
    ensures
      var order := KeyOrder(cs, |cs|);
      DescribesKey(cs, refs, order, KeyPairs(order, refs), KeyTypeOf(cs, order))
  {
    KeyOrderSorts(cs, |cs|);
  }

  class TableCatalog {
    const name: string
    var names: NameMap
    var ids: IdMap
    var refs: seq<nat>
    var indexes: seq<nat>
    var keys: seq<(nat, nat)>
    var keyIndices: seq<nat>
    var keyType: KeyType

    constructor (name: string)
      ensures this.name == name && names == map[] && ids == map[] && refs == [] && indexes == []
      ensures keys == [] && keyIndices == [] && keyType == Unset
    {
      this.name := name;
      names, ids, refs, indexes, keys, keyIndices, keyType := map[], map[], [], [], [], [], Unset;
    }

    ghost predicate Valid(arena: MetaArena)
      reads this, arena
    {
      && InRange(refs, |arena.columns|) && Consistent(names, ids, Deref(refs, arena.columns))
      && InRange(indexes, |arena.indexes|) && Increasing(Deref(indexes, arena.indexes))
    }

    /** The primary-key fields are what the columns say. */
    ghost predicate KeyUpToDate(arena: MetaArena)
      reads this, arena
      requires InRange(refs, |arena.columns|)
    {
      var cs := Deref(refs, arena.columns);
      var order := KeyOrder(cs, |cs|);
      keyIndices == order && keys == KeyPairs(order, refs) && keyType == KeyTypeOf(cs, order)
    }

    method NextId(ghost cs: seq<Column>) returns (r: Option<nat>)
      requires Consistent(names, ids, cs)
      ensures r == if LastId(cs) < MAX_ID then Some(LastId(cs) + 1) else None
    {
      LastIdIsLargest(names, ids, cs);
      var largest := LargestKey(ids);
      var last := if largest.None? then 0 else largest.value;
      r := if last < MAX_ID then Some(last + 1) else None;
    }

    method Append(stored: Column, arena: MetaArena)
      requires Valid(arena) && stored.name !in names && stored.id.Some? &&
               stored.id.value > LastId(Deref(refs, arena.columns))
      modifies `names, `ids, `refs, arena`columns
      ensures Valid(arena) && old(arena.columns) <= arena.columns
      ensures Deref(refs, arena.columns) == old(Deref(refs, arena.columns)) + [stored]
    {
      ghost var before, cs := arena.columns, Deref(refs, arena.columns);
      AppendedConsistent(names, ids, cs, stored);
      names, ids := names[stored.name := (stored.id.value, |refs|)], ids[stored.id.value := |refs|];
      var ref := arena.AllocColumn(stored);
      DerefAppend(refs, ref, before, arena.columns);
      refs := refs + [ref];
    }

    /** A column gets the next id; a known name and the end of the id range are refused. */
    method AddColumn(col: Column, arena: MetaArena) returns (r: Option<nat>)
      requires Valid(arena)
      modifies `names, `ids, `refs, arena`columns
      ensures Valid(arena) && old(arena.columns) <= arena.columns
      ensures r.Some? <==> col.name !in old(names) && old(LastId(Deref(refs, arena.columns))) < MAX_ID
      ensures r.None? ==>
        names == old(names) && ids == old(ids) && refs == old(refs) && arena.columns == old(arena.columns)
      ensures r.Some? ==>
        && r.value == old(LastId(Deref(refs, arena.columns))) + 1
        && Deref(refs, arena.columns) == old(Deref(refs, arena.columns)) + [col.(id := r)]
    {
      if col.name in names { return None; }
      r := NextId(Deref(refs, arena.columns));
      if r.None? { return; }
      Append(col.(id := r), arena);
    }

    /** Whether an index of this name is there. */
    method HasIndex(name: string, arena: MetaArena) returns (found: bool)
      requires InRange(indexes, |arena.indexes|)
      ensures found <==> exists i :: 0 <= i < |indexes| && Deref(indexes, arena.indexes)[i].name == name
    {
      var metas := Deref(indexes, arena.indexes);
      for i := 0 to |indexes|
        invariant forall j :: 0 <= j < i ==> metas[j].name != name
      {
        if arena.indexes[indexes[i]].name == name {
          assert metas[i].name == name;
          return true;
        }
      }
      return false;
    }

    /** The types of the indexed columns, unless one of them is unknown. */
    method IndexedTypes(columnIds: seq<nat>, arena: MetaArena) returns (r: Option<seq<nat>>)
      requires Valid(arena)
      ensures r.Some? <==> forall i :: 0 <= i < |columnIds| ==> columnIds[i] in ids
      ensures r.Some? ==> TypesOf(r.value, columnIds, Deref(refs, arena.columns))
    {
      var tys: seq<nat> := [];
      ghost var cs := Deref(refs, arena.columns);
      for k := 0 to |columnIds|
        invariant |tys| == k && forall i :: 0 <= i < k ==> columnIds[i] in ids && HasType(cs, columnIds[i], tys[i])
      {
        if columnIds[k] !in ids { return None; }
        assert cs[ids[columnIds[k]]].id == Some(columnIds[k]);
        tys := tys + [arena.columns[refs[ids[columnIds[k]]]].ty];
      }
      r := Some(tys);
    }

    /** An index gets an id above all others; a known name and an unknown column are refused. */
    method AddIndexMeta(name: string, columnIds: seq<nat>, kind: nat, arena: MetaArena) returns (r: Option<nat>)
      requires Valid(arena)
      modifies `indexes, arena`indexes
      ensures Valid(arena) && old(arena.indexes) <= arena.indexes
      ensures r.Some? <==>
        && (forall i :: 0 <= i < |old(indexes)| ==> old(Deref(indexes, arena.indexes))[i].name != name)
        && (forall i :: 0 <= i < |columnIds| ==> columnIds[i] in ids)
      ensures r.None? ==> indexes == old(indexes) && arena.indexes == old(arena.indexes)
      ensures r.Some? ==> indexes == old(indexes) + [r.value] && r.value < |arena.indexes|
      ensures r.Some? ==>
        var meta := arena.indexes[r.value];
        && Deref(indexes, arena.indexes) == old(Deref(indexes, arena.indexes)) + [meta]
        && meta.name == name && meta.columnIds == columnIds && meta.kind == kind && meta.keyType == keyType
        && meta.id == (if old(indexes) == [] then 0 else old(Deref(indexes, arena.indexes))[|old(indexes)| - 1].id + 1)
        && IndexTyped(meta.valueType, columnIds, Deref(refs, arena.columns))
    {
      var found := HasIndex(name, arena);
      if found { return None; }
      var id := if indexes == [] then 0 else arena.indexes[indexes[|indexes| - 1]].id + 1;
      var tys := IndexedTypes(columnIds, arena);
      if tys.None? { return None; }
      ghost var before, metas := arena.indexes, Deref(indexes, arena.indexes);
      assert metas != [] ==> metas[|metas| - 1] == arena.indexes[indexes[|indexes| - 1]];
      var meta := IndexMeta(id, columnIds, keyType, TypeOf(tys.value), name, kind);
      var ref := arena.AllocIndex(meta);
      DerefAppend(indexes, ref, before, arena.indexes);
      indexes := indexes + [ref];
      AppendedIncreases(metas, meta);
      r := Some(ref);
    }

    /** Recomputes the primary-key fields from the columns. */
    method BuildPrimaryKeys(arena: MetaArena)
      requires InRange(refs, |arena.columns|)
      modifies `keys, `keyIndices, `keyType
      ensures KeyUpToDate(arena)
      ensures DescribesKey(Deref(refs, arena.columns), refs, keyIndices, keys, keyType)
    {
      var cs := Deref(refs, arena.columns);
      KeyIsDescribed(cs, refs);
      keyIndices := KeyOrder(cs, |cs|);
      keys := KeyPairs(keyIndices, refs);
      keyType := KeyTypeOf(cs, keyIndices);
    }
  }

  ghost predicate DistinctNames(columns: seq<Column>) {
    forall i, j :: 0 <= i < j < |columns| ==> columns[i].name != columns[j].name
  }

  /** The columns as a new table numbers them. */
  ghost function Numbered(columns: seq<Column>): (r: seq<Column>) {
    seq(|columns|, i requires 0 <= i < |columns| => columns[i].(id := Some(i + 1)))
  }

  /** The names in the map are those of the columns. */
  lemma {:induction false} KnownNames(names: NameMap, ids: IdMap, columns: seq<Column>, n: nat, name: string)
    requires n <= |columns| && Consistent(names, ids, Numbered(columns[..n]))
    ensures name in names <==> exists i :: 0 <= i < n && columns[i].name == name
  {
    var cs := Numbered(columns[..n]);
    if name in names { assert columns[names[name].1].name == name; }
    if i :| 0 <= i < n && columns[i].name == name { assert Listed(names, ids, cs, i); }
  }

  lemma {:induction false} NumberedNext(columns: seq<Column>, k: nat)
    requires k < |columns|
    ensures Numbered(columns[..k + 1]) == Numbered(columns[..k]) + [columns[k].(id := Some(k + 1))]
    ensures LastId(Numbered(columns[..k])) == k
    ensures DistinctNames(columns[..k + 1]) <==>
      DistinctNames(columns[..k]) && !exists i :: 0 <= i < k && columns[i].name == columns[k].name
  {
    var more := columns[..k + 1];
    assert forall i :: 0 <= i < k ==> columns[..k][i] == columns[i] && more[i] == columns[i];
    assert more[k] == columns[k];
  }

  lemma {:induction false} RepeatedName(columns: seq<Column>, k: nat)
    requires k <= |columns| && !DistinctNames(columns[..k])
    ensures !DistinctNames(columns)
  {
    var i, j :| 0 <= i < j < k && columns[..k][i].name == columns[..k][j].name;
    assert columns[i].name == columns[j].name;
  }

  /** The table holds the first `k` columns, numbered, and no name twice. */
  ghost predicate HoldsFirst(table: TableCatalog, arena: MetaArena, columns: seq<Column>, k: nat)
    reads table, arena
    requires k <= |columns|
  {
    table.Valid(arena) && Deref(table.refs, arena.columns) == Numbered(columns[..k]) && DistinctNames(columns[..k])
  }

  method AddNext(table: TableCatalog, columns: seq<Column>, k: nat, arena: MetaArena) returns (ok: bool)
    requires k < |columns| && k <= MAX_ID && HoldsFirst(table, arena, columns, k)
    modifies table`names, table`ids, table`refs, arena`columns
    ensures ok ==> k < MAX_ID && HoldsFirst(table, arena, columns, k + 1)
    ensures !ok ==> k == MAX_ID || !DistinctNames(columns)
  {
    NumberedNext(columns, k);
    KnownNames(table.names, table.ids, columns, k, columns[k].name);
    var id := table.AddColumn(columns[k], arena);
    ok := id.Some?;
    if !ok && k < MAX_ID { RepeatedName(columns, k + 1); }
  }

  /** A new table: its columns numbered from one.  It has to have some; a repeated name, or more columns
      than there are ids, is a panic. */
  method NewTable(name: string, columns: seq<Column>, arena: MetaArena) returns (t: TableCatalog?, panicked: bool)
    modifies arena`columns
    ensures t != null <==> columns != [] && DistinctNames(columns) && |columns| <= MAX_ID
    ensures panicked <==> columns != [] && t == null
    ensures t != null ==>
      && fresh(t) && t.name == name && t.Valid(arena) && t.KeyUpToDate(arena) && t.indexes == []
      && Deref(t.refs, arena.columns) == Numbered(columns)
  {
    if columns == [] { return null, false; }
    var table := new TableCatalog(name);
    assert Deref(table.refs, arena.columns) == Numbered(columns[..0]);
    for k := 0 to |columns|
      invariant fresh(table) && table.name == name && table.indexes == []
      invariant k <= MAX_ID && HoldsFirst(table, arena, columns, k)
    {
      var ok := AddNext(table, columns, k, arena);
      if !ok { return null, true; }
    }
    assert columns[..|columns|] == columns;
    table.BuildPrimaryKeys(arena);
    return table, false;
  }

  method ReloadColumns(table: TableCatalog, columns: seq<Column>, arena: MetaArena) returns (ok: bool)
    requires table.names == map[] && table.ids == map[] && table.refs == []
    modifies table`names, table`ids, table`refs, arena`columns
    ensures old(arena.columns) <= arena.columns
    ensures ok <==> forall i :: 0 <= i < |columns| ==> columns[i].id.Some?
    ensures ok ==> InRange(table.refs, |arena.columns|) && Deref(table.refs, arena.columns) == columns
    ensures ok ==> table.names == NamesOf(columns) && table.ids == IdsOf(columns)
  {
    for i := 0 to |columns|
      invariant old(arena.columns) <= arena.columns && InRange(table.refs, |arena.columns|)
      invariant (forall k :: 0 <= k < i ==> columns[k].id.Some?) && Deref(table.refs, arena.columns) == columns[..i]
      invariant table.names == NamesOf(columns[..i]) && table.ids == IdsOf(columns[..i])
    {
      if columns[i].id.None? { return false; }
      MapsNext(columns, i);
      table.names := table.names[columns[i].name := (columns[i].id.value, i)];
      table.ids := table.ids[columns[i].id.value := i];
      ghost var before := arena.columns;
      var ref := arena.AllocColumn(columns[i]);
      DerefAppend(table.refs, ref, before, arena.columns);
      table.refs := table.refs + [ref];
    }
    assert columns[..|columns|] == columns;
    ok := true;
  }

  method ReloadIndexes(table: TableCatalog, metas: seq<IndexMeta>, arena: MetaArena)
    requires table.indexes == []
    modifies table`indexes, arena`indexes
    ensures old(arena.indexes) <= arena.indexes && InRange(table.indexes, |arena.indexes|)
    ensures Deref(table.indexes, arena.indexes) == metas
  {
    for i := 0 to |metas|
      invariant old(arena.indexes) <= arena.indexes && InRange(table.indexes, |arena.indexes|)
      invariant Deref(table.indexes, arena.indexes) == metas[..i]
    {
      ghost var before := arena.indexes;
      var ref := arena.AllocIndex(metas[i]);
      DerefAppend(table.indexes, ref, before, arena.indexes);
      table.indexes := table.indexes + [ref];
      assert metas[..i + 1] == metas[..i] + [metas[i]];
    }
    assert metas[..|metas|] == metas;
  }

  /** Building an entry from stored columns and indexes. */
  method Reload(name: string, columns: seq<Column>, metas: seq<IndexMeta>, arena: MetaArena) returns (t: TableCatalog?)
    modifies arena
    ensures old(arena.columns) <= arena.columns && old(arena.indexes) <= arena.indexes
    ensures t != null <==> forall i :: 0 <= i < |columns| ==> columns[i].id.Some?
    ensures t != null ==>
      && fresh(t) && t.name == name && InRange(t.refs, |arena.columns|) && InRange(t.indexes, |arena.indexes|)
      && Deref(t.refs, arena.columns) == columns && Deref(t.indexes, arena.indexes) == metas
      && t.names == NamesOf(columns) && t.ids == IdsOf(columns) && t.KeyUpToDate(arena)
  {
    var table := new TableCatalog(name);
    var ok := ReloadColumns(table, columns, arena);
    if !ok { return null; }
    ReloadIndexes(table, metas, arena);
    table.BuildPrimaryKeys(arena);
    t := table;
  }

  /** Moving an entry to another arena: every lookup by name or id leads to the same place and the same
      column, and the primary key is the same when it was up to date. */
  method Transplant(table: TableCatalog, source: MetaArena, target: MetaArena) returns (t: TableCatalog)
    requires source != target && table.Valid(source)
    modifies target
    ensures fresh(t) && t.Valid(target) && t.name == table.name
    ensures old(target.columns) <= target.columns && old(target.indexes) <= target.indexes
    ensures t.names == table.names && t.ids == table.ids && |t.refs| == |table.refs|
    ensures Deref(t.refs, target.columns) == Deref(table.refs, source.columns)
    ensures Deref(t.indexes, target.indexes) == Deref(table.indexes, source.indexes)
    ensures t.KeyUpToDate(target)
    ensures table.KeyUpToDate(source) ==> t.keyIndices == table.keyIndices && t.keyType == table.keyType
  {
    var columns, metas := Deref(table.refs, source.columns), Deref(table.indexes, source.indexes);
    RebuiltMaps(table.names, table.ids, columns);
    t := Reload(table.name, columns, metas, target);
  }
}
