/** The executor node arena under re-entrant execution and caught panics, and the in-place
    projection of the result row. */
module ExecutorArena {
  import opened Expressions

  /** A slot is a cell that lives at one address; its payload can be overwritten when it is not borrowed. */
  datatype Slot = Slot(cell: nat, node: nat, borrowed: bool)

  /** What the code of a node may do with the arena, in order; a panic ends the sequence unless it
      happens inside a `Try`. */
  datatype Action =
    | Seek(target: nat)
    | Push(node: nat)
    | Clear
    | Pull(id: nat, body: seq<Action>)
    | Try(attempt: seq<Action>)
    | Panic

  /** No panic is caught on the way. */
  predicate Calm(actions: seq<Action>)
    decreases actions
  {
    actions == [] || (CalmAction(actions[0]) && Calm(actions[1..]))
  }

  predicate CalmAction(a: Action)
    decreases a
  {
    !a.Try? && (a.Pull? ==> Calm(a.body))
  }

  lemma {:induction false} CalmMember(actions: seq<Action>, k: nat)
    requires Calm(actions) && k < |actions|
    ensures CalmAction(actions[k])
  {
    if k > 0 { CalmMember(actions[1..], k - 1); }
  }

  // ------------------------------------------------------- what a run of actions comes to

  /** The arena without addresses and borrows: the nodes, where the next one goes, and the executions counted. */
  datatype Machine = Machine(nodes: seq<nat>, pos: nat, executing: nat)

  datatype Ran = Ran(machine: Machine, panicked: bool)

  /** One action while the nodes in `active` execute. */
  function Act(m: Machine, active: seq<nat>, a: Action): (r: Ran)
    requires m.pos <= |m.nodes|
    ensures r.machine.pos <= |r.machine.nodes| && r.machine.executing >= m.executing
    decreases a
  {
    match a
    case Seek(target) => if target > |m.nodes| then Ran(m, true) else Ran(m.(pos := target), false)
    case Push(node) =>
      if m.pos < |m.nodes| then
        if m.pos in active then Ran(m, true)
        else Ran(m.(nodes := m.nodes[m.pos := node], pos := m.pos + 1), false)
      else if m.executing > 0 then Ran(m, true)
      else Ran(m.(nodes := m.nodes + [node], pos := m.pos + 1), false)
    case Clear => if m.executing > 0 then Ran(m, true) else Ran(Machine([], 0, 0), false)
    case Pull(id, body) =>
      if id >= |m.nodes| then Ran(m, true)
      else
        var entered := m.(executing := m.executing + 1);
        if id in active then Ran(entered, true)
        else
          var r := ActAll(entered, active + [id], body);
          if r.panicked then r else Ran(r.machine.(executing := r.machine.executing - 1), false)
    case Try(attempt) => Ran(ActAll(m, active, attempt).machine, false)
    case Panic => Ran(m, true)
  }

  /** The actions one after the other, up to the first that panics. */
  function ActAll(m: Machine, active: seq<nat>, actions: seq<Action>): (r: Ran)
    requires m.pos <= |m.nodes|
    ensures r.machine.pos <= |r.machine.nodes| && r.machine.executing >= m.executing
    decreases actions
  {
    if actions == [] then Ran(m, false)
    else
      var r := Act(m, active, actions[0]);
      if r.panicked then r else ActAll(r.machine, active, actions[1..])
  }

  /** What follows a run starts where the run ends, and does not start after a panic. */
  lemma {:induction false} ActConcat(m: Machine, active: seq<nat>, a: seq<Action>, b: seq<Action>)
    requires m.pos <= |m.nodes|
    ensures
      var r := ActAll(m, active, a);
      ActAll(m, active, a + b) == if r.panicked then r else ActAll(r.machine, active, b)
    decreases a
  {
    if a == [] {
      assert a + b == b;
    } else {
      assert (a + b)[1..] == a[1..] + b;
      var r := Act(m, active, a[0]);
      if !r.panicked { ActConcat(r.machine, active, a[1..], b); }
    }
  }

  lemma {:induction false} ActOne(m: Machine, active: seq<nat>, a: Action)
    requires m.pos <= |m.nodes|
    ensures ActAll(m, active, [a]) == Act(m, active, a)
  {
    assert [a][1..] == [];
  }

  /** Executing a node panics exactly when there is no such node, it is executing already, or its code panics.
      Otherwise what its code did is kept, and it counts as executing no longer. */
  lemma {:induction false} PullPanicsIff(m: Machine, active: seq<nat>, id: nat, body: seq<Action>)
    requires m.pos <= |m.nodes|
    ensures
      var r := ActAll(m, active, [Pull(id, body)]);
      var inner := ActAll(m.(executing := m.executing + 1), active + [id], body);
      && (r.panicked <==> id >= |m.nodes| || id in active || inner.panicked)
      && (!r.panicked ==>
        r.machine.nodes == inner.machine.nodes && r.machine.pos == inner.machine.pos &&
        r.machine.executing + 1 == inner.machine.executing)
      && (r.panicked ==> r.machine.executing > m.executing || (id >= |m.nodes| && r.machine == m))
  {
    ActOne(m, active, Pull(id, body));
  }

  /** Unless a panic was caught on the way, a run that returns leaves the count as it was. */
  lemma {:induction false} CalmRunsBalance(m: Machine, active: seq<nat>, actions: seq<Action>)
    requires m.pos <= |m.nodes| && Calm(actions) && !ActAll(m, active, actions).panicked
    ensures ActAll(m, active, actions).machine.executing == m.executing
    decreases actions
  {
    if actions != [] {
      if actions[0].Pull? {
        CalmRunsBalance(m.(executing := m.executing + 1), active + [actions[0].id], actions[0].body);
      }
      CalmRunsBalance(Act(m, active, actions[0]).machine, active, actions[1..]);
    }
  }

  /** An idle node whose code returns, no panic caught, is executed and released. */
  lemma {:induction false} IdleNodeReturns(m: Machine, active: seq<nat>, id: nat, body: seq<Action>)
    requires m.pos <= |m.nodes| && id < |m.nodes| && id !in active && Calm(body)
    requires !ActAll(m.(executing := m.executing + 1), active + [id], body).panicked
    ensures
      var r := ActAll(m, active, [Pull(id, body)]);
      !r.panicked && r.machine.executing == m.executing
  {
    PullPanicsIff(m, active, id, body);
    CalmRunsBalance(m.(executing := m.executing + 1), active + [id], body);
  }

  function Pushes(nodes: seq<nat>): (actions: seq<Action>)
    ensures |actions| == |nodes| && forall i :: 0 <= i < |nodes| ==> actions[i] == Push(nodes[i])
  {
    seq(|nodes|, i requires 0 <= i < |nodes| => Push(nodes[i]))
  }

  /** The nodes written one after the other from `pos` on, over what stands there. */
  function Written(standing: seq<nat>, pos: nat, nodes: seq<nat>): seq<nat>
    requires pos <= |standing|
  {
    standing[..pos] + nodes + if pos + |nodes| <= |standing| then standing[pos + |nodes|..] else []
  }

  /** One of the places from `pos` on belongs to an executing node. */
  ghost predicate Collides(active: seq<nat>, pos: nat, count: nat) {
    exists i :: pos <= i < pos + count && i in active
  }

  /** While something executes, the arena cannot grow and executing nodes cannot be written over. */
  ghost predicate NoRoom(m: Machine, active: seq<nat>, pos: nat, count: nat) {
    m.executing > 0 && (pos + count > |m.nodes| || Collides(active, pos, count))
  }

  /** Building nodes from a position on: they stand there in order, the others are kept.  While something executes this
      works exactly when there is room and none of the places belongs to an executing node. */
  lemma {:induction false} PushesWrite(m: Machine, active: seq<nat>, nodes: seq<nat>)
    requires m.pos <= |m.nodes| && (m.executing == 0 ==> active == [])
    ensures
      var r := ActAll(m, active, Pushes(nodes));
      && (r.panicked <==> NoRoom(m, active, m.pos, |nodes|))
      && (!r.panicked ==> r.machine == Machine(Written(m.nodes, m.pos, nodes), m.pos + |nodes|, m.executing))
    decreases nodes
  {
    if nodes == [] {
      assert Written(m.nodes, m.pos, nodes) == m.nodes;
    } else {
      assert Pushes(nodes)[1..] == Pushes(nodes[1..]);
      CollidesStep(active, m.pos, |nodes|);
      var first := Act(m, active, Push(nodes[0]));
      if !first.panicked {
        PushesWrite(first.machine, active, nodes[1..]);
        WrittenStep(m.nodes, m.pos, nodes);
      }
    }
  }

  lemma {:induction false} CollidesStep(active: seq<nat>, pos: nat, count: nat)
    requires count > 0
    ensures Collides(active, pos, count) <==> pos in active || Collides(active, pos + 1, count - 1)
  {
    if Collides(active, pos, count) && pos !in active {
      var i :| pos <= i < pos + count && i in active;
      assert pos + 1 <= i;
    }
  }

  lemma {:induction false} WrittenStep(standing: seq<nat>, pos: nat, nodes: seq<nat>)
    requires pos <= |standing| && nodes != []
    ensures
      var first := if pos < |standing| then standing[pos := nodes[0]] else standing + [nodes[0]];
      Written(first, pos + 1, nodes[1..]) == Written(standing, pos, nodes)
  {
  }

  /** Building over the nodes from `target` on, as a subtree is rebuilt. */
  lemma {:induction false} RebuildWrites(m: Machine, active: seq<nat>, target: nat, nodes: seq<nat>)
    requires m.pos <= |m.nodes| && (m.executing == 0 ==> active == [])
    ensures
      var r := ActAll(m, active, [Seek(target)] + Pushes(nodes));
      && (r.panicked <==> target > |m.nodes| || NoRoom(m, active, target, |nodes|))
      && (!r.panicked ==> r.machine == Machine(Written(m.nodes, target, nodes), target + |nodes|, m.executing))
  {
    ActConcat(m, active, [Seek(target)], Pushes(nodes));
    ActOne(m, active, Seek(target));
    if target <= |m.nodes| { PushesWrite(m.(pos := target), active, nodes); }
  }

  /** Starting over empties the arena, and is refused exactly while something executes or an execution was abandoned. */
  lemma {:induction false} StartOver(m: Machine, active: seq<nat>, nodes: seq<nat>)
    requires m.pos <= |m.nodes| && (m.executing == 0 ==> active == [])
    ensures
      var r := ActAll(m, active, [Clear] + Pushes(nodes));
      && (r.panicked <==> m.executing > 0)
      && r.machine == if r.panicked then m else Machine(nodes, |nodes|, 0)
  {
    ActConcat(m, active, [Clear], Pushes(nodes));
    ActOne(m, active, Clear);
    if m.executing == 0 {
      PushesWrite(Machine([], 0, 0), active, nodes);
      assert Written([], 0, nodes) == nodes;
    }
  }

  /** A caught panic is not seen outside, but what was done before it stays, and so does the count of the executions it
      abandoned. */
  lemma {:induction false} CaughtPanicStays(m: Machine, active: seq<nat>, attempt: seq<Action>)
    requires m.pos <= |m.nodes|
    ensures
      var r := ActAll(m, active, [Try(attempt + [Panic])]);
      !r.panicked && r.machine == ActAll(m, active, attempt).machine
  {
    ActOne(m, active, Try(attempt + [Panic]));
    ActConcat(m, active, attempt, [Panic]);
    var r := ActAll(m, active, attempt);
    if !r.panicked { ActOne(r.machine, active, Panic); }
  }

  // ---------------------------------------------------------------------- the arena

  function NodesOf(items: seq<Slot>): seq<nat> {
    seq(|items|, i requires 0 <= i < |items| => items[i].node)
  }

  function CellsOf(items: seq<Slot>): seq<nat> {
    seq(|items|, i requires 0 <= i < |items| => items[i].cell)
  }

  /** Borrowing a slot, running with it untouched and releasing it leaves addresses and outer active nodes as they
      were. */
  lemma {:induction false} Restored(before: seq<Slot>, entered: seq<Slot>, ran: seq<Slot>, after: seq<Slot>,
                                    frames: seq<nat>, id: nat)
    requires id < |before| && id !in frames && !before[id].borrowed
    requires entered == before[id := before[id].(borrowed := true)] && CellsOf(ran) == CellsOf(entered)
    requires ran[id] == entered[id] && after == ran[id := ran[id].(borrowed := false)]
    requires forall i :: 0 <= i < |entered| && i in frames ==> ran[i] == entered[i]
    ensures CellsOf(after) == CellsOf(before)
    ensures forall i :: 0 <= i < |before| && i in frames ==> after[i] == before[i]
  {
    forall i | 0 <= i < |before| ensures after[i].cell == before[i].cell {
      assert CellsOf(ran)[i] == CellsOf(entered)[i];
    }
  }

  class ExecNodes {
    var items: seq<Slot>
    var pos: nat
    var executing: nat
    var nextCell: nat          // the next address
    ghost var frames: seq<nat>   // the active nodes, innermost last
    ghost var unwound: nat       // the frames that were left by a panic

    constructor ()
      ensures Valid() && items == [] && frames == [] && unwound == 0 && executing == 0
    {
      items, pos, executing, nextCell := [], 0, 0, 0;
      frames, unwound := [], 0;
    }

    ghost predicate Valid()
      reads this
    {
      && pos <= |items|
      && executing == |frames| + unwound
      && (forall k :: 0 <= k < |frames| ==> frames[k] < |items|)
      && (forall j, k :: 0 <= j < k < |frames| ==> frames[j] != frames[k])
      && (forall i :: 0 <= i < |items| ==> (items[i].borrowed <==> i in frames))
      && (forall i :: 0 <= i < |items| ==> items[i].cell < nextCell)
      && (forall i, j :: 0 <= i < j < |items| ==> items[i].cell != items[j].cell)
    }

    /** What every operation leaves alone while something executes or an execution was abandoned: no slot
        moves, appears or disappears, and no active node is touched. */
    twostate predicate Undisturbed()
      reads this
    {
      && frames == old(frames)
      && old(unwound) <= unwound
      && old(nextCell) <= nextCell
      && (old(executing) > 0 ==> CellsOf(items) == old(CellsOf(items)))
      && forall i :: 0 <= i < |old(items)| && i in old(frames) ==> i < |items| && items[i] == old(items[i])
    }

    function Abstract(): (m: Machine)
      reads this
    {
      Machine(NodesOf(items), pos, executing)
    }

    method SeekTo(target: nat) returns (panicked: bool)
      requires Valid()
      modifies this
      ensures Valid() && Undisturbed() && unwound == old(unwound) && items == old(items)
      ensures panicked <==> target > |items|
      ensures pos == if panicked then old(pos) else target
      ensures Ran(Abstract(), panicked) == Act(old(Abstract()), old(frames), Seek(target))
    {
      if target > |items| { return true; }
      pos := target;
      return false;
    }

    method PushNode(node: nat) returns (panicked: bool, id: nat)
      requires Valid()
      modifies this
      ensures Valid() && Undisturbed() && unwound == old(unwound)
      ensures panicked <==> if old(pos) == |old(items)| then old(executing) > 0 else old(items)[old(pos)].borrowed
      ensures panicked ==> items == old(items) && pos == old(pos)
      ensures id == old(pos) && (!panicked ==> pos == old(pos) + 1)
      ensures !panicked ==>
        items == if old(pos) == |old(items)| then old(items) + [Slot(old(nextCell), node, false)]
          else old(items)[old(pos) := old(items)[old(pos)].(node := node)]
      ensures Ran(Abstract(), panicked) == Act(old(Abstract()), old(frames), Push(node))
    {
      id := pos;
      if pos == |items| {
        if executing != 0 { return true, id; }
        items := items + [Slot(nextCell, node, false)];
        nextCell := nextCell + 1;
      } else {
        if items[pos].borrowed { return true, id; }
        items := items[pos := items[pos].(node := node)];
      }
      pos := pos + 1;
      assert NodesOf(items) == Act(old(Abstract()), frames, Push(node)).machine.nodes;
      return false, id;
    }

    method ClearAll() returns (panicked: bool)
      requires Valid()
      modifies this
      ensures Valid() && Undisturbed() && unwound == old(unwound)
      ensures panicked <==> old(executing) > 0
      ensures if panicked then items == old(items) && pos == old(pos) else items == [] && pos == 0
      ensures Ran(Abstract(), panicked) == Act(old(Abstract()), old(frames), Clear)
    {
      if executing != 0 { return true; }
      items, pos := [], 0;
      return false;
    }

    /** Borrowing an idle node. */
    method Enter(id: nat)
      requires Valid() && id < |items| && !items[id].borrowed
      modifies this
      ensures Valid() && frames == old(frames) + [id] && unwound == old(unwound) && executing == old(executing) + 1
      ensures items == old(items)[id := old(items)[id].(borrowed := true)] && nextCell == old(nextCell)
      ensures Abstract() == old(Abstract()).(executing := old(executing) + 1)
    {
      executing := executing + 1;
      items := items[id := items[id].(borrowed := true)];
      frames := frames + [id];
      assert NodesOf(items) == old(NodesOf(items));
    }

    /** Releasing the innermost node; after a panic the counter stays. */
    method Leave(id: nat, panicked: bool)
      requires Valid() && frames != [] && frames[|frames| - 1] == id
      modifies this
      ensures Valid() && frames == old(frames)[..|old(frames)| - 1]
      ensures unwound == old(unwound) + (if panicked then 1 else 0)
      ensures items == old(items)[id := old(items)[id].(borrowed := false)] && nextCell == old(nextCell)
      ensures old(executing) > 0
      ensures Abstract() == old(Abstract()).(executing := old(executing) - (if panicked then 0 else 1))
    {
      items := items[id := items[id].(borrowed := false)];
      frames := frames[..|frames| - 1];
      if panicked {
        unwound := unwound + 1;
      } else {
        executing := executing - 1;
      }
      assert NodesOf(items) == old(NodesOf(items));
    }

    /** Executing a node: the counter goes up before the node is borrowed, and comes down only on a
        normal return; the borrow is released either way. */
    method NextTuple(id: nat, body: seq<Action>) returns (panicked: bool)
      requires Valid()
      modifies this
      ensures Valid() && Undisturbed()
      ensures panicked && id < |old(items)| ==> unwound > old(unwound)
      ensures !panicked && Calm(body) ==> unwound == old(unwound)
      ensures Ran(Abstract(), panicked) == Act(old(Abstract()), old(frames), Pull(id, body))
      ensures id < |old(items)| && old(items)[id].borrowed ==> panicked && items == old(items)
      decreases body, 1
    {
      if id >= |items| { return true; }
      if items[id].borrowed {
        executing := executing + 1;
        unwound := unwound + 1;
        return true;
      }
      ghost var items0, frames0 := items, frames;
      Enter(id);
      ghost var items1 := items;
      assert frames[|frames0|] == id;
      panicked := RunAll(body);
      ghost var items2 := items;
      Leave(id, panicked);
      Restored(items0, items1, items2, items, frames0, id);
    }

    method RunOne(a: Action) returns (panicked: bool)
      requires Valid()
      modifies this
      ensures Valid() && Undisturbed()
      ensures Ran(Abstract(), panicked) == Act(old(Abstract()), old(frames), a)
      ensures !panicked && CalmAction(a) ==> unwound == old(unwound)
      decreases a, 2
    {
      match a {
        case Seek(target) => panicked := SeekTo(target);
        case Push(node) =>
          var refused, _ := PushNode(node);
          panicked := refused;
        case Clear => panicked := ClearAll();
        case Pull(id, body) => panicked := NextTuple(id, body);
        case Try(attempt) =>
          var _ := RunAll(attempt);
          panicked := false;
        case Panic => panicked := true;
      }
    }

    method RunAll(actions: seq<Action>) returns (panicked: bool)
      requires Valid()
      modifies this
      ensures Valid() && Undisturbed()
      ensures Ran(Abstract(), panicked) == ActAll(old(Abstract()), old(frames), actions)
      ensures old(unwound) > 0 ==> CellsOf(items) == old(CellsOf(items))
      ensures !panicked && Calm(actions) ==> unwound == old(unwound)
      decreases actions, 0
    {
      assert actions[0..] == actions;
      for k := 0 to |actions|
        invariant Valid() && Undisturbed() && (Calm(actions) ==> unwound == old(unwound))
        invariant ActAll(old(Abstract()), old(frames), actions) == ActAll(Abstract(), frames, actions[k..])
      {
        if Calm(actions) { CalmMember(actions, k); }
        assert actions[k..][0] == actions[k] && actions[k..][1..] == actions[k + 1..];
        panicked := RunOne(actions[k]);
        if panicked { return; }
      }
      panicked := false;
    }
  }

  // -------------------------------------------------------------- in-place projection

  function RowOf(values: seq<Value>): Row {
    seq(|values|, i requires 0 <= i < |values| => Ok(values[i]))
  }

  /** Projecting on values: the values of the expressions over one input, or a failure of one of them. */
  function Projected(exprs: seq<Expr>, input: seq<Value>, op: Op): (r: Option<seq<Value>>)
    ensures r.Some? ==> |r.value| == |exprs| && forall i :: 0 <= i < |exprs| ==>
            Eval(exprs[i], RowEnv(RowOf(input), op)) == Ok(r.value[i])
    ensures r.None? ==> exists i :: 0 <= i < |exprs| && Eval(exprs[i], RowEnv(RowOf(input), op)).Fault?
  {
    if exprs == [] then Some([])
    else
      var rest, last := Projected(exprs[..|exprs| - 1], input, op), Eval(exprs[|exprs| - 1], RowEnv(RowOf(input), op));
      assert forall i :: 0 <= i < |exprs| - 1 ==> exprs[..|exprs| - 1][i] == exprs[i];
      if rest.Some? && last.Ok? then Some(rest.value + [last.value]) else None
  }

  /** A failure among the first expressions fails the projection. */
  lemma {:induction false} ProjectedPrefix(exprs: seq<Expr>, input: seq<Value>, op: Op, k: nat)
    requires k <= |exprs| && Projected(exprs[..k], input, op).None?
    ensures Projected(exprs, input, op).None?
    decreases |exprs| - k
  {
    if k == |exprs| {
      assert exprs[..k] == exprs;
    } else {
      assert exprs[..k + 1][..k] == exprs[..k];
      ProjectedPrefix(exprs, input, op, k + 1);
    }
  }

  lemma {:induction false} ProjectedNext(exprs: seq<Expr>, input: seq<Value>, op: Op, k: nat)
    requires k < |exprs|
    ensures
      var rest, last := Projected(exprs[..k], input, op), Eval(exprs[k], RowEnv(RowOf(input), op));
      Projected(exprs[..k + 1], input, op) == if rest.Some? && last.Ok? then Some(rest.value + [last.value]) else None
  {
    assert exprs[..k + 1][..k] == exprs[..k];
  }

  class ResultTuple {
    var values: seq<Value>

    constructor (values: seq<Value>)
      ensures this.values == values
    {
      this.values := values;
    }

    /** Appends the results behind the input, rotates them to the front and cuts the input off;
        a failing expression leaves the row as it was. */
    method Rewrite(exprs: seq<Expr>, input: Option<seq<Value>>, op: Op) returns (ok: bool)
      modifies this
      ensures
        var r := Projected(exprs, if input.Some? then input.value else old(values), op);
        ok == r.Some? && values == if r.Some? then r.value else old(values)
    {
      var base := |values|;
      ghost var before := values;
      ghost var source := if input.Some? then input.value else before;
      assert exprs[..0] == [];
      for k := 0 to |exprs|
        invariant Projected(exprs[..k], source, op).Some?
        invariant values == before + Projected(exprs[..k], source, op).value
      {
        var current := if input.Some? then input.value else values[..base];
        assert current == source;
        var value := Eval(exprs[k], RowEnv(RowOf(current), op));
        ProjectedNext(exprs, source, op, k);
        if value.Fault? {
          values := values[..base];
          assert values == before;
          ProjectedPrefix(exprs, source, op, k + 1);
          return false;
        }
        values := values + [value.value];
      }
      assert exprs[..|exprs|] == exprs;
      values := values[base..] + values[..base];
      values := values[..|exprs|];
      return true;
    }
  }
}
