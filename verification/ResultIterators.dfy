/** Result iterators: who ends the statement scope, who commits and who frees the transaction,
    over every way of pulling rows and of letting go of the iterator. */
module ResultIterators {
  import opened Expressions

  /** What happens to a transaction, in order. */
  datatype Event = ScopeBegun | ExecutorDropped | ScopeEnded | Commit | Freed

  /** One pull from an executor. */
  datatype Step = Tuple | Failure

  /** An executor as the pulls it will answer before it reports the end, and the catalog changes it holds. */
  datatype Executor<E> = Executor(steps: seq<Step>, effects: seq<E>)

  datatype Pull = Row | End | Error

  /** `endsCleanly` tells whether ending the scope will succeed. */
  datatype Iter<E> = Iter(executor: Option<Executor<E>>, active: bool, ddl: seq<E>, endsCleanly: bool)

  function NewIter<E>(executor: Executor<E>, endsCleanly: bool): Iter<E> {
    Iter(Some(executor), true, [], endsCleanly)
  }

  /** The executor is there exactly while the scope is active. */
  ghost predicate Coherent<E>(it: Iter<E>) {
    it.executor.Some? <==> it.active
  }

  // ------------------------------------------------------------------- one iterator

  function Finished<E>(it: Iter<E>): Iter<E> {
    if !it.active then it
    else Iter(None, false, it.ddl + (if it.executor.Some? then it.executor.value.effects else []), it.endsCleanly)
  }

  function FinishEvents<E>(it: Iter<E>): seq<Event> {
    if !it.active then [] else (if it.executor.Some? then [ExecutorDropped] else []) + [ScopeEnded]
  }

  function AfterPull<E>(it: Iter<E>): Iter<E> {
    match it.executor
    case None => it
    case Some(ex) =>
      if ex.steps != [] && ex.steps[0].Tuple? then it.(executor := Some(ex.(steps := ex.steps[1..]))) else Finished(it)
  }

  function PullResult<E>(it: Iter<E>): Pull {
    match it.executor
    case None => End
    case Some(ex) =>
      if ex.steps == [] then (if !it.active || it.endsCleanly then End else Error)
      else if ex.steps[0].Tuple? then Row else Error
  }

  function PullEvents<E>(it: Iter<E>): seq<Event> {
    match it.executor
    case None => []
    case Some(ex) => if ex.steps != [] && ex.steps[0].Tuple? then [] else FinishEvents(it)
  }

  /** Whether draining the iterator succeeds. */
  predicate Drains<E>(it: Iter<E>)
    decreases if it.executor.Some? then |it.executor.value.steps| else 0
  {
    if PullResult(it).Row? then Drains(AfterPull(it)) else PullResult(it).End?
  }

  function Pulls<E>(it: Iter<E>, n: nat): Iter<E>
    decreases n
  {
    if n == 0 then it else Pulls(AfterPull(it), n - 1)
  }

  function PullsEvents<E>(it: Iter<E>, n: nat): seq<Event>
    decreases n
  {
    if n == 0 then [] else PullEvents(it) + PullsEvents(AfterPull(it), n - 1)
  }

  /** Draining and dropping: an active iterator finishes its scope, whatever its executor answers. */
  lemma {:induction false} DrainFinishes<E>(it: Iter<E>)
    requires Coherent(it)
    ensures it.executor.Some? && PullResult(it).Row? ==>
      Finished(AfterPull(it)) == Finished(it) && FinishEvents(AfterPull(it)) == FinishEvents(it)
    ensures !PullResult(it).Row? ==> AfterPull(it) == Finished(it) && PullEvents(it) == FinishEvents(it)
    ensures Coherent(AfterPull(it))
  {
  }

  class Transaction {
    var log: seq<Event>
    const commitsCleanly: bool

    constructor (commitsCleanly: bool)
      ensures log == [] && this.commitsCleanly == commitsCleanly
    {
      this.commitsCleanly := commitsCleanly;
      log := [];
    }
  }

  class TransactionIter<E> {
    var executor: Option<Executor<E>>
    var active: bool
    var ddl: seq<E>
    const endsCleanly: bool
    const transaction: Transaction

    ghost function State(): Iter<E>
      reads this
    {
      Iter(executor, active, ddl, endsCleanly)
    }

    constructor (executor: Executor<E>, transaction: Transaction, endsCleanly: bool)
      ensures State() == NewIter(executor, endsCleanly) && this.transaction == transaction
    {
      this.executor := Some(executor);
      this.transaction := transaction;
      this.endsCleanly := endsCleanly;
      active := true;
      ddl := [];
    }

    method FinishStatementScope() returns (ok: bool)
      modifies this, transaction
      ensures State() == Finished(old(State()))
      ensures transaction.log == old(transaction.log) + FinishEvents(old(State()))
      ensures ok <==> (old(active) ==> endsCleanly)
    {
      if !active { return true; }
      if executor.Some? {
        ddl := ddl + executor.value.effects;
        executor := None;
        transaction.log := transaction.log + [ExecutorDropped];
      }
      active := false;
      transaction.log := transaction.log + [ScopeEnded];
      ok := endsCleanly;
    }

    method NextTuple() returns (r: Pull)
      modifies this, transaction
      ensures State() == AfterPull(old(State())) && r == PullResult(old(State()))
      ensures transaction.log == old(transaction.log) + PullEvents(old(State()))
    {
      if executor.None? { return End; }
      var steps := executor.value.steps;
      if steps != [] && steps[0].Tuple? {
        executor := Some(executor.value.(steps := steps[1..]));
        return Row;
      }
      var ok := FinishStatementScope();
      r := if steps == [] && ok then End else Error;
    }

    /** Pulls until the end or an error. */
    method Drain() returns (ok: bool)
      requires Coherent(State())
      modifies this, transaction
      ensures ok == Drains(old(State())) && State() == Finished(old(State()))
      ensures transaction.log == old(transaction.log) + FinishEvents(old(State()))
    {
      DrainFinishes(State());
      var r := NextTuple();
      while r.Row?
        invariant Coherent(State())
        invariant r.Row? ==> Drains(State()) == Drains(old(State()))
        invariant r.Row? ==>
          Finished(State()) == Finished(old(State())) && FinishEvents(State()) == FinishEvents(old(State()))
        invariant r.Row? ==> transaction.log == old(transaction.log)
        invariant !r.Row? ==> State() == Finished(old(State())) && r.End? == Drains(old(State()))
        invariant !r.Row? ==> transaction.log == old(transaction.log) + FinishEvents(old(State()))
        decreases if executor.Some? then |executor.value.steps| + 1 else 0, r.Row?
      {
        DrainFinishes(State());
        r := NextTuple();
      }
      ok := r.End?;
    }

    /** Consumes the iterator: drains it, then drops it. */
    method Done() returns (ok: bool)
      requires Coherent(State())
      modifies this, transaction
      ensures ok == Drains(old(State())) && State() == Finished(old(State()))
      ensures transaction.log == old(transaction.log) + FinishEvents(old(State()))
    {
      ok := Drain();
      Drop();
    }

    /** Consumes the iterator; the changes its executor held are handed over only when it drained. */
    method DoneWithDdl() returns (ok: bool, taken: seq<E>)
      requires Coherent(State())
      modifies this, transaction
      ensures ok == Drains(old(State())) && executor.None? && !active
      ensures taken == if ok then Finished(old(State())).ddl else []
      ensures transaction.log == old(transaction.log) + FinishEvents(old(State()))
    {
      ok := Drain();
      taken := [];
      if ok { taken, ddl := ddl, []; }
      Drop();
    }

    method Drop()
      modifies this, transaction
      ensures State() == Finished(old(State()))
      ensures transaction.log == old(transaction.log) + FinishEvents(old(State()))
    {
      var _ := FinishStatementScope();
    }
  }

  // -------------------------------------------------------- an iterator that owns its transaction

  datatype Ending = ByDone | ByDrop

  class DatabaseIter<E> {
    var inner: TransactionIter?<E>
    var transaction: Transaction?

    constructor (inner: TransactionIter<E>, transaction: Transaction)
      ensures this.inner == inner && this.transaction == transaction
    {
      this.inner, this.transaction := inner, transaction;
    }

    method NextTuple() returns (r: Pull)
      requires inner != null && transaction == inner.transaction
      modifies inner, transaction
      ensures inner.State() == AfterPull(old(inner.State())) && r == PullResult(old(inner.State()))
      ensures transaction.log == old(transaction.log) + PullEvents(old(inner.State()))
    {
      r := inner.NextTuple();
    }

    /** What is still owned is let go: the iterator first, then the transaction. */
    method Drop()
      requires inner != null ==> transaction == inner.transaction
      modifies this, inner, transaction
      ensures inner == null && transaction == null
      ensures old(transaction) != null ==>
        old(transaction).log == old(if transaction == null then [] else transaction.log)
          + old(if inner == null then [] else FinishEvents(inner.State())) + [Freed]
    {
      if inner != null {
        inner.Drop();
        inner := null;
      }
      if transaction != null {
        transaction.log := transaction.log + [Freed];
        transaction := null;
      }
    }

    /** Consumes the iterator: drain, commit when the drain succeeded, and let go of the rest. */
    method Done() returns (ok: bool)
      requires inner != null && transaction == inner.transaction && transaction != null && Coherent(inner.State())
      modifies this, inner, transaction
      ensures inner == null && transaction == null
      ensures ok <==> old(Drains(inner.State())) && old(transaction).commitsCleanly
      ensures old(transaction).log == old(transaction.log) + old(FinishEvents(inner.State()))
        + (if old(Drains(inner.State())) then [Commit] else []) + [Freed]
    {
      var taken := inner;
      inner := null;
      ok := taken.Done();
      if ok {
        var owned := transaction;
        transaction := null;
        owned.log := owned.log + [Commit] + [Freed];
        ok := owned.commitsCleanly;
      }
      Drop();
    }
  }

  method PullMany<E>(iter: DatabaseIter<E>, n: nat)
    requires iter.inner != null && iter.transaction == iter.inner.transaction && Coherent(iter.inner.State())
    modifies iter.inner, iter.transaction
    ensures Coherent(iter.inner.State()) && iter.inner.State() == Pulls(old(iter.inner.State()), n)
    ensures iter.transaction.log == old(iter.transaction.log) + PullsEvents(old(iter.inner.State()), n)
    decreases n
  {
    ghost var start, before := iter.inner.State(), iter.transaction.log;
    for i := 0 to n
      invariant Coherent(iter.inner.State())
      invariant Pulls(iter.inner.State(), n - i) == Pulls(start, n)
      invariant iter.transaction.log + PullsEvents(iter.inner.State(), n - i) == before + PullsEvents(start, n)
    {
      DrainFinishes(iter.inner.State());
      var _ := iter.NextTuple();
    }
  }

  /** Pulls `n` times and lets go: every run of an iterator. */
  method UseIterator<E>(iter: DatabaseIter<E>, n: nat, ending: Ending)
    requires iter.inner != null && iter.transaction != null && iter.transaction == iter.inner.transaction &&
             Coherent(iter.inner.State())
    modifies iter, iter.inner, iter.transaction
    ensures iter.inner == null && iter.transaction == null
    ensures old(iter.transaction).log == old(iter.transaction.log) + UseEvents(old(iter.inner.State()), n, ending)
  {
    PullMany(iter, n);
    match ending
    case ByDone => var _ := iter.Done();
    case ByDrop => iter.Drop();
  }

  function UseEvents<E>(it: Iter<E>, n: nat, ending: Ending): seq<Event> {
    PullsEvents(it, n) + FinishEvents(Pulls(it, n)) + (if ending.ByDone? && Drains(Pulls(it, n)) then [Commit]
                                                       else []) + [Freed]
  }

  // ------------------------------------------------------------------- every run

  predicate Fails(steps: seq<Step>) {
    exists i :: 0 <= i < |steps| && steps[i].Failure?
  }

  /** After `n` pulls the iterator has met a failure or the end. */
  predicate Exhausted(steps: seq<Step>, n: nat) {
    n > |steps| || Fails(steps[..n])
  }

  /** A run commits exactly when it is ended by `done` and the drain that `done` itself does meets no
      failure: either the caller's own pulls had already met the end or a failure, or the rest of
      the rows come without failure and the scope ends cleanly. */
  predicate Commits(steps: seq<Step>, endsCleanly: bool, n: nat, ending: Ending) {
    ending.ByDone? && (Exhausted(steps, n) || (!Fails(steps) && endsCleanly))
  }

  lemma {:induction false} FinishedStays<E>(it: Iter<E>, n: nat)
    requires Coherent(it) && !it.active
    ensures Pulls(it, n) == it && PullsEvents(it, n) == [] && FinishEvents(it) == [] && Drains(it)
    decreases n
  {
    if n > 0 { FinishedStays(it, n - 1); }
  }

  lemma {:induction false} UseAfterPull<E>(it: Iter<E>, n: nat, ending: Ending)
    requires n > 0
    ensures UseEvents(it, n, ending) == PullEvents(it) + UseEvents(AfterPull(it), n - 1, ending)
  {
  }

  lemma {:induction false} ExhaustedAfterPull(steps: seq<Step>, n: nat)
    requires n > 0 && steps != [] && steps[0].Tuple?
    ensures Exhausted(steps, n) <==> Exhausted(steps[1..], n - 1)
  {
    if n <= |steps| {
      FailsTail(steps[..n]);
      assert steps[..n][1..] == steps[1..][..n - 1];
    }
  }

  lemma {:induction false} ExhaustedByPull(steps: seq<Step>, n: nat)
    requires n > 0 && (steps == [] || steps[0].Failure?)
    ensures Exhausted(steps, n)
  {
    if n <= |steps| { assert steps[..n][0].Failure?; }
  }

  /** Letting go of an iterator that was not pulled. */
  lemma {:induction false} UseAtOnce<E>(it: Iter<E>, ending: Ending)
    requires Coherent(it) && it.active
    ensures UseEvents(it, 0, ending) ==
      [ExecutorDropped, ScopeEnded] + (if Commits(it.executor.value.steps, it.endsCleanly, 0, ending) then [Commit]
                                       else []) + [Freed]
  {
    DrainsIff(it);
    assert it.executor.value.steps[..0] == [];
    assert PullsEvents(it, 0) == [] && FinishEvents(it) == [ExecutorDropped, ScopeEnded];
    assert [] + [ExecutorDropped, ScopeEnded] == [ExecutorDropped, ScopeEnded];
  }

  /** Letting go of an iterator that has come to its end. */
  lemma {:induction false} UseFinished<E>(it: Iter<E>, n: nat, ending: Ending)
    requires Coherent(it) && !it.active
    ensures UseEvents(it, n, ending) == (if ending.ByDone? then [Commit] else []) + [Freed]
  {
    FinishedStays(it, n);
  }

  /** Over every run the executor is dropped and the scope ended exactly once, then the transaction
      is committed or not, and it is freed exactly once, last. */
  lemma {:induction false} EveryRun<E>(it: Iter<E>, n: nat, ending: Ending)
    requires Coherent(it) && it.active
    ensures UseEvents(it, n, ending) ==
      [ExecutorDropped, ScopeEnded] + (if Commits(it.executor.value.steps, it.endsCleanly, n, ending) then [Commit]
                                       else []) + [Freed]
    decreases n
  {
    var steps := it.executor.value.steps;
    if n == 0 {
      UseAtOnce(it, ending);
    } else {
      DrainFinishes(it);
      UseAfterPull(it, n, ending);
      if PullResult(it).Row? {
        EveryRun(AfterPull(it), n - 1, ending);
        CommitsAfterPull(steps, it.endsCleanly, n, ending);
        assert PullEvents(it) == [] && [] + UseEvents(AfterPull(it), n - 1, ending) ==
               UseEvents(AfterPull(it), n - 1, ending);
      } else {
        UseFinished(AfterPull(it), n - 1, ending);
        ExhaustedByPull(steps, n);
        var commit := if ending.ByDone? then [Commit] else [];
        assert [ExecutorDropped, ScopeEnded] + (commit + [Freed]) == [ExecutorDropped, ScopeEnded] + commit + [Freed];
      }
    }
  }

  lemma {:induction false} CommitsAfterPull(steps: seq<Step>, endsCleanly: bool, n: nat, ending: Ending)
    requires n > 0 && steps != [] && steps[0].Tuple?
    ensures Commits(steps, endsCleanly, n, ending) <==> Commits(steps[1..], endsCleanly, n - 1, ending)
  {
    FailsTail(steps);
    ExhaustedAfterPull(steps, n);
  }

  lemma {:induction false} FailsTail(steps: seq<Step>)
    requires steps != [] && steps[0].Tuple?
    ensures Fails(steps) <==> Fails(steps[1..])
  {
    if Fails(steps) {
      var i :| 0 <= i < |steps| && steps[i].Failure?;
      assert steps[1..][i - 1].Failure?;
    }
    if Fails(steps[1..]) {
      var i :| 0 <= i < |steps| - 1 && steps[1..][i].Failure?;
      assert steps[i + 1].Failure?;
    }
  }

  lemma {:induction false} DrainsIff<E>(it: Iter<E>)
    requires Coherent(it) && it.active
    ensures Drains(it) <==> !Fails(it.executor.value.steps) && it.endsCleanly
    decreases |it.executor.value.steps|
  {
    var steps := it.executor.value.steps;
    if PullResult(it).Row? {
      DrainFinishes(it);
      DrainsIff(AfterPull(it));
      FailsTail(steps);
    } else if steps != [] {
      assert steps[0].Failure?;
    }
  }

  /** What the pull after `n` pulls answers: the rows in turn, a failure where the executor fails, at the end whether
      the scope ended cleanly, and from then on only the end. */
  lemma {:induction false} PullAnswers<E>(it: Iter<E>, n: nat)
    requires Coherent(it) && it.active
    ensures
      var steps := it.executor.value.steps;
      PullResult(Pulls(it, n)) ==
        if Exhausted(steps, n) then End
        else if n == |steps| then (if it.endsCleanly then End else Error)
        else if steps[n].Tuple? then Row else Error
    decreases n
  {
    var steps := it.executor.value.steps;
    if n == 0 {
      assert steps[..0] == [];
    } else if steps != [] && steps[0].Tuple? {
      PullAnswers(AfterPull(it), n - 1);
      ExhaustedAfterPull(steps, n);
    } else {
      FinishedStays(AfterPull(it), n - 1);
      ExhaustedByPull(steps, n);
    }
  }

  /** A pull that failed does not stop a later `done` from committing. */
  lemma CommitsAfterAFailedPull<E>(effects: seq<E>, clean: bool)
    ensures
      var it := NewIter(Executor([Failure], effects), clean);
      PullResult(it) == Error && UseEvents(it, 1, ByDone) == [ExecutorDropped, ScopeEnded, Commit, Freed]
  {
    var it := NewIter(Executor([Failure], effects), clean);
    assert [Failure][..1][0] == Failure;
    EveryRun(it, 1, ByDone);
  }

  // ------------------------------------------------------ running several statements

  /** A statement by what it will do: whether its scope begins, whether it can be planned, and how it executes. */
  datatype Statement<E> = Statement(begins: bool, builds: bool, executor: Executor<E>, endsCleanly: bool)

  function IterOf<E>(s: Statement<E>): Iter<E> {
    NewIter(s.executor, s.endsCleanly)
  }

  /** The statement gets as far as it has to: the last one to an iterator, the others to their end. */
  predicate Passes<E>(statements: seq<Statement<E>>, k: nat)
    requires k < |statements|
  {
    var s := statements[k];
    s.begins && s.builds && (k + 1 < |statements| ==> Drains(IterOf(s)))
  }

  /** The first statement that does not, if any. */
  function StopsAt<E>(statements: seq<Statement<E>>, k: nat): (r: nat)
    requires k <= |statements|
    ensures k <= r <= |statements|
    ensures r < |statements| ==> !Passes(statements, r)
    ensures forall i :: k <= i < r ==> Passes(statements, i)
    decreases |statements| - k
  {
    if k < |statements| && Passes(statements, k) then StopsAt(statements, k + 1) else k
  }

  const WHOLE := [ScopeBegun, ExecutorDropped, ScopeEnded]

  function Wholes(k: nat): seq<Event> {
    if k == 0 then [] else Wholes(k - 1) + WHOLE
  }

  /** What the statement at which the run stops leaves in the log. */
  function StopEvents<E>(statements: seq<Statement<E>>, k: nat): seq<Event>
    requires k <= |statements|
  {
    if k == |statements| || !statements[k].begins then []
    else if !statements[k].builds then [ScopeBegun]
    else WHOLE
  }

  /** Runs the statements in one transaction: all but the last are drained, the last becomes an iterator
      that owns the transaction, and on any failure the transaction is freed. */
  method Run<E>(statements: seq<Statement<E>>, transaction: Transaction) returns (iter: DatabaseIter?<E>)
    requires transaction.log == []
    modifies transaction
    ensures iter != null <==> statements != [] && StopsAt(statements, 0) == |statements|
    ensures iter != null ==>
      && fresh(iter) && iter.transaction == transaction
      && iter.inner != null && fresh(iter.inner) && iter.inner.transaction == transaction
      && iter.inner.State() == IterOf(statements[|statements| - 1])
      && transaction.log == Wholes(|statements| - 1) + [ScopeBegun]
    ensures iter == null ==>
      var k := StopsAt(statements, 0);
      transaction.log == Wholes(k) + StopEvents(statements, k) + [Freed]
  {
    iter := null;
    for k := 0 to |statements|
      invariant iter == null && StopsAt(statements, 0) == StopsAt(statements, k)
      invariant k < |statements| || statements == []
      invariant transaction.log == Wholes(k)
    {
      var s := statements[k];
      if !s.begins {
        transaction.log := transaction.log + [Freed];
        return;
      }
      transaction.log := transaction.log + [ScopeBegun];
      if !s.builds {
        transaction.log := transaction.log + [Freed];
        return;
      }
      var inner := new TransactionIter(s.executor, transaction, s.endsCleanly);
      if k + 1 == |statements| {
        iter := new DatabaseIter(inner, transaction);
        return;
      }
      var ok := inner.Done();
      assert transaction.log == Wholes(k) + WHOLE;
      if !ok {
        transaction.log := transaction.log + [Freed];
        return;
      }
    }
    transaction.log := transaction.log + [Freed];
  }

  /** The whole life of the transaction: the run, and whatever the caller does with the iterator. */
  function LifeLog<E>(statements: seq<Statement<E>>, n: nat, ending: Ending): seq<Event> {
    var k := StopsAt(statements, 0);
    if statements != [] && k == |statements|
    then Wholes(k - 1) + [ScopeBegun] + UseEvents(IterOf(statements[k - 1]), n, ending)
    else Wholes(k) + StopEvents(statements, k) + [Freed]
  }

  /** What a statement that is executed for its catalog changes leaves in the log: it is committed only when it
      drained, and freed on every path. */
  function CatalogLog<E>(s: Statement<E>): seq<Event> {
    (if !s.begins then [] else if !s.builds then [ScopeBegun] else if !Drains(IterOf(s)) then WHOLE
     else WHOLE + [Commit]) + [Freed]
  }

  // ------------------------------------------------------------- the protocol as an automaton

  datatype Phase = Idle | Scoped | Released | Committed | Gone | Violated

  function Next(p: Phase, e: Event): Phase {
    match (p, e)
    case (Idle, ScopeBegun) => Scoped
    case (Scoped, ExecutorDropped) => Released
    case (Released, ScopeEnded) => Idle
    case (Idle, Commit) => Committed
    case (Idle, Freed) => Gone
    case (Committed, Freed) => Gone
    case (Scoped, Freed) => Gone
    case _ => Violated
  }

  function PhaseAfter(p: Phase, log: seq<Event>): Phase {
    if log == [] then p else Next(PhaseAfter(p, log[..|log| - 1]), log[|log| - 1])
  }

  lemma {:induction false} PhaseOfConcat(p: Phase, a: seq<Event>, b: seq<Event>)
    ensures PhaseAfter(p, a + b) == PhaseAfter(PhaseAfter(p, a), b)
    decreases b
  {
    if b == [] {
      assert a + b == a;
    } else {
      assert (a + b)[..|a + b| - 1] == a + b[..|b| - 1];
      PhaseOfConcat(p, a, b[..|b| - 1]);
    }
  }

  lemma {:induction false} PhaseOfOne(p: Phase, e: Event)
    ensures PhaseAfter(p, [e]) == Next(p, e)
  {
    assert [e][..0] == [];
  }

  lemma {:induction false} PhaseOfWholes(k: nat)
    ensures PhaseAfter(Idle, WHOLE) == Idle && PhaseAfter(Idle, Wholes(k)) == Idle
  {
    assert WHOLE[..2][..1] == [ScopeBegun] && WHOLE[..2] == [ScopeBegun, ExecutorDropped];
    PhaseOfOne(Idle, ScopeBegun);
    if k > 0 {
      PhaseOfWholes(k - 1);
      PhaseOfConcat(Idle, Wholes(k - 1), WHOLE);
    }
  }

  lemma {:induction false} PhaseOfEnding(commit: seq<Event>)
    requires commit == [] || commit == [Commit]
    ensures PhaseAfter(Idle, commit + [Freed]) == Gone
  {
    PhaseOfConcat(Idle, commit, [Freed]);
    PhaseOfOne(Idle, Commit);
    PhaseOfOne(PhaseAfter(Idle, commit), Freed);
  }

  lemma {:induction false} PhaseOfStop(stop: seq<Event>)
    requires stop == [] || stop == [ScopeBegun] || stop == WHOLE
    ensures PhaseAfter(Idle, stop + [Freed]) == Gone
  {
    PhaseOfConcat(Idle, stop, [Freed]);
    PhaseOfOne(Idle, ScopeBegun);
    PhaseOfWholes(0);
    PhaseOfOne(PhaseAfter(Idle, stop), Freed);
  }

  lemma {:induction false} WholesThen(k: nat, log: seq<Event>)
    ensures PhaseAfter(Idle, Wholes(k) + log) == PhaseAfter(Idle, log)
  {
    PhaseOfWholes(k);
    PhaseOfConcat(Idle, Wholes(k), log);
  }

  lemma {:induction false} Regroup(front: seq<Event>, commit: seq<Event>, stop: seq<Event>)
    ensures front + [ScopeBegun] + ([ExecutorDropped, ScopeEnded] + commit + [Freed]) ==
            front + WHOLE + (commit + [Freed])
    ensures front + stop + [Freed] == front + (stop + [Freed])
  {
  }

  lemma {:induction false} IteratorLifeIsOrderly<E>(k: nat, it: Iter<E>, n: nat, ending: Ending)
    requires k > 0 && Coherent(it) && it.active
    ensures PhaseAfter(Idle, Wholes(k - 1) + [ScopeBegun] + UseEvents(it, n, ending)) == Gone
  {
    var commit := if Commits(it.executor.value.steps, it.endsCleanly, n, ending) then [Commit] else [];
    EveryRun(it, n, ending);
    Regroup(Wholes(k - 1), commit, []);
    PhaseOfEnding(commit);
    WholesThen(k, commit + [Freed]);
  }

  /** Whatever the statements do and however the iterator is used, the transaction goes through the protocol to its
      end. */
  lemma {:induction false} EveryLifeIsOrderly<E>(statements: seq<Statement<E>>, n: nat, ending: Ending)
    ensures PhaseAfter(Idle, LifeLog(statements, n, ending)) == Gone
  {
    var k := StopsAt(statements, 0);
    if statements != [] && k == |statements| {
      IteratorLifeIsOrderly(k, IterOf(statements[k - 1]), n, ending);
    } else {
      var stop := StopEvents(statements, k);
      PhaseOfStop(stop);
      WholesThen(k, stop + [Freed]);
      Regroup(Wholes(k), [], stop);
    }
  }

  /** So does a statement that is executed for its catalog changes. */
  lemma {:induction false} CatalogLifeIsOrderly<E>(s: Statement<E>)
    ensures PhaseAfter(Idle, CatalogLog(s)) == Gone
  {
    if s.begins && s.builds && Drains(IterOf(s)) {
      PhaseOfEnding([Commit]);
      WholesThen(1, [Commit] + [Freed]);
      assert Wholes(1) == Wholes(0) + WHOLE && Wholes(1) + ([Commit] + [Freed]) == CatalogLog(s);
    } else {
      PhaseOfStop(if !s.begins then [] else if !s.builds then [ScopeBegun] else WHOLE);
    }
  }

  function Count(log: seq<Event>, e: Event): nat {
    if log == [] then 0 else Count(log[..|log| - 1], e) + (if log[|log| - 1] == e then 1 else 0)
  }

  /** What the protocol means for a log: executors are dropped and scopes ended in pairs, at most one
      scope stays open, at most one commit happens, and the transaction is freed once, at the end. */
  lemma {:induction false} OrderlyLogs(log: seq<Event>)
    requires PhaseAfter(Idle, log) != Violated
    ensures
      var p := PhaseAfter(Idle, log);
      && Count(log, Freed) == (if p.Gone? then 1 else 0)
      && Count(log, Commit) <= (if p.Gone? || p.Committed? then 1 else 0)
      && Count(log, ExecutorDropped) == Count(log, ScopeEnded) + (if p.Released? then 1 else 0)
      && Count(log, ScopeEnded) <= Count(log, ScopeBegun) <= Count(log, ScopeEnded) + 1
      && (p.Idle? || p.Committed? ==> Count(log, ScopeBegun) == Count(log, ScopeEnded))
      && (p.Scoped? || p.Released? ==> Count(log, ScopeBegun) == Count(log, ScopeEnded) + 1)
      && (p.Gone? ==> log != [] && log[|log| - 1] == Freed)
      && (Count(log, Commit) == 1 ==> Count(log, ScopeBegun) == Count(log, ScopeEnded))
  {
    if log != [] { OrderlyLogs(log[..|log| - 1]); }
  }

  lemma {:induction false} CountConcat(a: seq<Event>, b: seq<Event>, e: Event)
    ensures Count(a + b, e) == Count(a, e) + Count(b, e)
    decreases b
  {
    if b == [] {
      assert a + b == a;
    } else {
      assert (a + b)[..|a + b| - 1] == a + b[..|b| - 1];
      CountConcat(a, b[..|b| - 1], e);
    }
  }

  lemma {:induction false} CountOne(x: Event, e: Event)
    ensures Count([x], e) == if x == e then 1 else 0
  {
    assert [x][..0] == [];
  }

  lemma {:induction false} CountWholes(k: nat, e: Event)
    ensures Count(WHOLE, e) == if e == ScopeBegun || e == ExecutorDropped || e == ScopeEnded then 1 else 0
    ensures Count(Wholes(k), e) == if e == ScopeBegun || e == ExecutorDropped || e == ScopeEnded then k else 0
  {
    assert WHOLE == [ScopeBegun] + [ExecutorDropped] + [ScopeEnded];
    CountConcat([ScopeBegun] + [ExecutorDropped], [ScopeEnded], e);
    CountConcat([ScopeBegun], [ExecutorDropped], e);
    CountOne(ScopeBegun, e);
    CountOne(ExecutorDropped, e);
    CountOne(ScopeEnded, e);
    if k > 0 {
      CountWholes(k - 1, e);
      CountConcat(Wholes(k - 1), WHOLE, e);
    }
  }

  /** The log of a transaction in which that many scopes begin, that many of them end, each right after its executor is
      dropped, and which is or is not committed before it is freed. */
  ghost predicate Records(log: seq<Event>, begun: nat, ended: nat, committed: bool) {
    && Count(log, ScopeBegun) == begun && Count(log, ScopeEnded) == ended && Count(log, ExecutorDropped) == ended
    && Count(log, Commit) == (if committed then 1 else 0) && Count(log, Freed) == 1 && log[|log| - 1] == Freed
    && (committed ==> |log| >= 3 && log[|log| - 3] == ScopeEnded && log[|log| - 2] == Commit)
  }

  lemma {:induction false} StoppedRecords(k: nat, begins: bool, builds: bool)
    ensures
      var stop := if !begins then [] else if !builds then [ScopeBegun] else WHOLE;
      Records(Wholes(k) + stop + [Freed], if begins then k + 1 else k, if begins && builds then k + 1 else k, false)
  {
    var stop := if !begins then [] else if !builds then [ScopeBegun] else WHOLE;
    forall e: Event
      ensures Count(Wholes(k) + stop + [Freed], e) == Count(Wholes(k), e) + Count(stop, e) + Count([Freed], e)
    {
      CountConcat(Wholes(k) + stop, [Freed], e);
      CountConcat(Wholes(k), stop, e);
    }
    forall e: Event ensures Count([Freed], e) == (if e == Freed then 1 else 0) { CountOne(Freed, e); }
    forall e: Event ensures Count([ScopeBegun], e) == (if e == ScopeBegun then 1 else 0) { CountOne(ScopeBegun, e); }
    forall e: Event { CountWholes(k, e); }
  }

  lemma {:induction false} EndedRecords(k: nat, committed: bool)
    requires k > 0
    ensures Records(Wholes(k) + ((if committed then [Commit] else []) + [Freed]), k, k, committed)
  {
    var commit := if committed then [Commit] else [];
    var log := Wholes(k) + (commit + [Freed]);
    forall e: Event ensures Count(log, e) == Count(Wholes(k), e) + Count(commit, e) + Count([Freed], e) {
      CountConcat(Wholes(k), commit + [Freed], e);
      CountConcat(commit, [Freed], e);
    }
    forall e: Event ensures Count([Freed], e) == (if e == Freed then 1 else 0) { CountOne(Freed, e); }
    forall e: Event ensures Count([Commit], e) == (if e == Commit then 1 else 0) { CountOne(Commit, e); }
    forall e: Event { CountWholes(k, e); }
    assert Wholes(k) == Wholes(k - 1) + WHOLE;
    if committed { assert log[|log| - 3] == WHOLE[2]; }
  }

  /** `k` statements get as far as they have to, and no more. */
  ghost predicate Reaches<E>(statements: seq<Statement<E>>, k: nat) {
    && k <= |statements| && (forall i :: 0 <= i < k ==> Passes(statements, i))
    && (k < |statements| ==> !Passes(statements, k))
  }

  /** What a life comes to, statement by statement: a scope for each statement reached, an executor dropped and a scope
      ended for each one planned, and the one commit exactly when the last statement is reached and its iterator's
      use commits. */
  lemma {:induction false} EveryLifeRecords<E>(statements: seq<Statement<E>>, k: nat, n: nat, ending: Ending)
    requires Reaches(statements, k)
    ensures
      var ended := k == |statements| && k > 0;
      var stopped := k < |statements| && statements[k].begins;
      Records(LifeLog(statements, n, ending), if stopped then k + 1 else k,
              if stopped && statements[k].builds then k + 1 else k,
              ended && var last := statements[k - 1]; Commits(last.executor.steps, last.endsCleanly, n, ending))
  {
    assert StopsAt(statements, 0) == k;
    if k == |statements| && k > 0 {
      var last := IterOf(statements[k - 1]);
      var commit := if Commits(last.executor.value.steps, last.endsCleanly, n, ending) then [Commit] else [];
      EveryRun(last, n, ending);
      Regroup(Wholes(k - 1), commit, []);
      EndedRecords(k, commit != []);
    } else if k < |statements| {
      StoppedRecords(k, statements[k].begins, statements[k].builds);
    } else {
      StoppedRecords(0, false, false);
    }
  }

  /** A catalog statement is committed exactly when its scope begins, it is planned, no step of it fails and its scope
      ends cleanly. */
  predicate GetsToCommit<E>(s: Statement<E>) {
    s.begins && s.builds && !Fails(s.executor.steps) && s.endsCleanly
  }

  /** The log of a catalog statement. */
  ghost predicate RecordsStatement<E>(log: seq<Event>, s: Statement<E>) {
    Records(log, if s.begins then 1 else 0, if s.begins && s.builds then 1 else 0, GetsToCommit(s))
  }

  lemma {:induction false} CatalogLogRecords<E>(s: Statement<E>)
    ensures RecordsStatement(CatalogLog(s), s)
  {
    DrainsIff(IterOf(s));
    if GetsToCommit(s) {
      EndedRecords(1, true);
      assert Wholes(1) == Wholes(0) + WHOLE == WHOLE;
      assert WHOLE + ([Commit] + [Freed]) == WHOLE + [Commit] + [Freed];
    } else {
      StoppedRecords(0, s.begins, s.builds);
      var stop := if !s.begins then [] else if !s.builds then [ScopeBegun] else WHOLE;
      assert Wholes(0) + stop + [Freed] == stop + [Freed];
    }
  }
}
