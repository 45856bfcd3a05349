/** IN lists: the early-exit scan against the three-valued disjunction of equalities. */
module InLists {
  import opened Expressions

  /** `v = m0 OR v = m1 OR ...` under three-valued logic (section 8.4 of ISO/IEC 9075-2:2016). */
  function AnyEqual(v: Outcome, members: seq<Outcome>): (r: Outcome)
    ensures !v.Fault? && FaultFree(members) ==> IsTruth(r)
  {
    if members == [] then FALSE else Or3(Eq3(v, members[0]), AnyEqual(v, members[1..]))
  }

  predicate FaultFree(outs: seq<Outcome>) {
    forall i :: 0 <= i < |outs| ==> outs[i].Ok?
  }

  /** The loop of the evaluator: skip nulls, stop at the first match or failure. */
  method EvalIn(value: Outcome, members: seq<Outcome>, negated: bool) returns (r: Outcome)
    ensures r == InOutcome(negated, [value] + members)
  {
    if value.Fault? { return Fault; }
    if value.value.Null? { return NULL; }
    var matched, sawNull := false, false;
    var i := 0;
    assert ([value] + members)[1..] == members;
    assert members[0..] == members;
    while i < |members|
      invariant 0 <= i <= |members|
      invariant InScan(value.value, members, negated, false) == InScan(value.value, members[i..], negated, sawNull)
      invariant !matched
    {
      if members[i].Fault? { return Fault; }
      if members[i].value.Null? {
        sawNull := true;
      } else if members[i].value == value.value {
        matched := true;
        break;
      }
      i := i + 1;
    }
    if matched { return Ok(Boolean(!negated)); }
    if sawNull { return NULL; }
    return Ok(Boolean(negated));
  }

  lemma {:induction false} ScanIsDisjunction(v: Value, members: seq<Outcome>, negated: bool, sawNull: bool)
    requires !v.Null? && FaultFree(members)
    ensures
      var any := Or3(if sawNull then NULL else FALSE, AnyEqual(Ok(v), members));
      InScan(v, members, negated, sawNull) == if negated then Not3(any) else any
  {
    if members != [] {
      ScanIsDisjunction(v, members[1..], negated, sawNull || members[0].value.Null?);
    }
  }

  lemma {:induction false} NullAnyEqual(members: seq<Outcome>)
    requires members != [] && FaultFree(members)
    ensures AnyEqual(NULL, members) == NULL
  {
    if |members| > 1 { NullAnyEqual(members[1..]); }
  }

  /** IN is the disjunction of equalities and NOT IN its three-valued negation, for every
      left operand and every non-empty list. */
  lemma InIsDisjunction(value: Outcome, members: seq<Outcome>)
    requires value.Ok? && members != [] && FaultFree(members)
    ensures InOutcome(false, [value] + members) == AnyEqual(value, members)
    ensures InOutcome(true, [value] + members) == Not3(AnyEqual(value, members))
  {
    assert ([value] + members)[1..] == members;
    if value.value.Null? {
      NullAnyEqual(members);
    } else {
      ScanIsDisjunction(value.value, members, false, false);
      ScanIsDisjunction(value.value, members, true, false);
    }
  }

  /** What the scan can observe of a list: whether it holds the value, and whether it holds a null. */
  lemma {:induction false} ScanObserves(v: Value, members: seq<Outcome>, negated: bool, sawNull: bool)
    requires !v.Null? && FaultFree(members)
    ensures InScan(v, members, negated, sawNull) ==
            if Ok(v) in members then Ok(Boolean(!negated))
            else if sawNull || NULL in members then NULL
            else Ok(Boolean(negated))
  {
    if members != [] {
      assert members == [members[0]] + members[1..];
      ScanObserves(v, members[1..], negated, sawNull || members[0].value.Null?);
    }
  }

  /** The result depends only on the set of member values: order and repetition are irrelevant. */
  lemma InDependsOnMemberSet(value: Outcome, xs: seq<Outcome>, ys: seq<Outcome>, negated: bool)
    requires FaultFree(xs) && FaultFree(ys)
    requires forall o :: o in xs <==> o in ys
    ensures InOutcome(negated, [value] + xs) == InOutcome(negated, [value] + ys)
  {
    assert ([value] + xs)[1..] == xs && ([value] + ys)[1..] == ys;
    if value.Ok? && !value.value.Null? {
      ScanObserves(value.value, xs, negated, false);
      ScanObserves(value.value, ys, negated, false);
    }
  }
}
