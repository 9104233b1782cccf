/** Every run of the cache protocol ends, and only when everybody has an answer. */
module SingleFlightLiveness {
  import opened SingleFlight
  import opened SingleFlightSafety

  function Weight(p: Place): nat
  {
    match p
    case AtHead(v) => if v == 0 then 3 else 1
    case Waiting(_, _) => 2
    case Computing(_) => 2
    case Computed(_, _) => 1
    case Returned(_, _) => 0
  }

  function Work(callers: seq<Caller>): nat
  {
    if callers == [] then 0 else Weight(callers[0].place) + Work(callers[1..])
  }

  lemma {:induction false} WorkMoves(callers: seq<Caller>, id: nat, place: Place)
    requires id < |callers|
    ensures Work(callers[id := callers[id].(place := place)])
         == Work(callers) - Weight(callers[id].place) + Weight(place)
    decreases id
  {
    var moved := callers[id := callers[id].(place := place)];
    if id == 0 {
      assert moved[1..] == callers[1..];
    } else {
      assert moved[1..] == callers[1..][id - 1 := callers[id].(place := place)];
      WorkMoves(callers[1..], id - 1, place);
    }
  }

  lemma {:induction false} WorkBound(callers: seq<Caller>)
    ensures Work(callers) <= 3 * |callers|
    decreases |callers|
  {
    if callers != [] {
      WorkBound(callers[1..]);
    }
  }

  predicate AllReturned(st: State)
  {
    forall i :: 0 <= i < |st.callers| ==> st.callers[i].place.Returned?
  }

  /** Every step leaves less work: nobody runs around the loop for ever. */
  lemma StepLessWork(st: State, step: Step)
    requires Inv(st) && Enabled(st, step)
    ensures Work(Next(st, step).callers) < Work(st.callers)
  {
    var c, st' := st.callers[step.id], Next(st, step);
    assert CallerSound(st, step.id);
    assert st'.callers == Move(st, step.id, st'.callers[step.id].place);
    WorkMoves(st.callers, step.id, st'.callers[step.id].place);
  }

  /** A caller that has not returned, or the one it waits for, has a step to take: owners wait for nobody. */
  function StepOf(st: State, id: nat, o: Outcome): Step
    requires id < |st.callers| && !st.callers[id].place.Returned?
  {
    match st.callers[id].place
    case AtHead(_) => Inspects(id)
    case Waiting(_, _) => Wakes(id)
    case Computing(_) => Computes(id, o)
    case Computed(_, _) => Publishes(id)
  }

  ghost predicate CanGoOn(st: State)
  {
    exists step :: Enabled(st, step)
  }

  lemma SomeoneMoves(st: State, id: nat, o: Outcome)
    requires Inv(st) && id < |st.callers| && !st.callers[id].place.Returned?
    ensures CanGoOn(st)
    ensures st.callers[id].place.Waiting? && !Enabled(st, StepOf(st, id, o)) ==>
      var k := st.callers[id].key;
      k in st.owners && st.owners[k] < |st.callers| && IsOwner(st.callers[st.owners[k]])
          && Enabled(st, StepOf(st, st.owners[k], o))
    ensures !st.callers[id].place.Waiting? ==> Enabled(st, StepOf(st, id, o))
  {
    assert CallerSound(st, id);
    var k := st.callers[id].key;
    assert OwnerSound(st, k);
    if !Enabled(st, StepOf(st, id, o)) {
      assert RecordSound(st.shared, k);
      assert Enabled(st, StepOf(st, st.owners[k], o));
    }
  }

  lemma {:induction false} RunWork(sts: seq<State>, n: nat)
    requires Run(sts) && n < |sts|
    ensures Work(sts[n].callers) + n <= Work(sts[0].callers)
    decreases n
  {
    if n > 0 {
      RunWork(sts, n - 1);
      RunKeepsInv(sts, n - 1);
      assert Follows(sts[n - 1], sts[n - 1 + 1]);
      var step :| Enabled(sts[n - 1], step) && Next(sts[n - 1], step) == sts[n];
      StepLessWork(sts[n - 1], step);
    }
  }

  /** A run takes at most three steps a caller, and it can go on exactly as long as someone has not returned. */
  lemma Liveness(sts: seq<State>)
    requires Run(sts)
    ensures |sts| - 1 <= 3 * |sts[0].callers|
    ensures CanGoOn(sts[|sts| - 1]) <==> !AllReturned(sts[|sts| - 1])
  {
    var last := sts[|sts| - 1];
    RunWork(sts, |sts| - 1);
    WorkBound(sts[0].callers);
    RunKeepsInv(sts, |sts| - 1);
    if !AllReturned(last) {
      var id :| 0 <= id < |last.callers| && !last.callers[id].place.Returned?;
      SomeoneMoves(last, id, NO_OUTCOME);
    }
  }
}
