/** What holds in every state of every run of the cache protocol. */
module SingleFlightSafety {
  import opened SingleFlight

  lemma InitialInv(st: State)
    requires Initial(st)
    ensures Inv(st)
  {
  }

  // ---------------------------------------------------------------- every step keeps it

  lemma ClaimKeeps(s: Shared, k: Key)
    requires ChannelsSound(s) && Unclaimed(s, k)
    ensures ChannelsSound(Claim(s, k))
  {
    var s' := Claim(s, k);
    forall l | l in s'.records
      ensures RecordSound(s', l)
      ensures l != k ==> s'.records[l].wait != s'.records[k].wait
    {
      if l != k {
        assert RecordSound(s, l);
      }
    }
  }

  lemma PublishKeeps(s: Shared, k: Key, o: Outcome)
    requires ChannelsSound(s) && k in s.records && s.records[k].status == Processing
    ensures ChannelsSound(Publish(s, k, o))
  {
    var s' := Publish(s, k, o);
    assert RecordSound(s, k);
    forall l | l in s'.records
      ensures RecordSound(s', l)
    {
      assert RecordSound(s, l);
    }
  }

  lemma ClaimStepKeeps(st: State, id: nat)
    requires Inv(st) && Enabled(st, Inspects(id)) && Unclaimed(st.shared, st.callers[id].key)
    ensures Inv(Next(st, Inspects(id)))
  {
    var st' := Next(st, Inspects(id));
    var k := st.callers[id].key;
    assert CallerSound(st, id) && OwnerSound(st, k);
    ClaimKeeps(st.shared, k);
    forall l: Key
      ensures OwnerSound(st', l) && OutcomeSound(st', l)
    {
      assert OwnerSound(st, l) && OutcomeSound(st, l);
    }
    forall j | 0 <= j < |st'.callers|
      ensures CallerSound(st', j)
    {
      assert CallerSound(st, j) && OwnerSound(st, st.callers[j].key) && OutcomeSound(st, st.callers[j].key);
    }
  }

  lemma LookStepKeeps(st: State, id: nat)
    requires Inv(st) && Enabled(st, Inspects(id)) && !Unclaimed(st.shared, st.callers[id].key)
    ensures Inv(Next(st, Inspects(id)))
  {
    var st' := Next(st, Inspects(id));
    var k := st.callers[id].key;
    assert CallerSound(st, id) && OwnerSound(st, k) && OutcomeSound(st, k) && RecordSound(st.shared, k);
    forall l: Key
      ensures OwnerSound(st', l) && OutcomeSound(st', l)
    {
      assert OwnerSound(st, l) && OutcomeSound(st, l);
    }
    forall j | 0 <= j < |st'.callers|
      ensures CallerSound(st', j)
    {
      assert CallerSound(st, j);
    }
  }

  lemma ComputeKeeps(st: State, id: nat, o: Outcome)
    requires Inv(st) && Enabled(st, Computes(id, o))
    ensures Inv(Next(st, Computes(id, o)))
  {
    var st' := Next(st, Computes(id, o));
    assert CallerSound(st, id);
    forall l: Key
      ensures OwnerSound(st', l) && OutcomeSound(st', l)
    {
      assert OwnerSound(st, l) && OutcomeSound(st, l);
    }
    forall j | 0 <= j < |st'.callers|
      ensures CallerSound(st', j)
    {
      assert CallerSound(st, j);
    }
  }

  lemma PublishStepKeeps(st: State, id: nat)
    requires Inv(st) && Enabled(st, Publishes(id))
    ensures Inv(Next(st, Publishes(id)))
  {
    var st' := Next(st, Publishes(id));
    var k := st.callers[id].key;
    assert CallerSound(st, id);
    assert OwnerSound(st, k) && OutcomeSound(st, k) && RecordSound(st.shared, k);
    PublishKeeps(st.shared, k, st.callers[id].place.outcome);
    forall l: Key
      ensures OwnerSound(st', l) && OutcomeSound(st', l)
    {
      assert OwnerSound(st, l) && OutcomeSound(st, l);
    }
    forall j | 0 <= j < |st'.callers|
      ensures CallerSound(st', j)
    {
      assert CallerSound(st, j);
    }
  }

  lemma WakeKeeps(st: State, id: nat)
    requires Inv(st) && Enabled(st, Wakes(id))
    ensures Inv(Next(st, Wakes(id)))
  {
    var st' := Next(st, Wakes(id));
    var k := st.callers[id].key;
    assert CallerSound(st, id) && RecordSound(st.shared, k);
    forall l: Key
      ensures OwnerSound(st', l) && OutcomeSound(st', l)
    {
      assert OwnerSound(st, l) && OutcomeSound(st, l);
    }
    forall j | 0 <= j < |st'.callers|
      ensures CallerSound(st', j)
    {
      assert CallerSound(st, j);
    }
  }

  lemma StepKeepsInv(st: State, step: Step)
    requires Inv(st) && Enabled(st, step)
    ensures Inv(Next(st, step))
  {
    match step
    case Inspects(id) =>
      if Unclaimed(st.shared, st.callers[id].key) {
        ClaimStepKeeps(st, id);
      } else {
        LookStepKeeps(st, id);
      }
    case Computes(id, o) => ComputeKeeps(st, id, o);
    case Publishes(id) => PublishStepKeeps(st, id);
    case Wakes(id) => WakeKeeps(st, id);
  }

  lemma {:induction false} RunKeepsInv(sts: seq<State>, n: nat)
    requires Run(sts) && n < |sts|
    ensures Inv(sts[n])
    decreases n
  {
    if n == 0 {
      InitialInv(sts[0]);
    } else {
      RunKeepsInv(sts, n - 1);
      assert Follows(sts[n - 1], sts[n - 1 + 1]);
      var step :| Enabled(sts[n - 1], step) && Next(sts[n - 1], step) == sts[n];
      StepKeepsInv(sts[n - 1], step);
    }
  }

  // ---------------------------------------------------------------- safety over whole runs

  ghost predicate OneOwner(st: State, k: Key)
  {
    forall i, j :: 0 <= i < |st.callers| && 0 <= j < |st.callers| ==>
      (Owns(st.callers[i], k) && Owns(st.callers[j], k) ==> i == j)
  }

  /** In every state of every run: no channel is closed twice, a key is Processing exactly while its one owner is at
      work, its channel is closed exactly when it is settled, nobody waits on the channel of the idle JDK record,
      and nobody passes the head of the loop more than twice. */
  lemma Safety(sts: seq<State>, n: nat, k: Key)
    requires Run(sts) && n < |sts|
    ensures var st := sts[n];
      && !st.shared.panicked
      && ((k in st.shared.records && st.shared.records[k].status == Processing)
          <==> exists i :: 0 <= i < |st.callers| && Owns(st.callers[i], k))
      && OneOwner(st, k)
      && (k in st.shared.records ==> (st.shared.records[k].wait in st.shared.closed <==> Settled(st.shared.records[k])))
      && (forall i :: 0 <= i < |st.callers| && st.callers[i].place.Waiting? ==> st.callers[i].place.channel != 0)
      && (forall i :: 0 <= i < |st.callers| ==> st.callers[i].place.visits <= 2)
  {
    RunKeepsInv(sts, n);
    var st := sts[n];
    assert OwnerSound(st, k);
    if k in st.shared.records {
      assert RecordSound(st.shared, k);
      assert st.shared.records[k].status == Processing ==> Owns(st.callers[st.owners[k]], k);
    }
    forall i | 0 <= i < |st.callers|
      ensures st.callers[i].place.visits <= 2
      ensures st.callers[i].place.Waiting? ==> st.callers[i].place.channel != 0
      ensures Owns(st.callers[i], k) ==> k in st.owners && st.owners[k] == i
    {
      assert CallerSound(st, i);
      if st.callers[i].place.Waiting? {
        assert RecordSound(st.shared, st.callers[i].key);
      }
    }
  }

  /** The visits of a caller count its turns at the head of the loop: each inspection is one more, no other step is, and
      nobody else is moved. */
  lemma VisitsCount(st: State, step: Step)
    requires Enabled(st, step)
    ensures var st', i := Next(st, step), step.id;
      && |st'.callers| == |st.callers|
      && st'.callers[i].place.visits == st.callers[i].place.visits + (if step.Inspects? then 1 else 0)
      && forall j :: 0 <= j < |st.callers| && j != i ==> st'.callers[j] == st.callers[j]
  {
  }

  /** Publishing twice over one record closes its channel twice, which panics. */
  lemma ClosingTwicePanics(s: Shared, k: Key, o: Outcome, o': Outcome)
    requires k in s.records
    ensures Publish(Publish(s, k, o), k, o').panicked
    ensures s.panicked ==> Publish(s, k, o).panicked
  {
  }

  /** Once claimed a key keeps its owner, and once settled its record and its outcome. */
  ghost predicate KeepsHistory(st: State, st': State)
  {
    && |st'.callers| == |st.callers|
    && (forall i :: 0 <= i < |st.callers| ==> st'.callers[i].key == st.callers[i].key)
    && (forall k :: k in st.owners ==> k in st'.owners && st'.owners[k] == st.owners[k])
    && (forall k :: k in st.outcomes ==> k in st'.outcomes && st'.outcomes[k] == st.outcomes[k])
    && (forall k :: k in st.shared.records && Settled(st.shared.records[k]) ==>
          k in st'.shared.records && st'.shared.records[k] == st.shared.records[k])
    && (forall i :: 0 <= i < |st.callers| && st.callers[i].place.Returned? ==> st'.callers[i] == st.callers[i])
  }

  lemma StepKeepsHistory(st: State, step: Step)
    requires Inv(st) && Enabled(st, step)
    ensures KeepsHistory(st, Next(st, step))
  {
    var k := st.callers[step.id].key;
    assert OwnerSound(st, k) && OutcomeSound(st, k) && CallerSound(st, step.id);
  }

  lemma FollowsKeepsHistory(st: State, st': State)
    requires Inv(st) && Follows(st, st')
    ensures KeepsHistory(st, st')
  {
    var step :| Enabled(st, step) && Next(st, step) == st';
    StepKeepsHistory(st, step);
  }

  lemma StepInRun(sts: seq<State>, n: nat)
    requires Run(sts) && n + 1 < |sts|
    ensures KeepsHistory(sts[n], sts[n + 1])
  {
    RunKeepsInv(sts, n);
    assert Follows(sts[n], sts[n + 1]);
    FollowsKeepsHistory(sts[n], sts[n + 1]);
  }

  lemma {:induction false} HistoryStays(sts: seq<State>, m: nat, n: nat)
    requires Run(sts) && m <= n < |sts|
    ensures KeepsHistory(sts[m], sts[n])
    decreases n
  {
    if m < n {
      HistoryStays(sts, m, n - 1);
      HistoryGoesOn(sts, sts[m], n - 1);
    }
  }

  lemma HistoryGoesOn(sts: seq<State>, st: State, n: nat)
    requires Run(sts) && n + 1 < |sts| && KeepsHistory(st, sts[n])
    ensures KeepsHistory(st, sts[n + 1])
  {
    StepInRun(sts, n);
    HistoryChains(st, sts[n], sts[n + 1]);
  }

  lemma HistoryChains(a: State, b: State, c: State)
    requires KeepsHistory(a, b) && KeepsHistory(b, c)
    ensures KeepsHistory(a, c)
  {
  }

  /** Caller i starts to compute between two states. */
  predicate Starts(st: State, st': State, i: nat)
  {
    && i < |st.callers| && i < |st'.callers|
    && !st.callers[i].place.Computing? && st'.callers[i].place.Computing?
  }

  lemma StartClaims(st: State, st': State, i: nat)
    requires Inv(st) && Follows(st, st') && Starts(st, st', i)
    ensures st.callers[i].key !in st.owners && st.callers[i].key in st'.owners
  {
    var step :| Enabled(st, step) && Next(st, step) == st';
    assert OwnerSound(st, st.callers[i].key);
  }

  lemma StartInRun(sts: seq<State>, n: nat, i: nat)
    requires Run(sts) && n + 1 < |sts| && Starts(sts[n], sts[n + 1], i)
    ensures var k := sts[n].callers[i].key;
      k !in sts[n].owners && k in sts[n + 1].owners && sts[n + 1].owners[k] == i
  {
    RunKeepsInv(sts, n);
    RunKeepsInv(sts, n + 1);
    assert Follows(sts[n], sts[n + 1]);
    StartClaims(sts[n], sts[n + 1], i);
    StepInRun(sts, n);
    assert CallerSound(sts[n + 1], i);
  }

  /** Over a whole run at most one computation is started for a key, whoever starts it. */
  lemma OneComputation(sts: seq<State>, m: nat, i: nat, n: nat, j: nat)
    requires Run(sts) && m + 1 < |sts| && n + 1 < |sts|
    requires Starts(sts[m], sts[m + 1], i) && Starts(sts[n], sts[n + 1], j)
    requires sts[m].callers[i].key == sts[n].callers[j].key
    ensures m == n && i == j
  {
    StartInRun(sts, m, i);
    StartInRun(sts, n, j);
    if m < n {
      HistoryStays(sts, m + 1, n);
    } else if n < m {
      HistoryStays(sts, n + 1, m);
    }
  }

  /** What is published stays: the record, and what every caller returned. */
  lemma PublishedStays(sts: seq<State>, m: nat, n: nat, k: Key)
    requires Run(sts) && m <= n < |sts| && IsSettled(sts[m], k)
    ensures IsSettled(sts[n], k) && sts[n].shared.records[k] == sts[m].shared.records[k]
  {
    HistoryStays(sts, m, n);
  }

  /** All callers that return for one key agree with its one computation: the computed pair on success; on failure
      the error, and a value at most for the caller that computed, who keeps it unless the key is a module. */
  lemma Agreement(sts: seq<State>, n: nat, i: nat)
    requires Run(sts) && n < |sts| && i < |sts[n].callers| && sts[n].callers[i].place.Returned?
    ensures var st, k, r := sts[n], sts[n].callers[i].key, sts[n].callers[i].place.result;
      && k in st.outcomes && k in st.owners
      && r.err == st.outcomes[k].err
      && (r.err == None ==> r.value == st.outcomes[k].value)
      && (r.err.Some? ==> r.value == if i == st.owners[k] && !k.ModuleKey? then st.outcomes[k].value else None)
  {
    RunKeepsInv(sts, n);
    assert CallerSound(sts[n], i);
  }
}
