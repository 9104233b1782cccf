/** The four lazily computed caches of the navigation resolver as one protocol: any number of callers, each
    after one key, under one mutex. A locked region is one step; a computation happens between two of them. */
module SingleFlight {

  /** What a computation yields and how it fails are left open. */
  type Value(==, !new)

  type Error(==, !new)

  datatype Option<+T> = None | Some(value: T)

  datatype Key = TypeKey(sourcePath: string) | ImportKey(root: string) | ModuleKey(moduleRoot: string) | JdkKey

  datatype Status = Idle | Processing | Done | Failed

  /** A cache record: its status, the channel to wait on, and what was published. */
  datatype Record = Record(status: Status, wait: nat, value: Option<Value>, err: Option<Error>)

  datatype Outcome = Outcome(value: Option<Value>, err: Option<Error>)

  /** What the callers share: the records, and which channels are made and closed. Closing a closed channel panics. */
  datatype Shared = Shared(records: map<Key, Record>, closed: set<nat>, nextChannel: nat, panicked: bool)

  /** Where a caller stands; `visits` counts how often it has passed the head of its loop. */
  datatype Place =
    | AtHead(visits: nat)
    | Waiting(channel: nat, visits: nat)
    | Computing(visits: nat)
    | Computed(outcome: Outcome, visits: nat)
    | Returned(result: Outcome, visits: nat)

  datatype Caller = Caller(key: Key, place: Place)

  /** Callers, and the history of each key: who computed for it, and what came of it. */
  datatype State = State(shared: Shared, callers: seq<Caller>, owners: map<Key, nat>, outcomes: map<Key, Outcome>)

  const NO_OUTCOME := Outcome(None, None)

  /** `newNavigationResolver`: only the JDK record exists, idle and with a channel nobody will ever close. */
  function NewShared(): Shared
  {
    Shared(map[JdkKey := Record(Idle, 0, None, None)], {}, 1, false)
  }

  // ---------------------------------------------------------------- the locked regions

  /** A key nobody has claimed: there is no record, or it is idle. */
  predicate Unclaimed(s: Shared, k: Key)
  {
    k !in s.records || s.records[k].status == Idle
  }

  function Claim(s: Shared, k: Key): Shared
  {
    s.(records := s.records[k := Record(Processing, s.nextChannel, None, None)], nextChannel := s.nextChannel + 1)
  }

  /** What the region at the head of the loop does with a record that is not idle. */
  function Look(r: Record, visits: nat): Place
  {
    match r.status
    case Done => Returned(Outcome(r.value, r.err), visits + 1)
    case Failed => Returned(Outcome(None, r.err), visits + 1)
    case _ => Waiting(r.wait, visits + 1)
  }

  function Settle(r: Record, o: Outcome): Record
  {
    if o.err.Some? then r.(status := Failed, err := o.err) else r.(status := Done, value := o.value)
  }

  function Publish(s: Shared, k: Key, o: Outcome): Shared
    requires k in s.records
  {
    var r := s.records[k];
    s.(records := s.records[k := Settle(r, o)], closed := s.closed + {r.wait},
       panicked := s.panicked || r.wait in s.closed)
  }

  /** What the owner of a computation itself returns: the pair it computed, but for a module without its value on an
      error. */
  function OwnResult(k: Key, o: Outcome): Outcome
  {
    if k.ModuleKey? && o.err.Some? then Outcome(None, o.err) else o
  }
  // ---------------------------------------------------------------- steps and runs

  datatype Step = Inspects(id: nat) | Computes(id: nat, outcome: Outcome) | Publishes(id: nat) | Wakes(id: nat)

  predicate Enabled(st: State, step: Step)
  {
    && step.id < |st.callers|
    && var c := st.callers[step.id];
    match step
    case Inspects(_) => c.place.AtHead?
    case Computes(_, _) => c.place.Computing?
    case Publishes(_) => c.place.Computed? && c.key in st.shared.records
    case Wakes(_) => c.place.Waiting? && c.place.channel in st.shared.closed
  }

  function Move(st: State, id: nat, place: Place): seq<Caller>
    requires id < |st.callers|
  {
    st.callers[id := st.callers[id].(place := place)]
  }

  function Next(st: State, step: Step): State
    requires Enabled(st, step)
  {
    var c := st.callers[step.id];
    match step
    case Inspects(id) =>
      if Unclaimed(st.shared, c.key) then
        st.(shared := Claim(st.shared, c.key), callers := Move(st, id, Computing(c.place.visits + 1)),
            owners := st.owners[c.key := id])
      else
        st.(callers := Move(st, id, Look(st.shared.records[c.key], c.place.visits)))
    case Computes(id, o) =>
      st.(callers := Move(st, id, Computed(o, c.place.visits)))
    case Publishes(id) =>
      var o := c.place.outcome;
      st.(shared := Publish(st.shared, c.key, o),
          callers := Move(st, id, Returned(OwnResult(c.key, o), c.place.visits)),
          outcomes := st.outcomes[c.key := o])
    case Wakes(id) =>
      st.(callers := Move(st, id, AtHead(c.place.visits)))
  }

  /** Any number of callers, each after any key; when a caller takes its first step is up to the run. */
  ghost predicate Initial(st: State)
  {
    && st.shared == NewShared()
    && st.owners == map[] && st.outcomes == map[]
    && forall i :: 0 <= i < |st.callers| ==> st.callers[i].place == AtHead(0)
  }

  ghost predicate Follows(st: State, st': State)
  {
    exists step :: Enabled(st, step) && Next(st, step) == st'
  }

  ghost predicate Run(sts: seq<State>)
  {
    && sts != []
    && Initial(sts[0])
    && forall i :: 0 <= i < |sts| - 1 ==> Follows(sts[i], sts[i + 1])
  }

  // ---------------------------------------------------------------- the invariant

  predicate Settled(r: Record) { r.status == Done || r.status == Failed }

  predicate IsOwner(c: Caller) { c.place.Computing? || c.place.Computed? }

  predicate Owns(c: Caller, k: Key) { c.key == k && IsOwner(c) }

  ghost predicate RecordSound(s: Shared, k: Key)
    requires k in s.records
  {
    var r := s.records[k];
    && r.wait < s.nextChannel
    && (r.status == Idle ==> k == JdkKey && r.wait == 0)
    && (r.status != Idle ==> r.wait > 0)
    && (Settled(r) <==> r.wait in s.closed)
    && (!Settled(r) ==> r.value == None && r.err == None)
  }

  /** Every record has a channel of its own; it is closed exactly when the record is settled, and only once. */
  ghost predicate ChannelsSound(s: Shared)
  {
    && !s.panicked
    && JdkKey in s.records
    && s.nextChannel > 0 && 0 !in s.closed
    && (forall c :: c in s.closed ==> c < s.nextChannel)
    && (forall k :: k in s.records ==> RecordSound(s, k))
    && (forall k, l :: k in s.records && l in s.records && k != l ==> s.records[k].wait != s.records[l].wait)
  }

  predicate Claimed(st: State, k: Key) { k in st.shared.records && st.shared.records[k].status != Idle }

  predicate IsSettled(st: State, k: Key) { k in st.shared.records && Settled(st.shared.records[k]) }

  /** The owner of a claimed key is a caller after that key, and still at work exactly while the record says so. */
  ghost predicate OwnerSound(st: State, k: Key)
  {
    && (k in st.owners <==> Claimed(st, k))
    && (k in st.owners ==>
          && st.owners[k] < |st.callers|
          && st.callers[st.owners[k]].key == k
          && (if st.shared.records[k].status == Processing then IsOwner(st.callers[st.owners[k]])
              else st.callers[st.owners[k]].place.Returned?))
  }

  /** The published record says what the computation yielded. */
  ghost predicate OutcomeSound(st: State, k: Key)
  {
    && (k in st.outcomes <==> IsSettled(st, k))
    && (k in st.outcomes ==>
          var o, r := st.outcomes[k], st.shared.records[k];
          if o.err.Some? then r.status == Failed && r.err == o.err
          else r.status == Done && r.value == o.value && r.err == None)
  }

  /** What a caller gets back: on success the value for everyone, on failure the error, and a value for the owner at
      most. */
  function ResultFor(st: State, k: Key, id: nat): Outcome
    requires k in st.outcomes && k in st.owners
  {
    var o := st.outcomes[k];
    if id == st.owners[k] then OwnResult(k, o) else if o.err.Some? then Outcome(None, o.err) else o
  }

  ghost predicate CallerSound(st: State, id: nat)
    requires id < |st.callers|
  {
    var c := st.callers[id];
    match c.place
    case AtHead(v) => v == 0 || (v == 1 && IsSettled(st, c.key))
    case Waiting(ch, v) => v == 1 && Claimed(st, c.key) && st.shared.records[c.key].wait == ch
    case Computing(v) => v == 1 && c.key in st.owners && st.owners[c.key] == id
    case Computed(_, v) => v == 1 && c.key in st.owners && st.owners[c.key] == id
    case Returned(r, v) => 1 <= v <= 2 && c.key in st.owners && c.key in st.outcomes && r == ResultFor(st, c.key, id)
  }

  ghost predicate Inv(st: State)
  {
    && ChannelsSound(st.shared)
    && (forall k: Key :: OwnerSound(st, k))
    && (forall k: Key :: OutcomeSound(st, k))
    && (forall id :: 0 <= id < |st.callers| ==> CallerSound(st, id))
  }
}
