/** The caches as objects in memory: the locked regions of the loaders, refining the steps of the protocol. */
module Resolver {
  import opened SingleFlight

  class FlightState {
    var status: Status
    var wait: nat
    var value: Option<Value>
    var err: Option<Error>

    constructor (status: Status, wait: nat)
      ensures this.status == status && this.wait == wait && value == None && err == None
    {
      this.status := status;
      this.wait := wait;
      value := None;
      err := None;
    }

    function View(): Record
      reads this
    {
      Record(status, wait, value, err)
    }

    method SettleWith(o: Outcome)
      modifies this
      ensures View() == Settle(old(View()), o)
    {
      if o.err.Some? {
        status := Failed;
        err := o.err;
      } else {
        status := Done;
        value := o.value;
      }
    }
  }

  /** What a loader does behind the locked region at its loop head. */
  datatype Action = Compute(state: FlightState) | WaitOn(channel: nat) | Finish(result: Outcome)

  function PlaceBehind(action: Action, visits: nat): Place
  {
    match action
    case Compute(_) => Computing(visits + 1)
    case WaitOn(ch) => Waiting(ch, visits + 1)
    case Finish(r) => Returned(r, visits + 1)
  }

  class NavigationResolver {
    var states: map<Key, FlightState>
    var closed: set<nat>
    var nextChannel: nat
    var panicked: bool
    ghost var records: map<Key, Record>

    /** No two keys share a record object, so that writing one leaves the others alone; an idle record is empty. */
    ghost predicate Valid()
      reads this, states.Values
    {
      && JdkKey in states
      && records.Keys == states.Keys
      && (forall k :: k in states ==> states[k].View() == records[k])
      && (forall k, l :: k in states && l in states && k != l ==> states[k] != states[l])
      && (records[JdkKey].status == Idle ==> records[JdkKey].value == None && records[JdkKey].err == None)
    }

    ghost function View(): Shared
      reads this
    {
      Shared(records, closed, nextChannel, panicked)
    }

    constructor ()
      ensures Valid() && View() == NewShared()
    {
      var jdk := new FlightState(Idle, 0);
      states := map[JdkKey := jdk];
      records := map[JdkKey := Record(Idle, 0, None, None)];
      closed := {};
      nextChannel := 1;
      panicked := false;
    }

    /** The region at the head of the loop. The JDK record is claimed in place, any other key gets a new record. */
    method InspectOrClaim(k: Key, ghost visits: nat) returns (action: Action)
      requires Valid()
      modifies this, states.Values
      ensures Valid()
      ensures Unclaimed(old(View()), k) ==>
                View() == Claim(old(View()), k) && action.Compute? && k in states && states[k] == action.state
      ensures !Unclaimed(old(View()), k) ==>
                View() == old(View()) && PlaceBehind(action, visits) == Look(old(View()).records[k], visits)
      ensures forall l :: l in old(states) && (l != k || k == JdkKey) ==> l in states && states[l] == old(states[l])
    {
      if k in states {
        var state := states[k];
        match state.status {
          case Done =>
            return Finish(Outcome(state.value, state.err));
          case Failed =>
            return Finish(Outcome(None, state.err));
          case Processing =>
            return WaitOn(state.wait);
          case Idle =>
        }
      }
      var state := MarkProcessing(k);
      return Compute(state);
    }

    /** The claim itself: in place for the JDK index, with a new record for any other key. */
    method MarkProcessing(k: Key) returns (state: FlightState)
      requires Valid() && Unclaimed(View(), k)
      modifies this, states.Values
      ensures Valid() && View() == Claim(old(View()), k) && k in states && states[k] == state
      ensures forall l :: l in old(states) && (l != k || k == JdkKey) ==> l in states && states[l] == old(states[l])
    {
      if k == JdkKey {
        state := states[k];
        MarkInPlace(state);
      } else {
        state := new FlightState(Processing, nextChannel);
        InsertProcessing(k, state);
      }
    }

    method MarkInPlace(state: FlightState)
      requires Valid() && Unclaimed(View(), JdkKey) && states[JdkKey] == state
      modifies this`records, this`nextChannel, state
      ensures Valid() && View() == Claim(old(View()), JdkKey)
    {
      records := records[JdkKey := Record(Processing, nextChannel, None, None)];
      state.status := Processing;
      state.wait := nextChannel;
      nextChannel := nextChannel + 1;
    }

    method InsertProcessing(k: Key, state: FlightState)
      requires Valid() && k != JdkKey && (forall l :: l in states ==> states[l] != state)
      requires state.View() == Record(Processing, nextChannel, None, None)
      modifies this`records, this`states, this`nextChannel
      ensures Valid() && View() == Claim(old(View()), k) && states == old(states)[k := state]
    {
      records := records[k := Record(Processing, nextChannel, None, None)];
      states := states[k := state];
      nextChannel := nextChannel + 1;
    }

    /** The region behind the computation; the owner writes through the record it claimed. */
    method PublishAndClose(k: Key, state: FlightState, o: Outcome) returns (result: Outcome)
      requires Valid() && k in states && states[k] == state && state.status == Processing
      modifies this, state
      ensures Valid() && states == old(states)
      ensures View() == Publish(old(View()), k, o)
      ensures result == OwnResult(k, o)
    {
      state.SettleWith(o);
      records := records[k := Settle(records[k], o)];
      if state.wait in closed {
        panicked := true;
      }
      closed := closed + {state.wait};
      if k.ModuleKey? && o.err.Some? {
        return Outcome(None, o.err);
      }
      return o;
    }
  }
}
