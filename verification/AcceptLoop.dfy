/**
  The accept loop and the exiting session threads, which share the counter
  client_count (lucpd/src/lucpd.c, lines 48-49, 234-239 and 296-333). Each atomic
  operation on the counter is one step; a schedule is any interleaving of steps.
 */
module AcceptLoop {

  /** Where the accept loop stands: in accept, with a connection, past the limit check, or with a new thread not counted yet. */
  datatype LoopAt = Accepting | Connected | Admitted | Spawned | Stopped

  /** A session thread: in its loop, past close and free, or past its decrement. */
  datatype ThreadAt = Serving | Closed | Gone

  datatype State = State(count: int, at: LoopAt, threads: seq<ThreadAt>)

  const Initially := State(0, Accepting, [])

  datatype Action =
    | Accept
    | AcceptFails
    | CheckLimit
    | Spawn
    | Increment
    | Leave(id: nat)
    | Decrement(id: nat)

  predicate Enabled(s: State, a: Action) {
    match a
    case Accept => s.at == Accepting
    case AcceptFails => s.at == Accepting
    case CheckLimit => s.at == Connected
    case Spawn => s.at == Admitted
    case Increment => s.at == Spawned
    case Leave(id) => id < |s.threads| && s.threads[id] == Serving
    case Decrement(id) => id < |s.threads| && s.threads[id] == Closed
  }

  function Step(maxClients: int, s: State, a: Action): State
    requires Enabled(s, a)
  {
    match a
    case Accept => s.(at := Connected)
    case AcceptFails => s.(at := Stopped)
    case CheckLimit => s.(at := if s.count >= maxClients then Accepting else Admitted)
    case Spawn => s.(at := Spawned, threads := s.threads + [Serving])
    case Increment => s.(at := Accepting, count := s.count + 1)
    case Leave(id) => s.(threads := s.threads[id := Closed])
    case Decrement(id) => s.(threads := s.threads[id := Gone], count := s.count - 1)
  }

  /** The state after a schedule; steps that are not enabled are passed over. */
  function Reach(maxClients: int, s: State, schedule: seq<Action>): State
    decreases |schedule|
  {
    if schedule == [] then s
    else Reach(maxClients, if Enabled(s, schedule[0]) then Step(maxClients, s, schedule[0]) else s, schedule[1..])
  }

  /** The threads created that have not decremented the counter. */
  function Live(threads: seq<ThreadAt>): nat {
    if threads == [] then 0 else (if threads[0] == Gone then 0 else 1) + Live(threads[1..])
  }

  function Uncounted(s: State): nat {
    if s.at == Spawned then 1 else 0
  }

  lemma {:induction false} LiveAppend(threads: seq<ThreadAt>, t: ThreadAt)
    ensures Live(threads + [t]) == Live(threads) + if t == Gone then 0 else 1
  {
    if threads == [] {
      assert [t][1..] == [];
    } else {
      LiveAppend(threads[1..], t);
      assert (threads + [t])[1..] == threads[1..] + [t];
    }
  }

  lemma {:induction false} LiveUpdate(threads: seq<ThreadAt>, id: nat, t: ThreadAt)
    requires id < |threads|
    ensures Live(threads[id := t]) ==
      Live(threads) - (if threads[id] == Gone then 0 else 1) + (if t == Gone then 0 else 1)
  {
    if id == 0 {
      assert threads[id := t][1..] == threads[1..];
    } else {
      LiveUpdate(threads[1..], id - 1, t);
      assert threads[id := t][1..] == threads[1..][id - 1 := t];
    }
  }

  /** The counter is the number of live threads, one behind while a new thread is not counted yet. */
  predicate Inv(maxClients: int, s: State) {
    && s.count == Live(s.threads) - Uncounted(s)
    && Live(s.threads) <= maxClients
    && (s.at == Admitted ==> Live(s.threads) < maxClients)
  }

  lemma StepKeepsInv(maxClients: int, s: State, a: Action)
    requires Enabled(s, a) && Inv(maxClients, s)
    ensures Inv(maxClients, Step(maxClients, s, a))
  {
    match a {
      case Spawn => LiveAppend(s.threads, Serving);
      case Leave(id) => LiveUpdate(s.threads, id, Closed);
      case Decrement(id) => LiveUpdate(s.threads, id, Gone);
      case _ =>
    }
  }

  lemma {:induction false} ReachKeepsInv(maxClients: int, s: State, schedule: seq<Action>)
    requires Inv(maxClients, s)
    ensures Inv(maxClients, Reach(maxClients, s, schedule))
    decreases |schedule|
  {
    if schedule != [] {
      if Enabled(s, schedule[0]) {
        StepKeepsInv(maxClients, s, schedule[0]);
        ReachKeepsInv(maxClients, Step(maxClients, s, schedule[0]), schedule[1..]);
      } else {
        ReachKeepsInv(maxClients, s, schedule[1..]);
      }
    }
  }

  /** In every interleaving the live sessions never exceed the limit and the counter stays between -1 and the limit. */
  lemma SessionLimit(maxClients: int, schedule: seq<Action>)
    requires maxClients >= 0
    ensures var s := Reach(maxClients, Initially, schedule);
      && Live(s.threads) <= maxClients
      && s.count == Live(s.threads) - Uncounted(s)
      && -1 <= s.count <= maxClients
  {
    ReachKeepsInv(maxClients, Initially, schedule);
  }

  /** Whenever the limit is checked, a connection is turned away exactly when all places are taken. */
  lemma RejectionIsExact(maxClients: int, schedule: seq<Action>)
    requires maxClients >= 0
    ensures var s := Reach(maxClients, Initially, schedule);
      s.at == Connected ==>
        (Step(maxClients, s, CheckLimit).at == Accepting <==> Live(s.threads) == maxClients)
  {
    ReachKeepsInv(maxClients, Initially, schedule);
  }

  /** A thread may end before it is counted, so the lower bound is reached. */
  lemma CounterCanBeNegative(maxClients: int)
    requires maxClients > 0
    ensures Reach(maxClients, Initially, [Accept, CheckLimit, Spawn, Leave(0), Decrement(0)]).count == -1
  {
  }
  /** A connection accepted and served. */
  const Arrival := [Accept, CheckLimit, Spawn, Increment]

  lemma {:induction false} ReachConcat(maxClients: int, s: State, a: seq<Action>, b: seq<Action>)
    ensures Reach(maxClients, s, a + b) == Reach(maxClients, Reach(maxClients, s, a), b)
    decreases |a|
  {
    if a == [] {
      assert a + b == b;
    } else {
      assert (a + b)[1..] == a[1..] + b;
      ReachConcat(maxClients, if Enabled(s, a[0]) then Step(maxClients, s, a[0]) else s, a[1..], b);
    }
  }

  lemma ArrivalSteps(maxClients: int, s: State)
    requires s.at == Accepting
    ensures Reach(maxClients, s, Arrival) ==
      if s.count < maxClients then State(s.count + 1, Accepting, s.threads + [Serving]) else s
  {
    assert Arrival[1..] == [CheckLimit, Spawn, Increment];
    assert Arrival[1..][1..] == [Spawn, Increment];
    assert Arrival[1..][1..][1..] == [Increment];
    assert Arrival[1..][1..][1..][1..] == [];
  }

  lemma DepartureSteps(maxClients: int, s: State, id: nat)
    requires id < |s.threads| && s.threads[id] == Serving
    ensures Reach(maxClients, s, [Leave(id), Decrement(id)]) == s.(count := s.count - 1, threads := s.threads[id := Gone])
  {
    var schedule := [Leave(id), Decrement(id)];
    var u := Step(maxClients, s, Leave(id));
    assert schedule[1..] == [Decrement(id)] && [Decrement(id)][1..] == [];
    assert Reach(maxClients, u, [Decrement(id)]) == Step(maxClients, u, Decrement(id));
    assert s.threads[id := Closed][id := Gone] == s.threads[id := Gone];
  }

  /**
    In every interleaving that leaves the loop waiting, the next connection gets a session
    if a place is free and changes nothing otherwise; and a session that ends frees its
    place, whatever the loop is doing.
   */
  lemma PlacesAreReused(maxClients: int, schedule: seq<Action>)
    requires maxClients >= 0
    ensures var s := Reach(maxClients, Initially, schedule);
      && (s.at == Accepting ==>
            Reach(maxClients, Initially, schedule + Arrival) ==
              if Live(s.threads) < maxClients then State(s.count + 1, Accepting, s.threads + [Serving]) else s)
      && forall id :: 0 <= id < |s.threads| && s.threads[id] == Serving ==>
           var u := Reach(maxClients, Initially, schedule + [Leave(id), Decrement(id)]);
           u.at == s.at && u.count == s.count - 1 && Live(u.threads) == Live(s.threads) - 1
  {
    hide Reach;
    var s := Reach(maxClients, Initially, schedule);
    ReachKeepsInv(maxClients, Initially, schedule);
    if s.at == Accepting {
      ReachConcat(maxClients, Initially, schedule, Arrival);
      ArrivalSteps(maxClients, s);
    }
    forall id | 0 <= id < |s.threads| && s.threads[id] == Serving
      ensures var u := Reach(maxClients, Initially, schedule + [Leave(id), Decrement(id)]);
        u.at == s.at && u.count == s.count - 1 && Live(u.threads) == Live(s.threads) - 1
    {
      ReachConcat(maxClients, Initially, schedule, [Leave(id), Decrement(id)]);
      DepartureSteps(maxClients, s, id);
      LiveUpdate(s.threads, id, Gone);
    }
  }

  function Arrivals(n: nat): seq<Action> {
    if n == 0 then [] else Arrivals(n - 1) + Arrival
  }

  /** Every number of sessions up to the limit can be served at once. */
  lemma {:induction false} EveryLoadIsReachable(maxClients: int, n: nat)
    requires n <= maxClients
    ensures Reach(maxClients, Initially, Arrivals(n)) == State(n, Accepting, seq(n, i => Serving))
  {
    if n > 0 {
      EveryLoadIsReachable(maxClients, n - 1);
      ReachConcat(maxClients, Initially, Arrivals(n - 1), Arrival);
      ArrivalSteps(maxClients, State(n - 1, Accepting, seq(n - 1, i => Serving)));
      assert seq(n - 1, i => Serving) + [Serving] == seq(n, i => Serving);
    }
  }
}
