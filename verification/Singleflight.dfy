/** `Resolver::resolve`: one leader per flight resolves, followers wait for what
    it publishes. A transition system over any number of threads, one step per
    critical section. */
module Singleflight {
  import opened Octets
  import opened Results

  type Key = Bytes
  type Tid = nat
  type FlightId = nat

  /** The packed response, or the error text. */
  datatype Resolved = Answer(bytes: Bytes) | Failed(message: Bytes)

  datatype Flight = Flight(key: Key, started: bool, state: Option<Resolved>)

  /** Where a thread stands in `resolve`. `Holding` has its flight but has not
      yet swapped `started`; `Published` has set the state but not yet removed
      the flight from the map. */
  datatype Thread =
    | Holding(key: Key, fid: FlightId)
    | Resolving(key: Key, fid: FlightId)
    | Published(key: Key, fid: FlightId, mine: Resolved)
    | Waiting(key: Key, fid: FlightId)
    | Done(key: Key, fid: FlightId, result: Resolved)

  /** `flights` keeps every flight ever made; a flight id is a shared pointer. */
  datatype State = State(inflight: map<Key, FlightId>, flights: seq<Flight>, threads: map<Tid, Thread>)

  datatype Step =
    | Enter(tid: Tid, key: Key)
    | SwapStarted(tid: Tid)
    | Publish(tid: Tid, outcome: Resolved)
    | Remove(tid: Tid)
    | Wake(tid: Tid)

  predicate Enabled(s: State, step: Step) {
    match step
    case Enter(t, _) => t !in s.threads && (step.key in s.inflight ==> s.inflight[step.key] < |s.flights|)
    case SwapStarted(t) => t in s.threads && s.threads[t].Holding? && s.threads[t].fid < |s.flights|
    case Publish(t, _) => t in s.threads && s.threads[t].Resolving? && s.threads[t].fid < |s.flights|
    case Remove(t) => t in s.threads && s.threads[t].Published?
    case Wake(t) =>
      && t in s.threads && s.threads[t].Waiting? && s.threads[t].fid < |s.flights|
      && s.flights[s.threads[t].fid].state.Some?
  }

  function Next(s: State, step: Step): State
    requires Enabled(s, step)
  {
    match step
    case Enter(t, key) =>
      if key in s.inflight then s.(threads := s.threads[t := Holding(key, s.inflight[key])])
      else
        State(s.inflight[key := |s.flights|], s.flights + [Flight(key, false, None)],
              s.threads[t := Holding(key, |s.flights|)])
    case SwapStarted(t) =>
      var th := s.threads[t];
      var f := s.flights[th.fid];
      State(s.inflight, s.flights[th.fid := f.(started := true)],
            s.threads[t := if f.started then Waiting(th.key, th.fid) else Resolving(th.key, th.fid)])
    case Publish(t, outcome) =>
      var th := s.threads[t];
      State(s.inflight, s.flights[th.fid := s.flights[th.fid].(state := Some(outcome))],
            s.threads[t := Published(th.key, th.fid, outcome)])
    case Remove(t) =>
      // Removal is by key, whatever flight stands under it.
      var th := s.threads[t];
      State(s.inflight - {th.key}, s.flights, s.threads[t := Done(th.key, th.fid, th.mine)])
    case Wake(t) =>
      var th := s.threads[t];
      s.(threads := s.threads[t := Done(th.key, th.fid, s.flights[th.fid].state.value)])
  }

  const INITIAL: State := State(map[], [], map[])

  ghost predicate Reachable(s: State) {
    exists n: nat :: ReachableIn(s, n)
  }

  ghost predicate ReachableIn(s: State, n: nat)
    decreases n
  {
    if n == 0 then s == INITIAL
    else exists p: State, step: Step :: ReachableIn(p, n - 1) && Enabled(p, step) && s == Next(p, step)
  }

  // ---- the invariant -------------------------------------------------------

  /** The thread took the lead of its flight and has not left the map yet. */
  predicate Leads(th: Thread) {
    th.Resolving? || th.Published?
  }

  predicate ThreadOk(s: State, t: Tid)
    requires t in s.threads
  {
    var th := s.threads[t];
    && th.fid < |s.flights|
    && s.flights[th.fid].key == th.key
    && (th.Resolving? || th.Waiting? ==> s.flights[th.fid].started)
    && (th.Resolving? ==> s.flights[th.fid].state.None?)
    && (th.Published? ==> s.flights[th.fid].state == Some(th.mine))
    && (th.Done? ==> s.flights[th.fid].state == Some(th.result))
    && (Leads(th) ==> th.key in s.inflight && s.inflight[th.key] == th.fid)
  }

  predicate LeadsFlight(s: State, t: Tid, fid: FlightId) {
    t in s.threads && Leads(s.threads[t]) && s.threads[t].fid == fid
  }

  ghost predicate Inv(s: State) {
    && (forall t :: t in s.threads ==> ThreadOk(s, t))
    && (forall k :: k in s.inflight ==> s.inflight[k] < |s.flights| && s.flights[s.inflight[k]].key == k)
    && (forall t, u, fid :: LeadsFlight(s, t, fid) && LeadsFlight(s, u, fid) ==> t == u)
    && (forall fid :: 0 <= fid < |s.flights| ==> FlightOk(s, fid))
  }

  /** A flight nobody has started is still in the map; a started one is being
      led, or has been published. */
  ghost predicate FlightOk(s: State, fid: FlightId)
    requires fid < |s.flights|
  {
    var f := s.flights[fid];
    && (f.state.Some? ==> f.started)
    && (!f.started ==> f.key in s.inflight && s.inflight[f.key] == fid)
    && (f.started && f.state.None? ==> exists t :: LeadsFlight(s, t, fid) && s.threads[t].Resolving?)
  }

  lemma InitialInv()
    ensures Inv(INITIAL)
  {
  }

  lemma EnterKeepsInv(s: State, t: Tid, key: Key)
    requires Inv(s) && Enabled(s, Enter(t, key))
    ensures Inv(Next(s, Enter(t, key)))
  {
    var s' := Next(s, Enter(t, key));
    forall u | u in s'.threads ensures ThreadOk(s', u) {
      if u != t {
        assert ThreadOk(s, u);
      }
    }
    forall fid | 0 <= fid < |s'.flights| ensures FlightOk(s', fid) {
      if fid < |s.flights| {
        assert FlightOk(s, fid);
        if s.flights[fid].started && s.flights[fid].state.None? {
          var u :| LeadsFlight(s, u, fid) && s.threads[u].Resolving?;
          assert LeadsFlight(s', u, fid);
        }
      }
    }
    forall u, v, fid | LeadsFlight(s', u, fid) && LeadsFlight(s', v, fid) ensures u == v {
      assert LeadsFlight(s, u, fid) && LeadsFlight(s, v, fid);
    }
  }

  lemma SwapKeepsInv(s: State, t: Tid)
    requires Inv(s) && Enabled(s, SwapStarted(t))
    ensures Inv(Next(s, SwapStarted(t)))
  {
    var s' := Next(s, SwapStarted(t));
    var mine := s.threads[t].fid;
    assert ThreadOk(s, t) && FlightOk(s, mine);
    forall u | LeadsFlight(s, u, mine) ensures s.flights[mine].started {
      assert ThreadOk(s, u);
    }
    forall u | u in s'.threads ensures ThreadOk(s', u) {
      assert ThreadOk(s, u);
    }
    forall fid | 0 <= fid < |s'.flights| ensures FlightOk(s', fid) {
      assert FlightOk(s, fid);
      if s.flights[fid].started && s.flights[fid].state.None? {
        var u :| LeadsFlight(s, u, fid) && s.threads[u].Resolving?;
        assert LeadsFlight(s', u, fid) && s'.threads[u].Resolving?;
      } else if fid == mine && !s.flights[fid].started {
        assert LeadsFlight(s', t, fid) && s'.threads[t].Resolving?;
      }
    }
    forall u, v, fid | LeadsFlight(s', u, fid) && LeadsFlight(s', v, fid) ensures u == v {
      if u != t {
        assert LeadsFlight(s, u, fid);
      }
      if v != t {
        assert LeadsFlight(s, v, fid);
      }
    }
  }

  lemma PublishKeepsInv(s: State, t: Tid, outcome: Resolved)
    requires Inv(s) && Enabled(s, Publish(t, outcome))
    ensures Inv(Next(s, Publish(t, outcome)))
  {
    var s' := Next(s, Publish(t, outcome));
    var mine := s.threads[t].fid;
    assert ThreadOk(s, t) && LeadsFlight(s, t, mine);
    forall u | u in s'.threads ensures ThreadOk(s', u) {
      assert ThreadOk(s, u);
      if u != t && s.threads[u].fid == mine && Leads(s.threads[u]) {
        assert LeadsFlight(s, u, mine);
      }
    }
    forall fid | 0 <= fid < |s'.flights| ensures FlightOk(s', fid) {
      assert FlightOk(s, fid);
      if fid != mine && s.flights[fid].started && s.flights[fid].state.None? {
        var u :| LeadsFlight(s, u, fid) && s.threads[u].Resolving?;
        assert LeadsFlight(s', u, fid) && s'.threads[u].Resolving?;
      }
    }
    forall u, v, fid | LeadsFlight(s', u, fid) && LeadsFlight(s', v, fid) ensures u == v {
      assert LeadsFlight(s, u, fid) && LeadsFlight(s, v, fid);
    }
  }

  lemma RemoveKeepsInv(s: State, t: Tid)
    requires Inv(s) && Enabled(s, Remove(t))
    ensures Inv(Next(s, Remove(t)))
  {
    var s' := Next(s, Remove(t));
    var mine := s.threads[t].fid;
    assert ThreadOk(s, t) && LeadsFlight(s, t, mine);
    forall u | u in s'.threads ensures ThreadOk(s', u) {
      assert ThreadOk(s, u);
      if u != t && Leads(s.threads[u]) && s.threads[u].key == s.threads[t].key {
        assert LeadsFlight(s, u, mine);
      }
    }
    forall fid | 0 <= fid < |s'.flights| ensures FlightOk(s', fid) {
      assert FlightOk(s, fid);
      if s.flights[fid].started && s.flights[fid].state.None? {
        var u :| LeadsFlight(s, u, fid) && s.threads[u].Resolving?;
        assert LeadsFlight(s', u, fid) && s'.threads[u].Resolving?;
      }
    }
    forall u, v, fid | LeadsFlight(s', u, fid) && LeadsFlight(s', v, fid) ensures u == v {
      assert LeadsFlight(s, u, fid) && LeadsFlight(s, v, fid);
    }
  }

  lemma WakeKeepsInv(s: State, t: Tid)
    requires Inv(s) && Enabled(s, Wake(t))
    ensures Inv(Next(s, Wake(t)))
  {
    var s' := Next(s, Wake(t));
    forall u | u in s'.threads ensures ThreadOk(s', u) {
      assert ThreadOk(s, u);
    }
    forall fid | 0 <= fid < |s'.flights| ensures FlightOk(s', fid) {
      assert FlightOk(s, fid);
      if s.flights[fid].started && s.flights[fid].state.None? {
        var u :| LeadsFlight(s, u, fid) && s.threads[u].Resolving?;
        assert LeadsFlight(s', u, fid) && s'.threads[u].Resolving?;
      }
    }
    forall u, v, fid | LeadsFlight(s', u, fid) && LeadsFlight(s', v, fid) ensures u == v {
      assert LeadsFlight(s, u, fid) && LeadsFlight(s, v, fid);
    }
  }

  lemma StepKeepsInv(s: State, step: Step)
    requires Inv(s) && Enabled(s, step)
    ensures Inv(Next(s, step))
  {
    hide Inv, Next, Enabled;
    match step
    case Enter(t, key) => EnterKeepsInv(s, t, key);
    case SwapStarted(t) => SwapKeepsInv(s, t);
    case Publish(t, outcome) => PublishKeepsInv(s, t, outcome);
    case Remove(t) => RemoveKeepsInv(s, t);
    case Wake(t) => WakeKeepsInv(s, t);
  }

  lemma {:induction false} ReachableInInv(s: State, n: nat)
    requires ReachableIn(s, n)
    ensures Inv(s)
    decreases n
  {
    hide Inv, Next;
    if n == 0 {
      InitialInv();
    } else {
      var p: State, step: Step :| ReachableIn(p, n - 1) && Enabled(p, step) && s == Next(p, step);
      ReachableInInv(p, n - 1);
      StepKeepsInv(p, step);
    }
  }

  lemma ReachableInv(s: State)
    requires Reachable(s)
    ensures Inv(s)
  {
    var n: nat :| ReachableIn(s, n);
    ReachableInInv(s, n);
  }

  // ---- what callers rely on ------------------------------------------------

  /** At most one resolution per key runs at a time. */
  lemma OneResolutionPerKey(s: State, t: Tid, u: Tid)
    requires Reachable(s) && t in s.threads && u in s.threads
    requires s.threads[t].Resolving? && s.threads[u].Resolving? && s.threads[t].key == s.threads[u].key
    ensures t == u
  {
    ReachableInv(s);
    assert ThreadOk(s, t) && ThreadOk(s, u);
    assert LeadsFlight(s, t, s.threads[t].fid) && LeadsFlight(s, u, s.threads[t].fid);
  }

  /** A leader removes its own flight, never another's, and only once the result
      is published in it. */
  lemma LeaderRemovesOwnFlight(s: State, t: Tid)
    requires Reachable(s) && Enabled(s, Remove(t))
    ensures var th := s.threads[t];
      && th.key in s.inflight && s.inflight[th.key] == th.fid
      && th.fid < |s.flights| && s.flights[th.fid].state == Some(th.mine)
      && var s' := Next(s, Remove(t));
         && th.key !in s'.inflight && (forall fid :: !LeadsFlight(s', t, fid))
         && forall k :: k in s.inflight && k != th.key ==> k in s'.inflight && s'.inflight[k] == s.inflight[k]
  {
    ReachableInv(s);
    assert ThreadOk(s, t);
  }

  /** Every finished thread returns the result published in the flight it
      obtained, which is a flight for the very key it asked for. */
  lemma ReturnsItsFlightsResult(s: State, t: Tid)
    requires Reachable(s) && t in s.threads && s.threads[t].Done?
    ensures var th := s.threads[t];
      && th.fid < |s.flights| && s.flights[th.fid].key == th.key && s.flights[th.fid].state == Some(th.result)
  {
    ReachableInv(s);
    assert ThreadOk(s, t);
  }

  /** So two threads of one flight return the same result. */
  lemma SameFlightSameResult(s: State, t: Tid, u: Tid)
    requires Reachable(s) && t in s.threads && u in s.threads && s.threads[t].Done? && s.threads[u].Done?
    requires s.threads[t].fid == s.threads[u].fid
    ensures s.threads[t].result == s.threads[u].result && s.threads[t].key == s.threads[u].key
  {
    ReturnsItsFlightsResult(s, t);
    ReturnsItsFlightsResult(s, u);
  }

  /** No thread waits for a leader that is gone: it can wake, or some thread is
      resolving its flight and can publish. */
  lemma NoLostWaiter(s: State, t: Tid, outcome: Resolved) returns (leader: Tid)
    requires Reachable(s) && t in s.threads && s.threads[t].Waiting?
    ensures Enabled(s, Wake(t)) ||
      (Enabled(s, Publish(leader, outcome)) && s.threads[leader].fid == s.threads[t].fid)
  {
    ReachableInv(s);
    assert ThreadOk(s, t);
    var fid := s.threads[t].fid;
    assert FlightOk(s, fid);
    leader := t;
    if s.flights[fid].state.None? {
      leader :| LeadsFlight(s, leader, fid) && s.threads[leader].Resolving?;
    }
  }

  /** A published result is never replaced, so late followers agree with early
      ones. */
  lemma PublishedOnce(s: State, step: Step, fid: FlightId)
    requires Reachable(s) && Enabled(s, step) && fid < |s.flights| && s.flights[fid].state.Some?
    ensures fid < |Next(s, step).flights| && Next(s, step).flights[fid].state == s.flights[fid].state
    ensures s.flights[fid].started && Next(s, step).flights[fid].key == s.flights[fid].key
  {
    ReachableInv(s);
    assert FlightOk(s, fid);
    if step.Publish? {
      assert ThreadOk(s, step.tid);
    }
  }

  /** Each flight has one leader for all time: once it is started, no thread
      that is not leading it ever comes to lead it. */
  lemma NoSecondLeader(s: State, step: Step, fid: FlightId, t: Tid)
    requires Reachable(s) && Enabled(s, step) && fid < |s.flights| && s.flights[fid].started
    requires !LeadsFlight(s, t, fid)
    ensures !LeadsFlight(Next(s, step), t, fid) && Next(s, step).flights[fid].started
  {
    ReachableInv(s);
  }

  // ---- the map holds only live flights -------------------------------------

  /** A thread that will take the lead of an unstarted flight if it swaps first, or
      that leads the flight now. */
  predicate Carries(s: State, t: Tid, fid: FlightId) {
    && t in s.threads && s.threads[t].fid == fid && fid < |s.flights|
    && (Leads(s.threads[t]) || (s.threads[t].Holding? && !s.flights[fid].started))
  }

  ghost predicate Live(s: State, fid: FlightId) {
    exists t :: Carries(s, t, fid)
  }

  ghost predicate MapLive(s: State) {
    forall k :: k in s.inflight ==> Live(s, s.inflight[k])
  }

  lemma StaysLive(s: State, step: Step, fid: FlightId)
    requires Inv(s) && Enabled(s, step) && Live(s, fid) && step.tid in s.threads
    requires !(step.Remove? && s.threads[step.tid].fid == fid)
    ensures Live(Next(s, step), fid)
  {
    var u :| Carries(s, u, fid);
    var t, s' := step.tid, Next(s, step);
    assert ThreadOk(s, u) && ThreadOk(s, t);
    if step.SwapStarted? && s.threads[t].fid == fid && !s.flights[fid].started {
      assert Carries(s', t, fid);
    } else {
      assert Carries(s', u, fid);
    }
  }

  lemma StepKeepsMapLive(s: State, step: Step)
    requires Inv(s) && MapLive(s) && Enabled(s, step)
    ensures MapLive(Next(s, step))
  {
    hide Inv, Live;
    var s' := Next(s, step);
    forall k | k in s'.inflight ensures Live(s', s'.inflight[k]) {
      if step.Enter? {
        EnterKeepsLive(s, step.tid, step.key, k);
      } else {
        KeyOfFlight(s, step.tid);
        StaysLive(s, step, s.inflight[k]);
      }
    }
  }

  /** A flight stands under its own key only. */
  lemma KeyOfFlight(s: State, t: Tid)
    requires Inv(s) && t in s.threads
    ensures forall k :: k in s.inflight && s.inflight[k] == s.threads[t].fid ==> k == s.threads[t].key
  {
    assert ThreadOk(s, t);
  }

  lemma EnterKeepsLive(s: State, t: Tid, key: Key, k: Key)
    requires Inv(s) && MapLive(s) && Enabled(s, Enter(t, key)) && k in Next(s, Enter(t, key)).inflight
    ensures Live(Next(s, Enter(t, key)), Next(s, Enter(t, key)).inflight[k])
  {
    var s' := Next(s, Enter(t, key));
    if k in s.inflight {
      var u :| Carries(s, u, s.inflight[k]);
      assert ThreadOk(s, u);
      assert Carries(s', u, s.inflight[k]);
    } else {
      assert Carries(s', t, |s.flights|);
    }
  }

  lemma {:induction false} ReachableInMapLive(s: State, n: nat)
    requires ReachableIn(s, n)
    ensures MapLive(s)
    decreases n
  {
    hide Inv, Next, MapLive;
    if n == 0 {
      NothingLive();
    } else {
      var p: State, step: Step :| ReachableIn(p, n - 1) && Enabled(p, step) && s == Next(p, step);
      ReachableInInv(p, n - 1);
      ReachableInMapLive(p, n - 1);
      StepKeepsMapLive(p, step);
    }
  }

  lemma NothingLive()
    ensures MapLive(INITIAL)
  {
  }

  /** A key is in the map only while some thread is about to lead its flight or
      leads it: unstarted, with a thread that has not swapped yet; being resolved;
      or published by a thread that has still to remove it. */
  lemma MapHoldsLiveFlights(s: State, k: Key) returns (t: Tid)
    requires Reachable(s) && k in s.inflight
    ensures t in s.threads && s.threads[t].key == k && s.threads[t].fid == s.inflight[k] < |s.flights|
    ensures var f := s.flights[s.inflight[k]];
      && f.key == k
      && (!f.started ==> s.threads[t].Holding?)
      && (f.started && f.state.None? ==> s.threads[t].Resolving?)
      && (f.state.Some? ==> s.threads[t] == Published(k, s.inflight[k], f.state.value))
  {
    ReachableInv(s);
    var n: nat :| ReachableIn(s, n);
    ReachableInMapLive(s, n);
    assert Live(s, s.inflight[k]);
    t :| Carries(s, t, s.inflight[k]);
    assert ThreadOk(s, t) && FlightOk(s, s.inflight[k]);
    if !s.flights[s.inflight[k]].started {
      NotLedYet(s, t);
    }
  }

  /** Nobody leads a flight that has not started. */
  lemma NotLedYet(s: State, t: Tid)
    requires Inv(s) && t in s.threads && s.threads[t].fid < |s.flights| && !s.flights[s.threads[t].fid].started
    ensures !Leads(s.threads[t])
  {
    assert ThreadOk(s, t) && FlightOk(s, s.threads[t].fid);
  }

  /** Once a flight is published and its leader has gone, the flight is out of the
      map: a thread that enters for its key gets another flight. If no other thread
      has come in between, that is a flight no thread had before, and the thread
      resolves if it swaps first. */
  lemma PublishedFlightLeaves(s: State, fid: FlightId, u: Tid)
    requires Reachable(s) && fid < |s.flights| && s.flights[fid].state.Some? && u !in s.threads
    requires !exists t :: LeadsFlight(s, t, fid)
    ensures var k := s.flights[fid].key;
      && (k in s.inflight ==> s.inflight[k] != fid)
      && Enabled(s, Enter(u, k))
      && var s' := Next(s, Enter(u, k));
         && s'.threads[u].Holding? && s'.threads[u].key == k && s'.threads[u].fid != fid
         && (k !in s.inflight ==>
               && (forall t :: t in s.threads ==> s.threads[t].fid != s'.threads[u].fid)
               && Enabled(s', SwapStarted(u)) && Next(s', SwapStarted(u)).threads[u].Resolving?)
  {
    var k := s.flights[fid].key;
    ReachableInv(s);
    if k in s.inflight {
      var t := MapHoldsLiveFlights(s, k);
      assert s.inflight[k] == fid ==> LeadsFlight(s, t, fid);
    }
    forall t | t in s.threads ensures s.threads[t].fid < |s.flights| {
      assert ThreadOk(s, t);
    }
  }

  /** When every thread is done the map is empty. */
  lemma AllDoneMapEmpty(s: State)
    requires Reachable(s) && forall t :: t in s.threads ==> s.threads[t].Done?
    ensures s.inflight == map[]
  {
    if k :| k in s.inflight {
      var t := MapHoldsLiveFlights(s, k);
      assert false;
    }
  }

  /** When every thread that asked for a key is done, the key is not in the map, so
      the next request for it resolves afresh. */
  lemma AllDoneKeyFree(s: State, k: Key, u: Tid)
    requires Reachable(s) && u !in s.threads
    requires forall t :: t in s.threads && s.threads[t].key == k ==> s.threads[t].Done?
    ensures k !in s.inflight
    ensures Enabled(s, Enter(u, k))
    ensures var s' := Next(s, Enter(u, k));
      && s'.threads[u] == Holding(k, |s.flights|)
      && Enabled(s', SwapStarted(u)) && Next(s', SwapStarted(u)).threads[u] == Resolving(k, |s.flights|)
      && forall t :: t in s.threads ==> s.threads[t].fid < |s.flights|
  {
    if k in s.inflight {
      var t := MapHoldsLiveFlights(s, k);
      assert false;
    }
    ReachableInv(s);
    forall t | t in s.threads ensures s.threads[t].fid < |s.flights| {
      assert ThreadOk(s, t);
    }
  }

  // ---- every thread finishes -----------------------------------------------

  function Rank(th: Thread): nat {
    match th
    case Holding(_, _) => 3
    case Resolving(_, _) => 2
    case Published(_, _, _) => 1
    case Waiting(_, _) => 1
    case Done(_, _, _) => 0
  }

  ghost function TotalRank(m: map<Tid, Thread>): nat {
    if m == map[] then 0 else var t :| t in m; Rank(m[t]) + TotalRank(m - {t})
  }

  lemma {:induction false} TotalRankSplit(m: map<Tid, Thread>, t: Tid)
    requires t in m
    ensures TotalRank(m) == Rank(m[t]) + TotalRank(m - {t})
    decreases |m|
  {
    var u :| u in m && TotalRank(m) == Rank(m[u]) + TotalRank(m - {u});
    if u == t {
    } else {
      TotalRankSplit(m - {u}, t);
      TotalRankSplit(m - {t}, u);
      assert m - {u} - {t} == m - {t} - {u};
    }
  }

  lemma StepLowersRank(s: State, step: Step)
    requires Enabled(s, step) && !step.Enter?
    ensures TotalRank(Next(s, step).threads) < TotalRank(s.threads)
  {
    var s' := Next(s, step);
    var t := step.tid;
    TotalRankSplit(s.threads, t);
    TotalRankSplit(s'.threads, t);
    assert s'.threads - {t} == s.threads - {t};
  }

  /** The protocol never deadlocks: while any thread is unfinished, some step
      other than a new arrival can be taken; and every such step brings the end
      closer, so without new arrivals all threads return. */
  lemma Progress(s: State, t: Tid, outcome: Resolved) returns (step: Step)
    requires Reachable(s) && t in s.threads && !s.threads[t].Done?
    ensures Enabled(s, step) && !step.Enter?
    ensures TotalRank(Next(s, step).threads) < TotalRank(s.threads)
  {
    hide TotalRank;
    ReachableInv(s);
    assert ThreadOk(s, t);
    match s.threads[t] {
      case Holding(_, _) => step := SwapStarted(t);
      case Resolving(_, _) => step := Publish(t, outcome);
      case Published(_, _, _) => step := Remove(t);
      case Waiting(_, _) =>
        var leader := NoLostWaiter(s, t, outcome);
        step := if Enabled(s, Wake(t)) then Wake(t) else Publish(leader, outcome);
    }
    StepLowersRank(s, step);
  }
}
