/** How the batcher's lock makes a Handle wait, and what a timed-out Close leaves behind. */
module BatcherWaiting {
  import opened ErrorBatcher

  // ---------- Late deliveries ----------

  /** Once the driver is closed every delivery is a late one. */
  lemma {:induction false} LateCounts(st: State, events: seq<Event>)
    requires Inv(st) && st.driverCloses == 1
    ensures var st' := Execute(st, events);
            && st'.driverCloses == 1
            && st'.late - st.late == |st'.delivered| - |st.delivered|
  {
    if events != [] {
      var n := |events| - 1;
      LateCounts(st, events[..n]);
      Safety(st, events[..n]);
      Safety(st, events);
      LateStep(Execute(st, events[..n]), events[n]);
    }
  }

  lemma {:induction false} LateStep(st: State, ev: Event)
    requires st.driverCloses == 1 && Step(st, ev).driverCloses <= 1
    ensures Step(st, ev).driverCloses == 1
    ensures Step(st, ev).late - st.late == |Step(st, ev).delivered| - |st.delivered|
  {
    if ev.OfWorker() {
      WorkerDeliversLate(st, ev);
    } else {
      CallsDeliverNothing(st, ev);
    }
  }

  lemma {:induction false} WorkerDeliversLate(st: State, ev: Event)
    requires ev.OfWorker() && st.driverCloses == 1
    ensures var st' := WorkerStep(st, ev);
            st'.driverCloses == 1 && st'.late - st.late == |st'.delivered| - |st.delivered|
  {
  }

  lemma {:induction false} CallsDeliverNothing(st: State, ev: Event)
    requires !ev.OfWorker()
    ensures var st' := Step(st, ev);
            st'.late == st.late && st'.delivered == st.delivered && st'.driverCloses >= st.driverCloses
  {
    if ev.t in st.calls && (ev.Proceed? || ev.Timeout?) {
      ProceedDeliversNothing(st, ev);
    } else if ev.t in st.calls && !ev.CallHandle? && !ev.CallClose? && !ev.Acquire? {
      SelectDeliversNothing(st, ev);
    }
  }

  lemma {:induction false} ProceedDeliversNothing(st: State, ev: Event)
    requires (ev.Proceed? || ev.Timeout?) && ev.t in st.calls
    ensures var st' := ProceedStep(st, ev);
            st'.late == st.late && st'.delivered == st.delivered && st'.driverCloses >= st.driverCloses
  {
  }

  lemma {:induction false} SelectDeliversNothing(st: State, ev: Event)
    requires (ev.Send? || ev.HandOff? || ev.SeeDone? || ev.Default?) && ev.t in st.calls
    ensures var st' := SelectStep(st, ev);
            st'.late == st.late && st'.delivered == st.delivered && st'.driverCloses == st.driverCloses
  {
  }

  /** After the driver was closed a delivery to it is still possible exactly when an
      accepted error is in the worker's hands or in the buffer. */
  lemma {:induction false} LateExactly(st: State)
    requires Inv(st) && st.driverCloses == 1
    ensures (exists later :: Execute(st, later).late > st.late) <==> st.InFlight() + st.buffer != []
  {
    if later :| Execute(st, later).late > st.late {
      var st' := Execute(st, later);
      LateCounts(st, later);
      ClosedForGood(st, later);
      Safety(st, later);
      assert |st'.delivered| <= |st.accepted|;
      assert |st.accepted| == |st.delivered| + |st.InFlight() + st.buffer|;
    }
    if st.InFlight() + st.buffer != [] {
      var later := OneMoreDelivery(st);
    }
  }

  lemma {:induction false} OneMoreDelivery(st: State) returns (later: seq<Event>)
    requires Inv(st) && st.driverCloses == 1 && st.InFlight() + st.buffer != []
    ensures Execute(st, later).late > st.late
  {
    if st.worker.Handling? || st.worker.DrainHandling? {
      later := [Deliver];
      One(st, Deliver);
    } else {
      later := [Receive] + [Deliver];
      ExecuteConcat(st, [Receive], [Deliver]);
      One(st, Receive);
      One(Step(st, Receive), Deliver);
    }
  }

  /** For the states a program can be in: a Close that timed out can be followed by a late
      delivery exactly when it left something undelivered. */
  lemma {:induction false} LateAfterClose(capacity: nat, events: seq<Event>)
    requires Execute(Init(capacity), events).driverCloses == 1
    ensures var st := Execute(Init(capacity), events);
            (exists later :: Execute(Init(capacity), events + later).late > st.late) <==> st.delivered != st.accepted
  {
    var init := Init(capacity);
    var st := Execute(init, events);
    Safety(init, events);
    LateExactly(st);
    NothingLeft(st);
    if later :| Execute(init, events + later).late > st.late {
      ExecuteConcat(init, events, later);
    }
    if later :| Execute(st, later).late > st.late {
      ExecuteConcat(init, events, later);
    }
  }

  lemma {:induction false} NothingLeft(st: State)
    requires Flow(st)
    ensures st.delivered == st.accepted <==> st.InFlight() + st.buffer == []
  {
    assert st.accepted == st.delivered + (st.InFlight() + st.buffer);
  }

  /** Only a Close that timed out leaves something undelivered. */
  lemma {:induction false} LateNeedsTimeout(capacity: nat, events: seq<Event>)
    ensures var st := Execute(Init(capacity), events);
            !st.timedOut ==> st.late == 0 && (st.driverCloses == 1 ==> st.delivered == st.accepted)
  {
    Safety(Init(capacity), events);
  }

  /** The first half: one error is handed to the waiting worker. */
  lemma {:induction false} OneInHand(capacity: nat, em: ErrorWithMeta) returns (s4: State)
    ensures s4 == Step(Step(Step(Step(Init(capacity), CallHandle(0, em)), Acquire(0)), Proceed(0)), HandOff(0))
    ensures s4 == Init(capacity).(calls := map[0 := Returned(Accepted)], worker := Handling(em), accepted := [em])
  {
    var s1 := Step(Init(capacity), CallHandle(0, em));
    assert s1 == Init(capacity).(calls := map[0 := HandleWaiting(em)]);
    var s2 := Step(s1, Acquire(0));
    assert s2 == Init(capacity).(calls := map[0 := HandleLocked(em)]);
    var s3 := Step(s2, Proceed(0));
    assert s3 == Init(capacity).(calls := map[0 := HandleSending(em)]);
    s4 := Step(s3, HandOff(0));
  }

  /** The second half: a Close passes its check and cancels ... */
  lemma {:induction false} CloseClaims(st: State) returns (s2: State)
    requires st.calls == map[0 := Returned(Accepted)]
    ensures s2 == Step(Step(st, CallClose(1)), Acquire(1))
    ensures s2 == st.(calls := map[0 := Returned(Accepted), 1 := ClosePending])
  {
    var s1 := Step(st, CallClose(1));
    assert s1 == st.(calls := map[0 := Returned(Accepted), 1 := CloseWaiting]);
    assert s1.Free(1);
    s2 := Step(s1, Acquire(1));
  }

  lemma {:induction false} CloseEnters(st: State) returns (s2: State)
    requires st.calls == map[0 := Returned(Accepted), 1 := ClosePending]
    ensures s2 == Step(st, Acquire(1))
    ensures s2 == st.(calls := map[0 := Returned(Accepted), 1 := CloseLocked])
  {
    assert st.NoReader();
    s2 := Step(st, Acquire(1));
  }

  lemma {:induction false} CloseCancels(st: State) returns (s2: State)
    requires 1 in st.calls && st.calls[1] == CloseLocked && !st.closed
    ensures s2 == Step(Step(st, Proceed(1)), Proceed(1))
    ensures 1 in s2.calls && s2.calls[1] == CloseCancelled
    ensures s2.worker == st.worker && s2.driverCloses == st.driverCloses && s2.delivered == st.delivered && s2.accepted == st.accepted
  {
    s2 := Step(Step(st, Proceed(1)), Proceed(1));
  }

  /** ... then times out and closes the driver before the error is delivered. */
  lemma {:induction false} TimedOutClose(st: State) returns (s3: State)
    requires 1 in st.calls && st.calls[1] == CloseCancelled && st.worker.Handling? && st.driverCloses == 0
    requires st.delivered == [] && st.accepted != []
    ensures s3 == Step(Step(Step(st, Proceed(1)), Timeout(1)), Proceed(1))
    ensures s3.driverCloses == 1 && s3.timedOut && s3.delivered != s3.accepted
  {
    var s1 := Step(st, Proceed(1));
    var s2 := Step(s1, Timeout(1));
    s3 := Step(s2, Proceed(1));
  }

  /** And one does: for every batch size some execution closes the driver with an accepted
      error undelivered. */
  lemma {:induction false} TimeoutLeavesErrors(capacity: nat, em: ErrorWithMeta) returns (events: seq<Event>)
    ensures var st := Execute(Init(capacity), events);
            st.driverCloses == 1 && st.timedOut && st.delivered != st.accepted
  {
    var st := OneInHand(capacity, em);
    var pending := CloseClaims(st);
    var entered := CloseEnters(pending);
    var cancelled := CloseCancels(entered);
    var end := TimedOutClose(cancelled);
    events := Extend(capacity, [], CallHandle(0, em));
    events := Extend(capacity, events, Acquire(0));
    events := Extend(capacity, events, Proceed(0));
    events := Extend(capacity, events, HandOff(0));
    events := Extend(capacity, events, CallClose(1));
    events := Extend(capacity, events, Acquire(1));
    events := Extend(capacity, events, Acquire(1));
    events := Extend(capacity, events, Proceed(1));
    events := Extend(capacity, events, Proceed(1));
    events := Extend(capacity, events, Proceed(1));
    events := Extend(capacity, events, Timeout(1));
    events := Extend(capacity, events, Proceed(1));
    assert Execute(Init(capacity), events) == end;
  }

  lemma Extend(capacity: nat, events: seq<Event>, ev: Event) returns (events': seq<Event>)
    ensures Execute(Init(capacity), events') == Step(Execute(Init(capacity), events), ev)
  {
    events' := events + [ev];
    assert events'[..|events'| - 1] == events;
  }

  // ---------- Waiting for the lock ----------

  predicate LetsIn(st: State, t: Tid, em: ErrorWithMeta) {
    t in Step(st, Acquire(t)).calls && Step(st, Acquire(t)).calls[t] == HandleLocked(em)
  }

  /** In every reachable state a waiting Handle can take the read lock exactly when no
      Close stands between its claim of the write lock and its return. Otherwise it waits
      for one Close and no other call. */
  lemma {:induction false} HandleWaitsExactly(capacity: nat, events: seq<Event>, t: Tid)
    requires var st := Execute(Init(capacity), events); t in st.calls && st.calls[t].HandleWaiting?
    ensures var st := Execute(Init(capacity), events);
            && (LetsIn(st, t, st.calls[t].em) <==> forall u :: u in st.calls ==> !st.calls[u].Bars())
            && (!LetsIn(st, t, st.calls[t].em) ==>
                  exists u :: u in st.calls && st.calls[u].Bars() && forall v :: v in st.calls && st.calls[v].Bars() ==> v == u)
  {
    Safety(Init(capacity), events);
    LetsInExactly(Execute(Init(capacity), events), t);
    OneBars(Execute(Init(capacity), events).calls);
  }

  lemma {:induction false} LetsInExactly(st: State, t: Tid)
    requires t in st.calls && st.calls[t].HandleWaiting?
    ensures LetsIn(st, t, st.calls[t].em) <==> forall u :: u in st.calls ==> !st.calls[u].Bars()
  {
    assert st.Free(t) <==> forall u :: u in st.calls ==> !st.calls[u].Bars();
  }

  lemma {:induction false} OneBars(calls: map<Tid, Call>)
    requires Locks(calls)
    ensures (exists u :: u in calls && calls[u].Bars()) ==>
              exists u :: u in calls && calls[u].Bars() && forall v :: v in calls && calls[v].Bars() ==> v == u
  {
    if u :| u in calls && calls[u].Bars() {
      assert forall v :: v in calls && calls[v].Bars() ==> v == u;
    }
  }

  predicate OnlyDropped(c: Call, em: ErrorWithMeta) {
    c == HandleWaiting(em) || c == HandleLocked(em) || c == Returned(AfterClose)
  }

  /** A Handle that still waits when a Close has set the flag waits in vain: whatever
      follows, it is never accepted, and if it returns its error was dropped. */
  lemma {:induction false} WaitedInVain(st: State, t: Tid, events: seq<Event>)
    requires Inv(st) && st.closed && t in st.calls && st.calls[t].HandleWaiting?
    ensures t in Execute(st, events).calls && OnlyDropped(Execute(st, events).calls[t], st.calls[t].em)
  {
    if events != [] {
      var n := |events| - 1;
      WaitedInVain(st, t, events[..n]);
      ClosedForGood(st, events[..n]);
      DroppedStays(Execute(st, events[..n]), events[n], t, st.calls[t].em);
    }
  }

  lemma {:induction false} DroppedStays(st: State, ev: Event, t: Tid, em: ErrorWithMeta)
    requires st.closed && t in st.calls && OnlyDropped(st.calls[t], em)
    ensures t in Step(st, ev).calls && OnlyDropped(Step(st, ev).calls[t], em)
  {
    if ev.OfWorker() {
      WorkerLeavesCalls(st, ev);
    } else if ev.t != t {
      OtherCallsUntouched(st, ev, t);
    }
  }

  /** So Handle does block: here it arrives while a Close holds the lock. */
  lemma {:induction false} HandleHasToWait(capacity: nat, em: ErrorWithMeta) returns (events: seq<Event>)
    ensures var st := Execute(Init(capacity), events);
            && 0 in st.calls && st.calls[0] == HandleWaiting(em)
            && Step(st, Acquire(0)) == st
  {
    events := [CallClose(1)] + [Acquire(1)] + [CallHandle(0, em)];
    var init := Init(capacity);
    ExecuteConcat(init, [CallClose(1)] + [Acquire(1)], [CallHandle(0, em)]);
    ExecuteConcat(init, [CallClose(1)], [Acquire(1)]);
    One(init, CallClose(1));
    var s1 := Step(init, CallClose(1));
    assert s1.calls == map[1 := CloseWaiting] && s1.Free(1);
    One(s1, Acquire(1));
    var s2 := Step(s1, Acquire(1));
    assert s2.calls == map[1 := ClosePending];
    One(s2, CallHandle(0, em));
    var s3 := Step(s2, CallHandle(0, em));
    assert s3.calls[1] == ClosePending;
    assert !s3.Free(0);
  }

  /** Steps that a call which bars the others still has to take. */
  function Rank(c: Call): nat {
    match c
    case ClosePending => 6
    case CloseLocked => 5
    case CloseFlagged => 4
    case CloseCancelled => 3
    case CloseAwaiting => 2
    case CloseDriver(_) => 1
    case _ => 0
  }

  /** Steps that a call inside the read lock still has to take. */
  function Inside(calls: map<Tid, Call>): nat {
    2 * |Locked(calls)| + |Sending(calls)|
  }

  function Locked(calls: map<Tid, Call>): set<Tid> { set v | v in calls && calls[v].HandleLocked? }

  function Sending(calls: map<Tid, Call>): set<Tid> { set v | v in calls && calls[v].HandleSending? }

  /** A wait for the lock always can end: from every good state the calls that stand in the
      way can finish, after which the Handle is let in. No Close waits on a waiting Handle. */
  lemma {:induction false} HandleGetsIn(st: State, t: Tid, u: Tid) returns (more: seq<Event>)
    requires Inv(st) && t in st.calls && st.calls[t].HandleWaiting? && u in st.calls
    requires forall v :: v in st.calls && st.calls[v].Bars() ==> v == u
    ensures t in Execute(st, more).calls && Execute(st, more).calls[t] == HandleLocked(st.calls[t].em)
    decreases Rank(st.calls[u]), Inside(st.calls)
  {
    var ev := NextStep(st, t, u);
    One(st, ev);
    if ev == Acquire(t) {
      more := [ev];
    } else {
      StepKeepsInv(st, ev);
      var rest := HandleGetsIn(Step(st, ev), t, u);
      more := [ev] + rest;
      ExecuteConcat(st, [ev], rest);
    }
  }

  /** No deadlock: a Handle waiting in any reachable state can still be let in. */
  lemma {:induction false} WaitCanEnd(capacity: nat, events: seq<Event>, t: Tid) returns (more: seq<Event>)
    requires var st := Execute(Init(capacity), events); t in st.calls && st.calls[t].HandleWaiting?
    ensures var st, st' := Execute(Init(capacity), events), Execute(Init(capacity), events + more);
            t in st'.calls && st'.calls[t] == HandleLocked(st.calls[t].em)
  {
    var st := Execute(Init(capacity), events);
    Safety(Init(capacity), events);
    var u := t;
    if v :| v in st.calls && st.calls[v].Bars() {
      u := v;
    }
    more := HandleGetsIn(st, t, u);
    ExecuteConcat(Init(capacity), events, more);
  }

  /** The next step towards letting `t` in: of `t` itself, of the Close in its way, or of a
      reader that this Close waits for. */
  lemma {:induction false} NextStep(st: State, t: Tid, u: Tid) returns (ev: Event)
    requires Inv(st) && t in st.calls && st.calls[t].HandleWaiting? && u in st.calls
    requires forall v :: v in st.calls && st.calls[v].Bars() ==> v == u
    ensures var st' := Step(st, ev);
            if ev == Acquire(t) then t in st'.calls && st'.calls[t] == HandleLocked(st.calls[t].em)
            else
              && t in st'.calls && st'.calls[t] == st.calls[t] && u in st'.calls
              && (forall v :: v in st'.calls && st'.calls[v].Bars() ==> v == u)
              && (Rank(st'.calls[u]) < Rank(st.calls[u])
                  || (Rank(st'.calls[u]) == Rank(st.calls[u]) && Inside(st'.calls) < Inside(st.calls)))
  {
    var c := st.calls[u];
    if !c.Bars() {
      ev := Acquire(t);
    } else if c.ClosePending? && !st.NoReader() {
      var v :| v in st.calls && st.calls[v].Reads();
      ev := ReaderMoves(st, v);
    } else {
      ev := if c.ClosePending? then Acquire(u) else if c.CloseAwaiting? then Timeout(u) else Proceed(u);
      CloserMoves(st, u, ev);
    }
  }

  lemma {:induction false} CloserMoves(st: State, u: Tid, ev: Event)
    requires u in st.calls && st.calls[u].Bars() && (st.calls[u].ClosePending? ==> st.NoReader())
    requires var c := st.calls[u];
             ev == if c.ClosePending? then Acquire(u) else if c.CloseAwaiting? then Timeout(u) else Proceed(u)
    ensures var st' := Step(st, ev);
            u in st'.calls && st'.calls == st.calls[u := st'.calls[u]] && Rank(st'.calls[u]) < Rank(st.calls[u])
  {
  }

  /** A reader leaves the lock in two steps: the `closed` check and the select. */
  lemma {:induction false} ReaderMoves(st: State, v: Tid) returns (ev: Event)
    requires Inv(st) && v in st.calls && st.calls[v].Reads()
    ensures var st' := Step(st, ev);
            && ev != Acquire(v) && !ev.Acquire?
            && v in st'.calls && st'.calls == st.calls[v := st'.calls[v]] && !st'.calls[v].Bars()
            && Inside(st'.calls) < Inside(st.calls)
  {
    assert CallInv(st, st.calls[v]);
    var c := st.calls[v];
    ev := if c.HandleLocked? then Proceed(v) else if |st.buffer| < st.capacity then Send(v) else Default(v);
    var c' := Step(st, ev).calls[v];
    assert Step(st, ev).calls == st.calls[v := c'];
    InsideFalls(st.calls, v, c');
  }

  lemma {:induction false} InsideFalls(calls: map<Tid, Call>, v: Tid, c': Call)
    requires v in calls && !c'.HandleLocked?
    requires calls[v].HandleLocked? || (calls[v].HandleSending? && !c'.HandleSending?)
    ensures Inside(calls[v := c']) < Inside(calls)
  {
    if calls[v].HandleLocked? { LockedFalls(calls, v, c'); SendingGrows(calls, v, c'); } else { SendingFalls(calls, v, c'); }
  }

  lemma {:induction false} LockedFalls(calls: map<Tid, Call>, v: Tid, c': Call)
    requires v in calls && calls[v].HandleLocked? && !c'.HandleLocked?
    ensures |Locked(calls)| == |Locked(calls[v := c'])| + 1
  {
    assert Locked(calls) == Locked(calls[v := c']) + {v};
  }

  lemma {:induction false} SendingGrows(calls: map<Tid, Call>, v: Tid, c': Call)
    requires v in calls && calls[v].HandleLocked?
    ensures |Sending(calls[v := c'])| <= |Sending(calls)| + 1
  {
    if c'.HandleSending? {
      assert Sending(calls[v := c']) == Sending(calls) + {v};
    } else {
      assert Sending(calls[v := c']) == Sending(calls);
    }
  }

  lemma {:induction false} SendingFalls(calls: map<Tid, Call>, v: Tid, c': Call)
    requires v in calls && calls[v].HandleSending? && !c'.Reads()
    ensures Locked(calls[v := c']) == Locked(calls)
    ensures |Sending(calls)| == |Sending(calls[v := c'])| + 1
  {
    assert Locked(calls[v := c']) == Locked(calls);
    assert Sending(calls) == Sending(calls[v := c']) + {v};
  }
}
