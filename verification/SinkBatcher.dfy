/** Handle and Close of errors/sink.go as sequential code over the batcher system: each
    statement is one event, taken after arbitrary activity of the worker and of all
    other calls. A call that is still waiting for the lock when the outside activity
    ends has not returned. */
module SinkBatcher {
  import opened Outcomes
  import opened ErrorBatcher

  class Batcher {
    const capacity: nat
    var sys: State
    ghost var events: seq<Event>

    ghost predicate Valid()
      reads this
    {
      sys == Execute(Init(capacity), events)
    }

    /** newSinkErrorBatcher: an empty channel and a running worker. */
    constructor (maxBatchSize: nat)
      ensures Valid() && capacity == maxBatchSize && events == []
    {
      capacity := maxBatchSize;
      sys := Init(maxBatchSize);
      events := [];
    }

    method Fire(ev: Event)
      requires Valid()
      modifies this
      ensures Valid() && events == old(events) + [ev] && sys == Step(old(sys), ev)
    {
      ghost var before := events;
      sys := Step(sys, ev);
      events := events + [ev];
      assert events[..|events| - 1] == before;
    }

    /** Any number of steps by the worker and by other calls. */
    method Others(t: Tid)
      requires Valid() && t in sys.calls
      modifies this
      ensures Valid() && old(events) <= events
      ensures t in sys.calls && sys.calls[t] == old(sys.calls[t])
    {
      var script: seq<Event> := *;
      for n := 0 to |script|
        invariant Valid() && old(events) <= events
        invariant t in sys.calls && sys.calls[t] == old(sys.calls[t])
      {
        if !script[n].By(t) {
          if script[n].OfWorker() { WorkerLeavesCalls(sys, script[n]); } else { OtherCallsUntouched(sys, script[n], t); }
          Fire(script[n]);
        }
      }
    }

    /** RLock for a Handle, Lock for a Close. A Close first claims the lock and then waits
        for the readers inside. */
    method Lock(t: Tid) returns (locked: bool)
      requires Valid() && t in sys.calls && (sys.calls[t].HandleWaiting? || sys.calls[t].CloseWaiting?)
      modifies this
      ensures Valid() && old(events) <= events && t in sys.calls
      ensures locked && old(sys.calls[t]).HandleWaiting? ==> sys.calls[t] == HandleLocked(old(sys.calls[t]).em)
      ensures locked && old(sys.calls[t]).CloseWaiting? ==> sys.calls[t] == CloseLocked
      // Not let in: another call bars it, or a reader is inside.
      ensures !locked ==> || (sys.calls[t] == old(sys.calls[t]) && !sys.Free(t))
                          || (old(sys.calls[t]).CloseWaiting? && sys.calls[t].ClosePending? && !sys.NoReader())
    {
      Others(t);
      locked := sys.Free(t);
      Fire(Event.Acquire(t));
      if !locked {
        return;
      }
      Others(t);
      if sys.calls[t].ClosePending? {
        locked := sys.NoReader();
        Fire(Event.Acquire(t));
        if locked {
          Others(t);
        }
      }
    }

    /** The `closed` check under the lock. Close sets the flag when it was clear. */
    method CheckClosed(t: Tid) returns (wasClosed: bool)
      requires Valid() && t in sys.calls && (sys.calls[t].HandleLocked? || sys.calls[t].CloseLocked?)
      modifies this
      ensures Valid() && old(events) <= events && t in sys.calls
      ensures old(sys.calls[t]).HandleLocked? ==>
                sys.calls[t] == (if wasClosed then Returned(AfterClose) else HandleSending(old(sys.calls[t]).em))
      ensures old(sys.calls[t]).CloseLocked? ==>
                sys.calls[t] == (if wasClosed then Returned(AlreadyClosed) else CloseFlagged)
      ensures wasClosed ==> sys.closed
    {
      wasClosed := sys.closed;
      Fire(Event.Proceed(t));
      if !wasClosed {
        Others(t);
      }
    }

    /** Handle's select: exactly one case is taken, and never `<-b.ctx.Done()`. */
    method Select(t: Tid) returns (r: Outcome)
      requires Valid() && t in sys.calls && sys.calls[t].HandleSending?
      modifies this
      ensures Valid() && old(events) <= events
      ensures t in sys.calls && sys.calls[t] == Returned(r)
      ensures r.Accepted? || r.Overloaded?
      ensures r.Accepted? ==> sys.accepted == old(sys.accepted) + [old(sys.calls[t]).em]
      ensures r.Overloaded? ==> sys.accepted == old(sys.accepted) && |sys.buffer| == capacity && !sys.closed
    {
      SelectNeverBlocks(capacity, events, t);
      NoPanicNoInterrupt(capacity, events, t);
      Conservation(capacity, events);
      CapacityFixed(Init(capacity), events);
      if |sys.buffer| < capacity {
        Fire(Event.Send(t));
        return Accepted;
      }
      var parked := Chance();
      if parked && sys.buffer == [] && sys.worker.Selecting? {
        Fire(Event.HandOff(t));
        return Accepted;
      }
      Fire(Event.Default(t));
      r := Overloaded;
    }

    /** Handle. `em` is None for a nil error. The result is None when the call was still
        waiting for the read lock. An accepted error is in the send history; an error is
        dropped only after Close or when the buffer was found full. */
    method Handle(t: Tid, em: Option<ErrorWithMeta>) returns (r: Option<Outcome>)
      requires Valid() && t !in sys.calls
      modifies this
      ensures Valid() && old(events) <= events
      ensures em.None? ==> r.None? && events == old(events)
      ensures em.Some? && r.None? ==> t in sys.calls && sys.calls[t] == HandleWaiting(em.value) && !sys.Free(t)
      ensures r.Some? ==> t in sys.calls && sys.calls[t] == Returned(r.value)
      ensures r.Some? ==> r.value.Accepted? || r.value.AfterClose? || r.value.Overloaded?
      ensures r == Some(Accepted) ==> sys.accepted != [] && sys.accepted[|sys.accepted| - 1] == em.value
      ensures r == Some(Overloaded) ==> |sys.buffer| == capacity && !sys.closed
      ensures r == Some(AfterClose) ==> sys.closed
    {
      if em.None? {
        return None;
      }
      Fire(Event.CallHandle(t, em.value));
      var locked := Lock(t);
      if !locked {
        return None;
      }
      var wasClosed := CheckClosed(t);
      if wasClosed {
        return Some(AfterClose);
      }
      var taken := Select(t);
      r := Some(taken);
    }

    /** b.cancel() and close(b.errors). */
    method Announce(t: Tid)
      requires Valid() && t in sys.calls && sys.calls[t] == CloseFlagged
      modifies this
      ensures Valid() && old(events) <= events
      ensures t in sys.calls && sys.calls[t] == CloseAwaiting
    {
      Fire(Event.Proceed(t));
      Others(t);
      Fire(Event.Proceed(t));
      Others(t);
    }

    /** b.cancel(), close(b.errors) and the wait; true when the wait timed out. */
    method Shutdown(t: Tid) returns (timedOut: bool)
      requires Valid() && t in sys.calls && sys.calls[t] == CloseFlagged
      modifies this
      ensures Valid() && old(events) <= events
      ensures t in sys.calls && sys.calls[t] == CloseDriver(timedOut)
    {
      Announce(t);
      timedOut := Chance();
      timedOut := timedOut || !sys.worker.Exited?; // the timer may win even when the worker is gone
      Fire(if timedOut then Event.Timeout(t) else Event.Proceed(t));
      Others(t);
    }

    /** Close. None: still waiting for the write lock. A Close that does not report a
        timeout returns with everything accepted delivered and the driver closed once. */
    method Close(t: Tid) returns (r: Option<Outcome>)
      requires Valid() && t !in sys.calls
      modifies this
      ensures Valid() && old(events) <= events
      ensures r.Some? ==> t in sys.calls && sys.calls[t] == Returned(r.value)
      ensures r.Some? ==> r.value.AlreadyClosed? || r.value.CloseReturned?
      ensures r.None? ==> && t in sys.calls
                          && ((sys.calls[t].CloseWaiting? && !sys.Free(t)) || (sys.calls[t].ClosePending? && !sys.NoReader()))
      ensures r.Some? ==> sys.closed
      ensures r == Some(CloseReturned(false)) ==> sys.delivered == sys.accepted && sys.worker.Exited? && sys.driverCloses == 1
      ensures r == Some(CloseReturned(true)) ==> sys.delivered <= sys.accepted && sys.driverCloses == 1
    {
      Fire(Event.CallClose(t));
      var locked := Lock(t);
      if !locked {
        return None;
      }
      var wasClosed := CheckClosed(t);
      if wasClosed {
        return Some(AlreadyClosed);
      }
      var timedOut := Shutdown(t);
      Fire(Event.Proceed(t));
      Settled(t);
      r := Some(CloseReturned(timedOut));
    }

    /** Facts about a Close that has just returned. */
    lemma Settled(t: Tid)
      requires Valid() && t in sys.calls && sys.calls[t].Returned? && sys.calls[t].outcome.CloseReturned?
      ensures sys.closed && sys.driverCloses == 1 && sys.delivered <= sys.accepted
      ensures !sys.calls[t].outcome.timedOut ==> sys.delivered == sys.accepted && sys.worker.Exited?
    {
      Safety(Init(capacity), events);
      Conservation(capacity, events);
      assert CallInv(sys, sys.calls[t]);
    }
  }
}
