/** The bounded asynchronous error batcher (errors/sink.go): any number of Handle and
    Close calls and one worker, as a function on states driven by events. */
module ErrorBatcher {

  type Tid = nat

  datatype ErrorWithMeta = ErrorWithMeta(err: string, meta: string)

  datatype Worker =
    | Selecting
    | Handling(em: ErrorWithMeta)
    | Draining
    | DrainHandling(em: ErrorWithMeta)
    | Exited

  /** How a call ended. `Interrupted` is the `<-b.ctx.Done()` case of Handle's select. */
  datatype Outcome = Accepted | Overloaded | AfterClose | Interrupted | CloseReturned(timedOut: bool) | AlreadyClosed

  /** Where a call stands. HandleLocked and HandleSending hold the read lock. ClosePending
      has claimed the write lock, which keeps new readers out, and waits for the readers
      inside; the stages from CloseLocked to CloseDriver hold it. */
  datatype Call =
    | HandleWaiting(em: ErrorWithMeta)
    | HandleLocked(em: ErrorWithMeta)
    | HandleSending(em: ErrorWithMeta)
    | CloseWaiting
    | ClosePending
    | CloseLocked
    | CloseFlagged
    | CloseCancelled
    | CloseAwaiting
    | CloseDriver(timedOut: bool)
    | Returned(outcome: Outcome)
  {
    predicate Reads() { HandleLocked? || HandleSending? }

    predicate Writes() { CloseLocked? || Closing() }

    /** Keeps every other call from taking the lock. */
    predicate Bars() { ClosePending? || Writes() }

    /** Past the `closed` check of Close. */
    predicate Closing() { CloseFlagged? || CloseCancelled? || CloseAwaiting? || CloseDriver? }
  }

  /** `accepted` and `delivered` are the whole histories of sends and of handler calls;
      `late` counts handler calls made after the driver was closed. */
  datatype State = State(
    capacity: nat,
    calls: map<Tid, Call>,
    closed: bool,
    cancelled: bool,
    chanClosed: bool,
    buffer: seq<ErrorWithMeta>,
    worker: Worker,
    accepted: seq<ErrorWithMeta>,
    delivered: seq<ErrorWithMeta>,
    driverCloses: nat,
    timedOut: bool,
    late: nat,
    panicked: bool)
  {
    function InFlight(): seq<ErrorWithMeta> {
      if worker.Handling? || worker.DrainHandling? then [worker.em] else []
    }

    predicate Free(t: Tid) { t in calls && forall u :: u in calls && calls[u].Bars() ==> u == t }

    predicate NoReader() { forall u :: u in calls ==> !calls[u].Reads() }

    function Set(t: Tid, c: Call): State { this.(calls := calls[t := c]) }
  }

  datatype Event =
    | CallHandle(t: Tid, em: ErrorWithMeta)
    | CallClose(t: Tid)
    | Acquire(t: Tid)
    | Proceed(t: Tid)
    | Timeout(t: Tid)
    | Send(t: Tid)
    | HandOff(t: Tid)
    | SeeDone(t: Tid)
    | Default(t: Tid)
    | Receive
    | NoticeCancel
    | DrainDefault
    | Deliver
  {
    predicate OfWorker() { Receive? || NoticeCancel? || DrainDefault? || Deliver? }

    /** A step of the call `t` itself. */
    predicate By(t: Tid) { !OfWorker() && this.t == t }
  }

  function Init(capacity: nat): State {
    State(capacity, map[], false, false, false, [], Selecting, [], [], 0, false, 0, false)
  }

  /** One atomic step. An event that is not enabled leaves the state alone. */
  function Step(st: State, ev: Event): State {
    if ev.OfWorker() then WorkerStep(st, ev)
    else if ev.CallHandle? then (if ev.t in st.calls then st else st.Set(ev.t, HandleWaiting(ev.em)))
    else if ev.CallClose? then (if ev.t in st.calls then st else st.Set(ev.t, CloseWaiting))
    else if ev.t !in st.calls then st
    else if ev.Acquire? then AcquireStep(st, ev.t)
    else if ev.Proceed? || ev.Timeout? then ProceedStep(st, ev)
    else SelectStep(st, ev)
  }

  function AcquireStep(st: State, t: Tid): State
    requires t in st.calls
  {
    var c := st.calls[t];
    if c.HandleWaiting? && st.Free(t) then st.Set(t, HandleLocked(c.em))
    else if c.CloseWaiting? && st.Free(t) then st.Set(t, ClosePending)
    else if c.ClosePending? && st.NoReader() then st.Set(t, CloseLocked)
    else st
  }

  /** The next stage of a call that is past its wait for the lock. */
  function NextStage(st: State, c: Call): Call {
    match c
    case HandleLocked(em) => if st.closed then Returned(AfterClose) else HandleSending(em)
    case CloseLocked => if st.closed then Returned(AlreadyClosed) else CloseFlagged
    case CloseFlagged => CloseCancelled
    case CloseCancelled => CloseAwaiting
    case CloseAwaiting => if st.worker.Exited? then CloseDriver(false) else c
    case CloseDriver(timedOut) => Returned(CloseReturned(timedOut))
    case _ => c
  }

  /** The statements of a Close between these stages: the flag, cancel, close of the
      channel, close of the driver. */
  function ProceedStep(st: State, ev: Event): State
    requires (ev.Proceed? || ev.Timeout?) && ev.t in st.calls
  {
    var c := st.calls[ev.t];
    if ev.Timeout? then
      if c.CloseAwaiting? then st.Set(ev.t, CloseDriver(true)).(timedOut := true) else st
    else
      st.Set(ev.t, NextStage(st, c)).(
        closed := st.closed || c.CloseLocked?,
        cancelled := st.cancelled || c.CloseFlagged?,
        chanClosed := st.chanClosed || c.CloseCancelled?,
        panicked := st.panicked || (c.CloseCancelled? && st.chanClosed),
        driverCloses := st.driverCloses + if c.CloseDriver? then 1 else 0)
  }

  /** Handle's select. A send is ready when the buffer has room, when the worker is
      parked on an empty channel, or (fatally) when the channel is closed. */
  function SelectStep(st: State, ev: Event): State
    requires (ev.Send? || ev.HandOff? || ev.SeeDone? || ev.Default?) && ev.t in st.calls
  {
    var t := ev.t;
    var c := st.calls[t];
    if !c.HandleSending? then st
    else match ev
      case Send(_) =>
        if st.chanClosed then st.(panicked := true)
        else if |st.buffer| < st.capacity then
          st.Set(t, Returned(Accepted)).(buffer := st.buffer + [c.em], accepted := st.accepted + [c.em])
        else st
      case HandOff(_) =>
        if !st.chanClosed && st.buffer == [] && st.worker.Selecting? then
          st.Set(t, Returned(Accepted)).(worker := Handling(c.em), accepted := st.accepted + [c.em])
        else st
      case SeeDone(_) => if st.cancelled then st.Set(t, Returned(Interrupted)) else st
      case Default(_) =>
        if |st.buffer| >= st.capacity && !st.cancelled && !st.chanClosed then st.Set(t, Returned(Overloaded)) else st
  }

  function WorkerStep(st: State, ev: Event): State
    requires ev.OfWorker()
  {
    match ev
    case Receive =>
      if !st.worker.Selecting? && !st.worker.Draining? then st
      else if st.buffer != [] then
        var em := st.buffer[0];
        st.(buffer := st.buffer[1..], worker := if st.worker.Selecting? then Handling(em) else DrainHandling(em))
      else if st.chanClosed then st.(worker := Exited)
      else st
    case NoticeCancel => if st.worker.Selecting? && st.cancelled then st.(worker := Draining) else st
    case DrainDefault =>
      if st.worker.Draining? && st.buffer == [] && !st.chanClosed then st.(worker := Exited) else st
    case Deliver =>
      if st.worker.Handling? || st.worker.DrainHandling? then
        st.(delivered := st.delivered + [st.worker.em],
            late := st.late + (if st.driverCloses > 0 then 1 else 0),
            worker := if st.worker.Handling? then Selecting else Draining)
      else st
  }

  function Execute(st: State, events: seq<Event>): State {
    if events == [] then st else Step(Execute(st, events[..|events| - 1]), events[|events| - 1])
  }

  // ---------- The invariant ----------

  ghost predicate Locks(calls: map<Tid, Call>) {
    && (forall t, u :: t in calls && u in calls && calls[t].Bars() && calls[u].Bars() ==> t == u)
    && (forall t, u :: t in calls && u in calls && calls[t].Writes() ==> !calls[u].Reads())
  }

  ghost predicate CallInv(st: State, c: Call) {
    match c
    case HandleSending(_) => !st.closed
    case CloseFlagged => st.closed && !st.cancelled && st.driverCloses == 0
    case CloseCancelled => st.cancelled && !st.chanClosed && st.driverCloses == 0
    case CloseAwaiting => st.chanClosed && st.driverCloses == 0 && !st.timedOut
    case CloseDriver(timedOut) =>
      st.chanClosed && st.driverCloses == 0 && timedOut == st.timedOut && (!timedOut ==> st.worker.Exited?)
    case Returned(outcome) =>
      && outcome != Interrupted
      && (outcome.CloseReturned? ==> st.driverCloses == 1 && outcome.timedOut == st.timedOut)
      && (outcome.AlreadyClosed? || outcome.AfterClose? ==> st.closed)
    case _ => true
  }

  ghost predicate Flags(st: State) {
    && (st.chanClosed ==> st.cancelled)
    && (st.cancelled ==> st.closed)
    && st.driverCloses <= 1
    && (st.driverCloses == 1 ==> st.chanClosed && (!st.timedOut ==> st.worker.Exited?))
    && (st.timedOut ==> st.chanClosed)
    && (st.late > 0 ==> st.timedOut)
    && !st.panicked
  }

  ghost predicate Flow(st: State) {
    && st.accepted == st.delivered + st.InFlight() + st.buffer
    && |st.buffer| <= st.capacity
    && (st.worker.Draining? || st.worker.DrainHandling? ==> st.cancelled)
    && (st.worker.Exited? ==> st.cancelled && st.buffer == [])
  }

  ghost predicate Inv(st: State) {
    && Locks(st.calls)
    && Flags(st)
    && Flow(st)
    && (forall t :: t in st.calls ==> CallInv(st, st.calls[t]))
  }

  lemma {:induction false} WorkerKeeps(st: State, ev: Event)
    requires Inv(st) && ev.OfWorker()
    ensures Inv(Step(st, ev))
  {
    var st' := WorkerStep(st, ev);
    WorkerKeepsFlow(st, ev);
    forall t | t in st'.calls
      ensures CallInv(st', st'.calls[t])
    {
      assert CallInv(st, st.calls[t]);
    }
  }

  lemma {:induction false} WorkerKeepsFlow(st: State, ev: Event)
    requires Flow(st) && ev.OfWorker()
    requires st.driverCloses == 1 && !st.timedOut ==> st.worker.Exited?
    requires st.chanClosed ==> st.cancelled
    ensures Flow(WorkerStep(st, ev))
  {
    if ev.Receive? && st.buffer != [] {
      assert st.buffer == [st.buffer[0]] + st.buffer[1..];
    }
  }

  lemma {:induction false} SelectKeeps(st: State, ev: Event)
    requires Inv(st) && !ev.OfWorker() && (ev.Send? || ev.HandOff? || ev.SeeDone? || ev.Default?)
    ensures Inv(Step(st, ev))
  {
    if ev.t in st.calls && st.calls[ev.t].HandleSending? {
      var st' := SelectStep(st, ev);
      assert CallInv(st, st.calls[ev.t]);
      SelectKeepsFlow(st, ev);
      LocksKeep(st.calls, ev.t, st'.calls[ev.t]);
      forall t | t in st'.calls
        ensures CallInv(st', st'.calls[t])
      {
        assert CallInv(st, st.calls[t]);
      }
    }
  }

  lemma {:induction false} SelectKeepsFlow(st: State, ev: Event)
    requires (ev.Send? || ev.HandOff? || ev.SeeDone? || ev.Default?) && ev.t in st.calls && st.calls[ev.t].HandleSending?
    requires Flags(st) && Flow(st) && !st.closed
    ensures var st' := SelectStep(st, ev);
            && Flags(st') && Flow(st')
            && (st'.calls == st.calls || exists r :: st'.calls == st.calls[ev.t := Returned(r)] && (r.Accepted? || r.Overloaded?))
            && st'.closed == st.closed && st'.cancelled == st.cancelled && st'.chanClosed == st.chanClosed
            && st'.driverCloses == st.driverCloses && st'.timedOut == st.timedOut
            && (st.worker.Exited? ==> st'.worker.Exited?)
  {
    if ev.Send? || ev.HandOff? {
      var r := Outcome.Accepted;
      assert SelectStep(st, ev).calls == st.calls || SelectStep(st, ev).calls == st.calls[ev.t := Returned(r)];
    } else {
      var r := Outcome.Overloaded;
      assert SelectStep(st, ev).calls == st.calls || SelectStep(st, ev).calls == st.calls[ev.t := Returned(r)];
    }
  }

  /** A call that takes no new lock keeps the locks exclusive. */
  lemma LocksKeep(calls: map<Tid, Call>, t: Tid, c: Call)
    requires Locks(calls)
    requires c.Bars() ==> t in calls && calls[t].Bars()
    requires c.Writes() ==> t in calls && calls[t].Writes()
    requires c.Reads() ==> t in calls && calls[t].Reads()
    ensures Locks(calls[t := c])
  {
  }

  lemma {:induction false} AcquireKeeps(st: State, t: Tid)
    requires Inv(st) && t in st.calls
    ensures Inv(AcquireStep(st, t))
  {
    var st' := AcquireStep(st, t);
    AcquireKeepsLocks(st, t);
    forall u | u in st'.calls
      ensures CallInv(st', st'.calls[u])
    {
      assert CallInv(st, st.calls[u]);
    }
  }

  lemma {:induction false} AcquireKeepsLocks(st: State, t: Tid)
    requires Locks(st.calls) && t in st.calls
    ensures Locks(AcquireStep(st, t).calls)
  {
    var c := st.calls[t];
    if c.HandleWaiting? {
      if st.Free(t) { LocksTaken(st.calls, t, HandleLocked(c.em)); }
    } else if c.CloseWaiting? {
      if st.Free(t) { LocksTaken(st.calls, t, ClosePending); }
    } else if c.ClosePending? {
      if st.NoReader() { LocksTaken(st.calls, t, CloseLocked); }
    }
  }

  /** A call may bar the others when none does, write when none reads, read when none
      writes. */
  lemma {:induction false} LocksTaken(calls: map<Tid, Call>, t: Tid, c: Call)
    requires Locks(calls) && t in calls
    requires c.Bars() ==> forall u :: u in calls && calls[u].Bars() ==> u == t
    requires c.Writes() ==> forall u :: u in calls ==> !calls[u].Reads()
    requires c.Reads() ==> forall u :: u in calls && calls[u].Writes() ==> u == t
    ensures Locks(calls[t := c])
  {
  }

  lemma EnterKeeps(st: State, ev: Event)
    requires Inv(st) && (ev.CallHandle? || ev.CallClose?)
    ensures Inv(Step(st, ev))
  {
    var st' := Step(st, ev);
    if ev.t !in st.calls {
      LocksKeep(st.calls, ev.t, st'.calls[ev.t]);
      forall t | t in st'.calls
        ensures CallInv(st', st'.calls[t])
      {
        if t in st.calls { assert CallInv(st, st.calls[t]); }
      }
    }
  }

  /** The call that proceeds keeps the global flags and its own condition. */
  lemma {:induction false} ProceedSelf(st: State, ev: Event)
    requires Inv(st) && (ev.Proceed? || ev.Timeout?) && ev.t in st.calls
    ensures var st' := ProceedStep(st, ev);
            && Flags(st') && Flow(st') && Locks(st'.calls)
            && st'.calls.Keys == st.calls.Keys
            && CallInv(st', st'.calls[ev.t])
  {
    assert CallInv(st, st.calls[ev.t]);
    LocksKeep(st.calls, ev.t, ProceedStep(st, ev).calls[ev.t]);
  }

  /** While one Close moves under the write lock, every other call stands outside. */
  lemma ProceedOthers(st: State, ev: Event, u: Tid)
    requires Inv(st) && (ev.Proceed? || ev.Timeout?) && ev.t in st.calls && u in st.calls && u != ev.t
    ensures u in ProceedStep(st, ev).calls && CallInv(ProceedStep(st, ev), ProceedStep(st, ev).calls[u])
  {
    assert CallInv(st, st.calls[u]);
    assert CallInv(st, st.calls[ev.t]);
    assert st.calls[ev.t].Writes() ==> !st.calls[u].Writes() && !st.calls[u].Reads();
  }

  lemma ProceedKeeps(st: State, ev: Event)
    requires Inv(st) && (ev.Proceed? || ev.Timeout?) && ev.t in st.calls
    ensures Inv(ProceedStep(st, ev))
  {
    ProceedSelf(st, ev);
    forall u | u in st.calls
      ensures CallInv(ProceedStep(st, ev), ProceedStep(st, ev).calls[u])
    {
      if u != ev.t { ProceedOthers(st, ev, u); }
    }
  }

  lemma StepKeepsInv(st: State, ev: Event)
    requires Inv(st)
    ensures Inv(Step(st, ev))
  {
    if ev.OfWorker() { WorkerKeeps(st, ev); }
    else if ev.CallHandle? || ev.CallClose? { EnterKeeps(st, ev); }
    else if ev.t !in st.calls { }
    else if ev.Acquire? { AcquireKeeps(st, ev.t); }
    else if ev.Proceed? || ev.Timeout? { ProceedKeeps(st, ev); }
    else { SelectKeeps(st, ev); }
  }

  lemma {:induction false} Safety(st: State, events: seq<Event>)
    requires Inv(st)
    ensures Inv(Execute(st, events))
  {
    if events != [] {
      Safety(st, events[..|events| - 1]);
      StepKeepsInv(Execute(st, events[..|events| - 1]), events[|events| - 1]);
    }
  }

  // ---------- What a step leaves alone ----------

  lemma {:induction false} WorkerLeavesCalls(st: State, ev: Event)
    requires ev.OfWorker()
    ensures Step(st, ev).calls == st.calls
  {
  }

  lemma {:induction false} OtherCallsUntouched(st: State, ev: Event, t: Tid)
    requires !ev.OfWorker() && ev.t != t && t in st.calls
    ensures t in Step(st, ev).calls && Step(st, ev).calls[t] == st.calls[t]
  {
    if ev.t in st.calls && (ev.Proceed? || ev.Timeout?) {
      ProceedMovesOne(st, ev, t);
    } else if ev.t in st.calls && !ev.CallHandle? && !ev.CallClose? && !ev.Acquire? {
      SelectMovesOne(st, ev, t);
    }
  }

  lemma {:induction false} SelectMovesOne(st: State, ev: Event, t: Tid)
    requires (ev.Send? || ev.HandOff? || ev.SeeDone? || ev.Default?) && ev.t in st.calls && ev.t != t && t in st.calls
    ensures t in SelectStep(st, ev).calls && SelectStep(st, ev).calls[t] == st.calls[t]
  {
  }

  lemma {:induction false} ProceedMovesOne(st: State, ev: Event, t: Tid)
    requires (ev.Proceed? || ev.Timeout?) && ev.t in st.calls && ev.t != t && t in st.calls
    ensures t in ProceedStep(st, ev).calls && ProceedStep(st, ev).calls[t] == st.calls[t]
  {
  }

  // ---------- What every execution guarantees ----------

  /** Conservation: at every moment each accepted error is delivered, in the worker's
      hands or buffered, in send order; nothing is lost or delivered twice. */
  lemma Conservation(capacity: nat, events: seq<Event>)
    ensures var st := Execute(Init(capacity), events);
            && st.accepted == st.delivered + st.InFlight() + st.buffer
            && st.delivered <= st.accepted
            && |st.buffer| <= capacity
  {
    Safety(Init(capacity), events);
    CapacityFixed(Init(capacity), events);
  }

  lemma {:induction false} CapacityFixed(st: State, events: seq<Event>)
    ensures Execute(st, events).capacity == st.capacity
  {
    if events != [] {
      CapacityFixed(st, events[..|events| - 1]);
      StepKeepsCapacity(Execute(st, events[..|events| - 1]), events[|events| - 1]);
    }
  }

  lemma {:induction false} StepKeepsCapacity(st: State, ev: Event)
    ensures Step(st, ev).capacity == st.capacity
  {
    if ev.OfWorker() {
      assert WorkerStep(st, ev).capacity == st.capacity;
    } else if ev.t in st.calls && (ev.Proceed? || ev.Timeout?) {
      ProceedKeepsCapacity(st, ev);
    } else if ev.t in st.calls && !ev.CallHandle? && !ev.CallClose? && !ev.Acquire? {
      assert SelectStep(st, ev).capacity == st.capacity;
    }
  }

  lemma {:induction false} ProceedKeepsCapacity(st: State, ev: Event)
    requires (ev.Proceed? || ev.Timeout?) && ev.t in st.calls
    ensures ProceedStep(st, ev).capacity == st.capacity
  {
    var c := st.calls[ev.t];
    if c.HandleLocked? || c.CloseLocked? || c.CloseFlagged? || c.CloseCancelled? {
    } else {
      assert ev.Timeout? || c.CloseAwaiting? || c.CloseDriver? || ProceedStep(st, ev) == st;
    }
  }

  /** The worker may leave through `default: return` between the cancel and the close of
      the channel; still, when it has left, all that was accepted is delivered. */
  lemma NothingLost(capacity: nat, events: seq<Event>)
    requires Execute(Init(capacity), events).worker.Exited?
    ensures var st := Execute(Init(capacity), events); st.delivered == st.accepted
  {
    Safety(Init(capacity), events);
  }

  /** And it stays so: after the worker left no further error is ever accepted. */
  lemma {:induction false} ClosedForGood(st: State, events: seq<Event>)
    requires Inv(st) && st.closed
    ensures Execute(st, events).closed && Execute(st, events).accepted == st.accepted
  {
    if events != [] {
      var n := |events| - 1;
      ClosedForGood(st, events[..n]);
      Safety(st, events[..n]);
      ClosedStays(Execute(st, events[..n]), events[n]);
    }
  }

  lemma {:induction false} ClosedStays(st: State, ev: Event)
    requires Inv(st) && st.closed
    ensures Step(st, ev).closed && Step(st, ev).accepted == st.accepted
  {
    if !ev.OfWorker() && ev.t in st.calls {
      assert CallInv(st, st.calls[ev.t]);
      assert !st.calls[ev.t].HandleSending?;
      if ev.Proceed? || ev.Timeout? { ProceedOfClosed(st, ev); }
    }
  }

  lemma {:induction false} ProceedOfClosed(st: State, ev: Event)
    requires st.closed && (ev.Proceed? || ev.Timeout?) && ev.t in st.calls
    ensures ProceedStep(st, ev).closed && ProceedStep(st, ev).accepted == st.accepted
  {
  }

  /** No send reaches a closed channel, the channel is closed once, the driver at most
      once, and a Handle that found `closed` false never sees the context done. */
  lemma NoPanicNoInterrupt(capacity: nat, events: seq<Event>, t: Tid)
    ensures var st := Execute(Init(capacity), events);
            && !st.panicked
            && st.driverCloses <= 1
            && (t in st.calls && st.calls[t].HandleSending? ==> !st.closed && !st.cancelled && !st.chanClosed)
            && (t in st.calls ==> st.calls[t] != Returned(Interrupted))
  {
    Safety(Init(capacity), events);
    var st := Execute(Init(capacity), events);
    if t in st.calls { assert CallInv(st, st.calls[t]); }
  }

  /** Some case of Handle's select is ready: send at once when there is room, drop when
      the buffer is full. */
  predicate SelectReady(st: State, t: Tid, em: ErrorWithMeta) {
    if |st.buffer| < st.capacity then
      Step(st, Send(t)) == st.Set(t, Returned(Accepted)).(buffer := st.buffer + [em], accepted := st.accepted + [em])
    else
      Step(st, Default(t)) == st.Set(t, Returned(Overloaded))
  }

  /** Handle's select never blocks: in every reachable state a call that stands at it can
      finish at once, by a send exactly when the buffer has room. */
  lemma {:induction false} SelectNeverBlocks(capacity: nat, events: seq<Event>, t: Tid)
    requires var st := Execute(Init(capacity), events); t in st.calls && st.calls[t].HandleSending?
    ensures var st := Execute(Init(capacity), events); SelectReady(st, t, st.calls[t].em)
  {
    NoPanicNoInterrupt(capacity, events, t);
  }

  /** The select decides in one step, and rightly: the error is last in the send history, or
      the buffer was full. */
  lemma {:induction false} SelectDecides(capacity: nat, events: seq<Event>, ev: Event, t: Tid)
    requires var st := Execute(Init(capacity), events); t in st.calls && st.calls[t].HandleSending?
    ensures var st, st' := Execute(Init(capacity), events), Step(Execute(Init(capacity), events), ev);
            t in st'.calls && st'.calls[t] != st.calls[t] ==>
              || (st'.calls[t] == Returned(Accepted) && st'.accepted == st.accepted + [st.calls[t].em])
              || (st'.calls[t] == Returned(Overloaded) && st'.accepted == st.accepted && |st.buffer| == capacity)
  {
    var st := Execute(Init(capacity), events);
    NoPanicNoInterrupt(capacity, events, t);
    Conservation(capacity, events);
    CapacityFixed(Init(capacity), events);
    if ev.OfWorker() {
      WorkerLeavesCalls(st, ev);
    } else if ev.t != t {
      OtherCallsUntouched(st, ev, t);
    } else {
      OwnSelect(st, ev);
    }
  }

  lemma {:induction false} OwnSelect(st: State, ev: Event)
    requires !ev.OfWorker() && ev.t in st.calls && st.calls[ev.t].HandleSending? && !st.cancelled
    ensures var st' := Step(st, ev);
            st'.calls == st.calls
            || (st'.calls == st.calls[ev.t := Returned(Accepted)] && st'.accepted == st.accepted + [st.calls[ev.t].em])
            || (st'.calls == st.calls[ev.t := Returned(Overloaded)] && st'.accepted == st.accepted && |st.buffer| >= st.capacity)
  {
  }

  /** A Close that did not time out returns after the last delivery: all accepted
      errors reached the handler, and they did so before the driver was closed. */
  lemma GracefulClose(capacity: nat, events: seq<Event>, t: Tid)
    requires var st := Execute(Init(capacity), events); t in st.calls && st.calls[t] == Returned(CloseReturned(false))
    ensures var st := Execute(Init(capacity), events);
            st.worker.Exited? && st.delivered == st.accepted && st.driverCloses == 1 && st.late == 0
  {
    Safety(Init(capacity), events);
    var st := Execute(Init(capacity), events);
    assert CallInv(st, st.calls[t]);
  }

  lemma {:induction false} ExecuteConcat(st: State, a: seq<Event>, b: seq<Event>)
    ensures Execute(st, a + b) == Execute(Execute(st, a), b)
  {
    if b == [] {
      assert a + b == a;
    } else {
      assert (a + b)[..|a + b| - 1] == a + b[..|b| - 1];
      ExecuteConcat(st, a, b[..|b| - 1]);
    }
  }

  lemma {:induction false} One(st: State, ev: Event)
    ensures Execute(st, [ev]) == Step(st, ev)
  {
    assert [ev][..0] == [];
  }

  // ---------- The worker delivers ----------

  /** A worker that waits in either select takes the oldest buffered error and hands it to
      the driver, whether a Close has begun or not. */
  lemma {:induction false} TakesAndDelivers(st: State)
    requires (st.worker.Selecting? || st.worker.Draining?) && st.buffer != []
    ensures var st' := Execute(st, [Receive] + [Deliver]);
            && st'.worker == st.worker && st'.buffer == st.buffer[1..]
            && st'.delivered == st.delivered + [st.buffer[0]] && st'.accepted == st.accepted
  {
    ExecuteConcat(st, [Receive], [Deliver]);
    One(st, Receive);
    One(Step(st, Receive), Deliver);
  }

  predicate WorkerOnly(events: seq<Event>) {
    forall k :: 0 <= k < |events| ==> events[k].OfWorker()
  }

  /** From every good state the worker alone, without any Close, delivers all that was
      accepted: two steps for each buffered error and one for the error in hand. */
  lemma {:induction false} WorkerDelivers(st: State) returns (more: seq<Event>)
    requires Inv(st)
    ensures WorkerOnly(more) && |more| <= 2 * |st.buffer| + 1
    ensures Execute(st, more).delivered == st.accepted == Execute(st, more).accepted
    ensures !st.worker.Handling? && !st.worker.DrainHandling? ==> |more| == 2 * |st.buffer|
    decreases |st.buffer|, st.InFlight() != []
  {
    if st.worker.Handling? || st.worker.DrainHandling? {
      One(st, Deliver);
      StepKeepsInv(st, Deliver);
      var rest := WorkerDelivers(Step(st, Deliver));
      ExecuteConcat(st, [Deliver], rest);
      more := [Deliver] + rest;
    } else if st.buffer == [] {
      more := [];
    } else {
      var pass := [Receive] + [Deliver];
      TakesAndDelivers(st);
      Safety(st, pass);
      var rest := WorkerDelivers(Execute(st, pass));
      ExecuteConcat(st, pass, rest);
      more := pass + rest;
    }
  }

  /** In every reachable state everything accepted so far can still be delivered by the
      worker's own steps. */
  lemma {:induction false} AcceptedGetsDelivered(capacity: nat, events: seq<Event>) returns (more: seq<Event>)
    ensures WorkerOnly(more) && |more| <= 2 * |Execute(Init(capacity), events).buffer| + 1
    ensures Execute(Init(capacity), events + more).delivered == Execute(Init(capacity), events).accepted
  {
    Safety(Init(capacity), events);
    more := WorkerDelivers(Execute(Init(capacity), events));
    ExecuteConcat(Init(capacity), events, more);
  }

  // ---------- Shutdown terminates ----------

  /** Worker steps still possible once nothing more is accepted. */
  function Fuel(st: State): nat {
    match st.worker
    case Exited => 0
    case Draining => 2 * |st.buffer| + 1
    case DrainHandling(_) => 2 * |st.buffer| + 2
    case Selecting => 2 * |st.buffer| + 2
    case Handling(_) => 2 * |st.buffer| + 3
  }

  /** Effective worker steps in an execution. */
  function WorkerSteps(st: State, events: seq<Event>): nat {
    if events == [] then 0
    else
      var n := |events| - 1;
      var mid := Execute(st, events[..n]);
      WorkerSteps(st, events[..n]) + (if events[n].OfWorker() && Step(mid, events[n]) != mid then 1 else 0)
  }

  lemma FuelStep(st: State, ev: Event)
    requires Inv(st) && st.cancelled
    ensures ev.OfWorker() && Step(st, ev) != st ==> Fuel(Step(st, ev)) < Fuel(st)
    ensures Fuel(Step(st, ev)) <= Fuel(st)
    ensures Step(st, ev).cancelled
  {
    if !ev.OfWorker() && ev.t in st.calls {
      assert CallInv(st, st.calls[ev.t]);
    }
  }

  /** After the cancel the worker takes at most 2 * buffered + 3 steps, under any
      interleaving with pending Handle and Close calls; each step short of exit has
      a successor, so a scheduled worker exits. */
  lemma {:induction false} ShutdownTerminates(st: State, events: seq<Event>)
    requires Inv(st) && st.cancelled
    ensures Execute(st, events).cancelled
    ensures WorkerSteps(st, events) + Fuel(Execute(st, events)) <= Fuel(st) <= 2 * |st.buffer| + 3
  {
    if events != [] {
      var n := |events| - 1;
      ShutdownTerminates(st, events[..n]);
      Safety(st, events[..n]);
      FuelStep(Execute(st, events[..n]), events[n]);
    }
  }

  lemma WorkerCanMove(st: State)
    requires Inv(st) && st.cancelled && !st.worker.Exited?
    ensures exists ev: Event :: ev.OfWorker() && Fuel(Step(st, ev)) < Fuel(st)
  {
    var ev :=
      if st.worker.Selecting? then NoticeCancel
      else if st.worker.Draining? then (if st.buffer != [] || st.chanClosed then Receive else DrainDefault)
      else Deliver;
    assert ev.OfWorker() && Fuel(Step(st, ev)) < Fuel(st);
  }
}
