/** A read session and the consumer around it as sequential code over the consumer system
    of StreamCursor: each statement is one event, taken after any appends by producers. */
module StreamReader {
  import opened Outcomes
  import opened Decimal
  import opened StreamCursor

  /** The log ascends within 64 bits, however the consumer started. */
  lemma {:induction false} LogAscends(start: string, fromTail: bool, events: seq<Event>)
    ensures Ascending(Execute(Init(start, fromTail), events).log)
  {
    if events != [] {
      var n := |events| - 1;
      LogAscends(start, fromTail, events[..n]);
      var st := Execute(Init(start, fromTail), events[..n]);
      if events[n].Append? && End(st.log) <= events[n].rec.seqNum <= MAX_UINT64 {
        AscendingSnoc(st.log, events[n].rec);
      }
    }
  }

  class Consumer {
    const start: string
    const fromTail: bool
    var sys: State
    ghost var events: seq<Event>
    /** What the session and its context report; a cancelled context stays cancelled. */
    var sessionErr: Option<string>
    var ctxErr: Option<string>
    /** Refused connections, stopped sessions and deaths of the process. */
    ghost var setbacks: nat

    ghost predicate Valid()
      reads this
    {
      sys == Execute(Init(start, fromTail), events)
    }

    constructor (start: string, fromTail: bool)
      ensures Valid() && this.start == start && this.fromTail == fromTail && events == []
    {
      this.start, this.fromTail := start, fromTail;
      sys, events := Init(start, fromTail), [];
      sessionErr, ctxErr, setbacks := None, None, 0;
    }

    /** Whether something goes wrong here. */
    method Setback() returns (b: bool)
      modifies this`setbacks
      ensures setbacks == old(setbacks) + if b then 1 else 0
    {
      b := Chance();
      setbacks := setbacks + if b then 1 else 0;
    }

    method Fire(ev: Event)
      requires Valid()
      modifies this`sys, this`events
      ensures Valid() && events == old(events) + [ev] && sys == Step(old(sys), ev)
    {
      ExecuteSnoc(Init(start, fromTail), events, ev);
      sys, events := Step(sys, ev), events + [ev];
    }

    /** Any number of appends by producers. */
    method Appends()
      requires Valid()
      modifies this`sys, this`events
      ensures Valid() && old(events) <= events && sys == old(sys).(log := sys.log)
    {
      var records: seq<Record> := *;
      for n := 0 to |records|
        invariant Valid() && old(events) <= events && sys == old(sys).(log := sys.log)
      {
        Fire(Append(records[n]));
      }
    }

    /** The transport may fail and the context may be cancelled at any time. */
    method Disturbances()
      modifies this`sessionErr, this`ctxErr
      ensures old(sessionErr).Some? ==> sessionErr == old(sessionErr)
      ensures old(ctxErr).Some? ==> ctxErr == old(ctxErr)
    {
      var failure: Option<string>, cancellation: Option<string> := *, *;
      if sessionErr.None? { sessionErr := failure; }
      if ctxErr.None? { ctxErr := cancellation; }
    }

    /** NewS2StreamReadSession, on a fresh context: fails on a malformed position or when
        S2 refuses. */
    method Connect() returns (ok: bool)
      requires Valid() && sys.session.None?
      modifies this
      ensures Valid() && old(events) <= events
      ensures sys.deliveries == old(sys.deliveries) && sys.cursor == old(sys.cursor)
      ensures Decode(sys.cursor).None? ==> !ok
      ensures setbacks >= old(setbacks) && (!ok ==> setbacks > old(setbacks) || Decode(sys.cursor).None?)
      ensures ok ==> sys.session.Some? && sys.session.value.current.None? && sessionErr.None? && ctxErr.None?
      ensures ok ==> sys.session.value.from == if sys.cursor == "" && sys.fromTail then End(sys.log) else Decode(sys.cursor).value
    {
      Appends();
      sessionErr, ctxErr := None, None;
      if sys.cursor != "" || !sys.fromTail {
        var startSeq := DecodeS2Position(sys.cursor);
        if startSeq.None? { return false; }
      }
      var refused := Setback();
      if refused { return false; }
      Fire(Open);
      ok := true;
    }

    /** Next: the next data record, with both positions, or why the session stopped. A
        clean end is reported only when neither the session nor the context failed, so a
        shutdown never reads as the end of the stream. */
    method Next() returns (r: Result<StreamRecord, Stop>)
      requires Valid() && sys.session.Some? && (sys.session.value.current.None? || sys.session.value.done)
      modifies this
      ensures Valid() && old(events) <= events && sys.cursor == old(sys.cursor) && sys.session.Some?
      ensures r.Err? ==> sys.deliveries == old(sys.deliveries) && sys.session == old(sys.session)
      ensures setbacks >= old(setbacks)
      ensures r.Err? ==> setbacks > old(setbacks) || FirstFrom(sys.log, sys.session.value.from).None?
      ensures r.Ok? ==> && sys.session.value.current.Some? && !sys.session.value.done
                        && var rec := sys.session.value.current.value;
                        && rec in sys.log && !rec.command && rec.seqNum >= old(sys.session).value.from
                        && (forall i :: 0 <= i < |sys.log| && old(sys.session).value.from <= sys.log[i].seqNum < rec.seqNum ==> sys.log[i].command)
                        && r.value == ToStreamRecord(rec)
                        && sys.deliveries == old(sys.deliveries) + [rec.seqNum]
      ensures old(sessionErr).Some? ==> sessionErr == old(sessionErr)
      ensures old(ctxErr).Some? ==> ctxErr == old(ctxErr)
      ensures r == Err(EndOfStream) ==> old(sessionErr).None? && old(ctxErr).None? && sessionErr.None? && ctxErr.None?
      ensures r.Err? && sessionErr.Some? ==> r.error == SessionError(sessionErr.value)
      ensures r.Err? && sessionErr.None? && ctxErr.Some? ==> r.error == ContextError(ctxErr.value)
    {
      Appends();
      Disturbances();
      var stopped := Setback();
      var found := FirstFrom(sys.log, sys.session.value.from);
      if stopped || found.None? {
        return Err(ResolveTerminal(sessionErr, ctxErr));
      }
      var rec := Record();
      r := Ok(rec);
    }

    /** session.Record(), mapped: the first data record from where the session stands. */
    method Record() returns (r: StreamRecord)
      requires Valid() && sys.session.Some? && (sys.session.value.current.None? || sys.session.value.done)
      requires FirstFrom(sys.log, sys.session.value.from).Some?
      modifies this`sys, this`events
      ensures Valid() && old(events) <= events && sys.cursor == old(sys.cursor) && sys.log == old(sys.log)
      ensures sys.session.Some? && sys.session.value.current.Some? && !sys.session.value.done
      ensures var rec := sys.session.value.current.value;
              && rec in sys.log && !rec.command && rec.seqNum >= old(sys.session).value.from
              && (forall i :: 0 <= i < |sys.log| && old(sys.session).value.from <= sys.log[i].seqNum < rec.seqNum ==> sys.log[i].command)
              && r == ToStreamRecord(rec)
              && sys.deliveries == old(sys.deliveries) + [rec.seqNum]
    {
      LogAscends(start, fromTail, events);
      FirstFromIs(sys.log, sys.session.value.from);
      r := StreamRecordFromS2(FirstFrom(sys.log, sys.session.value.from).value);
      Fire(Deliver);
    }

    /** One record: read it, handle it, persist its Next; the process may die between any
        two of these. True while the session goes on. */
    method Turn() returns (goesOn: bool)
      requires Valid() && sys.session.Some? && (sys.session.value.current.None? || sys.session.value.done)
      modifies this
      ensures Valid() && old(events) <= events
      ensures sys.session.Some?
      ensures goesOn ==> (sys.session.value.current.None? || sys.session.value.done)
      ensures setbacks >= old(setbacks)
      ensures !goesOn ==> setbacks > old(setbacks) || FirstFrom(sys.log, sys.session.value.from).None?
      ensures goesOn ==> exists rec :: rec in sys.log && sys.cursor == ToStreamRecord(rec).next && rec.seqNum in sys.handled
    {
      var r := Next();
      var dies := Setback();
      if r.Err? || dies { return false; }
      Fire(Handle);
      dies := Setback();
      if dies { return false; }
      Fire(Persist);
      goesOn := true;
    }

    /** Sessions one after another, each reopened at what was persisted. However they end,
        nothing below the cursor is lost, the cursor never moves back, and nothing below
        the cursor is delivered again. */
    method Consume(sessions: nat, turns: nat)
      requires Valid() && Decode(start).Some? && (start == "" ==> !fromTail)
      modifies this
      ensures Valid() && old(events) <= events
      ensures Decode(old(sys).cursor).Some? && Decode(sys.cursor).Some? && Cursor(old(sys)) <= Cursor(sys)
      ensures start == "" || AllDigits(start)
      ensures HandledBelow(sys, if start == "" then 0 else Value(start), Cursor(sys), None)
      ensures old(sys.deliveries) <= sys.deliveries
      ensures forall i :: |old(sys.deliveries)| <= i < |sys.deliveries| ==> sys.deliveries[i] >= Cursor(old(sys))
    {
      for n := 0 to sessions
        invariant Valid() && old(events) <= events
      {
        Fire(Crash); // the last session is gone
        var open := Connect();
        for k := 0 to turns
          invariant Valid() && old(events) <= events
          invariant open ==> sys.session.Some? && (sys.session.value.current.None? || sys.session.value.done)
        {
          if open { open := Turn(); }
        }
      }
      ghost var before, later := old(events), events[|old(events)|..];
      assert events == before + later;
      ExecuteConcat(Init(start, fromTail), before, later);
      NothingSkipped(start, fromTail, before, later);
      NothingSkipped(start, fromTail, events, []);
      Safety(Init(start, fromTail), before, Decode(start).value);
      DeliveriesFromCursor(old(sys), later, Decode(start).value);
    }
  }
}
