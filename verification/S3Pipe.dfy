/** The pipe between an S3 writer and its uploader goroutine (storage/s3.go), as a
    function on states driven by events. Upload is trusted to return nil only after it
    read to the end and stored what it read. */
module S3Pipe {
  import opened Outcomes

  type Byte = bv8
  type Error = string

  /** A finished Write call: what it was given, how much it reports as written. */
  datatype WriteCall = WriteCall(data: seq<Byte>, n: nat, ok: bool)

  /** The calling side. `left` is what the reader has not yet taken. */
  datatype Caller = Idle | Writing(data: seq<Byte>, left: seq<Byte>) | Closing

  /** The uploader goroutine. */
  datatype Uploader =
    | Reading
    | AtEnd
    | Stored
    | Finished(result: Option<Error>)
    | Unblocked(result: Option<Error>)
    | Reported(result: Option<Error>)

  datatype State = State(
    caller: Caller,
    writerClosed: bool,
    readerClosed: bool,
    uploader: Uploader,
    got: seq<Byte>,
    store: Option<seq<Byte>>,
    errCh: Option<Option<Error>>,
    writes: seq<WriteCall>,
    closes: seq<Option<Error>>)

  datatype Event =
    | CallWrite(data: seq<Byte>)
    | WriteAborts
    | CallClose
    | CloseReceives
    | Read(max: nat)
    | SeeEnd
    | Store
    | UploadOk
    | UploadFails(err: Error)
    | CloseReader
    | SendResult
  {
    predicate OfCaller() { CallWrite? || WriteAborts? || CallClose? || CloseReceives? }
  }

  const INIT := State(Idle, false, false, Reading, [], None, None, [], [])

  function Step(st: State, ev: Event): State {
    if ev.OfCaller() then CallerStep(st, ev) else UploaderStep(st, ev)
  }

  function CallerStep(st: State, ev: Event): State
    requires ev.OfCaller()
  {
    match ev
    case CallWrite(data) =>
      if !st.caller.Idle? then st
      else if st.writerClosed || st.readerClosed then st.(writes := st.writes + [WriteCall(data, 0, false)])
      else st.(caller := Writing(data, data))
    case WriteAborts =>
      if st.caller.Writing? && st.readerClosed && |st.caller.left| <= |st.caller.data| then
        st.(caller := Idle, writes := st.writes + [WriteCall(st.caller.data, |st.caller.data| - |st.caller.left|, false)])
      else st
    case CallClose => if st.caller.Idle? then st.(caller := Closing, writerClosed := true) else st
    case CloseReceives =>
      if st.caller.Closing? && st.errCh.Some? then
        st.(caller := Idle, errCh := None, closes := st.closes + [st.errCh.value])
      else st
  }

  function UploaderStep(st: State, ev: Event): State
    requires !ev.OfCaller()
  {
    match ev
    case Read(max) =>
      if !st.uploader.Reading? || !st.caller.Writing? then st
      else
        var left := st.caller.left;
        var n := if max < |left| then max else |left|;
        var st' := st.(got := st.got + left[..n]);
        if n == |left| then
          st'.(caller := Idle, writes := st.writes + [WriteCall(st.caller.data, |st.caller.data|, true)])
        else st'.(caller := Writing(st.caller.data, left[n..]))
    case SeeEnd => if st.uploader.Reading? && st.writerClosed then st.(uploader := AtEnd) else st
    case Store => if st.uploader.AtEnd? then st.(uploader := Stored, store := Some(st.got)) else st
    case UploadOk => if st.uploader.Stored? then st.(uploader := Finished(None)) else st
    case UploadFails(err) =>
      if st.uploader.Reading? || st.uploader.AtEnd? || st.uploader.Stored? then st.(uploader := Finished(Some(err))) else st
    case CloseReader =>
      if st.uploader.Finished? then st.(uploader := Unblocked(st.uploader.result), readerClosed := true) else st
    case SendResult =>
      if st.uploader.Unblocked? then st.(uploader := Reported(st.uploader.result), errCh := Some(st.uploader.result)) else st
  }

  function Execute(st: State, events: seq<Event>): State {
    if events == [] then st else Step(Execute(st, events[..|events| - 1]), events[|events| - 1])
  }

  /** All bytes reported as written, in order. */
  function Accepted(writes: seq<WriteCall>): seq<Byte> {
    if writes == [] then []
    else
      var last := writes[|writes| - 1];
      Accepted(writes[..|writes| - 1]) + last.data[..if last.n <= |last.data| then last.n else |last.data|]
  }

  /** The bytes the current Write has handed over so far. */
  function HandedOver(c: Caller): seq<Byte> {
    if c.Writing? && |c.left| <= |c.data| then c.data[..|c.data| - |c.left|] else []
  }

  predicate Finishing(u: Uploader) { u.Finished? || u.Unblocked? || u.Reported? }

  ghost predicate CallerInv(st: State) {
    && (st.caller.Writing? ==>
          && |st.caller.left| <= |st.caller.data|
          && st.caller.left == st.caller.data[|st.caller.data| - |st.caller.left|..]
          && !st.writerClosed)
    && (st.caller.Closing? ==> st.writerClosed)
    && st.got == Accepted(st.writes) + HandedOver(st.caller)
    && Counts(st.writes)
  }

  predicate Counts(writes: seq<WriteCall>) {
    forall k :: 0 <= k < |writes| ==>
      writes[k].n <= |writes[k].data| && (writes[k].ok ==> writes[k].n == |writes[k].data|)
  }

  /** Every Write took all of its data or none. */
  predicate AllOrNothing(writes: seq<WriteCall>) {
    forall k :: 0 <= k < |writes| ==> writes[k].ok || writes[k].n == 0
  }

  ghost predicate UploaderInv(st: State) {
    && (st.uploader.AtEnd? || st.uploader.Stored? ==> st.writerClosed)
    && (st.uploader.Stored? ==> st.store == Some(st.got))
    && (Finishing(st.uploader) && st.uploader.result.None? ==> st.writerClosed && st.store == Some(st.got))
    && (st.readerClosed <==> st.uploader.Unblocked? || st.uploader.Reported?)
    && (st.uploader.Reported? ==>
          || (st.errCh == Some(st.uploader.result) && st.closes == [])
          || (st.errCh == None && st.closes == [st.uploader.result]))
    && (!st.uploader.Reported? ==> st.errCh == None && st.closes == [])
    // A Write is cut short only by an upload that failed.
    && (!st.readerClosed || (Finishing(st.uploader) && st.uploader.result.None?) ==>
          AllOrNothing(st.writes))
  }

  ghost predicate Inv(st: State) {
    CallerInv(st) && UploaderInv(st)
  }

  lemma {:induction false} AcceptedSnoc(writes: seq<WriteCall>, w: WriteCall)
    requires w.n <= |w.data|
    ensures Accepted(writes + [w]) == Accepted(writes) + w.data[..w.n]
  {
    assert (writes + [w])[..|writes|] == writes;
  }

  /** A Write that returns adds what it handed over to what was accepted. */
  lemma {:induction false} WriteReturns(writes: seq<WriteCall>, w: WriteCall)
    requires Counts(writes) && w.n <= |w.data| && (w.ok ==> w.n == |w.data|)
    ensures Counts(writes + [w])
    ensures Accepted(writes + [w]) == Accepted(writes) + w.data[..w.n]
    ensures AllOrNothing(writes) && (w.ok || w.n == 0) ==> AllOrNothing(writes + [w])
  {
    AcceptedSnoc(writes, w);
  }

  lemma {:induction false} CallWriteKeeps(st: State, data: seq<Byte>)
    requires Inv(st)
    ensures Inv(CallerStep(st, CallWrite(data)))
  {
    WriteReturns(st.writes, WriteCall(data, 0, false));
    assert data[..0] == [];
  }

  lemma {:induction false} AbortKeeps(st: State)
    requires CallerInv(st)
    ensures CallerInv(CallerStep(st, WriteAborts))
  {
    if st.caller.Writing? && st.readerClosed {
      var data, n := st.caller.data, |st.caller.data| - |st.caller.left|;
      var st' := CallerStep(st, WriteAborts);
      assert HandedOver(st.caller) == data[..n];
      CutShort(st.writes, data, n);
      assert st'.writes == st.writes + [WriteCall(data, n, false)];
      assert st'.got == st.got == Accepted(st.writes) + data[..n];
      IdleKeeps(st');
    }
  }

  lemma {:induction false} CutShort(writes: seq<WriteCall>, data: seq<Byte>, n: nat)
    requires Counts(writes) && n <= |data|
    ensures Counts(writes + [WriteCall(data, n, false)])
    ensures Accepted(writes + [WriteCall(data, n, false)]) == Accepted(writes) + data[..n]
  {
    WriteReturns(writes, WriteCall(data, n, false));
  }

  lemma {:induction false} AbortIsAfterFailure(st: State)
    requires UploaderInv(st) && (st.caller.Writing? ==> !st.writerClosed)
    ensures UploaderInv(CallerStep(st, WriteAborts))
  {
  }

  lemma {:induction false} IdleKeeps(st: State)
    requires st.caller.Idle? && Counts(st.writes) && st.got == Accepted(st.writes)
    ensures CallerInv(st)
  {
    assert st.got + [] == st.got;
  }

  lemma {:induction false} CallerKeeps(st: State, ev: Event)
    requires Inv(st) && ev.OfCaller()
    ensures Inv(CallerStep(st, ev))
  {
    match ev
    case CallWrite(data) => CallWriteKeeps(st, data);
    case WriteAborts => AbortKeeps(st); AbortIsAfterFailure(st);
    case CallClose =>
    case CloseReceives =>
  }

  lemma {:induction false} UploaderKeeps(st: State, ev: Event)
    requires Inv(st) && !ev.OfCaller() && !ev.Read?
    ensures Inv(UploaderStep(st, ev))
  {
  }

  lemma {:induction false} Handing(data: seq<Byte>, left: seq<Byte>, n: nat)
    requires |left| <= |data| && left == data[|data| - |left|..] && n <= |left|
    ensures data[..|data| - |left|] + left[..n] == data[..|data| - |left| + n]
    ensures left[n..] == data[|data| - |left| + n..]
  {
  }

  lemma {:induction false} ReadKeeps(st: State, max: nat)
    requires Inv(st)
    ensures Inv(UploaderStep(st, Read(max)))
  {
    if st.uploader.Reading? && st.caller.Writing? {
      var data, left := st.caller.data, st.caller.left;
      var n := if max < |left| then max else |left|;
      Handing(data, left, n);
      if n == |left| {
        WriteReturns(st.writes, WriteCall(data, |data|, true));
        ReadEnds(st, max);
      } else {
        ReadGoesOn(st, max);
      }
    }
  }

  lemma {:induction false} ReadEnds(st: State, max: nat)
    requires Inv(st) && st.uploader.Reading? && st.caller.Writing? && max >= |st.caller.left|
    requires var w := WriteCall(st.caller.data, |st.caller.data|, true);
             && Counts(st.writes + [w]) && AllOrNothing(st.writes + [w])
             && Accepted(st.writes + [w]) == Accepted(st.writes) + st.caller.data[..|st.caller.data|]
    ensures Inv(UploaderStep(st, Read(max)))
  {
    AllTaken(st.writes, st.caller.data, st.caller.left);
    ReadEndsAt(st, max);
  }

  lemma {:induction false} AllTaken(writes: seq<WriteCall>, data: seq<Byte>, left: seq<Byte>)
    requires |left| <= |data| && left == data[|data| - |left|..]
    ensures Accepted(writes) + data[..|data| - |left|] + left[..|left|] == Accepted(writes) + data[..|data|] + []
  {
  }

  lemma {:induction false} ReadEndsAt(st: State, max: nat)
    requires st.uploader.Reading? && st.caller.Writing? && max >= |st.caller.left| && |st.caller.left| <= |st.caller.data|
    requires st.got == Accepted(st.writes) + HandedOver(st.caller) && UploaderInv(st)
    requires var w := WriteCall(st.caller.data, |st.caller.data|, true);
             && Counts(st.writes + [w]) && AllOrNothing(st.writes + [w])
             && Accepted(st.writes + [w]) == Accepted(st.writes) + st.caller.data[..|st.caller.data|]
    requires Accepted(st.writes) + st.caller.data[..|st.caller.data| - |st.caller.left|] + st.caller.left[..|st.caller.left|]
          == Accepted(st.writes) + st.caller.data[..|st.caller.data|] + []
    ensures Inv(UploaderStep(st, Read(max)))
  {
  }

  lemma {:induction false} ReadGoesOn(st: State, max: nat)
    requires Inv(st) && st.uploader.Reading? && st.caller.Writing? && max < |st.caller.left|
    ensures Inv(UploaderStep(st, Read(max)))
  {
    var data, left := st.caller.data, st.caller.left;
    Handing(data, left, max);
    assert (Accepted(st.writes) + data[..|data| - |left|]) + left[..max] == Accepted(st.writes) + data[..|data| - |left| + max];
  }

  lemma {:induction false} Safety(events: seq<Event>)
    ensures Inv(Execute(INIT, events))
  {
    if events != [] {
      var n := |events| - 1;
      Safety(events[..n]);
      var st := Execute(INIT, events[..n]);
      if events[n].OfCaller() { CallerKeeps(st, events[n]); }
      else if events[n].Read? { ReadKeeps(st, events[n].max); }
      else { UploaderKeeps(st, events[n]); }
    }
  }

  // ---------- What every execution guarantees ----------

  /** The bytes of the Writes that succeeded, in order. */
  function Written(writes: seq<WriteCall>): seq<Byte> {
    if writes == [] then []
    else
      var last := writes[|writes| - 1];
      Written(writes[..|writes| - 1]) + (if last.ok then last.data else [])
  }

  lemma {:induction false} AcceptedIsWritten(writes: seq<WriteCall>)
    requires Counts(writes) && AllOrNothing(writes)
    ensures Accepted(writes) == Written(writes)
  {
    if writes != [] {
      AcceptedIsWritten(writes[..|writes| - 1]);
      var last := writes[|writes| - 1];
      assert last.ok ==> last.data[..last.n] == last.data;
    }
  }

  /** Close returning nil is a durability barrier: the stored object is exactly the
      concatenation of the successful Writes, and no Write lost part of its data. */
  lemma {:induction false} CloseNilIsDurable(events: seq<Event>)
    requires Execute(INIT, events).closes == [None]
    ensures var st := Execute(INIT, events);
            && st.store == Some(Written(st.writes))
            && AllOrNothing(st.writes)
  {
    Safety(events);
    var st := Execute(INIT, events);
    assert st.uploader == Reported(None);
    AcceptedIsWritten(st.writes);
    assert !st.caller.Writing?;
    assert Accepted(st.writes) + [] == Accepted(st.writes);
  }

  /** A failed upload surfaces: Close reports it, and reports nothing else. */
  lemma {:induction false} FailureSurfaces(events: seq<Event>)
    ensures var st := Execute(INIT, events);
            && |st.closes| <= 1
            && (Finishing(st.uploader) && st.uploader.result.Some? && st.closes != [] ==> st.closes == [st.uploader.result])
            && (st.closes == [None] ==> st.uploader == Reported(None))
  {
    Safety(events);
  }

  /** Uploading: the upload has not returned yet. */
  predicate Uploading(u: Uploader) { u.Reading? || u.AtEnd? || u.Stored? }

  /** Event k of a run is the upload returning an error. */
  predicate FailsAt(events: seq<Event>, k: nat) {
    k < |events| && events[k].UploadFails? && Uploading(Execute(INIT, events[..k]).uploader)
  }

  /** The uploader holds an error exactly when an upload returned one. */
  lemma {:induction false} FailureIsRemembered(events: seq<Event>)
    ensures (exists k: nat :: FailsAt(events, k)) <==>
            Finishing(Execute(INIT, events).uploader) && Execute(INIT, events).uploader.result.Some?
  {
    if events != [] {
      var n := |events| - 1;
      FailureIsRemembered(events[..n]);
      FailureStep(Execute(INIT, events[..n]), events[n]);
      if FailsAt(events, n) {
        assert exists k: nat :: FailsAt(events, k);
      }
      forall k: nat | k < n ensures FailsAt(events, k) <==> FailsAt(events[..n], k) {
        assert events[..n][..k] == events[..k];
      }
    }
  }

  lemma {:induction false} FailureStep(st: State, ev: Event)
    ensures var st' := Step(st, ev);
            (Finishing(st'.uploader) && st'.uploader.result.Some?) <==>
            (Finishing(st.uploader) && st.uploader.result.Some?) || (ev.UploadFails? && Uploading(st.uploader))
  {
  }

  /** A Close that returned gave nil exactly when no upload returned an error: a success
      is never reported as a failure, nor a failure as a success. */
  lemma {:induction false} CloseTellsFailure(events: seq<Event>)
    requires Execute(INIT, events).closes != []
    ensures Execute(INIT, events).closes == [None] <==> !exists k: nat :: FailsAt(events, k)
  {
    Safety(events);
    FailureIsRemembered(events);
    FailureSurfaces(events);
    var st := Execute(INIT, events);
    assert st.uploader.Reported? && st.closes == [st.uploader.result];
  }

  /** The first Close returns nil when the upload that stored the object returns nil. */
  lemma {:induction false} SuccessReachesClose(events: seq<Event>)
    requires var st := Execute(INIT, events); st.caller.Closing? && st.closes == [] && st.uploader.Stored?
    ensures Execute(INIT, events + [UploadOk] + [CloseReader] + [SendResult] + [CloseReceives]).closes == [None]
    ensures Execute(INIT, events + [UploadOk] + [CloseReader] + [SendResult] + [CloseReceives]).store == Execute(INIT, events).store
  {
    ExecuteSnoc(INIT, events, UploadOk);
    ExecuteSnoc(INIT, events + [UploadOk], CloseReader);
    ExecuteSnoc(INIT, events + [UploadOk] + [CloseReader], SendResult);
    ExecuteSnoc(INIT, events + [UploadOk] + [CloseReader] + [SendResult], CloseReceives);
  }

  /** Each read of the uploader takes from a Write in progress what it has room for; the
      Write ends, in full, with the read that takes the rest. */
  lemma {:induction false} ReadTakes(events: seq<Event>, room: nat)
    requires var st := Execute(INIT, events); st.caller.Writing? && st.uploader.Reading?
    ensures var st, st' := Execute(INIT, events), Execute(INIT, events + [Read(room)]);
            if room < |st.caller.left| then
              && st'.caller == Writing(st.caller.data, st.caller.left[room..]) && st'.writes == st.writes
              && st'.got == st.got + st.caller.left[..room]
            else
              && st'.caller.Idle? && st'.writes == st.writes + [WriteCall(st.caller.data, |st.caller.data|, true)]
              && st'.got == st.got + st.caller.left
  {
    var st := Execute(INIT, events);
    ExecuteSnoc(INIT, events, Read(room));
    assert st.caller.left[..|st.caller.left|] == st.caller.left;
  }

  lemma {:induction false} ExecuteSnoc(st: State, events: seq<Event>, ev: Event)
    ensures Execute(st, events + [ev]) == Step(Execute(st, events), ev)
  {
    assert (events + [ev])[..|events|] == events;
  }

  /** A Write blocked on the pipe is released once the upload is over. */
  lemma {:induction false} BlockedWriteReleased(events: seq<Event>)
    requires var st := Execute(INIT, events); st.caller.Writing? && Finishing(st.uploader)
    ensures var st := Step(Step(Execute(INIT, events), CloseReader), WriteAborts);
            st.caller.Idle? && !st.writes[|st.writes| - 1].ok
  {
    Safety(events);
  }

  /** Uploader steps still needed before a waiting Close returns, counting its own. */
  function StepsLeft(u: Uploader): nat {
    match u
    case Reading => 6
    case AtEnd => 5
    case Stored => 4
    case Finished(_) => 3
    case Unblocked(_) => 2
    case Reported(_) => 1
  }

  function NextStep(u: Uploader): Event {
    match u
    case Reading => SeeEnd
    case AtEnd => Event.Store
    case Stored => UploadOk
    case Finished(_) => CloseReader
    case Unblocked(_) => SendResult
    case Reported(_) => CloseReceives
  }

  lemma {:induction false} WaitingMoves(st: State)
    requires Inv(st) && st.caller.Closing? && st.closes == []
    ensures var st' := Step(st, NextStep(st.uploader));
            if st.uploader.Reported? then |st'.closes| == 1
            else st'.caller.Closing? && st'.closes == [] && StepsLeft(st'.uploader) == StepsLeft(st.uploader) - 1
  {
  }

  lemma {:induction false} CloseAdvances(events: seq<Event>)
    requires var st := Execute(INIT, events); st.caller.Closing? && st.closes == []
    ensures var st := Execute(INIT, events); var st' := Execute(INIT, events + [NextStep(st.uploader)]);
            if st.uploader.Reported? then |st'.closes| == 1
            else st'.caller.Closing? && st'.closes == [] && StepsLeft(st'.uploader) == StepsLeft(st.uploader) - 1
  {
    Safety(events);
    WaitingMoves(Execute(INIT, events));
    ExecuteSnoc(INIT, events, NextStep(Execute(INIT, events).uploader));
  }

  /** The first Close is never stuck: from every reachable state at most six steps let it
      return, the last one its own. */
  lemma {:induction false} CloseCompletes(events: seq<Event>) returns (more: seq<Event>)
    requires var st := Execute(INIT, events); st.caller.Closing? && st.closes == []
    ensures |Execute(INIT, events + more).closes| == 1
    ensures |more| == StepsLeft(Execute(INIT, events).uploader) <= 6
    decreases StepsLeft(Execute(INIT, events).uploader)
  {
    var u := Execute(INIT, events).uploader;
    more := [NextStep(u)];
    CloseAdvances(events);
    if !u.Reported? {
      var rest := CloseCompletes(events + more);
      assert events + more + rest == events + (more + rest);
      more := more + rest;
    }
  }

  lemma {:induction false} SecondCloseStays(events: seq<Event>, ev: Event)
    requires var st := Execute(INIT, events); st.closes != [] && st.caller.Closing?
    ensures var st := Execute(INIT, events); var st' := Step(st, ev); st'.caller.Closing? && st'.closes == st.closes
  {
    Safety(events);
  }

  /** Only one result is ever sent, so a second Close waits forever. */
  lemma {:induction false} SecondCloseBlocks(events: seq<Event>, later: seq<Event>)
    requires var st := Execute(INIT, events); st.closes != [] && st.caller.Closing?
    ensures Execute(INIT, events + later).caller.Closing?
    ensures Execute(INIT, events + later).closes == Execute(INIT, events).closes
  {
    if later == [] {
      assert events + later == events;
    } else {
      var n := |later| - 1;
      SecondCloseBlocks(events, later[..n]);
      SecondCloseStays(events + later[..n], later[n]);
      assert events + later == events + later[..n] + [later[n]];
      ExecuteSnoc(INIT, events + later[..n], later[n]);
    }
  }
}
