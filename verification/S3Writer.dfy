/** Key trimming and the io.WriteCloser of storage/s3.go. Write and Close are sequential
    code over the pipe system: each statement is one event, taken after any number of
    uploader steps. A call still blocked when those steps end has not returned. */
module S3Writer {
  import opened Outcomes
  import opened S3Pipe
  import Text

  // ---------- Object keys ----------

  predicate IsSlash(c: char) { c == '/' }

  function Prefix(key: string): Result<string, Error> {
    var trimmed := Text.Trim(key, IsSlash);
    if trimmed == "" then Err("S3 Driver: key cannot be empty") else Ok(trimmed)
  }

  predicate Bare(k: string) {
    k != "" && k[0] != '/' && k[|k| - 1] != '/'
  }

  /** The key that `prefix` yields is the only core of the input that has no slash at
      either end: surrounding slashes never matter, inner ones always do. */
  lemma {:induction false} PrefixIsCore(left: string, core: string, right: string)
    requires Text.All(left, IsSlash) && Text.All(right, IsSlash) && Bare(core)
    ensures Prefix(left + core + right) == Ok(core)
  {
    Text.TrimIsCore(left, core, right, IsSlash);
  }

  /** The only rejected keys are those made of slashes, the empty key included; a key
      that was accepted once is its own prefix. */
  lemma {:induction false} PrefixRejects(key: string)
    ensures Prefix(key).Err? <==> Text.All(key, IsSlash)
    ensures Prefix(key).Ok? ==> Bare(Prefix(key).value) && Prefix(Prefix(key).value) == Prefix(key)
  {
    Text.TrimMeaning(key, IsSlash);
    if Prefix(key).Ok? {
      var u := Prefix(key).value;
      PrefixIsCore("", u, "");
      assert "" + u + "" == u;
    }
  }

  // ---------- The writer ----------

  lemma UploaderAndWrite(st: State, ev: Event)
    requires !ev.OfCaller() && st.caller.Writing?
    ensures var st' := Step(st, ev);
            || (st'.caller.Writing? && st'.caller.data == st.caller.data && st'.writes == st.writes)
            || (st'.caller.Idle? && st'.writes == st.writes + [WriteCall(st.caller.data, |st.caller.data|, true)])
    ensures Step(st, ev).closes == st.closes && Step(st, ev).writerClosed == st.writerClosed
  {
  }

  lemma UploaderAlone(st: State, ev: Event)
    requires !ev.OfCaller() && !st.caller.Writing?
    ensures var st' := Step(st, ev);
            st'.caller == st.caller && st'.writes == st.writes && st'.closes == st.closes && st'.writerClosed == st.writerClosed
  {
  }

  class Writer {
    var sys: State
    ghost var events: seq<Event>

    ghost predicate Valid()
      reads this
    {
      sys == Execute(INIT, events)
    }

    /** Writer(key) once the key is accepted: an empty pipe and a reading uploader. */
    constructor ()
      ensures Valid() && sys == INIT && events == []
    {
      sys := INIT;
      events := [];
    }

    method Fire(ev: Event)
      requires Valid()
      modifies this
      ensures Valid() && events == old(events) + [ev] && sys == Step(old(sys), ev)
    {
      ExecuteSnoc(INIT, events, ev);
      sys := Step(sys, ev);
      events := events + [ev];
    }

    /** Any number of steps of the uploader goroutine. */
    method Uploads()
      requires Valid()
      modifies this
      ensures Valid() && sys.closes == old(sys.closes) && sys.writerClosed == old(sys.writerClosed)
      ensures !old(sys.caller).Writing? ==> sys.caller == old(sys.caller) && sys.writes == old(sys.writes)
      ensures old(sys.caller).Writing? ==>
                || (sys.caller.Writing? && sys.caller.data == old(sys.caller).data && sys.writes == old(sys.writes))
                || (sys.caller.Idle? && sys.writes == old(sys.writes) + [WriteCall(old(sys.caller).data, |old(sys.caller).data|, true)])
    {
      var script: seq<Event> := *;
      for k := 0 to |script|
        invariant Valid() && sys.closes == old(sys.closes) && sys.writerClosed == old(sys.writerClosed)
        invariant !old(sys.caller).Writing? ==> sys.caller == old(sys.caller) && sys.writes == old(sys.writes)
        invariant old(sys.caller).Writing? ==>
                    || (sys.caller.Writing? && sys.caller.data == old(sys.caller).data && sys.writes == old(sys.writes))
                    || (sys.caller.Idle? && sys.writes == old(sys.writes) + [WriteCall(old(sys.caller).data, |old(sys.caller).data|, true)])
      {
        if !script[k].OfCaller() {
          if sys.caller.Writing? { UploaderAndWrite(sys, script[k]); } else { UploaderAlone(sys, script[k]); }
          Fire(script[k]);
        }
      }
    }

    /** Write. None: still blocked on the pipe. A Write fails only after Close or after the
        upload is over, and it reports how many bytes were taken. */
    method Write(p: seq<Byte>) returns (r: Option<WriteCall>)
      requires Valid() && sys.caller.Idle?
      modifies this
      ensures Valid() && sys.closes == old(sys.closes)
      ensures r.None? ==> sys.caller.Writing? && sys.caller.data == p && sys.writes == old(sys.writes) && !sys.readerClosed
      ensures r.Some? ==> sys.caller.Idle? && sys.writes == old(sys.writes) + [r.value]
      ensures r.Some? ==> r.value.data == p && r.value.n <= |p| && (r.value.ok ==> r.value.n == |p|)
      ensures r.Some? && !r.value.ok ==> old(sys.writerClosed) || sys.readerClosed
      ensures old(sys.writerClosed) ==> r == Some(WriteCall(p, 0, false))
    {
      Uploads();
      Fire(CallWrite(p));
      if sys.caller.Idle? {
        return Some(WriteCall(p, 0, false));
      }
      Uploads();
      if sys.caller.Idle? {
        return Some(WriteCall(p, |p|, true));
      }
      if !sys.readerClosed {
        return None;
      }
      Safety(events);
      r := Some(WriteCall(p, |p| - |sys.caller.left|, false));
      Fire(WriteAborts);
    }

    /** Close. None: still waiting for the upload. Some(None) is a nil error. */
    method Close() returns (r: Option<Option<Error>>)
      requires Valid() && sys.caller.Idle?
      modifies this
      ensures Valid() && sys.writes == old(sys.writes) && sys.writerClosed
      ensures r.None? ==> sys.caller.Closing? && sys.errCh.None? && sys.closes == old(sys.closes)
      ensures r.Some? ==> sys.caller.Idle? && old(sys.closes) == [] && sys.closes == [r.value]
      ensures r == Some(None) ==> sys.store == Some(Written(sys.writes)) && AllOrNothing(sys.writes)
      ensures r.Some? && r.value.Some? ==> sys.uploader == Reported(r.value)
    {
      Fire(CallClose);
      Uploads();
      if sys.errCh.None? {
        return None;
      }
      Safety(events);
      r := sys.errCh;
      Fire(CloseReceives);
      FailureSurfaces(events);
      if r == Some(None) {
        CloseNilIsDurable(events);
      }
    }
  }
}
