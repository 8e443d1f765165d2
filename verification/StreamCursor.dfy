/** Reading a stream with a persisted cursor (stream/stream_s2_read.go): the position
    codec, the mapping of a record, and runs of a consumer that reads, handles,
    persists `Next`, crashes anywhere and reopens at what it persisted. */
module StreamCursor {
  import opened Outcomes
  import opened Decimal

  // ---------- One record ----------

  datatype Header = Header(name: string, value: string)

  /** A sequenced record; command records are filtered out of every session. */
  datatype Record = Record(seqNum: nat, body: string, headers: seq<Header>, command: bool)

  datatype StreamRecord = StreamRecord(body: string, headers: map<string, string>, position: string, next: string)

  /** Headers by name; a repeated name keeps its last value. */
  function HeaderMap(headers: seq<Header>): map<string, string> {
    if headers == [] then map[]
    else
      var last := headers[|headers| - 1];
      HeaderMap(headers[..|headers| - 1])[last.name := last.value]
  }

  /** The sequence number to resume at: one past the record, held at the top value. */
  function NextSeq(n: nat): nat { if n < MAX_UINT64 then n + 1 else n }

  function Encode(n: nat): string { Format(n) }

  /** The empty position means the beginning. */
  function Decode(position: string): Option<nat> {
    if position == "" then Some(0) else Parse(position, MAX_UINT64)
  }

  function ToStreamRecord(rec: Record): StreamRecord {
    StreamRecord(rec.body, HeaderMap(rec.headers), Encode(rec.seqNum), Encode(NextSeq(rec.seqNum)))
  }

  method StreamRecordFromS2(rec: Record) returns (r: StreamRecord)
    requires rec.seqNum < TWO_64
    ensures r == ToStreamRecord(rec)
    ensures r.body == rec.body && Decode(r.position) == Some(rec.seqNum)
    ensures Decode(r.next) == Some(if rec.seqNum == 0xFFFF_FFFF_FFFF_FFFF then rec.seqNum else rec.seqNum + 1)
    ensures forall name :: name in r.headers <==> exists i :: 0 <= i < |rec.headers| && rec.headers[i].name == name
    ensures forall i :: 0 <= i < |rec.headers| && (forall k :: i < k < |rec.headers| ==> rec.headers[k].name != rec.headers[i].name) ==>
                          rec.headers[i].name in r.headers && r.headers[rec.headers[i].name] == rec.headers[i].value
  {
    StreamRecordTells(rec);
    var headers := map[];
    for i := 0 to |rec.headers|
      invariant headers == HeaderMap(rec.headers[..i])
    {
      headers := headers[rec.headers[i].name := rec.headers[i].value];
      assert rec.headers[..i + 1][..i] == rec.headers[..i];
    }
    assert rec.headers[..|rec.headers|] == rec.headers;
    var next := rec.seqNum;
    if next < MAX_UINT64 {
      next := next + 1;
    }
    var position := FormatUint(rec.seqNum);
    var nextPosition := FormatUint(next);
    r := StreamRecord(rec.body, headers, position, nextPosition);
  }

  /** What a caller reads off a mapped record. */
  lemma {:induction false} StreamRecordTells(rec: Record)
    requires rec.seqNum < TWO_64
    ensures var r := ToStreamRecord(rec);
            && r.body == rec.body && Decode(r.position) == Some(rec.seqNum)
            && Decode(r.next) == Some(if rec.seqNum == 0xFFFF_FFFF_FFFF_FFFF then rec.seqNum else rec.seqNum + 1)
            && (forall name :: name in r.headers <==> exists i :: 0 <= i < |rec.headers| && rec.headers[i].name == name)
            && (forall i :: 0 <= i < |rec.headers| && (forall k :: i < k < |rec.headers| ==> rec.headers[k].name != rec.headers[i].name) ==>
                  rec.headers[i].name in r.headers && r.headers[rec.headers[i].name] == rec.headers[i].value)
  {
    DecodeEncode(rec.seqNum);
    DecodeEncode(NextSeq(rec.seqNum));
    forall name { HeaderNames(rec.headers, name); }
    forall i | 0 <= i < |rec.headers| && (forall k :: i < k < |rec.headers| ==> rec.headers[k].name != rec.headers[i].name)
      ensures rec.headers[i].name in HeaderMap(rec.headers) && HeaderMap(rec.headers)[rec.headers[i].name] == rec.headers[i].value
    {
      HeaderKept(rec.headers, i);
    }
  }

  /** No header appears that the record does not have. */
  lemma {:induction false} HeaderNames(headers: seq<Header>, name: string)
    ensures name in HeaderMap(headers) <==> exists i :: 0 <= i < |headers| && headers[i].name == name
  {
    if headers != [] {
      var n := |headers| - 1;
      HeaderNames(headers[..n], name);
      if name in HeaderMap(headers) && name != headers[n].name {
        var i :| 0 <= i < n && headers[..n][i].name == name;
        assert headers[i].name == name;
      }
      if i :| 0 <= i < |headers| && headers[i].name == name {
        if i < n { assert headers[..n][i].name == name; }
      }
    }
  }

  /** The empty position is the beginning. Besides it exactly the digit strings below 2^64
      are positions, each that of its value. */
  lemma {:induction false} DecodeAccepts(position: string)
    ensures Decode("") == Some(0)
    ensures Decode(position).Some? <==>
            position == "" || ((forall k :: 0 <= k < |position| ==> '0' <= position[k] <= '9') && Value(position) < 18446744073709551616)
    ensures position != "" && Decode(position).Some? ==> Decode(position).value == Value(position)
  {
  }

  method DecodeS2Position(position: string) returns (r: Option<nat>)
    ensures r == Decode(position)
  {
    if position == "" {
      return Some(0);
    }
    r := ParseUint(position, MAX_UINT64);
  }

  lemma {:induction false} DecodeEncode(n: nat)
    requires n <= MAX_UINT64
    ensures Decode(Encode(n)) == Some(n)
  {
    ParseFormat(n, MAX_UINT64);
  }

  lemma {:induction false} EncodeInjective(n: nat, m: nat)
    requires Encode(n) == Encode(m)
    ensures n == m
  {
    FormatValue(n);
    FormatValue(m);
  }

  /** A header is there under its name, unless a later one has the same name. */
  lemma {:induction false} HeaderKept(headers: seq<Header>, i: nat)
    requires i < |headers| && forall k :: i < k < |headers| ==> headers[k].name != headers[i].name
    ensures headers[i].name in HeaderMap(headers) && HeaderMap(headers)[headers[i].name] == headers[i].value
  {
    var n := |headers| - 1;
    if i < n { HeaderKept(headers[..n], i); }
  }

  // ---------- Read options and the end of a session ----------

  datatype Start = Tail | At(seqNum: nat)

  /** s2ReadOptionsFrom: a persisted cursor wins over the tail intent. */
  function StartOf(startPosition: string, fromTail: bool): Option<Start> {
    if startPosition == "" && fromTail then Some(Tail)
    else match Decode(startPosition)
      case None => None
      case Some(n) => Some(At(n))
  }

  datatype Stop = SessionError(text: string) | ContextError(text: string) | EndOfStream

  /** resolveTerminalErr. */
  function ResolveTerminal(sessionErr: Option<string>, ctxErr: Option<string>): Stop {
    if sessionErr.Some? then SessionError(sessionErr.value)
    else if ctxErr.Some? then ContextError(ctxErr.value)
    else EndOfStream
  }

  // ---------- Consumer runs ----------

  /** An open session: it yields ascending data records from `from` on; `current` is the
      record last yielded, `done` whether it has been handled. */
  datatype Session = Session(from: nat, current: Option<Record>, done: bool)

  datatype State = State(
    log: seq<Record>,
    cursor: string,
    fromTail: bool,
    session: Option<Session>,
    handled: set<nat>,
    deliveries: seq<nat>)

  datatype Event = Append(rec: Record) | Open | Deliver | Handle | Persist | Crash

  function Init(cursor: string, fromTail: bool): State { State([], cursor, fromTail, None, {}, []) }

  function End(log: seq<Record>): nat { if log == [] then 0 else log[|log| - 1].seqNum + 1 }

  /** The first data record at or after a sequence number. */
  function FirstFrom(log: seq<Record>, from: nat): Option<Record> {
    if log == [] then None
    else if log[0].seqNum >= from && !log[0].command then Some(log[0])
    else FirstFrom(log[1..], from)
  }

  /** One step; an event that is not enabled leaves the state alone. */
  function Step(st: State, ev: Event): State {
    match ev
    case Append(rec) =>
      if End(st.log) <= rec.seqNum <= MAX_UINT64 then st.(log := st.log + [rec]) else st
    case Open =>
      var start := StartOf(st.cursor, st.fromTail);
      if st.session.Some? || start.None? then st
      else st.(session := Some(Session(if start.value.Tail? then End(st.log) else start.value.seqNum, None, false)))
    case Deliver =>
      if st.session.None? || (st.session.value.current.Some? && !st.session.value.done) then st
      else
        var found := FirstFrom(st.log, st.session.value.from);
        if found.None? then st
        else
          var rec := found.value;
          st.(session := Some(Session(rec.seqNum + 1, Some(rec), false)), deliveries := st.deliveries + [rec.seqNum])
    case Handle =>
      if st.session.None? || st.session.value.current.None? then st
      else st.(session := Some(st.session.value.(done := true)), handled := st.handled + {st.session.value.current.value.seqNum})
    case Persist =>
      if st.session.None? || st.session.value.current.None? || !st.session.value.done then st
      else st.(cursor := ToStreamRecord(st.session.value.current.value).next)
    case Crash => st.(session := None)
  }

  function Execute(st: State, events: seq<Event>): State {
    if events == [] then st else Step(Execute(st, events[..|events| - 1]), events[|events| - 1])
  }

  function Cursor(st: State): nat
    requires Decode(st.cursor).Some?
  {
    Decode(st.cursor).value
  }

  ghost predicate Ascending(log: seq<Record>) {
    && (forall i, j :: 0 <= i < j < |log| ==> log[i].seqNum < log[j].seqNum)
    && (forall i :: 0 <= i < |log| ==> log[i].seqNum <= MAX_UINT64)
  }

  /** Every data record from `base` up to `n` has been handled, save perhaps `except`. */
  ghost predicate HandledBelow(st: State, base: nat, n: nat, except: Option<nat>) {
    forall i :: 0 <= i < |st.log| ==>
      !st.log[i].command && base <= st.log[i].seqNum < n && Some(st.log[i].seqNum) != except ==>
      st.log[i].seqNum in st.handled
  }

  ghost predicate SessionInv(st: State, s: Session, base: nat)
    requires Decode(st.cursor).Some?
  {
    && Cursor(st) <= s.from
    && (s.from <= base || s.from <= End(st.log))
    && (s.current.Some? ==>
          s.from == s.current.value.seqNum + 1 && s.current.value.seqNum <= MAX_UINT64
          && Cursor(st) <= NextSeq(s.current.value.seqNum))
    && HandledBelow(st, base, s.from, if s.current.Some? && !s.done then Some(s.current.value.seqNum) else None)
  }

  /** `base` is where the consumer started. */
  ghost predicate Inv(st: State, base: nat) {
    && Ascending(st.log)
    && Decode(st.cursor).Some?
    && base <= Cursor(st)
    && (Cursor(st) <= base || Cursor(st) <= End(st.log))
    && (st.cursor == "" ==> !st.fromTail)
    && HandledBelow(st, base, Cursor(st), None)
    && (st.session.Some? ==> SessionInv(st, st.session.value, base))
  }

  lemma {:induction false} FirstFromIs(log: seq<Record>, from: nat)
    requires Ascending(log)
    ensures FirstFrom(log, from).None? ==> forall i :: 0 <= i < |log| && log[i].seqNum >= from ==> log[i].command
    ensures FirstFrom(log, from).Some? ==>
              var rec := FirstFrom(log, from).value;
              && rec in log && !rec.command && rec.seqNum >= from
              && forall i :: 0 <= i < |log| && from <= log[i].seqNum < rec.seqNum ==> log[i].command
  {
    if log != [] {
      assert forall i :: 0 < i < |log| ==> log[i] == log[1..][i - 1];
      FirstFromIs(log[1..], from);
    }
  }

  lemma {:induction false} StepKeepsInv(st: State, ev: Event, base: nat)
    requires Inv(st, base)
    ensures Inv(Step(st, ev), base)
    ensures Cursor(st) <= Cursor(Step(st, ev))
  {
    match ev
    case Append(rec) => AppendKeeps(st, rec, base);
    case Open => OpenKeeps(st, base);
    case Deliver => DeliverKeeps(st, base);
    case Handle => HandleKeeps(st, base);
    case Persist => PersistKeeps(st, base);
    case Crash =>
  }

  lemma {:induction false} AppendKeeps(st: State, rec: Record, base: nat)
    requires Inv(st, base)
    ensures Inv(Step(st, Append(rec)), base)
  {
    if End(st.log) <= rec.seqNum <= MAX_UINT64 {
      var st' := Step(st, Append(rec));
      AscendingSnoc(st.log, rec);
      HandledSnoc(st, rec, base, Cursor(st), None);
      if st.session.Some? {
        var s := st.session.value;
        HandledSnoc(st, rec, base, s.from, if s.current.Some? && !s.done then Some(s.current.value.seqNum) else None);
      }
    }
  }

  lemma {:induction false} AscendingSnoc(log: seq<Record>, rec: Record)
    requires Ascending(log) && End(log) <= rec.seqNum <= MAX_UINT64
    ensures Ascending(log + [rec])
  {
    assert log != [] ==> forall i :: 0 <= i < |log| ==> log[i].seqNum <= log[|log| - 1].seqNum;
  }

  /** A new record lies at or past every bound that the log has reached. */
  lemma {:induction false} HandledSnoc(st: State, rec: Record, base: nat, n: nat, except: Option<nat>)
    requires HandledBelow(st, base, n, except) && End(st.log) <= rec.seqNum && (n <= base || n <= End(st.log))
    ensures HandledBelow(st.(log := st.log + [rec]), base, n, except)
  {
  }

  lemma {:induction false} OpenKeeps(st: State, base: nat)
    requires Inv(st, base)
    ensures Inv(Step(st, Open), base)
  {
  }

  lemma {:induction false} HandleKeeps(st: State, base: nat)
    requires Inv(st, base)
    ensures Inv(Step(st, Handle), base)
  {
  }

  lemma {:induction false} DeliverKeeps(st: State, base: nat)
    requires Inv(st, base)
    ensures Inv(Step(st, Deliver), base)
  {
    var st' := Step(st, Deliver);
    if st' != st {
      var from := st.session.value.from;
      FirstFromIs(st.log, from);
      PassedOver(st, base, from, FirstFrom(st.log, from).value);
      assert SessionInv(st', st'.session.value, base);
    }
  }

  /** Between the session's place and the record it yields there are only commands. */
  lemma {:induction false} PassedOver(st: State, base: nat, from: nat, rec: Record)
    requires HandledBelow(st, base, from, None)
    requires Ascending(st.log) && rec in st.log && rec.seqNum >= from
    requires forall i :: 0 <= i < |st.log| && from <= st.log[i].seqNum < rec.seqNum ==> st.log[i].command
    ensures HandledBelow(st, base, rec.seqNum + 1, Some(rec.seqNum))
    ensures rec.seqNum + 1 <= End(st.log)
  {
  }

  lemma {:induction false} PersistKeeps(st: State, base: nat)
    requires Inv(st, base)
    ensures Inv(Step(st, Persist), base)
    ensures Cursor(st) <= Cursor(Step(st, Persist))
  {
    if st.session.Some? && st.session.value.current.Some? {
      DecodeEncode(NextSeq(st.session.value.current.value.seqNum));
    }
  }

  lemma {:induction false} Safety(st: State, events: seq<Event>, base: nat)
    requires Inv(st, base)
    ensures Inv(Execute(st, events), base)
    ensures Cursor(st) <= Cursor(Execute(st, events))
  {
    if events != [] {
      Safety(st, events[..|events| - 1], base);
      StepKeepsInv(Execute(st, events[..|events| - 1]), events[|events| - 1], base);
    }
  }

  /** At-least-once: for a consumer that starts at a position (not at the tail), whatever
      crashes and reopens happen, every data record below the persisted cursor has been
      handled, and the cursor never moves back. */
  lemma {:induction false} NothingSkipped(cursor: string, fromTail: bool, events: seq<Event>, later: seq<Event>)
    requires Decode(cursor).Some? && (cursor == "" ==> !fromTail)
    ensures cursor == "" || AllDigits(cursor)
    ensures var st, base := Execute(Init(cursor, fromTail), events), if cursor == "" then 0 else Value(cursor);
            && Decode(st.cursor).Some?
            && HandledBelow(st, base, Cursor(st), None)
            && Decode(Execute(st, later).cursor).Some?
            && Cursor(st) <= Cursor(Execute(st, later))
  {
    var init := Init(cursor, fromTail);
    Safety(init, events, Decode(cursor).value);
    Safety(Execute(init, events), later, Decode(cursor).value);
  }

  /** Nothing below the cursor is ever delivered again. */
  lemma {:induction false} DeliveriesFromCursor(st: State, events: seq<Event>, base: nat)
    requires Inv(st, base)
    ensures var st' := Execute(st, events);
            && st.deliveries <= st'.deliveries
            && forall i :: |st.deliveries| <= i < |st'.deliveries| ==> st'.deliveries[i] >= Cursor(st)
  {
    if events != [] {
      var n := |events| - 1;
      var mid := Execute(st, events[..n]);
      DeliveriesFromCursor(st, events[..n], base);
      Safety(st, events[..n], base);
      if events[n].Deliver? && mid.session.Some? {
        FirstFromIs(mid.log, mid.session.value.from);
      }
    }
  }

  /** A record whose `Next` was persisted is not redelivered, unless it is the one record
      at the top sequence number. */
  lemma {:induction false} NoRedelivery(st: State, events: seq<Event>, rec: Record, base: nat)
    requires Inv(st, base)
    requires st.cursor == ToStreamRecord(rec).next && rec.seqNum < MAX_UINT64
    ensures var st' := Execute(st, events);
            forall i :: |st.deliveries| <= i < |st'.deliveries| ==> st'.deliveries[i] != rec.seqNum
  {
    DecodeEncode(rec.seqNum + 1);
    DeliveriesFromCursor(st, events, base);
  }

  lemma {:induction false} ExecuteSnoc(st: State, events: seq<Event>, ev: Event)
    ensures Execute(st, events + [ev]) == Step(Execute(st, events), ev)
  {
    assert (events + [ev])[..|events|] == events;
  }

  lemma {:induction false} ExecuteConcat(st: State, a: seq<Event>, b: seq<Event>)
    ensures Execute(st, a + b) == Execute(Execute(st, a), b)
  {
    if b == [] {
      assert a + b == a;
    } else {
      assert (a + b)[..|a + b| - 1] == a + b[..|b| - 1];
      ExecuteConcat(st, a, b[..|b| - 1]);
    }
  }

  lemma {:induction false} ExecuteTwo(st: State, a: Event, b: Event)
    ensures Execute(st, [a, b]) == Step(Step(st, a), b)
  {
    ExecuteSnoc(st, [], a);
    ExecuteSnoc(st, [a], b);
    assert [] + [a] == [a] && [a] + [b] == [a, b];
  }

  lemma {:induction false} TopIsFirst(log: seq<Record>, rec: Record)
    requires Ascending(log) && rec in log && !rec.command && rec.seqNum == MAX_UINT64
    ensures FirstFrom(log, MAX_UINT64) == Some(rec)
  {
    FirstFromIs(log, MAX_UINT64);
    var i :| 0 <= i < |log| && log[i] == rec;
    assert log[i].seqNum >= MAX_UINT64;
  }

  /** The record at the top sequence number is redelivered after every reopen. */
  lemma {:induction false} TopIsRedelivered(st: State, rec: Record, base: nat)
    requires Inv(st, base) && st.session.None?
    requires rec in st.log && !rec.command && rec.seqNum == MAX_UINT64
    requires st.cursor == ToStreamRecord(rec).next
    ensures Execute(st, [Open, Deliver]).deliveries == st.deliveries + [rec.seqNum]
  {
    DecodeEncode(MAX_UINT64);
    ExecuteTwo(st, Open, Deliver);
    TopIsFirst(st.log, rec);
    assert StartOf(st.cursor, st.fromTail) == Some(At(MAX_UINT64));
  }

  // ---------- Catching up ----------

  /** Nothing is left to do: every data record from `base` on is handled, and the cursor
      stands past it. */
  ghost predicate CaughtUp(st: State, base: nat) {
    && Decode(st.cursor).Some?
    && forall i :: 0 <= i < |st.log| && !st.log[i].command && st.log[i].seqNum >= base ==>
         st.log[i].seqNum in st.handled && NextSeq(st.log[i].seqNum) <= Cursor(st)
  }

  /** One round of the consumer on the next data record. */
  lemma {:induction false} Round(st: State) returns (st': State)
    requires st.session.Some? && (st.session.value.current.None? || st.session.value.done)
    requires FirstFrom(st.log, st.session.value.from).Some?
    ensures st' == Execute(st, [Deliver] + [Handle] + [Persist])
    ensures var rec := FirstFrom(st.log, st.session.value.from).value;
            && st'.log == st.log && st'.cursor == ToStreamRecord(rec).next
            && st'.session == Some(Session(rec.seqNum + 1, Some(rec), true))
            && rec.seqNum in st'.handled
  {
    var rec := FirstFrom(st.log, st.session.value.from).value;
    var s1 := Step(st, Deliver);
    assert s1 == st.(session := Some(Session(rec.seqNum + 1, Some(rec), false)), deliveries := st.deliveries + [rec.seqNum]);
    var s2 := Step(s1, Handle);
    assert s2 == s1.(session := Some(Session(rec.seqNum + 1, Some(rec), true)), handled := st.handled + {rec.seqNum});
    st' := Step(s2, Persist);
    ExecuteThree(st, Deliver, Handle, Persist);
  }

  lemma {:induction false} ExecuteThree(st: State, a: Event, b: Event, c: Event)
    ensures Execute(st, [a] + [b] + [c]) == Step(Step(Step(st, a), b), c)
  {
    assert [a] == [] + [a];
    ExecuteSnoc(st, [], a);
    ExecuteSnoc(st, [a], b);
    ExecuteSnoc(st, [a] + [b], c);
  }

  /** The session stands just past what the cursor says, up to command records. */
  ghost predicate Abreast(st: State, base: nat) {
    && Inv(st, base) && st.session.Some? && (st.session.value.current.None? || st.session.value.done)
    && forall i :: 0 <= i < |st.log| && !st.log[i].command && base <= st.log[i].seqNum < st.session.value.from ==>
         NextSeq(st.log[i].seqNum) <= Cursor(st)
  }

  lemma {:induction false} StaysAbreast(st': State, rec: Record, base: nat)
    requires Inv(st', base) && st'.cursor == ToStreamRecord(rec).next && rec.seqNum <= MAX_UINT64
    requires st'.session == Some(Session(rec.seqNum + 1, Some(rec), true))
    ensures Abreast(st', base)
  {
    DecodeEncode(NextSeq(rec.seqNum));
    forall i | 0 <= i < |st'.log| && st'.log[i].seqNum < rec.seqNum + 1
      ensures NextSeq(st'.log[i].seqNum) <= Cursor(st')
    {
    }
  }

  /** With no data record left past the session, all are handled. */
  lemma {:induction false} NothingMore(st: State, base: nat)
    requires Abreast(st, base) && FirstFrom(st.log, st.session.value.from).None?
    ensures CaughtUp(st, base)
  {
    var from := st.session.value.from;
    FirstFromIs(st.log, from);
    assert HandledBelow(st, base, from, None);
  }

  lemma {:induction false} Rounds(st: State, base: nat) returns (more: seq<Event>)
    requires Abreast(st, base)
    ensures var end := Execute(st, more); end.log == st.log && CaughtUp(end, base)
    decreases MAX_UINT64 + 2 - st.session.value.from
  {
    var from := st.session.value.from;
    if FirstFrom(st.log, from).None? {
      NothingMore(st, base);
      more := [];
    } else {
      var round := [Deliver] + [Handle] + [Persist];
      var rec := NextRecord(st, base);
      var st' := Round(st);
      Safety(st, round, base);
      StaysAbreast(st', rec, base);
      var rest := Rounds(st', base);
      more := round + rest;
      ExecuteConcat(st, round, rest);
    }
  }

  lemma {:induction false} NextRecord(st: State, base: nat) returns (rec: Record)
    requires Inv(st, base) && st.session.Some? && FirstFrom(st.log, st.session.value.from).Some?
    ensures FirstFrom(st.log, st.session.value.from) == Some(rec) && st.session.value.from <= rec.seqNum <= MAX_UINT64
  {
    FirstFromIs(st.log, st.session.value.from);
    rec := FirstFrom(st.log, st.session.value.from).value;
  }

  /** Whatever happened before, a consumer that reopens at its cursor can handle every data
      record of the stream from where it started, and persist past them all. */
  lemma {:induction false} CanCatchUp(cursor: string, fromTail: bool, events: seq<Event>) returns (more: seq<Event>)
    requires Decode(cursor).Some? && (cursor == "" ==> !fromTail)
    ensures cursor == "" || AllDigits(cursor)
    ensures var st, end := Execute(Init(cursor, fromTail), events), Execute(Init(cursor, fromTail), events + more);
            end.log == st.log && CaughtUp(end, if cursor == "" then 0 else Value(cursor))
  {
    var init, base := Init(cursor, fromTail), Decode(cursor).value;
    var st := Execute(init, events);
    Safety(init, events, base);
    var anew := Reopen(st, base);
    var rest := Rounds(anew, base);
    more := [Crash] + [Open] + rest;
    ExecuteConcat(st, [Crash] + [Open], rest);
    ExecuteConcat(init, events, more);
  }

  lemma {:induction false} Reopen(st: State, base: nat) returns (anew: State)
    requires Inv(st, base)
    ensures anew == Execute(st, [Crash] + [Open]) && anew.log == st.log && Abreast(anew, base)
  {
    anew := Execute(st, [Crash] + [Open]);
    Reopened(st);
    Safety(st, [Crash] + [Open], base);
    Stands(anew, base);
  }

  lemma {:induction false} Reopened(st: State)
    requires Decode(st.cursor).Some? && (st.cursor == "" ==> !st.fromTail)
    ensures Execute(st, [Crash] + [Open]) == st.(session := Some(Session(Cursor(st), None, false)))
  {
    assert [Crash] == [] + [Crash];
    ExecuteSnoc(st, [], Crash);
    ExecuteSnoc(st, [Crash], Open);
  }

  lemma {:induction false} Stands(st: State, base: nat)
    requires Inv(st, base)
    ensures forall i :: 0 <= i < |st.log| && st.log[i].seqNum < Cursor(st) ==> NextSeq(st.log[i].seqNum) <= Cursor(st)
  {
  }

  // ---------- Starting at the tail ----------

  /** A consumer that first opens an empty stream never loses a later record. */
  ghost predicate NeverSkips(cursor: string, fromTail: bool)
    requires Decode(cursor).Some?
  {
    forall events: seq<Event> ::
      var st := Execute(Init(cursor, fromTail), [Open] + events);
      Decode(st.cursor).Some? && HandledBelow(st, Decode(cursor).value, Cursor(st), None)
  }

  /** Open at the tail, miss record 0 by a crash before anything is persisted, and
      reopen at the new tail ... */
  lemma {:induction false} TailMisses(r0: Record, r1: Record) returns (events: seq<Event>)
    requires r0 == Record(0, "", [], false) && r1 == Record(1, "", [], false)
    ensures Execute(Init("", true), [Open] + events)
         == State([r0, r1], "", true, Some(Session(1, None, false)), {}, [])
  {
    var init := Init("", true);
    events := [Append(r0), Crash, Open, Append(r1)];
    TailWalk(r0, r1);
    ExecuteTwo(init, Open, Append(r0));
    ExecuteSnoc(init, [Open, Append(r0)], Crash);
    ExecuteSnoc(init, [Open, Append(r0)] + [Crash], Open);
    ExecuteSnoc(init, [Open, Append(r0)] + [Crash] + [Open], Append(r1));
    assert [Open, Append(r0)] + [Crash] + [Open] + [Append(r1)] == [Open] + events;
  }

  lemma {:induction false} TailWalk(r0: Record, r1: Record)
    requires r0 == Record(0, "", [], false) && r1 == Record(1, "", [], false)
    ensures Step(Step(Step(Step(Step(Init("", true), Open), Append(r0)), Crash), Open), Append(r1))
         == State([r0, r1], "", true, Some(Session(1, None, false)), {}, [])
  {
    var s2 := Step(Step(Init("", true), Open), Append(r0));
    assert s2 == State([r0], "", true, Some(Session(0, None, false)), {}, []);
    var s4 := Step(Step(s2, Crash), Open);
    assert s4 == State([r0], "", true, Some(Session(1, None, false)), {}, []);
    assert [r0] + [r1] == [r0, r1];
  }

  /** ... then persist past it. */
  lemma {:induction false} TailSkips()
    ensures !NeverSkips("", true)
  {
    var r0, r1 := Record(0, "", [], false), Record(1, "", [], false);
    var init := Init("", true);
    var e := TailMisses(r0, r1);
    TailPersists(Execute(init, [Open] + e), r0, r1);
    ExecuteSnoc(init, [Open] + e, Deliver);
    ExecuteSnoc(init, [Open] + e + [Deliver], Handle);
    ExecuteSnoc(init, [Open] + e + [Deliver] + [Handle], Persist);
    assert [Open] + e + [Deliver] + [Handle] + [Persist] == [Open] + (e + [Deliver] + [Handle] + [Persist]);
  }

  lemma {:induction false} TailPersists(st: State, r0: Record, r1: Record)
    requires r0 == Record(0, "", [], false) && r1 == Record(1, "", [], false)
    requires st == State([r0, r1], "", true, Some(Session(1, None, false)), {}, [])
    ensures var end := Step(Step(Step(st, Deliver), Handle), Persist);
            Decode(end.cursor) == Some(2) && !HandledBelow(end, 0, 2, None)
  {
    assert [r0, r1][1..] == [r1];
    assert FirstFrom([r1], 1) == Some(r1);
    assert FirstFrom([r0, r1], 1) == Some(r1);
    var s1 := Step(st, Deliver);
    assert s1.session == Some(Session(2, Some(r1), false));
    var s2 := Step(s1, Handle);
    assert s2.handled == {1};
    var end := Step(s2, Persist);
    DecodeEncode(2);
    assert end.log[0] == r0 && 0 !in end.handled;
  }

  /** No loss in any run exactly when the consumer holds a cursor or starts at the
      beginning; FromTail with nothing persisted can lose records. */
  lemma {:induction false} NeverSkipsExactly(cursor: string, fromTail: bool)
    requires Decode(cursor).Some?
    ensures NeverSkips(cursor, fromTail) <==> (cursor != "" || !fromTail)
  {
    if cursor == "" && fromTail {
      TailSkips();
    } else {
      forall events: seq<Event>
        ensures var st := Execute(Init(cursor, fromTail), [Open] + events);
                Decode(st.cursor).Some? && HandledBelow(st, Decode(cursor).value, Cursor(st), None)
      {
        NothingSkipped(cursor, fromTail, [Open] + events, []);
      }
    }
  }
}
