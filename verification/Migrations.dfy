/** Cross-process schema migration (localdb/localdb.go).

    Any number of processes share one database file. Each migration run reads a
    version outside every lock, then loops: BEGIN IMMEDIATE, re-read, apply or
    skip, bump, COMMIT. The system is a function on states driven by events; an
    execution is the fold of an arbitrary event sequence, so a statement about
    `Execute(Init(catalog), events)` for all `events` covers every interleaving,
    every failed statement and every crash. */
module Migrations {
  import opened Outcomes

  type Statement = string
  type Pid = nat

  /** `Framework` is versioned by user_version, `Module` by a tracker row. */
  datatype Schema = Framework | Module(name: string)

  /** A migration list as shipped by some binary. */
  datatype Run = Run(schema: Schema, list: seq<Statement>)

  /** What the file holds: versions, and the log of statements executed so far. */
  datatype Content = Content(version: map<Schema, nat>, applied: map<Schema, seq<Statement>>)
  {
    function Version(s: Schema): nat { if s in version then version[s] else 0 }

    function Applied(s: Schema): seq<Statement> { if s in applied then applied[s] else [] }

    /** Entry 0 of every framework list creates the tracker table. */
    predicate HasTracker() { Applied(Framework) != [] }

    predicate Readable(s: Schema) { s.Module? ==> HasTracker() }

    function Execute(s: Schema, stmt: Statement): Content {
      this.(applied := applied[s := Applied(s) + [stmt]])
    }

    function Bump(s: Schema, v: nat): Content { this.(version := version[s := v]) }
  }

  /** Where a process stands in its current run. `i` is the loop counter. */
  datatype Pc =
    | Idle
    | Reading(run: Run)
    | Looping(run: Run, i: nat)
    | Begun(run: Run, i: nat)
    | Matched(run: Run, i: nat)
    | Executed(run: Run, i: nat)
    | Ready(run: Run, i: nat)
    | Finished(run: Run)
    | Failed(run: Run)
  {
    predicate InTx() { Begun? || Matched? || Executed? || Ready? }

    predicate Resting() { Idle? || Finished? || Failed? }
  }

  /** `isOpen` is "m.db is not nil": some framework run of this process returned nil. */
  datatype Proc = Proc(framework: seq<Statement>, isOpen: bool, pc: Pc)

  datatype State = State(
    catalog: set<Run>,
    committed: Content,
    lock: Option<Pid>,
    pending: Content,
    procs: map<Pid, Proc>)

  datatype Event =
    | Spawn(pid: Pid, framework: seq<Statement>)
    | StartOpen(pid: Pid)
    | StartModule(pid: Pid, run: Run)
    | ReadVersion(pid: Pid)
    | Begin(pid: Pid)
    | ReRead(pid: Pid)
    | Exec(pid: Pid)
    | BumpVersion(pid: Pid)
    | Commit(pid: Pid)
    | Return(pid: Pid)
    | Fail(pid: Pid)
    | Crash(pid: Pid)

  const EMPTY := Content(map[], map[])

  function Init(catalog: set<Run>): State { State(catalog, EMPTY, None, EMPTY, map[]) }

  function Goto(st: State, p: Pid, pc: Pc): State
    requires p in st.procs
  {
    st.(procs := st.procs[p := st.procs[p].(pc := pc)])
  }

  /** Dropping the lock discards whatever the holder had pending. */
  function Release(st: State, p: Pid): State {
    if st.lock == Some(p) then st.(lock := None) else st
  }

  /** One atomic step. An event that is not enabled leaves the state alone. */
  function Step(st: State, ev: Event): State {
    if ev.Spawn? then
      if ev.pid !in st.procs && Run(Framework, ev.framework) in st.catalog then
        st.(procs := st.procs[ev.pid := Proc(ev.framework, false, Idle)])
      else st
    else if ev.pid !in st.procs then st
    else StepOf(st, ev)
  }

  function StepOf(st: State, ev: Event): State
    requires ev.pid in st.procs && !ev.Spawn?
  {
    var p := ev.pid;
    var proc := st.procs[p];
    var pc := proc.pc;
    match ev
    case StartOpen(_) =>
      if pc.Resting() && !proc.isOpen then Goto(st, p, Reading(Run(Framework, proc.framework))) else st
    case StartModule(_, run) =>
      if pc.Resting() && proc.isOpen && run.schema.Module? && run in st.catalog then Goto(st, p, Reading(run)) else st
    case ReadVersion(_) =>
      if !pc.Reading? then st
      else if !st.committed.Readable(pc.run.schema) then Goto(st, p, Failed(pc.run))
      else
        var v := st.committed.Version(pc.run.schema);
        Goto(st, p, if v > |pc.run.list| then Failed(pc.run) else Looping(pc.run, v))
    case Begin(_) =>
      if pc.Looping? && pc.i < |pc.run.list| && st.lock.None? then
        Goto(st, p, Begun(pc.run, pc.i)).(lock := Some(p), pending := st.committed)
      else st
    case ReRead(_) =>
      if !pc.Begun? then st
      else if !st.pending.Readable(pc.run.schema) then Goto(Release(st, p), p, Failed(pc.run))
      else if st.pending.Version(pc.run.schema) != pc.i then Goto(st, p, Ready(pc.run, pc.i))
      else Goto(st, p, Matched(pc.run, pc.i))
    case Exec(_) =>
      if pc.Matched? && pc.i < |pc.run.list| then
        Goto(st, p, Executed(pc.run, pc.i)).(pending := st.pending.Execute(pc.run.schema, pc.run.list[pc.i]))
      else st
    case BumpVersion(_) =>
      if pc.Executed? then
        Goto(st, p, Ready(pc.run, pc.i)).(pending := st.pending.Bump(pc.run.schema, pc.i + 1))
      else st
    case Commit(_) =>
      if pc.Ready? then
        Goto(st, p, Looping(pc.run, pc.i + 1)).(committed := st.pending, lock := None)
      else st
    case Return(_) =>
      if pc.Looping? && pc.i >= |pc.run.list| then
        st.(procs := st.procs[p := Proc(proc.framework, proc.isOpen || pc.run.schema.Framework?, Finished(pc.run))])
      else st
    case Fail(_) =>
      if pc.Resting() then st else Goto(Release(st, p), p, Failed(pc.run))
    case Crash(_) =>
      Release(st, p).(procs := st.procs - {p})
  }

  function Execute(st: State, events: seq<Event>): State {
    if events == [] then st else Step(Execute(st, events[..|events| - 1]), events[|events| - 1])
  }

  lemma {:induction false} ExecuteConcat(st: State, a: seq<Event>, b: seq<Event>)
    ensures Execute(st, a + b) == Execute(Execute(st, a), b)
  {
    if b == [] {
      assert a + b == a;
    } else {
      var b' := b[..|b| - 1];
      assert (a + b)[..|a + b| - 1] == a + b';
      ExecuteConcat(st, a, b');
    }
  }

  // ---------- The contract on callers ----------

  /** Lists are only ever appended to, and every framework list has entry 0. */
  ghost predicate AppendOnly(catalog: set<Run>) {
    && (forall r, r' :: r in catalog && r' in catalog && r.schema == r'.schema ==> r.list <= r'.list || r'.list <= r.list)
    && (forall r :: r in catalog && r.schema.Framework? ==> r.list != [])
  }

  // ---------- The invariant ----------

  /** The log of a schema is as long as its version and starts some shipped list. */
  ghost predicate Sound(catalog: set<Run>, c: Content, s: Schema) {
    && |c.Applied(s)| == c.Version(s)
    && (c.Applied(s) == [] || exists r :: r in catalog && r.schema == s && c.Applied(s) <= r.list)
  }

  ghost predicate ProcInv(st: State, p: Pid, proc: Proc) {
    && Run(Framework, proc.framework) in st.catalog
    && (proc.isOpen ==> |proc.framework| <= st.committed.Version(Framework))
    && (proc.pc.InTx() <==> st.lock == Some(p))
    && (!proc.pc.Idle? ==>
      && proc.pc.run in st.catalog
      && (proc.pc.run.schema.Framework? ==> proc.pc.run.list == proc.framework)
      && (proc.pc.run.schema.Module? ==> proc.isOpen))
    && PcInv(st, proc.pc)
  }

  ghost predicate PcInv(st: State, pc: Pc) {
    match pc
    case Looping(run, i) =>
      i <= |run.list| && i <= st.committed.Version(run.schema)
    case Begun(run, i) =>
      i < |run.list| && i <= st.committed.Version(run.schema) && st.pending == st.committed
    case Matched(run, i) =>
      i < |run.list| && i == st.committed.Version(run.schema) && st.pending == st.committed
    case Executed(run, i) =>
      i < |run.list| && i == st.committed.Version(run.schema) && st.pending == st.committed.Execute(run.schema, run.list[i])
    case Ready(run, i) =>
      && i < |run.list|
      && (|| (i < st.committed.Version(run.schema) && st.pending == st.committed)
          || (&& i == st.committed.Version(run.schema)
              && st.pending == st.committed.Execute(run.schema, run.list[i]).Bump(run.schema, i + 1)))
    case Finished(run) => |run.list| <= st.committed.Version(run.schema)
    case _ => true
  }

  ghost predicate Inv(st: State) {
    && AppendOnly(st.catalog)
    && (forall s :: Sound(st.catalog, st.committed, s))
    && (st.lock.Some? ==> st.lock.value in st.procs)
    && (forall p :: p in st.procs ==> ProcInv(st, p, st.procs[p]))
  }

  /** What any amount of activity may do to the file: logs and versions only grow. */
  ghost predicate Evolves(c: Content, c': Content) {
    forall s :: c.Applied(s) <= c'.Applied(s) && c.Version(s) <= c'.Version(s)
  }

  /** The applied log and any shipped list of the schema agree as far as both go. */
  lemma AppliedAgrees(st: State, run: Run)
    requires Inv(st) && run in st.catalog
    ensures var v := st.committed.Version(run.schema);
            var log := st.committed.Applied(run.schema);
            && |log| == v
            && (v <= |run.list| ==> log == run.list[..v])
            && (|run.list| <= v ==> log[..|run.list|] == run.list)
  {
    assert Sound(st.catalog, st.committed, run.schema);
    var log := st.committed.Applied(run.schema);
    if log != [] {
      var r :| r in st.catalog && r.schema == run.schema && log <= r.list;
      assert r.list <= run.list || run.list <= r.list;
    }
  }

  lemma {:induction false} CommitSound(st: State, p: Pid)
    requires Inv(st) && p in st.procs && st.procs[p].pc.Ready?
    ensures Evolves(st.committed, st.pending)
    ensures forall s :: Sound(st.catalog, st.pending, s)
    ensures st.pending.Version(st.procs[p].pc.run.schema) >= st.procs[p].pc.i + 1
  {
    var pc := st.procs[p].pc;
    var run := pc.run;
    assert ProcInv(st, p, st.procs[p]);
    AppliedAgrees(st, run);
    forall s ensures Sound(st.catalog, st.pending, s)
    {
      assert Sound(st.catalog, st.committed, s);
      if s == run.schema && st.pending != st.committed {
        assert st.pending.Applied(s) == run.list[..pc.i + 1];
        assert st.pending.Applied(s) <= run.list;
      }
    }
  }

  /** A process other than the one that moved keeps its invariant. */
  lemma {:induction false} OthersKeep(st: State, st': State, q: Pid, proc: Proc)
    requires ProcInv(st, q, proc)
    requires st'.catalog == st.catalog
    requires Evolves(st.committed, st'.committed)
    requires st'.lock == Some(q) <==> st.lock == Some(q)
    requires st.lock == Some(q) ==> st'.committed == st.committed && st'.pending == st.pending
    ensures ProcInv(st', q, proc)
  {
    assert st.committed.Version(Framework) <= st'.committed.Version(Framework);
    if !proc.pc.Idle? {
      assert st.committed.Version(proc.pc.run.schema) <= st'.committed.Version(proc.pc.run.schema);
    }
  }

  /** What a step by `ev.pid` leaves alone. */
  lemma {:induction false} StepFrame(st: State, ev: Event)
    requires Inv(st)
    ensures var st' := Step(st, ev);
            && st'.catalog == st.catalog
            && Evolves(st.committed, st'.committed)
            && (forall s :: Sound(st.catalog, st'.committed, s))
            && (forall q :: q != ev.pid ==> (q in st'.procs <==> q in st.procs))
            && (forall q :: q != ev.pid && q in st.procs ==>
                  && st'.procs[q] == st.procs[q]
                  && (st'.lock == Some(q) <==> st.lock == Some(q))
                  && (st.lock == Some(q) ==> st'.committed == st.committed && st'.pending == st.pending))
            && (st'.lock.Some? ==> st'.lock.value in st'.procs)
  {
    var p := ev.pid;
    StepMovesOne(st, ev);
    if p in st.procs && !ev.Spawn? {
      assert ProcInv(st, p, st.procs[p]);
      if ev.Commit? && st.procs[p].pc.Ready? { CommitSound(st, p); }
    }
  }

  lemma {:induction false} StepMovesOne(st: State, ev: Event)
    ensures var st' := Step(st, ev);
            && st'.catalog == st.catalog
            && (forall q :: q != ev.pid ==> (q in st'.procs <==> q in st.procs))
            && (forall q :: q != ev.pid && q in st.procs ==> st'.procs[q] == st.procs[q])
  {
  }

  lemma MoverKeeps(st: State, ev: Event)
    requires Inv(st) && ev.pid in Step(st, ev).procs
    ensures ProcInv(Step(st, ev), ev.pid, Step(st, ev).procs[ev.pid])
  {
    if ev.pid in st.procs {
      assert ProcInv(st, ev.pid, st.procs[ev.pid]);
      if ev.Spawn? || ev.Crash? {
      } else if ev.ReRead? || ev.Exec? || ev.BumpVersion? || ev.Commit? {
        MoverKeepsInside(st, ev);
      } else {
        MoverKeepsOutside(st, ev);
      }
    }
  }

  lemma {:induction false} MoverKeepsOutside(st: State, ev: Event)
    requires Inv(st) && ev.pid in st.procs
    requires ev.StartOpen? || ev.StartModule? || ev.ReadVersion? || ev.Begin? || ev.Return? || ev.Fail?
    ensures ProcInv(Step(st, ev), ev.pid, Step(st, ev).procs[ev.pid])
  {
    assert ProcInv(st, ev.pid, st.procs[ev.pid]);
  }

  lemma {:induction false} MoverKeepsInside(st: State, ev: Event)
    requires Inv(st) && ev.pid in st.procs
    requires ev.ReRead? || ev.Exec? || ev.BumpVersion? || ev.Commit?
    ensures ProcInv(Step(st, ev), ev.pid, Step(st, ev).procs[ev.pid])
  {
    assert ProcInv(st, ev.pid, st.procs[ev.pid]);
    if ev.Commit? && st.procs[ev.pid].pc.Ready? {
      CommitSound(st, ev.pid);
      assert st.committed.Version(Framework) <= st.pending.Version(Framework);
    }
  }

  /** Every step of every process keeps the invariant and only grows the file. */
  lemma StepKeepsInv(st: State, ev: Event)
    requires Inv(st)
    ensures Inv(Step(st, ev))
    ensures Evolves(st.committed, Step(st, ev).committed)
  {
    var st' := Step(st, ev);
    StepFrame(st, ev);
    forall q | q in st'.procs
      ensures ProcInv(st', q, st'.procs[q])
    {
      if q == ev.pid {
        MoverKeeps(st, ev);
      } else {
        OthersKeep(st, st', q, st.procs[q]);
      }
    }
  }
}
