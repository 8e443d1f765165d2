/** Whole executions of the migration system: safety over every interleaving,
    completion of an undisturbed process, and exactly when a run that returns nil
    leaves the schema at the caller's own version. */
module MigrationRuns {
  import opened Outcomes
  import opened Migrations

  lemma {:induction false} Safety(catalog: set<Run>, events: seq<Event>)
    requires AppendOnly(catalog)
    ensures Inv(Execute(Init(catalog), events))
    ensures Execute(Init(catalog), events).catalog == catalog
  {
    if events != [] {
      var n := |events| - 1;
      Safety(catalog, events[..n]);
      StepKeepsInv(Execute(Init(catalog), events[..n]), events[n]);
      StepFrame(Execute(Init(catalog), events[..n]), events[n]);
    }
  }

  lemma {:induction false} FileOnlyGrows(st: State, events: seq<Event>)
    requires Inv(st)
    ensures Inv(Execute(st, events))
    ensures Execute(st, events).catalog == st.catalog
    ensures Evolves(st.committed, Execute(st, events).committed)
  {
    if events != [] {
      var n := |events| - 1;
      FileOnlyGrows(st, events[..n]);
      var mid := Execute(st, events[..n]);
      StepKeepsInv(mid, events[n]);
      StepFrame(mid, events[n]);
      forall s
        ensures st.committed.Applied(s) <= Execute(st, events).committed.Applied(s)
        ensures st.committed.Version(s) <= Execute(st, events).committed.Version(s)
      {
        assert st.committed.Applied(s) <= mid.committed.Applied(s);
        assert mid.committed.Applied(s) <= Execute(st, events).committed.Applied(s);
      }
    }
  }

  /** In every reachable state the log of a schema is the first `version` entries of
      every shipped list that long, and starts with every shorter one: each
      migration ran exactly once, in order, together with its version bump. */
  lemma AppliedExactlyOnce(catalog: set<Run>, events: seq<Event>, run: Run)
    requires AppendOnly(catalog) && run in catalog
    ensures var c := Execute(Init(catalog), events).committed;
            var v := c.Version(run.schema);
            && |c.Applied(run.schema)| == v
            && (v <= |run.list| ==> c.Applied(run.schema) == run.list[..v])
            && (|run.list| <= v ==> c.Applied(run.schema)[..|run.list|] == run.list)
  {
    Safety(catalog, events);
    AppliedAgrees(Execute(Init(catalog), events), run);
  }

  /** Once a run has returned nil its whole list is applied, then and ever after,
      whatever else the processes go on to do. */
  lemma NilMeansApplied(catalog: set<Run>, events: seq<Event>, later: seq<Event>, p: Pid, run: Run)
    requires AppendOnly(catalog)
    requires var st := Execute(Init(catalog), events); p in st.procs && st.procs[p].pc == Finished(run)
    ensures var c := Execute(Init(catalog), events + later).committed;
            |run.list| <= c.Version(run.schema) && run.list <= c.Applied(run.schema)
  {
    var st := Execute(Init(catalog), events);
    Safety(catalog, events);
    assert ProcInv(st, p, st.procs[p]);
    ExecuteConcat(Init(catalog), events, later);
    FileOnlyGrows(st, later);
    var st' := Execute(st, later);
    assert st.committed.Version(run.schema) <= st'.committed.Version(run.schema);
    AppliedAgrees(st', run);
  }

  /** An open process has its whole framework list committed, and no process ever
      reads the tracker before the tracker exists. */
  lemma OpenMeansFramework(catalog: set<Run>, events: seq<Event>, p: Pid)
    requires AppendOnly(catalog)
    requires p in Execute(Init(catalog), events).procs
    ensures var st := Execute(Init(catalog), events);
            var proc := st.procs[p];
            && (proc.isOpen ==> proc.framework <= st.committed.Applied(Framework) && st.committed.HasTracker())
            && (proc.pc.Reading? || proc.pc.Begun? ==> st.committed.Readable(proc.pc.run.schema))
  {
    Safety(catalog, events);
    var st := Execute(Init(catalog), events);
    assert ProcInv(st, p, st.procs[p]);
    AppliedAgrees(st, Run(Framework, st.procs[p].framework));
  }

  /** A step either leaves the file alone or commits one statement together with its
      version bump; an error or a crash leaves it alone and gives up the lock. */
  lemma StepIsAtomic(st: State, ev: Event)
    requires Inv(st)
    ensures var c := Step(st, ev).committed;
            || c == st.committed
            || (&& ev.Commit? && ev.pid in st.procs && st.procs[ev.pid].pc.Ready?
                && var pc := st.procs[ev.pid].pc;
                pc.i < |pc.run.list| && st.committed.Version(pc.run.schema) == pc.i
                && c == st.committed.Execute(pc.run.schema, pc.run.list[pc.i]).Bump(pc.run.schema, pc.i + 1))
    ensures ev.Crash? ==> ev.pid !in Step(st, ev).procs
    ensures ev.Fail? || ev.Crash? ==> Step(st, ev).committed == st.committed && Step(st, ev).lock != Some(ev.pid)
  {
    if ev.pid in st.procs {
      assert ProcInv(st, ev.pid, st.procs[ev.pid]);
    }
  }

  /** A process that has the file open never runs the framework list again. */
  lemma OpensOnce(st: State, ev: Event)
    requires ev.pid in st.procs && st.procs[ev.pid].isOpen && st.procs[ev.pid].pc.Resting()
    requires ev.pid in Step(st, ev).procs && Step(st, ev).procs[ev.pid].pc.Reading?
    ensures Step(st, ev).procs[ev.pid].pc.run.schema.Module?
  {
  }

  /** Two processes are never inside a transaction together. */
  lemma OneWriter(catalog: set<Run>, events: seq<Event>, p: Pid, q: Pid)
    requires AppendOnly(catalog)
    requires var st := Execute(Init(catalog), events);
             p in st.procs && q in st.procs && st.procs[p].pc.InTx() && st.procs[q].pc.InTx()
    ensures p == q
  {
    Safety(catalog, events);
    var st := Execute(Init(catalog), events);
    assert ProcInv(st, p, st.procs[p]);
    assert ProcInv(st, q, st.procs[q]);
  }

  // ---------- An undisturbed process completes ----------

  function Max(a: nat, b: nat): nat { if a < b then b else a }

  /** `st'` is `st` after process `p` advanced its run to loop index `i`. */
  ghost predicate Advanced(st: State, st': State, p: Pid, i: nat)
    requires p in st.procs && st.procs[p].pc.Looping?
  {
    var run := st.procs[p].pc.run;
    && st'.lock.None?
    && st'.procs == st.procs[p := st.procs[p].(pc := Looping(run, i))]
    && st'.committed.Version(run.schema) == Max(st.committed.Version(run.schema), i)
    && (forall s :: s != run.schema ==> st'.committed.Version(s) == st.committed.Version(s))
    && (st.committed.HasTracker() ==> st'.committed.HasTracker())
    && st'.catalog == st.catalog
  }

  lemma Two(st: State, a: Event, b: Event)
    ensures Execute(st, [a, b]) == Step(Step(st, a), b)
  {
    assert [a, b][..1] == [a] && [a][..0] == [];
    assert Execute(st, [a]) == Step(Execute(st, []), a);
  }

  lemma Three(st: State, a: Event, b: Event, c: Event)
    ensures Execute(st, [a, b, c]) == Step(Step(Step(st, a), b), c)
  {
    assert [a, b, c][..2] == [a, b];
    Two(st, a, b);
  }

  /** BEGIN IMMEDIATE and the re-read, on a free lock. */
  lemma Reenter(st: State, p: Pid)
    requires p in st.procs && st.lock.None? && st.procs[p].pc.Looping?
    requires st.procs[p].pc.i < |st.procs[p].pc.run.list|
    requires st.committed.Readable(st.procs[p].pc.run.schema)
    ensures var pc := st.procs[p].pc;
            var next := if st.committed.Version(pc.run.schema) != pc.i then Ready(pc.run, pc.i) else Matched(pc.run, pc.i);
            Step(Step(st, Begin(p)), ReRead(p)) == Goto(st, p, next).(lock := Some(p), pending := st.committed)
  {
    var s1 := Step(st, Begin(p));
    var s2 := Step(s1, ReRead(p));
    assert s2.procs == st.procs[p := s2.procs[p]];
  }

  lemma SkipPass(st: State, p: Pid)
    requires p in st.procs && st.lock.None? && st.procs[p].pc.Looping?
    requires st.procs[p].pc.i < |st.procs[p].pc.run.list|
    requires st.committed.Readable(st.procs[p].pc.run.schema)
    requires st.procs[p].pc.i < st.committed.Version(st.procs[p].pc.run.schema)
    ensures Advanced(st, Execute(st, [Begin(p), ReRead(p), Commit(p)]), p, st.procs[p].pc.i + 1)
  {
    Reenter(st, p);
    Three(st, Begin(p), ReRead(p), Commit(p));
    var s3 := Execute(st, [Begin(p), ReRead(p), Commit(p)]);
    assert s3.procs == st.procs[p := s3.procs[p]];
  }

  lemma {:induction false} ApplyPass(st: State, p: Pid)
    requires p in st.procs && st.lock.None? && st.procs[p].pc.Looping?
    requires st.procs[p].pc.i < |st.procs[p].pc.run.list|
    requires st.committed.Readable(st.procs[p].pc.run.schema)
    requires st.procs[p].pc.i == st.committed.Version(st.procs[p].pc.run.schema)
    ensures Advanced(st, Execute(st, [Begin(p), ReRead(p)] + [Exec(p), BumpVersion(p), Commit(p)]), p, st.procs[p].pc.i + 1)
  {
    var pc := st.procs[p].pc;
    var begun, rest := [Begin(p), ReRead(p)], [Exec(p), BumpVersion(p), Commit(p)];
    Reenter(st, p);
    Two(st, Begin(p), ReRead(p));
    var s2 := Execute(st, begun);
    assert s2 == Goto(st, p, Matched(pc.run, pc.i)).(lock := Some(p), pending := st.committed);
    ApplyAndCommit(s2, p);
    ExecuteConcat(st, begun, rest);
    var s5 := Execute(s2, rest);
    assert s5.procs == st.procs[p := st.procs[p].(pc := Looping(pc.run, pc.i + 1))];
  }

  /** The migration, its version bump and COMMIT, of a process that holds the lock. */
  lemma {:induction false} ApplyAndCommit(st: State, p: Pid)
    requires p in st.procs && st.procs[p].pc.Matched? && st.procs[p].pc.i < |st.procs[p].pc.run.list|
    ensures var pc := st.procs[p].pc;
            var content := st.pending.Execute(pc.run.schema, pc.run.list[pc.i]).Bump(pc.run.schema, pc.i + 1);
            var end := Execute(st, [Exec(p), BumpVersion(p), Commit(p)]);
            end.lock.None? && end.catalog == st.catalog && end.committed == content
            && end.procs == st.procs[p := st.procs[p].(pc := Looping(pc.run, pc.i + 1))]
  {
    Three(st, Exec(p), BumpVersion(p), Commit(p));
    var pc := st.procs[p].pc;
    var s1 := Step(st, Exec(p));
    assert s1 == Goto(st, p, Executed(pc.run, pc.i)).(pending := st.pending.Execute(pc.run.schema, pc.run.list[pc.i]));
    var s2 := Step(s1, BumpVersion(p));
    assert s2 == Goto(s1, p, Ready(pc.run, pc.i)).(pending := s1.pending.Bump(pc.run.schema, pc.i + 1));
    var s3 := Step(s2, Commit(p));
    assert s3.procs == st.procs[p := st.procs[p].(pc := Looping(pc.run, pc.i + 1))];
  }

  /** `p` stands at its loop head, nobody holds the lock, and its reads succeed. */
  predicate AtLoopHead(st: State, p: Pid) {
    && p in st.procs && st.lock.None? && st.procs[p].pc.Looping?
    && st.committed.Readable(st.procs[p].pc.run.schema)
    && st.procs[p].pc.i <= |st.procs[p].pc.run.list|
    && st.procs[p].pc.i <= st.committed.Version(st.procs[p].pc.run.schema)
  }

  lemma LoopHeadInReach(st: State, p: Pid)
    requires Inv(st) && p in st.procs && st.lock.None? && st.procs[p].pc.Looping?
    ensures AtLoopHead(st, p)
  {
    assert ProcInv(st, p, st.procs[p]);
    AppliedAgrees(st, Run(Framework, st.procs[p].framework));
  }

  lemma AdvancedThen(st: State, mid: State, end: State, p: Pid, i: nat, n: nat)
    requires p in st.procs && st.procs[p].pc.Looping? && i <= n
    requires Advanced(st, mid, p, i)
    requires Advanced(mid, end, p, n)
    ensures Advanced(st, end, p, n)
  {
    var run := st.procs[p].pc.run;
    assert end.procs == st.procs[p := st.procs[p].(pc := Looping(run, n))];
  }

  /** One pass of the loop by an undisturbed process. */
  lemma SoloPass(st: State, p: Pid) returns (pass: seq<Event>)
    requires AtLoopHead(st, p) && st.procs[p].pc.i < |st.procs[p].pc.run.list|
    ensures Advanced(st, Execute(st, pass), p, st.procs[p].pc.i + 1)
  {
    if st.procs[p].pc.i < st.committed.Version(st.procs[p].pc.run.schema) {
      pass := [Begin(p), ReRead(p), Commit(p)];
      SkipPass(st, p);
    } else {
      pass := [Begin(p), ReRead(p)] + [Exec(p), BumpVersion(p), Commit(p)];
      ApplyPass(st, p);
    }
  }

  /** From the loop head, a process left alone with a free lock reaches the end of
      its list, skipping what peers applied and applying the rest. */
  lemma {:induction false} SoloCompletes(st: State, p: Pid) returns (events: seq<Event>)
    requires AtLoopHead(st, p)
    ensures Advanced(st, Execute(st, events), p, |st.procs[p].pc.run.list|)
    decreases |st.procs[p].pc.run.list| - st.procs[p].pc.i
  {
    var pc := st.procs[p].pc;
    if pc.i == |pc.run.list| {
      events := [];
      assert st.procs == st.procs[p := st.procs[p]];
    } else {
      var pass := SoloPass(st, p);
      var mid := Execute(st, pass);
      var rest := SoloCompletes(mid, p);
      events := pass + rest;
      ExecuteConcat(st, pass, rest);
      AdvancedThen(st, mid, Execute(mid, rest), p, pc.i + 1, |pc.run.list|);
    }
  }

  lemma {:induction false} One(st: State, ev: Event)
    ensures Execute(st, [ev]) == Step(st, ev)
  {
    assert [ev][..0] == [];
  }

  /** The failure of whoever holds the lock frees it and moves nobody else. */
  lemma {:induction false} HolderFails(st: State, p: Pid) returns (freed: seq<Event>)
    requires Inv(st) && p in st.procs && st.procs[p].pc.Looping?
    ensures var st' := Execute(st, freed);
            Inv(st') && st'.lock.None? && p in st'.procs && st'.procs[p] == st.procs[p]
  {
    freed := [];
    if st.lock.Some? {
      var q := st.lock.value;
      assert ProcInv(st, p, st.procs[p]) && ProcInv(st, q, st.procs[q]);
      freed := [Fail(q)];
      One(st, Fail(q));
      StepKeepsInv(st, Fail(q));
    }
  }

  /** No deadlock: from every reachable state a process in its loop can still run to the
      end and return nil, whoever holds the lock and whatever the others did. */
  lemma {:induction false} RunCanEnd(catalog: set<Run>, events: seq<Event>, p: Pid) returns (more: seq<Event>)
    requires AppendOnly(catalog)
    requires var st := Execute(Init(catalog), events); p in st.procs && st.procs[p].pc.Looping?
    ensures var st, st' := Execute(Init(catalog), events), Execute(Init(catalog), events + more);
            p in st'.procs && st'.procs[p].pc == Finished(st.procs[p].pc.run)
  {
    var init := Init(catalog);
    var st := Execute(init, events);
    Safety(catalog, events);
    var freed := HolderFails(st, p);
    var mid := Execute(st, freed);
    LoopHeadInReach(mid, p);
    var solo := SoloCompletes(mid, p);
    var end := Execute(mid, solo);
    One(end, Return(p));
    ExecuteConcat(mid, solo, [Return(p)]);
    ExecuteConcat(st, freed, solo + [Return(p)]);
    more := freed + (solo + [Return(p)]);
    ExecuteConcat(init, events, more);
  }

  // ---------- When a nil return means exactly the caller's version ----------

  /** `p` is about to return nil from `run`. */
  predicate AboutToReturn(st: State, p: Pid, run: Run) {
    p in st.procs && st.procs[p].pc == Looping(run, |run.list|)
  }

  /** No interleaving lets `run` return nil with the schema past the caller's list. */
  ghost predicate NeverPast(catalog: set<Run>, run: Run) {
    forall events: seq<Event>, p: Pid ::
      var st := Execute(Init(catalog), events);
      AboutToReturn(st, p, run) ==> st.committed.Version(run.schema) == |run.list|
  }

  predicate Longest(catalog: set<Run>, run: Run) {
    forall r :: r in catalog && r.schema == run.schema ==> |r.list| <= |run.list|
  }

  lemma LongestIsNeverPast(catalog: set<Run>, run: Run)
    requires AppendOnly(catalog) && run in catalog && Longest(catalog, run)
    ensures NeverPast(catalog, run)
  {
    forall events: seq<Event>, p: Pid | AboutToReturn(Execute(Init(catalog), events), p, run)
      ensures Execute(Init(catalog), events).committed.Version(run.schema) == |run.list|
    {
      var st := Execute(Init(catalog), events);
      Safety(catalog, events);
      assert ProcInv(st, p, st.procs[p]);
      assert Sound(catalog, st.committed, run.schema);
    }
  }

  /** Both processes stand at loop index 0 of their run: the older binary already
      passed its newer-schema check, so the newer one may overtake it. */
  lemma {:induction false} OvertakeFrom(catalog: set<Run>, setup: seq<Event>, p: Pid, q: Pid, run: Run, longer: Run)
    requires AppendOnly(catalog)
    requires p != q && run.schema == longer.schema && |run.list| < |longer.list|
    requires var st := Execute(Init(catalog), setup);
             && st.lock.None? && p in st.procs && q in st.procs
             && st.procs[p].pc == Looping(run, 0) && st.procs[q].pc == Looping(longer, 0)
    ensures !NeverPast(catalog, run)
  {
    var st := Execute(Init(catalog), setup);
    Safety(catalog, setup);
    LoopHeadInReach(st, q);
    var e1 := SoloCompletes(st, q);
    var st1 := Execute(st, e1);
    FileOnlyGrows(st, e1);
    LoopHeadInReach(st1, p);
    var e2 := SoloCompletes(st1, p);
    var st2 := Execute(st1, e2);
    ExecuteConcat(st, e1, e2);
    ExecuteConcat(Init(catalog), setup, e1 + e2);
    assert AboutToReturn(Execute(Init(catalog), setup + (e1 + e2)), p, run);
  }

  /** A fresh process starts its framework run and gets as far as the loop. */
  lemma EnterOpen(st: State, p: Pid, fw: seq<Statement>)
    requires p !in st.procs && Run(Framework, fw) in st.catalog && st.committed.Version(Framework) <= |fw|
    ensures Execute(st, [Spawn(p, fw), StartOpen(p), ReadVersion(p)])
         == st.(procs := st.procs[p := Proc(fw, false, Looping(Run(Framework, fw), st.committed.Version(Framework)))])
  {
    Three(st, Spawn(p, fw), StartOpen(p), ReadVersion(p));
    var s3 := Execute(st, [Spawn(p, fw), StartOpen(p), ReadVersion(p)]);
    assert s3.procs == st.procs[p := s3.procs[p]];
  }

  lemma EnterModule(st: State, p: Pid, run: Run)
    requires p in st.procs && st.procs[p].isOpen && st.procs[p].pc.Resting()
    requires run.schema.Module? && run in st.catalog
    requires st.committed.HasTracker() && st.committed.Version(run.schema) <= |run.list|
    ensures Execute(st, [StartModule(p, run), ReadVersion(p)])
         == Goto(st, p, Looping(run, st.committed.Version(run.schema)))
  {
    Two(st, StartModule(p, run), ReadVersion(p));
    var s2 := Execute(st, [StartModule(p, run), ReadVersion(p)]);
    assert s2.procs == st.procs[p := s2.procs[p]];
  }

  /** A fresh process left alone opens the file. */
  lemma OpenSolo(st: State, p: Pid, fw: seq<Statement>) returns (events: seq<Event>)
    requires st.lock.None? && p !in st.procs
    requires Run(Framework, fw) in st.catalog && st.committed.Version(Framework) <= |fw|
    ensures var st' := Execute(st, events);
            && st'.lock.None? && st'.catalog == st.catalog
            && st'.procs == st.procs[p := Proc(fw, true, Finished(Run(Framework, fw)))]
            && st'.committed.Version(Framework) == |fw|
            && (forall s :: s != Framework ==> st'.committed.Version(s) == st.committed.Version(s))
  {
    var enter := [Spawn(p, fw), StartOpen(p), ReadVersion(p)];
    EnterOpen(st, p, fw);
    var st1 := Execute(st, enter);
    var solo := SoloCompletes(st1, p);
    var st2 := Execute(st1, solo);
    ExecuteConcat(st, enter, solo);
    events := enter + solo + [Return(p)];
    ExecuteConcat(st, enter + solo, [Return(p)]);
    var st3 := Execute(st2, [Return(p)]);
    assert [Return(p)][..0] == [];
    assert st3.procs == st.procs[p := st3.procs[p]];
  }

  lemma OvertakeFramework(catalog: set<Run>, run: Run, longer: Run)
    requires AppendOnly(catalog) && run in catalog && longer in catalog
    requires run.schema == longer.schema == Framework && |run.list| < |longer.list|
    ensures !NeverPast(catalog, run)
  {
    var init := Init(catalog);
    var e0 := [Spawn(0, run.list), StartOpen(0), ReadVersion(0)];
    EnterOpen(init, 0, run.list);
    var st := Execute(init, e0);
    var e1 := [Spawn(1, longer.list), StartOpen(1), ReadVersion(1)];
    EnterOpen(st, 1, longer.list);
    ExecuteConcat(init, e0, e1);
    OvertakeFrom(catalog, e0 + e1, 0, 1, run, longer);
  }

  lemma OvertakeModule(catalog: set<Run>, run: Run, longer: Run, fw: Run)
    requires AppendOnly(catalog) && run in catalog && longer in catalog && fw in catalog
    requires run.schema == longer.schema && run.schema.Module? && fw.schema == Framework
    requires |run.list| < |longer.list|
    ensures !NeverPast(catalog, run)
  {
    var init := Init(catalog);
    var e0 := OpenSolo(init, 0, fw.list);
    var st0 := Execute(init, e0);
    var e1 := OpenSolo(st0, 1, fw.list);
    ExecuteConcat(init, e0, e1);
    var st1 := Execute(st0, e1);
    Safety(catalog, e0 + e1);
    assert Sound(catalog, st1.committed, Framework);
    var e2 := [StartModule(0, run), ReadVersion(0)];
    EnterModule(st1, 0, run);
    var st2 := Execute(st1, e2);
    var e3 := [StartModule(1, longer), ReadVersion(1)];
    EnterModule(st2, 1, longer);
    ExecuteConcat(init, e0 + e1, e2);
    ExecuteConcat(init, e0 + e1 + e2, e3);
    OvertakeFrom(catalog, e0 + e1 + e2 + e3, 0, 1, run, longer);
  }

  /** The newer-schema check runs once, before the loop. So "nil means the schema is
      at my own version" holds in every interleaving exactly when no binary in use
      ships a longer list for the schema. */
  lemma NilMeansExactVersion(catalog: set<Run>, run: Run)
    requires AppendOnly(catalog) && run in catalog
    requires exists fw :: fw in catalog && fw.schema == Framework
    ensures NeverPast(catalog, run) <==> Longest(catalog, run)
  {
    if Longest(catalog, run) {
      LongestIsNeverPast(catalog, run);
    } else {
      var longer :| longer in catalog && longer.schema == run.schema && |longer.list| > |run.list|;
      if run.schema.Framework? {
        OvertakeFramework(catalog, run, longer);
      } else {
        var fw :| fw in catalog && fw.schema == Framework;
        OvertakeModule(catalog, run, longer, fw);
      }
    }
  }
}
