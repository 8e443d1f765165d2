/** The Manager of localdb/localdb.go as sequential code. Each database operation is
    one event of the migration system, taken after an arbitrary amount of activity by
    other processes, so every execution of this code is an execution of that system. */
module LocalDb {
  import opened Outcomes
  import opened Migrations
  import MigrationRuns
  import Backoff

  datatype Code =
    | InvalidDescriptor | OpenFailure | MigrationFailure | ManagerClosed
    | CheckpointFailure | CloseFailure | IncompatibleSchema | Cancelled

  /** `busy`: the error wraps SQLITE_BUSY. */
  datatype Error = Error(code: Code, busy: bool)

  const OPEN_MAX_RETRIES: nat := 10

  lemma OthersUntouched(st: State, ev: Event, q: Pid)
    requires ev.pid != q && q in st.procs
    ensures q in Step(st, ev).procs && Step(st, ev).procs[q] == st.procs[q]
  {
  }

  lemma CatalogFixed(catalog: set<Run>, events: seq<Event>)
    requires AppendOnly(catalog)
    ensures Execute(Init(catalog), events).catalog == catalog
  {
    MigrationRuns.Safety(catalog, events);
  }

  /** What one history of the file says about a longer one. */
  lemma Later(catalog: set<Run>, events: seq<Event>, events': seq<Event>)
    requires AppendOnly(catalog) && events <= events'
    ensures Evolves(Execute(Init(catalog), events).committed, Execute(Init(catalog), events').committed)
  {
    assert events' == events + events'[|events|..];
    ExecuteConcat(Init(catalog), events, events'[|events|..]);
    MigrationRuns.Safety(catalog, events);
    MigrationRuns.FileOnlyGrows(Execute(Init(catalog), events), events'[|events|..]);
  }

  /** A version query never fails for want of the tracker table. */
  lemma {:induction false} ReadsSucceed(catalog: set<Run>, events: seq<Event>, p: Pid)
    requires AppendOnly(catalog) && p in Execute(Init(catalog), events).procs
    ensures var st := Execute(Init(catalog), events); var pc := st.procs[p].pc;
            && (pc.Reading? ==> st.committed.Readable(pc.run.schema))
            && (pc.Begun? ==> st.pending.Readable(pc.run.schema))
  {
    MigrationRuns.OpenMeansFramework(catalog, events, p);
    MigrationRuns.Safety(catalog, events);
    var st := Execute(Init(catalog), events);
    assert ProcInv(st, p, st.procs[p]);
  }

  /** The database file as all processes see it. `events` is its whole history,
      `faults` counts the calls of the database that failed. */
  class SharedFile {
    const catalog: set<Run>
    var sys: State
    ghost var events: seq<Event>
    ghost var faults: nat

    ghost predicate Valid()
      reads this
    {
      AppendOnly(catalog) && sys == Execute(Init(catalog), events)
    }

    ghost predicate At(p: Pid, framework: seq<Statement>, isOpen: bool, pc: Pc)
      reads this
    {
      p in sys.procs && sys.procs[p] == Proc(framework, isOpen, pc)
    }

    /** A new file, for binaries whose lists are append-only versions of each other. */
    constructor (catalog: set<Run>)
      requires AppendOnly(catalog)
      ensures Valid() && this.catalog == catalog && sys == Init(catalog) && events == [] && faults == 0
    {
      this.catalog := catalog;
      sys, events, faults := Init(catalog), [], 0;
    }

    /** One more process starts. */
    method Join(p: Pid, framework: seq<Statement>)
      requires Valid() && p !in sys.procs && Run(Framework, framework) in catalog
      modifies this`sys, this`events
      ensures Valid() && old(events) <= events && At(p, framework, false, Idle)
    {
      CatalogFixed(catalog, events);
      Fire(Spawn(p, framework));
    }

    /** Whether the next call of the database fails. */
    method Fails() returns (b: bool)
      modifies this`faults
      ensures faults == old(faults) + if b then 1 else 0
    {
      b := *;
      faults := faults + if b then 1 else 0;
    }

    method Fire(ev: Event)
      requires Valid()
      modifies this`sys, this`events
      ensures Valid() && events == old(events) + [ev] && sys == Step(old(sys), ev)
    {
      ghost var before := events;
      sys := Step(sys, ev);
      events := events + [ev];
      assert events[..|events| - 1] == before;
    }

    /** Any number of steps by any other processes. */
    method Peers(me: Pid)
      requires Valid() && me in sys.procs
      modifies this`sys, this`events
      ensures Valid() && old(events) <= events
      ensures me in sys.procs && sys.procs[me] == old(sys.procs[me])
    {
      var script: seq<Event> := *;
      for n := 0 to |script|
        invariant Valid() && old(events) <= events
        invariant me in sys.procs && sys.procs[me] == old(sys.procs[me])
      {
        if script[n].pid != me {
          OthersUntouched(sys, script[n], me);
          Fire(script[n]);
        }
      }
    }

    /** The caller gives up its run; an open transaction is rolled back. */
    method GiveUp(me: Pid)
      requires Valid() && me in sys.procs && !sys.procs[me].pc.Resting()
      modifies this`sys, this`events
      ensures Valid() && old(events) <= events
      ensures At(me, old(sys.procs[me].framework), old(sys.procs[me].isOpen), Failed(old(sys.procs[me].pc.run)))
    {
      Peers(me);
      Fire(Event.Fail(me));
    }

    /** readUserVersion / readModuleVersion before the loop. */
    method QueryVersion(me: Pid, run: Run, ghost fw: seq<Statement>, ghost isOpen: bool) returns (r: Result<nat, bool>)
      requires Valid() && At(me, fw, isOpen, Reading(run))
      modifies this
      ensures Valid() && old(events) <= events
      ensures faults >= old(faults) && (r.Err? ==> faults > old(faults))
      ensures r.Err? ==> At(me, fw, isOpen, Reading(run))
      ensures r.Ok? ==> At(me, fw, isOpen, if r.value > |run.list| then Failed(run) else Looping(run, r.value))
      ensures r.Ok? ==> r.value == sys.committed.Version(run.schema) >= old(sys.committed.Version(run.schema))
    {
      Peers(me);
      ReadsSucceed(catalog, events, me);
      var fails := Fails();
      if fails || !sys.committed.Readable(run.schema) {
        var busy := Chance();
        return Err(busy);
      }
      Later(catalog, old(events), events);
      r := Ok(sys.committed.Version(run.schema));
      Fire(Event.ReadVersion(me));
    }

    /** BEGIN IMMEDIATE: fails when a peer keeps the lock past busy_timeout. */
    method BeginImmediate(me: Pid, run: Run, i: nat, ghost fw: seq<Statement>, ghost isOpen: bool) returns (r: Result<(), bool>)
      requires Valid() && At(me, fw, isOpen, Looping(run, i)) && i < |run.list|
      modifies this
      ensures Valid() && old(events) <= events
      ensures faults >= old(faults) && (r.Err? ==> faults > old(faults))
      ensures At(me, fw, isOpen, if r.Ok? then Begun(run, i) else Looping(run, i))
    {
      Peers(me);
      if sys.lock.Some? {
        faults := faults + 1;
        return Err(true);
      }
      var fails := Fails();
      if fails {
        var busy := Chance();
        return Err(busy);
      }
      Fire(Event.Begin(me));
      r := Ok(());
    }

    /** The version re-read inside the write lock. */
    method QueryInTx(me: Pid, run: Run, i: nat, ghost fw: seq<Statement>, ghost isOpen: bool) returns (r: Result<nat, bool>)
      requires Valid() && At(me, fw, isOpen, Begun(run, i))
      modifies this
      ensures Valid() && old(events) <= events
      ensures faults >= old(faults) && (r.Err? ==> faults > old(faults))
      ensures r.Err? ==> At(me, fw, isOpen, Begun(run, i))
      ensures r.Ok? ==> At(me, fw, isOpen, if r.value != i then Ready(run, i) else Matched(run, i))
    {
      Peers(me);
      ReadsSucceed(catalog, events, me);
      var fails := Fails();
      if fails || !sys.pending.Readable(run.schema) {
        var busy := Chance();
        return Err(busy);
      }
      r := Ok(sys.pending.Version(run.schema));
      Fire(Event.ReRead(me));
    }

    /** One more statement of an open transaction: the migration itself, the version
        bump, or COMMIT. It may fail, leaving the transaction as it was. */
    method InTx(me: Pid, ev: Event, ghost fw: seq<Statement>, ghost isOpen: bool, ghost pc: Pc) returns (r: Result<(), bool>)
      requires Valid() && At(me, fw, isOpen, pc) && ev.pid == me
      requires || (pc.Matched? && pc.i < |pc.run.list| && ev.Exec?)
               || (pc.Executed? && ev.BumpVersion?)
               || (pc.Ready? && ev.Commit?)
      modifies this
      ensures Valid() && old(events) <= events
      ensures faults >= old(faults) && (r.Err? ==> faults > old(faults))
      ensures r.Err? ==> At(me, fw, isOpen, pc)
      ensures r.Ok? ==> At(me, fw, isOpen,
                           if ev.Exec? then Executed(pc.run, pc.i)
                           else if ev.BumpVersion? then Ready(pc.run, pc.i)
                           else Looping(pc.run, pc.i + 1))
    {
      Peers(me);
      var fails := Fails();
      if fails {
        var busy := Chance();
        return Err(busy);
      }
      Fire(ev);
      r := Ok(());
    }
  }

  /** A module's handle to the shared pool; its identity is what callers see. */
  class Store {
    constructor () {}
  }

  datatype CachedStore = CachedStore(store: Store, migrations: seq<Statement>)

  datatype Descriptor = Descriptor(name: string, migrations: seq<Statement>)

  predicate LowerOrDigit(c: char, first: bool) {
    'a' <= c <= 'z' || (!first && ('0' <= c <= '9' || c == '_'))
  }

  /** ^[a-z][a-z0-9_]*$ */
  predicate ValidName(name: string) {
    name != "" && forall k :: 0 <= k < |name| ==> LowerOrDigit(name[k], k == 0)
  }

  /** The names in full. */
  lemma NamesExactly(name: string)
    ensures ValidName(name) <==>
            && name != "" && 'a' <= name[0] <= 'z'
            && forall k :: 1 <= k < |name| ==> 'a' <= name[k] <= 'z' || '0' <= name[k] <= '9' || name[k] == '_'
    ensures ValidFileName(name) <==> forall k :: 0 <= k < |name| ==> name[k] != '/' && name[k] != '\\'
  {
  }

  predicate ValidFileName(fileName: string) {
    '/' !in fileName && '\\' !in fileName
  }

  datatype ManagerCall = StoreCall(d: Descriptor) | CloseCall

  /** Call `i` is a Store that returned a handle. */
  predicate Stored(calls: seq<ManagerCall>, replies: seq<Result<Option<Store>, Error>>, i: nat) {
    i < |calls| && i < |replies| && calls[i].StoreCall? && replies[i].Ok? && replies[i].value.Some?
  }

  /** `calls` are the calls of the first `n` of the script that stand at the places `made`,
      in order. */
  predicate Picks(script: seq<ManagerCall>, made: seq<nat>, calls: seq<ManagerCall>, n: nat)
    requires n <= |script|
  {
    && |made| == |calls|
    && (forall i :: 0 <= i < |made| ==> made[i] < n && calls[i] == script[made[i]])
    && (forall i, j :: 0 <= i < j < |made| ==> made[i] < made[j])
  }

  /** Where nothing was skipped the calls are the script. */
  lemma {:induction false} AllMade(script: seq<ManagerCall>, made: seq<nat>, calls: seq<ManagerCall>)
    requires Picks(script, made, calls, |script|) && forall n :: 0 <= n < |script| ==> n in made
    ensures calls == script
  {
    for i := 0 to |script|
      invariant i <= |made| && forall k :: 0 <= k < i ==> made[k] == k
    {
      assert i in made;
      var j :| 0 <= j < |made| && made[j] == i;
      assert i <= j;
      if i > 0 { assert made[i - 1] < made[i]; }
    }
    if |made| > |script| {
      assert false;
    }
  }

  predicate NoneAfterClose(calls: seq<ManagerCall>, replies: seq<Result<Option<Store>, Error>>, n: nat)
    requires n <= |calls| && n <= |replies|
  {
    forall i, j :: 0 <= i < j < n && calls[i].CloseCall? && calls[j].StoreCall? ==> replies[j].Err?
  }

  /** The first `n` handles returned are still cached, with their lists. */
  predicate Remembered(calls: seq<ManagerCall>, replies: seq<Result<Option<Store>, Error>>, stores: map<string, CachedStore>, n: nat) {
    forall i :: 0 <= i < n && Stored(calls, replies, i) ==>
      calls[i].d.name in stores && stores[calls[i].d.name] == CachedStore(replies[i].value.value, calls[i].d.migrations)
  }

  lemma {:induction false} StillRemembered(calls: seq<ManagerCall>, replies: seq<Result<Option<Store>, Error>>,
                                           call: ManagerCall, r: Result<Option<Store>, Error>,
                                           before: map<string, CachedStore>, after: map<string, CachedStore>)
    requires |replies| == |calls| && Remembered(calls, replies, before, |calls|)
    requires forall name :: name in before ==> name in after && after[name] == before[name]
    requires call.StoreCall? && r.Ok? ==>
               r.value.Some? && call.d.name in after && after[call.d.name] == CachedStore(r.value.value, call.d.migrations)
    ensures Remembered(calls + [call], replies + [r], after, |calls| + 1)
  {
    var calls', replies' := calls + [call], replies + [r];
    forall i | 0 <= i <= |calls| && Stored(calls', replies', i)
      ensures calls'[i].d.name in after && after[calls'[i].d.name] == CachedStore(replies'[i].value.value, calls'[i].d.migrations)
    {
      if i < |calls| { assert Stored(calls, replies, i); }
    }
  }

  lemma {:induction false} StillNone(calls: seq<ManagerCall>, replies: seq<Result<Option<Store>, Error>>,
                                     call: ManagerCall, r: Result<Option<Store>, Error>, wasClosed: bool)
    requires |replies| == |calls| && NoneAfterClose(calls, replies, |calls|)
    requires Closes(calls) ==> wasClosed
    requires wasClosed && call.StoreCall? ==> r.Err?
    ensures NoneAfterClose(calls + [call], replies + [r], |calls| + 1)
    ensures Closes(calls + [call]) ==> wasClosed || call.CloseCall?
  {
  }

  predicate Closes(calls: seq<ManagerCall>) {
    exists i :: 0 <= i < |calls| && calls[i].CloseCall?
  }

  /** Seen from outside: when the turn of call `n` came, its list could have been run and
      was not in the catalog. */
  predicate MightRun(catalog: set<Run>, fileName: string, script: seq<ManagerCall>, made: seq<nat>, calls: seq<ManagerCall>,
                     replies: seq<Result<Option<Store>, Error>>, n: nat)
    requires n < |script| && |made| == |calls|
  {
    && script[n].StoreCall? && ValidName(script[n].d.name) && ValidFileName(fileName)
    && Run(Module(script[n].d.name), script[n].d.migrations) !in catalog
    && (forall k :: 0 <= k < n ==> !script[k].CloseCall?)
    && (forall i :: 0 <= i < |calls| && made[i] < n && Stored(calls, replies, i) ==> calls[i].d.name != script[n].d.name)
  }

  /** A later call does not change what was skipped before. */
  lemma {:induction false} StillMightRun(catalog: set<Run>, fileName: string, script: seq<ManagerCall>, made: seq<nat>,
                                         calls: seq<ManagerCall>, replies: seq<Result<Option<Store>, Error>>,
                                         r: Result<Option<Store>, Error>, n: nat, k: nat)
    requires k < n < |script| && Picks(script, made, calls, n) && |replies| == |calls|
    requires MightRun(catalog, fileName, script, made, calls, replies, k)
    ensures MightRun(catalog, fileName, script, made + [n], calls + [script[n]], replies + [r], k)
  {
    forall i | 0 <= i <= |calls| && (made + [n])[i] < k && Stored(calls + [script[n]], replies + [r], i)
      ensures (calls + [script[n]])[i].d.name != script[k].d.name
    {
      assert i < |calls| && Stored(calls, replies, i);
    }
  }

  /** The history of the first `n` calls of a script: what was made of them, and what it
      says about the manager's fields, `stores` and `closed` now and at the start. */
  predicate Told(catalog: set<Run>, fileName: string, script: seq<ManagerCall>, made: seq<nat>, calls: seq<ManagerCall>,
                 replies: seq<Result<Option<Store>, Error>>, n: nat,
                 stores0: map<string, CachedStore>, closed0: bool, stores: map<string, CachedStore>, closed: bool)
    requires n <= |script|
  {
    && |replies| == |calls| && Picks(script, made, calls, n)
    && (forall k :: 0 <= k < n && k !in made ==>
          MightRun(catalog, fileName, script, made, calls, replies, k) && !closed0 && script[k].d.name !in stores0)
    && (forall name :: name in stores0 ==> name in stores)
    && (closed0 || Closes(script[..n]) ==> closed)
    && (Closes(calls) ==> closed)
    && NoneAfterClose(calls, replies, |calls|) && Remembered(calls, replies, stores, |calls|)
  }

  lemma {:induction false} Made(catalog: set<Run>, fileName: string, script: seq<ManagerCall>, made: seq<nat>, calls: seq<ManagerCall>,
                                replies: seq<Result<Option<Store>, Error>>, n: nat,
                                stores0: map<string, CachedStore>, closed0: bool, stores: map<string, CachedStore>, closed: bool,
                                r: Result<Option<Store>, Error>, stores': map<string, CachedStore>, closed': bool)
    requires n < |script| && Told(catalog, fileName, script, made, calls, replies, n, stores0, closed0, stores, closed)
    requires forall name :: name in stores ==> name in stores' && stores'[name] == stores[name]
    requires closed || script[n].CloseCall? ==> closed'
    requires closed && script[n].StoreCall? ==> r.Err?
    requires script[n].StoreCall? && r.Ok? ==>
               r.value.Some? && script[n].d.name in stores' && stores'[script[n].d.name] == CachedStore(r.value.value, script[n].d.migrations)
    ensures Told(catalog, fileName, script, made + [n], calls + [script[n]], replies + [r], n + 1, stores0, closed0, stores', closed')
  {
    var call := script[n];
    StillRemembered(calls, replies, call, r, stores, stores');
    StillNone(calls, replies, call, r, closed);
    assert script[..n + 1] == script[..n] + [call];
    forall k | 0 <= k < n + 1 && k !in made + [n]
      ensures MightRun(catalog, fileName, script, made + [n], calls + [call], replies + [r], k)
      ensures !closed0 && script[k].d.name !in stores0
    {
      assert (made + [n])[|made|] == n;
      assert k !in made;
      StillMightRun(catalog, fileName, script, made, calls, replies, r, n, k);
    }
  }

  lemma {:induction false} Skipped(catalog: set<Run>, fileName: string, script: seq<ManagerCall>, made: seq<nat>, calls: seq<ManagerCall>,
                                   replies: seq<Result<Option<Store>, Error>>, n: nat,
                                   stores0: map<string, CachedStore>, closed0: bool, stores: map<string, CachedStore>, closed: bool)
    requires n < |script| && Told(catalog, fileName, script, made, calls, replies, n, stores0, closed0, stores, closed)
    requires script[n].StoreCall? && script[n].d.name !in stores && !closed && ValidName(script[n].d.name) && ValidFileName(fileName)
    requires Run(Module(script[n].d.name), script[n].d.migrations) !in catalog
    ensures Told(catalog, fileName, script, made, calls, replies, n + 1, stores0, closed0, stores, closed)
  {
    assert script[..n + 1] == script[..n] + [script[n]];
    assert forall k :: 0 <= k < n ==> script[..n][k] == script[k];
    assert forall i :: 0 <= i < |calls| && Stored(calls, replies, i) ==> calls[i].d.name in stores;
    assert MightRun(catalog, fileName, script, made, calls, replies, n);
  }

  class Manager {
    const file: SharedFile
    const pid: Pid
    const framework: seq<Statement>
    const fileName: string
    var isOpen: bool
    var stores: map<string, CachedStore>
    var closed: bool
    /** Contexts found ended. */
    ghost var ended: nat
    /** Connection pools this manager holds open, and checkpoints it took. */
    var pools: nat
    ghost var checkpoints: nat

    /** Holds between calls. Whatever is cached is committed, and the manager is open
        just when one of its own framework runs returned nil. */
    ghost predicate Valid()
      reads this, file
    {
      && file.Valid()
      && pools == (if isOpen && !closed then 1 else 0)
      && pid in file.sys.procs
      && file.sys.procs[pid].framework == framework
      && file.sys.procs[pid].isOpen == isOpen
      && file.sys.procs[pid].pc.Resting()
      && (isOpen ==> framework <= file.sys.committed.Applied(Framework))
      && (forall name :: name in stores ==>
            && isOpen
            && Run(Module(name), stores[name].migrations) in file.catalog
            && stores[name].migrations <= file.sys.committed.Applied(Module(name)))
    }

    /** `file` must already list this process as a fresh one. No disk is touched. */
    constructor (file: SharedFile, pid: Pid, framework: seq<Statement>, fileName: string)
      requires file.Valid() && file.At(pid, framework, false, Idle)
      ensures Valid()
      ensures this.file == file && this.pid == pid && this.framework == framework && this.fileName == fileName
      ensures !isOpen && stores == map[] && !closed
    {
      this.file, this.pid, this.framework, this.fileName := file, pid, framework, fileName;
      isOpen, stores, closed, pools := false, map[], false, 0;
    }

    /** The body of a transaction: re-read under the lock, then apply or skip. */
    method ApplyEntry(run: Run, i: nat, ghost fw: seq<Statement>, ghost up: bool) returns (r: Result<(), bool>)
      requires file.Valid() && i < |run.list|
      requires file.At(pid, fw, up, Begun(run, i))
      modifies file
      ensures file.Valid() && old(file.events) <= file.events
      ensures file.faults >= old(file.faults) && (r.Err? ==> file.faults > old(file.faults))
      ensures r.Ok? ==> file.At(pid, fw, up, Ready(run, i))
      ensures r.Err? ==> && pid in file.sys.procs
                         && file.At(pid, fw, up, file.sys.procs[pid].pc)
                         && file.sys.procs[pid].pc.InTx() && file.sys.procs[pid].pc.run == run
    {
      var cur := file.QueryInTx(pid, run, i, fw, up);
      if cur.Err? {
        return Err(cur.error);
      }
      if cur.value != i {
        return Ok(());
      }
      r := file.InTx(pid, Event.Exec(pid), fw, up, Matched(run, i));
      if r.Ok? {
        r := file.InTx(pid, Event.BumpVersion(pid), fw, up, Executed(run, i));
      }
    }

    /** withImmediateTx around ApplyEntry: any error rolls the transaction back. */
    method MigrateOne(run: Run, i: nat, ghost fw: seq<Statement>, ghost up: bool) returns (r: Result<(), Error>)
      requires file.Valid() && i < |run.list|
      requires file.At(pid, fw, up, Looping(run, i))
      modifies file
      ensures file.Valid() && old(file.events) <= file.events
      ensures r.Err? ==> r.error.code == MigrationFailure
      ensures file.faults >= old(file.faults) && (r.Err? ==> file.faults > old(file.faults))
      ensures file.At(pid, fw, up, if r.Ok? then Looping(run, i + 1) else Failed(run))
    {
      var step := file.BeginImmediate(pid, run, i, fw, up);
      if step.Ok? {
        step := ApplyEntry(run, i, fw, up);
        if step.Ok? {
          step := file.InTx(pid, Event.Commit(pid), fw, up, Ready(run, i));
        }
      }
      if step.Err? {
        file.GiveUp(pid);
        return Err(Error(MigrationFailure, step.error));
      }
      r := Ok(());
    }

    /** runFrameworkMigrations and runModuleMigrations: the same loop over two schemas. */
    method RunMigrations(run: Run) returns (r: Result<(), Error>)
      requires file.Valid()
      requires pid in file.sys.procs && file.sys.procs[pid].pc == Reading(run)
      modifies file
      ensures file.Valid() && old(file.events) <= file.events
      ensures r.Err? ==> r.error.code == MigrationFailure || r.error.code == IncompatibleSchema
      ensures |run.list| < old(file.sys.committed.Version(run.schema)) ==> r.Err?
      ensures file.faults >= old(file.faults)
      ensures r.Err? ==> file.faults > old(file.faults) || (r.error.code == IncompatibleSchema && |run.list| < file.sys.committed.Version(run.schema))
      ensures r.Err? && r.error.busy ==> file.faults > old(file.faults)
      ensures r.Err? ==> file.At(pid, old(file.sys.procs[pid].framework), old(file.sys.procs[pid].isOpen), Failed(run))
      ensures r.Ok? ==> file.At(pid, old(file.sys.procs[pid].framework),
                                old(file.sys.procs[pid].isOpen) || run.schema.Framework?, Finished(run))
    {
      ghost var fw, up := file.sys.procs[pid].framework, file.sys.procs[pid].isOpen;
      var version := file.QueryVersion(pid, run, fw, up);
      if version.Err? {
        file.GiveUp(pid);
        return Err(Error(MigrationFailure, version.error));
      }
      if version.value > |run.list| {
        return Err(Error(IncompatibleSchema, false));
      }
      for i := version.value to |run.list|
        invariant file.Valid() && old(file.events) <= file.events
        invariant file.At(pid, fw, up, Looping(run, i)) && file.faults >= old(file.faults)
      {
        var applied := MigrateOne(run, i, fw, up);
        if applied.Err? {
          return applied;
        }
      }
      file.Fire(Event.Return(pid));
      r := Ok(());
    }

    /** bootstrapOnce: acquire a connection, then run the framework list. */
    method BootstrapOnce() returns (r: Result<(), Error>)
      requires file.Valid() && !isOpen
      requires pid in file.sys.procs && file.sys.procs[pid].framework == framework
      requires !file.sys.procs[pid].isOpen && file.sys.procs[pid].pc.Resting()
      modifies file
      ensures file.Valid() && old(file.events) <= file.events
      ensures r.Err? ==> r.error.code in {OpenFailure, MigrationFailure, IncompatibleSchema}
      ensures |framework| < old(file.sys.committed.Version(Framework)) ==> r.Err?
      ensures file.faults >= old(file.faults)
      ensures r.Err? ==> file.faults > old(file.faults) || (r.error.code == IncompatibleSchema && |framework| < file.sys.committed.Version(Framework))
      ensures r.Err? && r.error.busy ==> file.faults > old(file.faults)
      ensures r.Ok? ==> file.At(pid, framework, true, Finished(Run(Framework, framework)))
      ensures r.Err? ==> && pid in file.sys.procs
                         && file.sys.procs[pid].pc.Resting()
                         && file.sys.procs[pid] == Proc(framework, false, file.sys.procs[pid].pc)
    {
      file.Peers(pid);
      var fails := file.Fails();
      if fails {
        var busy := Chance();
        return Err(Error(OpenFailure, busy));
      }
      file.Fire(Event.StartOpen(pid));
      Later(file.catalog, old(file.events), file.events);
      r := RunMigrations(Run(Framework, framework));
    }

    /** sleepBackoff: false when the context ends first. */
    method SleepBackoff(attempt: nat) returns (woke: bool, d: int)
      modifies this`ended
      ensures d == Backoff.Min(1_000_000 * Backoff.Pow2(attempt), 50_000_000)
      ensures ended == old(ended) + if woke then 0 else 1
    {
      d := Backoff.Delay(attempt);
      var done := Ended();
      woke := !done;
    }

    /** Whether the caller's context has ended. */
    method Ended() returns (b: bool)
      modifies this`ended
      ensures ended == old(ended) + if b then 1 else 0
    {
      b := Chance();
      ended := ended + if b then 1 else 0;
    }

    /** ensureOpen. On failure the manager stays closed-up so that a later call retries;
        the bootstrap runs at most OPEN_MAX_RETRIES + 1 times. */
    method EnsureOpen() returns (r: Result<(), Error>, attempts: nat)
      requires Valid() && !closed
      modifies this`isOpen, this`ended, this`pools, file
      ensures Valid() && old(file.events) <= file.events
      ensures attempts <= OPEN_MAX_RETRIES + 1
      // A busy file is tried eleven times before the error is reported.
      ensures attempts <= 11 && (r.Err? && r.error.busy ==> attempts == 11)
      ensures r.Err? && r.error.code == Cancelled ==> ended > old(ended)
      ensures ended >= old(ended)
      ensures !old(isOpen) && |framework| < old(file.sys.committed.Version(Framework)) ==> r.Err?
      ensures old(isOpen) ==> r.Ok? && attempts == 0 && file.events == old(file.events)
      ensures isOpen <==> r.Ok?
      ensures r.Ok? ==> file.sys.committed.HasTracker()
      ensures file.faults >= old(file.faults)
      ensures r.Err? ==> || file.faults > old(file.faults) || r.error.code == Cancelled
                         || (r.error.code == IncompatibleSchema && |framework| < file.sys.committed.Version(Framework))
    {
      attempts := 0;
      if isOpen {
        Restore(file.events, file.events);
        return Ok(()), 0;
      }
      var fails := file.Fails();
      if fails {
        return Err(Error(OpenFailure, false)), 0;
      }
      pools := pools + 1;
      while true
        invariant file.Valid() && old(file.events) <= file.events
        invariant pid in file.sys.procs && file.sys.procs[pid].pc.Resting()
        invariant file.sys.procs[pid] == Proc(framework, false, file.sys.procs[pid].pc)
        invariant pools == old(pools) + 1 && !closed
        invariant !isOpen && attempts <= OPEN_MAX_RETRIES && file.faults >= old(file.faults) && ended >= old(ended)
        decreases OPEN_MAX_RETRIES + 1 - attempts
      {
        var done := Ended();
        if done {
          pools := pools - 1;
          r := Err(Error(Cancelled, false));
          break;
        }
        var attempt := attempts;
        attempts := attempts + 1;
        Later(file.catalog, old(file.events), file.events);
        r := BootstrapOnce();
        if r.Ok? {
          isOpen := true;
          break;
        }
        if !r.error.busy || attempt >= OPEN_MAX_RETRIES {
          pools := pools - 1;
          break;
        }
        var woke, d := SleepBackoff(attempt);
        if !woke {
          pools := pools - 1;
          r := Err(Error(Cancelled, false));
          break;
        }
      }
      Restore(old(file.events), file.events);
    }

    /** A list that Store may get to run must follow the append-only contract, that is,
        come from `catalog`. One that is refused before may be any list: under a cached
        name, an invalid name or file name, or on a closed manager. */
    predicate Lawful(d: Descriptor)
      reads this, file
    {
      d.name !in stores && ValidName(d.name) && ValidFileName(fileName) && !closed ==>
        Run(Module(d.name), d.migrations) in file.catalog
    }

    /** Store: validate, open on first use, migrate, cache. */
    method Store(d: Descriptor) returns (r: Result<Store, Error>)
      requires Valid() && Lawful(d)
      modifies this`isOpen, this`stores, this`ended, this`pools, file
      ensures Valid() && old(file.events) <= file.events
      // A refused or failed call caches nothing and forgets nothing.
      ensures r.Err? ==> stores == old(stores)
      ensures !ValidName(d.name) || !ValidFileName(fileName) || closed ==> r.Err? && file.events == old(file.events)
      // A cached name: the same handle for the same list, an error for another one.
      ensures d.name in old(stores) ==> && stores == old(stores) && isOpen == old(isOpen) && file.events == old(file.events)
                                        && (r.Ok? ==> r.value == stores[d.name].store && d.migrations == stores[d.name].migrations)
                                        && (d.migrations != stores[d.name].migrations ==> r.Err?)
      ensures (&& d.name in old(stores) && d.migrations == old(stores)[d.name].migrations && !closed
               && ValidName(d.name) && ValidFileName(fileName) && r.Err?) ==> r.error.code == Cancelled
      // A new name: success caches a fresh handle.
      ensures d.name !in old(stores) && r.Ok? ==> fresh(r.value) && stores == old(stores)[d.name := CachedStore(r.value, d.migrations)]
      // A failure has a reason: a database call failed, the context ended, or the call
      // was refused.
      ensures r.Err? ==> || file.faults > old(file.faults) || (r.error.code == Cancelled && ended > old(ended))
                         || Refuses(r.error.code, d)
      // A schema newer than the binary knows is refused.
      ensures d.name !in old(stores) && |d.migrations| < old(file.sys.committed.Version(Module(d.name))) ==> r.Err?
      // Success means applied, whatever the peers did meanwhile.
      ensures r.Ok? ==> isOpen && d.migrations <= file.sys.committed.Applied(Module(d.name))
    {
      var done := Ended();
      if done {
        return Err(Error(Cancelled, false));
      }
      if !ValidName(d.name) {
        return Err(Error(InvalidDescriptor, false));
      }
      if !ValidFileName(fileName) {
        return Err(Error(InvalidDescriptor, false));
      }
      if closed {
        return Err(Error(ManagerClosed, false));
      }
      if d.name in stores {
        if stores[d.name].migrations != d.migrations {
          return Err(Error(InvalidDescriptor, false));
        }
        return Ok(stores[d.name].store);
      }
      done := Ended();
      if done {
        return Err(Error(Cancelled, false));
      }
      r := OpenAndMigrate(d);
    }

    /** The second half of Store, for a name that is not cached: open on first use, then
        migrate. */
    method OpenAndMigrate(d: Descriptor) returns (r: Result<Store, Error>)
      requires Valid() && !closed && d.name !in stores && Run(Module(d.name), d.migrations) in file.catalog
      modifies this`isOpen, this`stores, this`ended, this`pools, file
      ensures Valid() && old(file.events) <= file.events && ended >= old(ended)
      ensures r.Err? ==> stores == old(stores)
      ensures r.Err? ==> || file.faults > old(file.faults) || (r.error.code == Cancelled && ended > old(ended))
                         || (r.error.code == IncompatibleSchema
                             && (|framework| < file.sys.committed.Version(Framework) || |d.migrations| < file.sys.committed.Version(Module(d.name))))
      ensures |d.migrations| < old(file.sys.committed.Version(Module(d.name))) ==> r.Err?
      ensures r.Ok? ==> fresh(r.value) && stores == old(stores)[d.name := CachedStore(r.value, d.migrations)]
      ensures r.Ok? ==> isOpen && d.migrations <= file.sys.committed.Applied(Module(d.name))
    {
      var up, attempts := EnsureOpen();
      if up.Err? {
        return Err(up.error);
      }
      Later(file.catalog, old(file.events), file.events);
      r := MigrateAndCache(d);
    }

    /** Why Store refuses a descriptor although nothing failed. */
    ghost predicate Refuses(code: Code, d: Descriptor)
      reads this, file
    {
      match code
      case Cancelled => false
      case ManagerClosed => closed
      case InvalidDescriptor =>
        !ValidName(d.name) || !ValidFileName(fileName) || (d.name in stores && stores[d.name].migrations != d.migrations)
      case IncompatibleSchema =>
        || |framework| < file.sys.committed.Version(Framework)
        || |d.migrations| < file.sys.committed.Version(Module(d.name))
      case _ => false
    }

    /** On an open file: one connection, one migration run. */
    method MigrateAndCache(d: Descriptor) returns (r: Result<Store, Error>)
      requires Valid() && isOpen && d.name !in stores && Run(Module(d.name), d.migrations) in file.catalog
      modifies this`stores, file
      ensures Valid() && old(file.events) <= file.events
      ensures r.Err? ==> r.error.code == MigrationFailure || r.error.code == IncompatibleSchema
      ensures |d.migrations| < old(file.sys.committed.Version(Module(d.name))) ==> r.Err?
      ensures file.faults >= old(file.faults)
      ensures r.Err? ==> || file.faults > old(file.faults)
                         || (r.error.code == IncompatibleSchema && |d.migrations| < file.sys.committed.Version(Module(d.name)))
      ensures r.Err? ==> stores == old(stores)
      ensures r.Ok? ==> fresh(r.value) && stores == old(stores)[d.name := CachedStore(r.value, d.migrations)]
      ensures r.Ok? ==> d.migrations <= file.sys.committed.Applied(Module(d.name))
    {
      ghost var before := file.events;
      var run := Run(Module(d.name), d.migrations);
      var fails := file.Fails();
      if fails {
        var busy := Chance();
        return Err(Error(MigrationFailure, busy));
      }
      CatalogFixed(file.catalog, file.events);
      file.Fire(Event.StartModule(pid, run));
      var applied := RunMigrations(run);
      Restore(before, file.events);
      if applied.Err? {
        return Err(applied.error);
      }
      MigrationRuns.NilMeansApplied(file.catalog, file.events, [], pid, run);
      assert file.events + [] == file.events;
      var store := new Store();
      stores := stores[d.name := CachedStore(store, d.migrations)];
      r := Ok(store);
    }

    /** Close: idempotent; a checkpoint or pool failure is reported but stays closed. */
    method Close() returns (r: Result<(), Error>)
      requires Valid()
      modifies this`closed, this`pools, this`checkpoints, file`faults
      ensures Valid() && closed
      ensures old(closed) || !isOpen ==> r.Ok?
      ensures r.Err? <==> file.faults > old(file.faults)
      // The barrier: nil from an open manager means the log was checkpointed.
      ensures !old(closed) && isOpen && r.Ok? ==> checkpoints > old(checkpoints)
    {
      if closed {
        return Ok(());
      }
      closed := true;
      if !isOpen {
        return Ok(());
      }
      var checkpointFails := file.Fails();
      if checkpointFails {
        var poolFails := file.Fails();
        pools := pools - 1;
        return Err(Error(CheckpointFailure, false));
      }
      checkpoints := checkpoints + 1;
      var poolFails := file.Fails();
      pools := pools - 1;
      r := if poolFails then Err(Error(CloseFailure, false)) else Ok(());
    }

    /** Any script of Store and Close calls, failing ones included: after a Close no Store
        succeeds, and every handle ever returned is the one cached at the end. `made` are
        the places of the calls in the script. Every call is made but a Store that might
        run a list from outside the catalog. */
    method Serve(script: seq<ManagerCall>) returns (made: seq<nat>, calls: seq<ManagerCall>, replies: seq<Result<Option<Store>, Error>>)
      requires Valid()
      modifies this`isOpen, this`stores, this`closed, this`ended, this`pools, this`checkpoints, file
      ensures Valid() && |replies| == |calls|
      ensures Picks(script, made, calls, |script|)
      ensures forall n :: 0 <= n < |script| && n !in made ==>
                            && MightRun(file.catalog, fileName, script, made, calls, replies, n)
                            && !old(closed) && script[n].d.name !in old(stores)
      ensures NoneAfterClose(calls, replies, |calls|)
      ensures Remembered(calls, replies, stores, |calls|)
    {
      made, calls, replies := [], [], [];
      for n := 0 to |script|
        invariant Valid()
        invariant Told(file.catalog, fileName, script, made, calls, replies, n, old(stores), old(closed), stores, closed)
      {
        var call := script[n];
        ghost var before, wasClosed := stores, closed;
        if call.CloseCall? || Lawful(call.d) {
          var r := ServeOne(call);
          Made(file.catalog, fileName, script, made, calls, replies, n, old(stores), old(closed), before, wasClosed, r, stores, closed);
          made, calls, replies := made + [n], calls + [call], replies + [r];
        } else {
          Skipped(file.catalog, fileName, script, made, calls, replies, n, old(stores), old(closed), stores, closed);
        }
      }
    }

    /** Two handles returned for one name are the same handle for the same list, and every
        list that was reported stored is applied. */
    lemma {:induction false} HandlesAgree(calls: seq<ManagerCall>, replies: seq<Result<Option<Store>, Error>>, i: nat, j: nat)
      requires Valid() && Remembered(calls, replies, stores, |calls|)
      requires Stored(calls, replies, i) && Stored(calls, replies, j) && calls[i].d.name == calls[j].d.name
      ensures calls[i].d.migrations == calls[j].d.migrations && replies[i] == replies[j]
      ensures calls[i].d.migrations <= file.sys.committed.Applied(Module(calls[i].d.name))
    {
    }

    method ServeOne(call: ManagerCall) returns (reply: Result<Option<Store>, Error>)
      requires Valid()
      requires call.StoreCall? ==> Lawful(call.d)
      modifies this`isOpen, this`stores, this`closed, this`ended, this`pools, this`checkpoints, file
      ensures Valid() && (old(closed) || call.CloseCall? ==> closed)
      ensures old(closed) && call.StoreCall? ==> reply.Err?
      ensures forall name :: name in old(stores) ==> name in stores && stores[name] == old(stores)[name]
      ensures call.StoreCall? && reply.Ok? ==>
                reply.value.Some? && call.d.name in stores && stores[call.d.name] == CachedStore(reply.value.value, call.d.migrations)
    {
      match call
      case CloseCall =>
        var r := Close();
        reply := if r.Ok? then Ok(None) else Err(r.error);
      case StoreCall(d) =>
        var r := Store(d);
        reply := if r.Ok? then Ok(Some(r.value)) else Err(r.error);
    }

    /** Facts about the file that a longer history keeps. */
    lemma Restore(before: seq<Event>, now: seq<Event>)
      requires file.Valid() && now == file.events && before <= now
      ensures forall name :: Execute(Init(file.catalog), before).committed.Applied(Module(name))
                          <= file.sys.committed.Applied(Module(name))
      ensures pid in file.sys.procs && file.sys.procs[pid].isOpen ==>
                file.sys.procs[pid].framework <= file.sys.committed.Applied(Framework) && file.sys.committed.HasTracker()
    {
      Later(file.catalog, before, now);
      if pid in file.sys.procs {
        MigrationRuns.OpenMeansFramework(file.catalog, now, pid);
      }
    }
  }
}
