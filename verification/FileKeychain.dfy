/** The plaintext credential file of keychain/file_provider.go. Every system call may
    fail, and the process may die before or after any of them. */
module FileKeychain {
  import opened Outcomes

  /** A stored member is a secret or, in a file written by hand, a JSON null. */
  type Secrets = map<string, Option<string>>

  const VERSION := 1
  const MODE := 0x180 // 0600

  datatype Store = Store(version: int, secrets: Secrets)

  /** What a file holds. A document may lack its "secrets" member; a partly written
      document never parses. */
  datatype Content = Json(version: int, secrets: Option<Secrets>) | Unparsable

  datatype File = File(content: Content, mode: nat)

  datatype Path = Credentials | Temp(n: nat)

  type Disk = map<Path, File>

  /** How a system call ends. */
  datatype Sys = Done | Failed | Crashed

  datatype ReadResult = Read(store: Store) | NotExist | Unreadable | ReadCrashed

  /** How a call on the provider ends. Get panics on a null member. */
  datatype Reply = Value(value: string) | Success | NotFound | Failure | Panics | Died

  datatype Op = Get(key: string) | Set(key: string, value: string) | Delete(key: string)

  function Marshal(store: Store): Content {
    Json(store.version, Some(store.secrets))
  }

  function Unmarshal(c: Content): Option<Store> {
    match c
    case Unparsable => None
    case Json(version, secrets) => Some(Store(version, if secrets.Some? then secrets.value else map[]))
  }

  function CredentialFile(d: Disk): Option<File> {
    if Credentials in d then Some(d[Credentials]) else None
  }

  /** What the provider reads from a disk: no file is an empty store. */
  function Loaded(d: Disk): Option<Store> {
    if Credentials in d then Unmarshal(d[Credentials].content) else Some(Store(VERSION, map[]))
  }

  /** What each content stands for: a written store reads back, a document without a
      "secrets" member is empty, and what does not parse is nothing. */
  lemma LoadedExactly(store: Store, version: int)
    ensures Unmarshal(Marshal(store)) == Some(store)
    ensures Unmarshal(Json(version, None)) == Some(Store(version, map[]))
    ensures Unmarshal(Unparsable) == None
    ensures Loaded(map[]) == Some(Store(1, map[]))
  {
  }

  /** The map the file stands for; None when it does not parse. */
  function View(d: Disk): Option<Secrets> {
    match Loaded(d)
    case None => None
    case Some(store) => Some(store.secrets)
  }

  /** A record of file contents that starts at `a` and may switch to `b` once. */
  ghost predicate SwitchesOnce<T>(s: seq<T>, a: T, b: T) {
    && (forall i :: 0 <= i < |s| ==> s[i] == a || s[i] == b)
    && (forall i, j :: 0 <= i < j < |s| && s[i] != a ==> s[j] == b)
  }

  /** `after` is `before` with at most one new temporary file. */
  ghost predicate OneTempMore(before: Disk, after: Disk) {
    exists n :: Temp(n) !in before && Temp(n) in after && after - {Temp(n)} == before
  }

  // ---------- The provider as a map ----------

  /** One call seen from outside: the map before, the call and its reply, the map after. */
  predicate Answers(before: Option<Secrets>, op: Op, reply: Reply, after: Option<Secrets>) {
    match before
    case None => after == None && (reply.Failure? || reply.Died?)
    case Some(m) =>
      match reply
      case Value(v) => op.Get? && op.key in m && m[op.key] == Some(v) && after == before
      case Panics => op.Get? && op.key in m && m[op.key] == None && after == before
      case NotFound => !op.Set? && op.key !in m && after == before
      case Failure => after == before
      case Success => !op.Get? && (op.Delete? ==> op.key in m) && after == Some(Applied(m, op))
      case Died => after == before || (!op.Get? && (op.Delete? ==> op.key in m) && after == Some(Applied(m, op)))
  }

  function Applied(m: Secrets, op: Op): Secrets {
    match op
    case Get(_) => m
    case Set(key, value) => m[key := Some(value)]
    case Delete(key) => m - {key}
  }

  datatype Entry = Entry(op: Op, reply: Reply)

  /** A history of calls explained by the maps between them. */
  predicate Explained(maps: seq<Option<Secrets>>, log: seq<Entry>) {
    && |maps| == |log| + 1
    && forall i :: 0 <= i < |log| ==> Answers(maps[i], log[i].op, log[i].reply, maps[i + 1])
  }

  function Lookup(m: Option<Secrets>, key: string): Option<Option<string>> {
    if m.Some? && key in m.value then Some(m.value[key]) else None
  }

  /** The call may have changed `key`. */
  predicate Touches(e: Entry, key: string) {
    !e.op.Get? && e.op.key == key && (e.reply.Success? || e.reply.Died?)
  }

  lemma {:induction false} UntouchedKey(maps: seq<Option<Secrets>>, log: seq<Entry>, key: string, i: nat, j: nat)
    requires Explained(maps, log) && i <= j <= |log|
    requires forall k :: i <= k < j ==> !Touches(log[k], key)
    ensures Lookup(maps[j], key) == Lookup(maps[i], key)
    ensures maps[j].Some? == maps[i].Some?
  {
    if i < j {
      UntouchedKey(maps, log, key, i, j - 1);
      assert Answers(maps[j - 1], log[j - 1].op, log[j - 1].reply, maps[j]);
      assert !Touches(log[j - 1], key);
    }
  }

  /** A Get that answers gives the value of the last Set that succeeded, whatever failed
      in between and whatever happened to other keys, crashes included. */
  lemma {:induction false} GetReturnsLastSet(maps: seq<Option<Secrets>>, log: seq<Entry>, i: nat, j: nat)
    requires Explained(maps, log) && i < j < |log|
    requires log[i].op.Set? && log[i].reply.Success? && log[j].op == Get(log[i].op.key)
    requires forall k :: i < k < j ==> !Touches(log[k], log[i].op.key)
    ensures log[j].reply == Value(log[i].op.value) || log[j].reply.Failure? || log[j].reply.Died?
  {
    assert Answers(maps[i], log[i].op, log[i].reply, maps[i + 1]);
    UntouchedKey(maps, log, log[i].op.key, i + 1, j);
    assert Answers(maps[j], log[j].op, log[j].reply, maps[j + 1]);
  }

  /** After a successful Delete the key is not found until it is set again. */
  lemma {:induction false} DeletedStaysDeleted(maps: seq<Option<Secrets>>, log: seq<Entry>, i: nat, j: nat)
    requires Explained(maps, log) && i < j < |log|
    requires log[i].op.Delete? && log[i].reply.Success? && log[j].op.key == log[i].op.key && !log[j].op.Set?
    requires forall k :: i < k < j ==> !Touches(log[k], log[i].op.key)
    ensures log[j].reply.NotFound? || log[j].reply.Failure? || log[j].reply.Died?
  {
    assert Answers(maps[i], log[i].op, log[i].reply, maps[i + 1]);
    UntouchedKey(maps, log, log[i].op.key, i + 1, j);
    assert Answers(maps[j], log[j].op, log[j].reply, maps[j + 1]);
  }

  predicate NoNulls(m: Option<Secrets>) {
    m.Some? ==> forall key :: key in m.value ==> m.value[key].Some?
  }

  /** The provider never writes a null: a file without one never makes a Get panic. */
  lemma {:induction false} NoNullsAppear(maps: seq<Option<Secrets>>, log: seq<Entry>, n: nat)
    requires Explained(maps, log) && NoNulls(maps[0]) && n <= |log|
    ensures NoNulls(maps[n])
    ensures forall k :: 0 <= k < n ==> !log[k].reply.Panics?
  {
    if n > 0 {
      NoNullsAppear(maps, log, n - 1);
      assert Answers(maps[n - 1], log[n - 1].op, log[n - 1].reply, maps[n]);
    }
  }

  /** A Get that is not interrupted panics exactly on a null member. */
  lemma {:induction false} PanicsOnNull(maps: seq<Option<Secrets>>, log: seq<Entry>, k: nat)
    requires Explained(maps, log) && k < |log| && log[k].op.Get? && !log[k].reply.Failure? && !log[k].reply.Died?
    ensures log[k].reply.Panics? <==> Lookup(maps[k], log[k].op.key) == Some(None)
  {
    assert Answers(maps[k], log[k].op, log[k].reply, maps[k + 1]);
  }

  // ---------- Disks around one write ----------

  /** Read and write for the owner, nothing for group and others. */
  predicate OwnerOnly(mode: nat) { mode / 64 == 6 && mode % 64 == 0 }

  function NewFile(store: Store): File {
    File(Marshal(store), MODE)
  }

  /** A failed call leaves the credential file alone, and a temporary file only when its
      removal failed too. */
  ghost predicate Unharmed(before: Disk, failures: nat, after: Disk, failuresAfter: nat) {
    && CredentialFile(after) == CredentialFile(before)
    && (after == before || (failuresAfter == failures + 1 && OneTempMore(before, after)))
  }

  /** A crash leaves the whole old file or the whole new one, beside at most one
      temporary file; no other file changes. */
  ghost predicate CrashedDisk(before: Disk, next: File, after: Disk) {
    || after == before
    || OneTempMore(before, after)
    || after == before[Credentials := next]
  }

  /** Around the steps on `tmp`: only it has changed, or it has become the new file. */
  ghost predicate BeforeOrAfter(before: Disk, tmp: Path, next: File, after: Disk) {
    || (tmp in after && after - {tmp} == before - {tmp})
    || after == (before - {tmp})[Credentials := next]
  }

  ghost predicate SwitchedSince(before: seq<Option<File>>, after: seq<Option<File>>, a: Option<File>, b: Option<File>) {
    before <= after && SwitchesOnce(after[|before|..], a, b)
  }

  function ReplyOf(r: Sys): Reply {
    match r
    case Done => Success
    case Failed => Failure
    case Crashed => Died
  }

  lemma {:induction false} UnusedNameExists(names: set<Path>)
    ensures exists n: nat :: Temp(n) !in names
  {
    var bound := NameBound(names);
    assert Temp(bound) !in names;
  }

  lemma {:induction false} NameBound(names: set<Path>) returns (bound: nat)
    ensures forall n: nat :: n >= bound ==> Temp(n) !in names
  {
    bound := 0;
    if names != {} {
      var p :| p in names;
      bound := NameBound(names - {p});
      if p.Temp? && p.n >= bound { bound := p.n + 1; }
      forall n: nat | n >= bound ensures Temp(n) !in names {
        assert Temp(n) !in names - {p};
      }
    }
  }

  // ---------- The provider ----------

  class FileProvider {
    var disk: Disk
    /** Whether the directory of the credential file is there. */
    var hasDir: bool
    /** Temporary files that are open. */
    var handles: set<Path>
    /** System calls that failed, and those of os.Remove among them. */
    ghost var faults: nat
    ghost var removeFailures: nat
    /** Deaths of the process. */
    ghost var crashes: nat
    /** The credential file after every system call: what another reader could see. */
    ghost var seen: seq<Option<File>>

    constructor (d: Disk)
      ensures disk == d && handles == {} && seen == [] && removeFailures == 0 && faults == 0 && crashes == 0
    {
      disk, hasDir, handles := d, false, {};
      seen := [];
      removeFailures, faults, crashes := 0, 0, 0;
    }

    /** A system call that writes `after` to the disk, if it works. A crash comes before
        or after the effect. */
    method Syscall(after: Disk) returns (r: Sys)
      modifies this`disk, this`faults, this`crashes, this`seen
      ensures removeFailures == old(removeFailures)
      ensures r.Done? ==> disk == after
      ensures r.Failed? ==> disk == old(disk)
      ensures disk == old(disk) || disk == after
      ensures seen == old(seen) + [CredentialFile(disk)]
      ensures faults == old(faults) + if r.Failed? then 1 else 0
      ensures crashes == old(crashes) + if r.Crashed? then 1 else 0
    {
      r := *;
      crashes := crashes + if r.Crashed? then 1 else 0;
      faults := faults + if r.Failed? then 1 else 0;
      var late: bool := *;
      if r.Done? || (r.Crashed? && late) {
        disk := after;
      }
      seen := seen + [CredentialFile(disk)];
    }

    method MkdirAll() returns (r: Sys)
      modifies this`disk, this`hasDir, this`faults, this`crashes, this`seen
      ensures disk == old(disk) && seen == old(seen) + [CredentialFile(disk)]
      ensures r.Done? ==> hasDir
      ensures faults >= old(faults) && (r.Failed? ==> faults > old(faults))
      ensures crashes >= old(crashes) && (r.Crashed? ==> crashes > old(crashes))
    {
      r := Syscall(disk);
      if r.Done? { hasDir := true; }
    }

    /** os.CreateTemp: an open, empty file under a name not in use. The mode is 0600 less
        what the process's mask takes away. */
    method CreateTemp() returns (tmp: Path, r: Sys)
      requires hasDir
      modifies this`disk, this`handles, this`faults, this`crashes, this`seen
      ensures faults >= old(faults) && (r.Failed? ==> faults > old(faults))
      ensures crashes >= old(crashes) && (r.Crashed? ==> crashes > old(crashes))
      ensures tmp.Temp? && tmp !in old(disk) && tmp !in old(handles)
      ensures handles == if r.Done? then old(handles) + {tmp} else old(handles)
      ensures r.Done? ==> tmp in disk && disk - {tmp} == old(disk) && disk[tmp].mode % 64 == 0
      ensures disk == old(disk) || (tmp in disk && disk - {tmp} == old(disk))
      ensures r.Failed? ==> disk == old(disk)
      ensures CredentialFile(disk) == CredentialFile(old(disk))
      ensures seen == old(seen) + [CredentialFile(old(disk))]
    {
      UnusedNameExists(disk.Keys + handles);
      var n :| Temp(n) !in disk.Keys + handles;
      tmp := Temp(n);
      var mode: nat :| mode <= MODE && mode % 64 == 0;
      r := Syscall(disk[tmp := File(Unparsable, mode)]);
      if r.Done? { handles := handles + {tmp}; }
    }

    /** tmp.Close: the file is closed even when an error is reported. */
    method CloseFile(tmp: Path) returns (r: Sys)
      modifies this`disk, this`handles, this`faults, this`crashes, this`seen
      ensures disk == old(disk) && handles == old(handles) - {tmp} && seen == old(seen) + [CredentialFile(disk)]
      ensures faults >= old(faults) && (r.Failed? ==> faults > old(faults))
      ensures crashes >= old(crashes) && (r.Crashed? ==> crashes > old(crashes))
    {
      r := Syscall(disk);
      handles := handles - {tmp};
    }

    /** tmp.Write: a failed or interrupted write leaves a truncated document. */
    method Write(tmp: Path, data: Content) returns (r: Sys)
      requires tmp.Temp? && tmp in disk && tmp in handles
      modifies this`disk, this`faults, this`crashes, this`seen
      ensures faults >= old(faults) && (r.Failed? ==> faults > old(faults))
      ensures crashes >= old(crashes) && (r.Crashed? ==> crashes > old(crashes))
      ensures tmp in disk && disk == old(disk)[tmp := disk[tmp]]
      ensures r.Done? ==> disk[tmp].content == data && disk[tmp].mode == old(disk[tmp].mode)
      ensures CredentialFile(disk) == CredentialFile(old(disk))
      ensures seen == old(seen) + [CredentialFile(old(disk))]
    {
      ghost var before := disk;
      r := Syscall(disk[tmp := disk[tmp].(content := data)]);
      if !r.Done? {
        disk := disk[tmp := File(Unparsable, disk[tmp].mode)];
      }
      assert disk == before[tmp := disk[tmp]];
    }

    /** readStore */
    method ReadStore() returns (r: ReadResult)
      modifies this`faults, this`crashes
      ensures crashes >= old(crashes) && (r.ReadCrashed? ==> crashes > old(crashes))
      ensures faults >= old(faults) && (r.Unreadable? ==> faults > old(faults) || Loaded(disk).None?)
      ensures r.NotExist? ==> Credentials !in disk
      ensures r.Read? ==> Credentials in disk && Loaded(disk) == Some(r.store)
      ensures Loaded(disk).None? ==> r.Unreadable? || r.ReadCrashed?
    {
      var fault: Sys := *;
      if fault.Failed? {
        faults := faults + 1;
        return Unreadable;
      }
      if fault.Crashed? {
        crashes := crashes + 1;
        return ReadCrashed;
      }
      if Credentials !in disk { return NotExist; }
      match Unmarshal(disk[Credentials].content)
      case None => return Unreadable;
      case Some(store) => return Read(store);
    }

    /** The steps from a fresh temporary file to the new credential file. `committed`
        tells the deferred cleanup to keep out. */
    method Publish(tmp: Path, store: Store) returns (r: Sys, committed: bool)
      requires tmp.Temp? && tmp in disk && tmp in handles
      modifies this`disk, this`handles, this`faults, this`crashes, this`seen
      ensures r.Done? ==> handles == old(handles) - {tmp}
      ensures handles == old(handles) || handles == old(handles) - {tmp}
      ensures faults >= old(faults) && (r.Failed? ==> faults > old(faults))
      ensures crashes >= old(crashes) && (r.Crashed? ==> crashes > old(crashes))
      ensures committed == r.Done?
      ensures r.Done? ==> disk == (old(disk) - {tmp})[Credentials := NewFile(store)]
      ensures !r.Done? ==> BeforeOrAfter(old(disk), tmp, NewFile(store), disk)
      ensures r.Failed? ==> tmp in disk
      ensures SwitchedSince(old(seen), seen, CredentialFile(old(disk)), Some(NewFile(store)))
      ensures seen != [] && seen[|seen| - 1] == CredentialFile(disk)
    {
      committed := false;
      ghost var was, file := seen, CredentialFile(disk);
      r := Write(tmp, Marshal(store));
      assert seen == was + [file];
      if !r.Done? { return; }
      r := CloseFile(tmp);
      assert seen == was + [file, file];
      if !r.Done? { return; }
      r := Syscall(disk[tmp := disk[tmp].(mode := MODE)]); // os.Chmod
      assert seen == was + [file, file, file];
      if !r.Done? { return; }
      r := Syscall((disk - {tmp})[Credentials := disk[tmp]]); // os.Rename
      assert seen == was + [file, file, file, CredentialFile(disk)];
      if !r.Done? { return; }
      committed := true;
    }

    /** The deferred cleanup: both errors are ignored. */
    method Discard(tmp: Path) returns (died: bool)
      requires tmp.Temp? && tmp in disk
      modifies this`disk, this`handles, this`faults, this`removeFailures, this`crashes, this`seen
      ensures handles == old(handles) - {tmp}
      ensures faults >= old(faults) && crashes >= old(crashes) && (died ==> crashes > old(crashes))
      ensures disk == old(disk) || disk == old(disk) - {tmp}
      ensures removeFailures == old(removeFailures) + if !died && tmp in disk then 1 else 0
      ensures old(seen) <= seen && forall k :: |old(seen)| <= k < |seen| ==> seen[k] == CredentialFile(old(disk))
    {
      var r := CloseFile(tmp);
      if r.Crashed? { return true; }
      r := Syscall(disk - {tmp}); // os.Remove
      if r.Failed? { removeFailures := removeFailures + 1; }
      died := r.Crashed?;
    }

    /** writeStore, with its deferred cleanup. No file is left open. */
    method WriteStore(store: Store) returns (r: Sys)
      modifies this
      ensures !r.Crashed? ==> handles == old(handles)
      ensures faults >= old(faults) && (r.Failed? ==> faults > old(faults))
      ensures crashes >= old(crashes) && (r.Crashed? ==> crashes > old(crashes))
      ensures r.Done? ==> disk == old(disk)[Credentials := NewFile(store)]
      ensures r.Failed? ==> Unharmed(old(disk), old(removeFailures), disk, removeFailures)
      ensures r.Crashed? ==> CrashedDisk(old(disk), NewFile(store), disk)
      ensures SwitchedSince(old(seen), seen, CredentialFile(old(disk)), Some(NewFile(store)))
    {
      r := MkdirAll();
      if !r.Done? { return; }
      var tmp;
      tmp, r := CreateTemp();
      if !r.Done? { return; }
      var committed;
      r, committed := Publish(tmp, store);
      if !committed && r.Failed? {
        var died := Discard(tmp);
        if died { return Crashed; }
      }
    }

    method Get(key: string) returns (r: Reply)
      modifies this`faults, this`crashes
      ensures r.Failure? ==> faults > old(faults) || old(Loaded(disk)).None?
      ensures r.Died? ==> crashes > old(crashes)
      ensures Answers(View(disk), Op.Get(key), r, View(disk))
    {
      var read := ReadStore();
      match read
      case ReadCrashed => return Died;
      case Unreadable => return Failure;
      case NotExist => return NotFound;
      case Read(store) =>
        if key !in store.secrets { return NotFound; }
        match store.secrets[key] // (&Secret{Value: secret.Value}) reads through the pointer
        case None => return Panics;
        case Some(value) => return Value(value);
    }

    method Set(key: string, value: string) returns (r: Reply)
      modifies this
      ensures r.Failure? ==> faults > old(faults) || old(Loaded(disk)).None?
      ensures !r.Died? ==> handles == old(handles)
      ensures r.Died? ==> crashes > old(crashes)
      ensures Answers(View(old(disk)), Op.Set(key, value), r, View(disk))
      ensures r.Success? ==> disk.Keys == old(disk).Keys + {Credentials} && OwnerOnly(disk[Credentials].mode)
      ensures r.Success? ==> Loaded(disk).value.version == if Credentials in old(disk) then old(Loaded(disk)).value.version else 1
      ensures !r.Success? && !r.Died? ==> Unharmed(old(disk), old(removeFailures), disk, removeFailures)
      ensures old(Loaded(disk)).None? ==> disk == old(disk)
    {
      var read := ReadStore();
      var store := Store(VERSION, map[]);
      match read {
        case ReadCrashed => return Died;
        case Unreadable => return Failure;
        case NotExist =>
        case Read(found) => store := found;
      }
      assert Loaded(disk) == Some(store);
      store := store.(secrets := store.secrets[key := Some(value)]);
      var w := WriteStore(store);
      r := ReplyOf(w);
    }

    method Delete(key: string) returns (r: Reply)
      modifies this
      ensures r.Failure? ==> faults > old(faults) || old(Loaded(disk)).None?
      ensures !r.Died? ==> handles == old(handles)
      ensures r.Died? ==> crashes > old(crashes)
      ensures Answers(View(old(disk)), Op.Delete(key), r, View(disk))
      ensures r.Success? ==> disk.Keys == old(disk).Keys && OwnerOnly(disk[Credentials].mode)
      ensures r.Success? ==> Loaded(disk).value.version == old(Loaded(disk)).value.version
      ensures !r.Success? && !r.Died? ==> Unharmed(old(disk), old(removeFailures), disk, removeFailures)
      ensures old(Loaded(disk)).None? ==> disk == old(disk)
    {
      var read := ReadStore();
      match read {
        case ReadCrashed => return Died;
        case Unreadable => return Failure;
        case NotExist => return NotFound;
        case Read(store) =>
          if key !in store.secrets { return NotFound; }
          var w := WriteStore(store.(secrets := store.secrets - {key}));
          r := ReplyOf(w);
      }
    }

    /** Any sequence of calls, the process restarting after each crash, refines a plain
        map: one history of maps explains every reply. */
    method Serve(ops: seq<Op>) returns (log: seq<Entry>, ghost maps: seq<Option<Secrets>>)
      modifies this
      ensures |log| == |ops| && forall k :: 0 <= k < |ops| ==> log[k].op == ops[k]
      ensures Explained(maps, log) && maps[0] == View(old(disk)) && maps[|log|] == View(disk)
    {
      log, maps := [], [View(disk)];
      for n := 0 to |ops|
        invariant |log| == n && forall k :: 0 <= k < n ==> log[k].op == ops[k]
        invariant Explained(maps, log) && maps[0] == View(old(disk)) && maps[n] == View(disk)
      {
        var r;
        match ops[n] {
          case Get(key) => r := Get(key);
          case Set(key, value) => r := Set(key, value);
          case Delete(key) => r := Delete(key);
        }
        log, maps := log + [Entry(ops[n], r)], maps + [View(disk)];
      }
    }
  }
}
