/** The read-through cache (cache/cache.go) over its adapters: none, a table with a unique
    index and expiry (cache/mysql.go), and a map with joined string keys
    (cache/memory.go). Statements on the table may fail and then change nothing. */
module ReadThrough {
  import opened Outcomes

  type Data = seq<bv8>

  datatype CacheKey = CacheKey(source: string, typ: string, id: string)

  datatype CacheError = NotCached | Expired | ActiveExists | DatabaseFailed | Disabled

  // ---------- Which stored keys a lookup may hit ----------

  /** A GORM struct condition: empty fields of the key are left out of the WHERE clause. */
  predicate Matches(row: CacheKey, key: CacheKey) {
    && (key.source == "" || row.source == key.source)
    && (key.typ == "" || row.typ == key.typ)
    && (key.id == "" || row.id == key.id)
  }

  predicate NonEmpty(key: CacheKey) {
    key.source != "" && key.typ != "" && key.id != ""
  }

  /** A table lookup is confined to its own key exactly when no field is empty. */
  lemma {:induction false} MatchIsOwn(key: CacheKey)
    ensures (forall row :: Matches(row, key) ==> row == key) <==> NonEmpty(key)
  {
    if !NonEmpty(key) {
      var row := CacheKey(
        if key.source == "" then "s" else key.source,
        if key.typ == "" then "t" else key.typ,
        if key.id == "" then "i" else key.id);
      assert Matches(row, key) && row != key;
    }
  }

  /** fmt.Sprintf("%s/%s/%s", ...) */
  function Joined(key: CacheKey): string {
    key.source + "/" + key.typ + "/" + key.id
  }

  /** Where the first part ends can be read off when it holds no slash. */
  lemma {:induction false} FirstSlash(a: string, b: string, c: string, d: string)
    requires '/' !in a && '/' !in c && a + "/" + b == c + "/" + d
    ensures a == c && b == d
  {
    var s := a + "/" + b;
    var t := c + "/" + d;
    assert s[|a|] == '/' && t[|c|] == '/';
    assert forall k :: 0 <= k < |a| ==> s[k] == a[k];
    assert forall k :: 0 <= k < |c| ==> t[k] == c[k];
    assert |a| == |c|;
    assert a == s[..|a|] && c == t[..|c|];
    assert b == s[|a| + 1..] && d == t[|c| + 1..];
  }

  /** Joined keys stay apart as long as Source and Type hold no slash; Id may. */
  lemma {:induction false} JoinedInjective(k: CacheKey, l: CacheKey)
    requires '/' !in k.source && '/' !in k.typ && '/' !in l.source && '/' !in l.typ
    ensures Joined(k) == Joined(l) ==> k == l
  {
    if Joined(k) == Joined(l) {
      assert Joined(k) == k.source + "/" + (k.typ + "/" + k.id);
      assert Joined(l) == l.source + "/" + (l.typ + "/" + l.id);
      FirstSlash(k.source, k.typ + "/" + k.id, l.source, l.typ + "/" + l.id);
      FirstSlash(k.typ, k.id, l.typ, l.id);
    }
  }

  predicate SlashFree(key: CacheKey) {
    '/' !in key.source && '/' !in key.typ && '/' !in key.id
  }

  /** Against arbitrary other keys, a joined key is safe exactly when no field holds a
      slash. */
  lemma {:induction false} JoinedIsOwn(key: CacheKey)
    ensures (forall other :: Joined(other) == Joined(key) ==> other == key) <==> SlashFree(key)
  {
    if SlashFree(key) {
      forall other | Joined(other) == Joined(key) ensures other == key {
        SlashFreeStandsAlone(key, other);
      }
    } else {
      var other := SharedKey(key);
      assert Joined(other) == Joined(key) && other != key;
    }
  }

  function Slashes(s: string): nat {
    if s == "" then 0 else Slashes(s[1..]) + if s[0] == '/' then 1 else 0
  }

  lemma {:induction false} SlashesOfConcat(a: string, b: string)
    ensures Slashes(a + b) == Slashes(a) + Slashes(b)
  {
    if a == "" {
      assert a + b == b;
    } else {
      assert (a + b)[1..] == a[1..] + b;
      SlashesOfConcat(a[1..], b);
    }
  }

  lemma {:induction false} NoSlashes(s: string)
    ensures Slashes(s) == 0 <==> '/' !in s
  {
    if s != "" {
      NoSlashes(s[1..]);
      assert s == [s[0]] + s[1..];
    }
  }

  lemma {:induction false} SlashesOfJoined(key: CacheKey)
    ensures Slashes(Joined(key)) == Slashes(key.source) + Slashes(key.typ) + Slashes(key.id) + 2
  {
    SlashesOfConcat(key.source + "/" + key.typ + "/", key.id);
    SlashesOfConcat(key.source + "/" + key.typ, "/");
    SlashesOfConcat(key.source + "/", key.typ);
    SlashesOfConcat(key.source, "/");
  }

  lemma {:induction false} SlashFreeStandsAlone(key: CacheKey, other: CacheKey)
    requires SlashFree(key) && Joined(other) == Joined(key)
    ensures other == key
  {
    SlashesOfJoined(key);
    SlashesOfJoined(other);
    NoSlashes(key.source); NoSlashes(key.typ); NoSlashes(key.id);
    NoSlashes(other.source); NoSlashes(other.typ);
    JoinedInjective(key, other);
  }

  lemma {:induction false} CutAtSlash(s: string) returns (x: string, y: string)
    requires '/' in s
    ensures s == x + "/" + y
  {
    var n :| 0 <= n < |s| && s[n] == '/';
    x, y := s[..n], s[n + 1..];
  }

  /** Another key with the same joined form: one slash of a field becomes a separator. */
  lemma {:induction false} SharedKey(key: CacheKey) returns (other: CacheKey)
    requires !SlashFree(key)
    ensures Joined(other) == Joined(key) && other != key
  {
    if '/' in key.source {
      var x, y := CutAtSlash(key.source);
      other := CacheKey(x, y, key.typ + "/" + key.id);
      assert |other.source| != |key.source|;
      assert x + "/" + y + "/" + other.id == x + "/" + y + "/" + key.typ + "/" + key.id;
    } else if '/' in key.typ {
      var x, y := CutAtSlash(key.typ);
      other := CacheKey(key.source + "/" + x, y, key.id);
      assert |other.source| != |key.source|;
      assert key.source + "/" + (x + "/" + y) == key.source + "/" + x + "/" + y;
    } else {
      var x, y := CutAtSlash(key.id);
      other := CacheKey(key.source, key.typ + "/" + x, y);
      assert |other.typ| != |key.typ|;
      assert key.source + "/" + key.typ + "/" + (x + "/" + y) == key.source + "/" + (key.typ + "/" + x) + "/" + y;
    }
  }

  // ---------- The table adapter ----------

  datatype Row = Row(key: CacheKey, data: Data, expiresAt: int)

  /** Rows by primary key. */
  type Table = map<nat, Row>

  predicate UniqueIndex(rows: Table) {
    forall a, b :: a in rows && b in rows && rows[a].key == rows[b].key ==> a == b
  }

  /** The row that First finds: the lowest matching primary key. */
  predicate IsFirst(rows: Table, key: CacheKey, id: nat) {
    id in rows && Matches(rows[id].key, key) && forall other :: other in rows && other < id ==> !Matches(rows[other].key, key)
  }

  predicate Holds(rows: Table, key: CacheKey) {
    exists id :: id in rows && rows[id].key == key
  }

  class MySqlCache {
    var rows: Table
    var nextId: nat
    var now: int
    /** Statements that failed. */
    ghost var faults: nat
    /** Everything ever passed to Put. */
    ghost var puts: set<(CacheKey, Data)>

    ghost predicate Valid()
      reads this
    {
      && UniqueIndex(rows)
      && (forall id :: id in rows ==> id < nextId && (rows[id].key, rows[id].data) in puts)
    }

    constructor ()
      ensures Valid() && rows == map[] && puts == {}
    {
      rows, nextId, now, faults, puts := map[], 1, 0, 0, {};
    }

    /** time.Now */
    method Clock() returns (t: int)
      modifies this`now
      ensures t == now >= old(now)
    {
      var passed: int := *;
      if passed > 0 {
        now := now + passed;
      }
      t := now;
    }

    method Faulty() returns (fault: bool)
      modifies this`faults
      ensures faults == old(faults) + if fault then 1 else 0
    {
      fault := *;
      faults := faults + if fault then 1 else 0;
    }

    method FindByCacheKey(key: CacheKey) returns (r: Result<nat, CacheError>)
      requires Valid()
      modifies this`faults
      ensures Valid()
      ensures r.Ok? ==> faults == old(faults) && IsFirst(rows, key, r.value)
      ensures r == Err(NotCached) ==> faults == old(faults) && forall id :: id in rows ==> !Matches(rows[id].key, key)
      ensures r.Ok? || r == Err(NotCached) || (r == Err(DatabaseFailed) && faults > old(faults))
    {
      var fault := Faulty();
      if fault { return Err(DatabaseFailed); }
      for id := 0 to nextId
        invariant forall other :: other in rows && other < id ==> !Matches(rows[other].key, key)
      {
        if id in rows && Matches(rows[id].key, key) { return Ok(id); }
      }
      r := Err(NotCached);
    }

    /** The unique index refuses a second row with the same key. */
    method CreateEntry(row: Row) returns (r: Result<(), CacheError>)
      requires Valid() && (row.key, row.data) in puts
      modifies this`rows, this`nextId, this`faults
      ensures Valid()
      ensures r.Ok? ==> old(nextId) !in old(rows) && rows == old(rows)[old(nextId) := row]
      ensures r.Err? ==> rows == old(rows)
      ensures faults == old(faults) ==> (r.Ok? <==> !Holds(old(rows), row.key))
      ensures faults >= old(faults)
    {
      var fault := Faulty();
      if fault { return Err(DatabaseFailed); }
      if exists id | id in rows :: rows[id].key == row.key { return Err(ActiveExists); }
      rows := rows[nextId := row];
      nextId := nextId + 1;
      r := Ok(());
    }

    method DeleteEntry(id: nat)
      requires Valid()
      modifies this`rows, this`faults
      ensures Valid()
      ensures if faults == old(faults) then rows == old(rows) - {id} else rows == old(rows) && faults > old(faults)
    {
      var fault := Faulty();
      if !fault { rows := rows - {id}; }
    }

    method Put(key: CacheKey, data: Data, ttl: int) returns (r: Result<(), CacheError>)
      requires Valid()
      modifies this
      ensures Valid() && puts == old(puts) + {(key, data)} && now >= old(now) && faults >= old(faults)
      ensures r.Ok? ==> exists id: nat :: id !in old(rows) && rows == old(rows)[id := Row(key, data, now + ttl)]
      ensures r.Err? ==> rows == old(rows)
      ensures faults == old(faults) ==> (r.Ok? <==> !Holds(old(rows), key))
    {
      var t := Clock();
      puts := puts + {(key, data)};
      r := CreateEntry(Row(key, data, t + ttl));
    }

    /** A value is served only while now <= ExpiresAt; an expired row is deleted, unless
        the deletion fails. */
    method Get(key: CacheKey) returns (r: Result<Data, CacheError>)
      requires Valid()
      modifies this`rows, this`now, this`faults
      ensures Valid() && now >= old(now) && faults >= old(faults)
      ensures r.Ok? ==> rows == old(rows) && exists id :: IsFirst(rows, key, id) && rows[id].data == r.value && now <= rows[id].expiresAt
      ensures r == Err(NotCached) ==> rows == old(rows) && forall id :: id in rows ==> !Matches(rows[id].key, key)
      ensures r == Err(Expired) ==> exists id :: IsFirst(old(rows), key, id) && old(rows)[id].expiresAt < now &&
                                                 rows == if faults == old(faults) then old(rows) - {id} else old(rows)
      ensures r == Err(DatabaseFailed) ==> rows == old(rows) && faults > old(faults)
      ensures r.Ok? || r == Err(NotCached) || r == Err(Expired) || r == Err(DatabaseFailed)
    {
      var found := FindByCacheKey(key);
      if found.Err? { return Err(found.error); }
      var row := rows[found.value];
      var t := Clock();
      if row.expiresAt < t {
        DeleteEntry(found.value);
        return Err(Expired);
      }
      r := Ok(row.data);
    }
  }

  /** After a Get that missed without a fault, the unique index has room for the key. */
  lemma {:induction false} MissMakesRoom(before: Table, key: CacheKey, after: Table)
    requires UniqueIndex(before) && NonEmpty(key)
    requires || (after == before && forall id :: id in before ==> !Matches(before[id].key, key))
             || (exists id :: IsFirst(before, key, id) && after == before - {id})
    ensures !Holds(after, key)
  {
    MatchIsOwn(key);
  }

  // ---------- The map adapter ----------

  class MemoryCache {
    var store: map<string, Data>
    ghost var puts: set<(CacheKey, Data)>

    ghost predicate Valid()
      reads this
    {
      forall s :: s in store ==> exists k: CacheKey :: Joined(k) == s && (k, store[s]) in puts
    }

    constructor ()
      ensures Valid() && store == map[] && puts == {}
    {
      store, puts := map[], {};
    }

    /** The time to live is ignored. */
    method Put(key: CacheKey, data: Data, ttl: int) returns (r: Result<(), CacheError>)
      requires Valid()
      modifies this
      ensures Valid() && r.Ok? && store == old(store)[Joined(key) := data] && puts == old(puts) + {(key, data)}
    {
      store := store[Joined(key) := data];
      puts := puts + {(key, data)};
      assert forall s :: s in old(store) ==> exists k: CacheKey :: Joined(k) == s && (k, old(store)[s]) in old(puts);
      assert (key, store[Joined(key)]) in puts;
      r := Ok(());
    }

    method Get(key: CacheKey) returns (r: Result<Data, CacheError>)
      ensures r == if Joined(key) in store then Ok(store[Joined(key)]) else Err(NotCached)
    {
      if Joined(key) !in store { return Err(NotCached); }
      r := Ok(store[Joined(key)]);
    }
  }

  // ---------- Through ----------

  datatype Cache = NoCache | Memory(memory: MemoryCache) | MySql(table: MySqlCache)

  /** A lookup of `key` may return what was put under `stored`. */
  predicate Confused(c: Cache, stored: CacheKey, key: CacheKey) {
    match c
    case NoCache => false
    case Memory(_) => Joined(stored) == Joined(key)
    case MySql(_) => Matches(stored, key)
  }

  ghost function Puts(c: Cache): set<(CacheKey, Data)>
    reads if c.Memory? then {c.memory} else {}
    reads if c.MySql? then {c.table} else {}
  {
    match c
    case NoCache => {}
    case Memory(m) => m.puts
    case MySql(t) => t.puts
  }

  ghost predicate Sound(c: Cache)
    reads if c.Memory? then {c.memory} else {}
    reads if c.MySql? then {c.table} else {}
  {
    match c
    case NoCache => true
    case Memory(m) => m.Valid()
    case MySql(t) => t.Valid()
  }

  method Get(c: Cache, key: CacheKey) returns (r: Result<Data, CacheError>)
    requires Sound(c)
    modifies if c.MySql? then {c.table} else {}
    ensures Sound(c) && Puts(c) == old(Puts(c))
    ensures r.Ok? ==> exists k :: (k, r.value) in Puts(c) && Confused(c, k, key)
    ensures c.MySql? ==> c.table.now >= old(c.table.now) && c.table.faults >= old(c.table.faults)
    ensures c.MySql? && NonEmpty(key) && r.Ok? ==> exists id ::
      id in c.table.rows && c.table.rows[id].key == key && c.table.rows[id].data == r.value && c.table.now <= c.table.rows[id].expiresAt
    ensures c.MySql? && NonEmpty(key) && r.Err? && c.table.faults == old(c.table.faults) ==> !Holds(c.table.rows, key)
    ensures c.MySql? && NonEmpty(key) && r.Err? && c.table.faults == old(c.table.faults) ==>
              forall id :: id in old(c.table.rows) && old(c.table.rows)[id].key == key ==> old(c.table.rows)[id].expiresAt < c.table.now
    ensures c.Memory? ==> (r.Ok? <==> Joined(key) in c.memory.store)
  {
    match c
    case NoCache => r := Err(Disabled);
    case Memory(m) => r := m.Get(key);
    case MySql(t) =>
      r := t.Get(key);
      MatchIsOwn(key);
      if r.Err? && t.faults == old(t.faults) && NonEmpty(key) {
        MissMakesRoom(old(t.rows), key, t.rows);
      }
  }

  method Put(c: Cache, key: CacheKey, data: Data, ttl: int) returns (r: Result<(), CacheError>)
    requires Sound(c)
    modifies if c.Memory? then {c.memory} else {}
    modifies if c.MySql? then {c.table} else {}
    ensures Sound(c) && (Puts(c) == old(Puts(c)) || Puts(c) == old(Puts(c)) + {(key, data)})
    ensures c.Memory? ==> c.memory.store == old(c.memory.store)[Joined(key) := data]
    ensures c.MySql? ==> c.table.now >= old(c.table.now) && c.table.faults >= old(c.table.faults)
    ensures c.MySql? && c.table.faults == old(c.table.faults) && !Holds(old(c.table.rows), key) ==>
              exists id :: id in c.table.rows && c.table.rows[id] == Row(key, data, c.table.now + ttl)
  {
    match c
    case NoCache => r := Err(Disabled);
    case Memory(m) => r := m.Put(key, data, ttl);
    case MySql(t) =>
      r := t.Put(key, data, ttl);
      if r.Ok? {
        ghost var id: nat :| id !in old(t.rows) && t.rows == old(t.rows)[id := Row(key, data, t.now + ttl)];
        assert id in t.rows;
      }
  }

  datatype Request = Request(key: CacheKey, ttl: int)

  class Client<T(!new), E(!new)> {
    /** globalCachingAdapter */
    var adapter: Cache
    const fun: CacheKey -> Result<T, E>
    const serialize: T -> Option<Data>
    const deserialize: Data -> Result<T, E>

    /** json.Marshal and Decode undo each other. */
    ghost predicate RoundTrips() {
      forall v :: serialize(v).Some? ==> deserialize(serialize(v).value) == Ok(v)
    }

    ghost predicate IsResult(key: CacheKey, data: Data) {
      deserialize(data) == fun(key)
    }

    ghost predicate Coherent(c: Cache)
      reads if c.Memory? then {c.memory} else {}
      reads if c.MySql? then {c.table} else {}
    {
      Sound(c) && forall k, d :: (k, d) in Puts(c) ==> IsResult(k, d)
    }

    ghost predicate Valid()
      reads this
      reads if adapter.Memory? then {adapter.memory} else {}
      reads if adapter.MySql? then {adapter.table} else {}
    {
      RoundTrips() && Coherent(adapter)
    }

    /** No key put so far can be mistaken for `key`. */
    ghost predicate Unmistakable(key: CacheKey)
      reads this
      reads if adapter.Memory? then {adapter.memory} else {}
      reads if adapter.MySql? then {adapter.table} else {}
    {
      forall k, d :: (k, d) in Puts(adapter) && Confused(adapter, k, key) ==> k == key
    }

    constructor (fun: CacheKey -> Result<T, E>, serialize: T -> Option<Data>, deserialize: Data -> Result<T, E>)
      requires forall v :: serialize(v).Some? ==> deserialize(serialize(v).value) == Ok(v)
      ensures Valid() && adapter == NoCache && this.fun == fun
    {
      adapter := NoCache;
      this.fun, this.serialize, this.deserialize := fun, serialize, deserialize;
    }

    method Disable()
      requires Valid()
      modifies this
      ensures Valid() && adapter == NoCache
    {
      adapter := NoCache;
    }

    method EnableWith(c: Cache)
      requires RoundTrips() && Coherent(c)
      modifies this
      ensures Valid() && adapter == c
    {
      adapter := c;
    }

    /** Through gives what the function gives, whatever fails in the cache, unless the
        cache holds another key that the adapter mistakes for this one. Errors are not
        cached. */
    method Through(key: CacheKey, ttl: int) returns (r: Result<T, E>, ghost called: bool)
      requires Valid()
      modifies if adapter.Memory? then {adapter.memory} else {}
      modifies if adapter.MySql? then {adapter.table} else {}
      ensures Valid()
      ensures called || old(Unmistakable(key)) ==> r == fun(key)
      ensures Puts(adapter) == old(Puts(adapter)) ||
              (called && r.Ok? && exists d :: Puts(adapter) == old(Puts(adapter)) + {(key, d)})
      ensures adapter == NoCache ==> called
      // The map: called once for a key, then served.
      ensures adapter.Memory? ==> (called <==> Joined(key) !in old(adapter.memory.store))
      ensures adapter.Memory? ==>
                (adapter.memory.store ==
                 if called && fun(key).Ok? && serialize(fun(key).value).Some? then
                   old(adapter.memory.store)[Joined(key) := serialize(fun(key).value).value]
                 else old(adapter.memory.store))
      // The table: a live row is served.
      ensures adapter.MySql? && adapter.table.faults == old(adapter.table.faults) && NonEmpty(key) && called ==>
                forall id :: id in old(adapter.table.rows) && old(adapter.table.rows)[id].key == key ==>
                               old(adapter.table.rows)[id].expiresAt < adapter.table.now
      ensures adapter.MySql? && adapter.table.faults == old(adapter.table.faults) && NonEmpty(key)
              && fun(key).Ok? && serialize(fun(key).value).Some? ==>
                exists id :: id in adapter.table.rows && adapter.table.rows[id].key == key
                             && (if called then adapter.table.rows[id].expiresAt == adapter.table.now + ttl
                                 else adapter.table.now <= adapter.table.rows[id].expiresAt)
    {
      var data := Get(adapter, key);
      called := data.Err?;
      if data.Ok? {
        r := deserialize(data.value);
        return;
      }
      r := fun(key);
      if r.Err? { return; }
      var serialized := serialize(r.value);
      if serialized.None? { return; }
      var put := Put(adapter, key, serialized.value, ttl);
    }

    /** Over any run of calls, whatever fails and however time passes, a result is the
        function's own unless the adapter mistakes some key used before for this one. */
    method Run(requests: seq<Request>) returns (results: seq<Result<T, E>>)
      requires Valid()
      modifies if adapter.Memory? then {adapter.memory} else {}
      modifies if adapter.MySql? then {adapter.table} else {}
      ensures Valid() && |results| == |requests|
      ensures forall i :: 0 <= i < |requests| && old(Unmistakable(requests[i].key)) && ApartFromEarlier(adapter, requests, i) ==>
                            results[i] == fun(requests[i].key)
    {
      results := [];
      for n := 0 to |requests|
        invariant Valid() && |results| == n
        invariant forall k, d :: (k, d) in Puts(adapter) ==> (k, d) in old(Puts(adapter)) || exists j :: 0 <= j < n && requests[j].key == k
        invariant forall i :: 0 <= i < n && old(Unmistakable(requests[i].key)) && ApartFromEarlier(adapter, requests, i) ==>
                                results[i] == fun(requests[i].key)
      {
        var r;
        ghost var called;
        r, called := Through(requests[n].key, requests[n].ttl);
        results := results + [r];
      }
    }
  }

  predicate ApartFromEarlier(c: Cache, requests: seq<Request>, i: nat)
    requires i < |requests|
  {
    forall j :: 0 <= j < i && Confused(c, requests[j].key, requests[i].key) ==> requests[j].key == requests[i].key
  }

  /** Non-empty fields for the table, slash-free Source and Type for the map: then no key
      is ever mistaken. */
  lemma {:induction false} FittingKeysStayApart(c: Cache, stored: CacheKey, key: CacheKey)
    requires c.MySql? ==> NonEmpty(key)
    requires c.Memory? ==> '/' !in key.source && '/' !in key.typ && '/' !in stored.source && '/' !in stored.typ
    ensures Confused(c, stored, key) ==> stored == key
  {
    MatchIsOwn(key);
    if c.Memory? {
      JoinedInjective(stored, key);
    }
  }

  /** A key with an empty field does hit other rows: here the only row is another key's,
      and First finds it. */
  lemma {:induction false} EmptyFieldHitsAnotherRow(key: CacheKey, data: Data, expiresAt: int) returns (rows: Table)
    requires !NonEmpty(key)
    ensures UniqueIndex(rows) && !Holds(rows, key) && IsFirst(rows, key, 1) && rows[1] == Row(rows[1].key, data, expiresAt)
  {
    MatchIsOwn(key);
    var other :| Matches(other, key) && other != key;
    rows := map[1 := Row(other, data, expiresAt)];
  }
}
