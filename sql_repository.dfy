/**
 * `GreetingSqlRepository`: the SQLite adapter with a read-through cache.
 * Every read looks in the cache first and returns a live entry as is; on a
 * miss it validates the connection string, queries, and caches what it found
 * (a found row, or a whole list even when empty). A save inserts and then
 * removes exactly the latest key and the new row's id key. Failures inside
 * the store section come out wrapped in `InvalidOperationException`.
 */
module SqlRepository {
  import opened Wrappers
  import opened Text
  import opened Domain
  import opened Query
  import opened Sqlite
  import opened Cache
  import opened CacheKeys

  const LastError: string := "Erro ao recuperar a saudação mais recente."
  const SaveError: string := "Erro ao salvar saudação."
  const ListError: string := "Erro ao recuperar lista paginada de saudações."
  const AllError: string := "Erro ao recuperar todas as saudações."

  function ByIdError(id: int): string {
    "Erro ao recuperar saudação pelo id " + IntToString(id) + "."
  }

  /** `ISqliteConnectionFactory`: the connection string of the connections it
      creates and the database they open. */
  datatype ConnectionFactory = ConnectionFactory(connectionString: string, db: Database)

  /** The constructor's null checks, in the order the source runs them. */
  function ConstructorGuard(hasFactory: bool, hasLogger: bool, hasCache: bool, hasPolicy: bool): (r: Option<Error>)
    ensures r.None? <==> hasFactory && hasLogger && hasCache && hasPolicy
    ensures r == Some(ArgumentNull("connectionFactory")) <==> !hasFactory
    ensures r == Some(ArgumentNull("logger")) <==> hasFactory && !hasLogger
    ensures r == Some(ArgumentNull("cache")) <==> hasFactory && hasLogger && !hasCache
    ensures r == Some(ArgumentNull("policy")) <==> hasFactory && hasLogger && hasCache && !hasPolicy
  {
    if !hasFactory then Some(ArgumentNull("connectionFactory"))
    else if !hasLogger then Some(ArgumentNull("logger"))
    else if !hasCache then Some(ArgumentNull("cache"))
    else if !hasPolicy then Some(ArgumentNull("policy"))
    else None
  }

  /** The `catch` block: a failure is rethrown wrapped with the operation's message. */
  function Wrap<T>(message: string, r: Result<T, Error>): (w: Result<T, Error>)
    ensures w.Ok? <==> r.Ok?
    ensures w.Ok? ==> w == r
    ensures w.Err? ==> w.error == InvalidOperation(message, r.error)
  {
    if r.Ok? then r else Err(InvalidOperation(message, r.error))
  }

  /** A cached single greeting read back; a list under that key fails to deserialize. */
  function AsGreeting(p: Payload): Result<Option<Greeting>, Error> {
    if p.Single? then Ok(Some(p.greeting)) else Err(Deserialization)
  }

  /** A cached list read back; a single greeting under that key fails to deserialize. */
  function AsList(p: Payload): Result<seq<Greeting>, Error> {
    if p.Listing? then Ok(p.greetings) else Err(Deserialization)
  }

  /** The latest and by-id entries agree with the table: each holds the row
      the uncached read would return. List entries are not covered, since a
      save never invalidates them. */
  ghost predicate Coherent(entries: map<string, Entry>, rows: seq<Greeting>) {
    (LastKey in entries ==>
      entries[LastKey].payload.Single? && Latest(rows) == Some(entries[LastKey].payload.greeting))
    && (forall id :: IdKey(id) in entries ==>
      entries[IdKey(id)].payload.Single? && FindById(rows, id) == Some(entries[IdKey(id)].payload.greeting))
  }

  class GreetingSqlRepository {
    const db: Database
    const connectionString: string
    const cache: DistributedCache

    ghost predicate Valid()
      reads db
    {
      db.Valid()
    }

    constructor Init(factory: ConnectionFactory, cache: DistributedCache)
      ensures db == factory.db && connectionString == factory.connectionString && this.cache == cache
    {
      db := factory.db;
      connectionString := factory.connectionString;
      this.cache := cache;
    }

    /** The public constructor: the guard chain, then the fields. */
    static method New(factory: Option<ConnectionFactory>, logger: Option<Injected>,
                      cache: DistributedCache?, policy: Option<Injected>)
      returns (r: Result<GreetingSqlRepository, Error>)
      ensures var guard := ConstructorGuard(factory.Some?, logger.Some?, cache != null, policy.Some?);
        (guard.Some? ==> r == Err(guard.value))
        && (guard.None? ==>
          r.Ok? && fresh(r.value) && r.value.db == factory.value.db
          && r.value.connectionString == factory.value.connectionString && r.value.cache == cache)
    {
      var guard := ConstructorGuard(factory.Some?, logger.Some?, cache != null, policy.Some?);
      if guard.Some? {
        return Err(guard.value);
      }
      var repo := new GreetingSqlRepository.Init(factory.value, cache);
      r := Ok(repo);
    }

    /** The store section of a read: the connection string is checked, then
        the statement runs. */
    function StoreRead(stmt: Select): (r: Result<seq<Greeting>, Error>)
      requires WellFormed(stmt)
      reads db
      ensures IsNullOrWhiteSpace(Some(connectionString)) ==> r == Err(ArgumentNull("connectionString"))
      ensures !IsNullOrWhiteSpace(Some(connectionString)) ==> r == db.Read(stmt)
    {
      if IsNullOrWhiteSpace(Some(connectionString)) then Err(ArgumentNull("connectionString"))
      else db.Read(stmt)
    }

    method GetLastGreeting(now: int) returns (r: Result<Option<Greeting>, Error>)
      requires Valid()
      modifies cache
      ensures old(cache.Get(LastKey, now)).Some? ==>
        r == AsGreeting(old(cache.Get(LastKey, now)).value) && cache.entries == old(cache.entries)
      ensures old(cache.Get(LastKey, now)).None? && StoreRead(LatestRow).Err? ==>
        r == Err(InvalidOperation(LastError, StoreRead(LatestRow).error)) && cache.entries == old(cache.entries)
      ensures old(cache.Get(LastKey, now)).None? && StoreRead(LatestRow).Ok? ==>
        r == Ok(Latest(db.rows))
        && cache.entries == if Latest(db.rows).Some?
                            then old(cache.entries)[LastKey := Entry(Single(Latest(db.rows).value), now + TtlMs)]
                            else old(cache.entries)
      ensures Coherent(old(cache.entries), db.rows) ==>
        Coherent(cache.entries, db.rows) && (r.Ok? ==> r == Ok(Latest(db.rows)))
    {
      var cached := cache.Get(LastKey, now);
      if cached.Some? {
        return AsGreeting(cached.value);
      }
      var reader := StoreRead(LatestRow);
      if reader.Err? {
        return Wrap(LastError, Err(reader.error));
      }
      LatestRowIsLatest(db.like, db.rows);
      if reader.value != [] {
        var greeting := reader.value[0];
        if Coherent(cache.entries, db.rows) {
          CoherentAfterCachingLatest(cache.entries, db.rows, greeting, now + TtlMs);
        }
        cache.Set(LastKey, Single(greeting), now);
        r := Ok(Some(greeting));
      } else {
        r := Ok(None);
      }
    }

    method GetGreetingById(id: int, now: int) returns (r: Result<Option<Greeting>, Error>)
      requires Valid()
      modifies cache
      ensures old(cache.Get(IdKey(id), now)).Some? ==>
        r == AsGreeting(old(cache.Get(IdKey(id), now)).value) && cache.entries == old(cache.entries)
      ensures old(cache.Get(IdKey(id), now)).None? && StoreRead(RowById(id)).Err? ==>
        r == Err(InvalidOperation(ByIdError(id), StoreRead(RowById(id)).error)) && cache.entries == old(cache.entries)
      ensures old(cache.Get(IdKey(id), now)).None? && StoreRead(RowById(id)).Ok? ==>
        r == Ok(FindById(db.rows, id))
        && cache.entries == if FindById(db.rows, id).Some?
                            then old(cache.entries)[IdKey(id) := Entry(Single(FindById(db.rows, id).value), now + TtlMs)]
                            else old(cache.entries)
      ensures Coherent(old(cache.entries), db.rows) ==>
        Coherent(cache.entries, db.rows) && (r.Ok? ==> r == Ok(FindById(db.rows, id)))
    {
      var cached := cache.Get(IdKey(id), now);
      if cached.Some? {
        return AsGreeting(cached.value);
      }
      var reader := StoreRead(RowById(id));
      if reader.Err? {
        return Wrap(ByIdError(id), Err(reader.error));
      }
      if reader.value != [] {
        var greeting := reader.value[0];
        if Coherent(cache.entries, db.rows) {
          CoherentAfterCachingRow(cache.entries, db.rows, id, greeting, now + TtlMs);
        }
        cache.Set(IdKey(id), Single(greeting), now);
        r := Ok(Some(greeting));
      } else {
        r := Ok(None);
      }
    }

    /** Inserts with the current time, then invalidates the latest key and the
        new id's key, and no other. The connection string is not validated
        here, unlike the reads. */
    method SaveGreeting(greeting: Option<Greeting>, now: int) returns (r: Result<Greeting, Error>)
      requires Valid()
      modifies db, cache
      ensures Valid() && db.reachable == old(db.reachable)
      ensures greeting.None? ==>
        r == Err(InvalidOperation(SaveError, ArgumentNull("greeting")))
        && db.rows == old(db.rows) && db.lastRowId == old(db.lastRowId) && cache.entries == old(cache.entries)
      ensures greeting.Some? && !old(db.reachable) ==>
        r == Err(InvalidOperation(SaveError, StoreFailure))
        && db.rows == old(db.rows) && db.lastRowId == old(db.lastRowId) && cache.entries == old(cache.entries)
      ensures greeting.Some? && old(db.reachable) ==>
        r == Ok(Greeting(old(db.lastRowId) + 1, greeting.value.message, now))
        && r.value.id > 0
        && db.rows == old(db.rows) + [r.value]
        && cache.entries == old(cache.entries) - {LastKey, IdKey(r.value.id)}
      ensures Coherent(old(cache.entries), old(db.rows)) ==> Coherent(cache.entries, db.rows)
    {
      if greeting.None? {
        return Wrap(SaveError, Err(ArgumentNull("greeting")));
      }
      var saved := greeting.value.(createdAt := now);
      FreshIdAbsent(db.rows, db.lastRowId);
      var id := db.Insert(saved.message, saved.createdAt);
      if id.Err? {
        return Wrap(SaveError, Err(id.error));
      }
      saved := saved.(id := id.value);
      cache.Remove(LastKey);
      cache.Remove(IdKey(saved.id));
      assert cache.entries == old(cache.entries) - {LastKey, IdKey(saved.id)};
      if Coherent(old(cache.entries), old(db.rows)) {
        CoherentAfterSave(old(cache.entries), old(db.rows), saved);
      }
      r := Ok(saved);
    }

    method GetGreetings(req: ListRequest, now: int) returns (r: Result<seq<Greeting>, Error>)
      requires Valid() && ValidPaging(req)
      modifies cache
      ensures old(cache.Get(ListKeyAsWritten(req), now)).Some? ==>
        r == AsList(old(cache.Get(ListKeyAsWritten(req), now)).value) && cache.entries == old(cache.entries)
      ensures old(cache.Get(ListKeyAsWritten(req), now)).None? && StoreRead(PageOf(req)).Err? ==>
        r == Err(InvalidOperation(ListError, StoreRead(PageOf(req)).error)) && cache.entries == old(cache.entries)
      ensures old(cache.Get(ListKeyAsWritten(req), now)).None? && StoreRead(PageOf(req)).Ok? ==>
        r == Ok(ListPage(db.like, req, db.rows))
        && cache.entries == old(cache.entries)[ListKeyAsWritten(req) := Entry(Listing(r.value), now + TtlMs)]
      ensures Coherent(old(cache.entries), db.rows) ==> Coherent(cache.entries, db.rows)
    {
      var cached := cache.Get(ListKeyAsWritten(req), now);
      if cached.Some? {
        return AsList(cached.value);
      }
      if IsNullOrWhiteSpace(Some(connectionString)) {
        return Wrap(ListError, Err(ArgumentNull("connectionString")));
      }
      var list := ReadList(db, PageOf(req));
      if list.Err? {
        return Wrap(ListError, Err(list.error));
      }
      forall id ensures ListKeyAsWritten(req) != IdKey(id) {
        KeysDisjoint(id, req);
      }
      KeysDisjoint(0, req);
      if Coherent(cache.entries, db.rows) {
        CoherentAfterCachingList(cache.entries, db.rows, ListKeyAsWritten(req), list.value, now + TtlMs);
      }
      cache.Set(ListKeyAsWritten(req), Listing(list.value), now);
      r := list;
    }

    method GetAllGreetings(now: int) returns (r: Result<seq<Greeting>, Error>)
      requires Valid()
      modifies cache
      ensures old(cache.Get(AllKey, now)).Some? ==>
        r == AsList(old(cache.Get(AllKey, now)).value) && cache.entries == old(cache.entries)
      ensures old(cache.Get(AllKey, now)).None? && StoreRead(AllNewestFirst).Err? ==>
        r == Err(InvalidOperation(AllError, StoreRead(AllNewestFirst).error)) && cache.entries == old(cache.entries)
      ensures old(cache.Get(AllKey, now)).None? && StoreRead(AllNewestFirst).Ok? ==>
        r == Ok(NewestFirst(db.rows))
        && cache.entries == old(cache.entries)[AllKey := Entry(Listing(r.value), now + TtlMs)]
      ensures Coherent(old(cache.entries), db.rows) ==> Coherent(cache.entries, db.rows)
    {
      var cached := cache.Get(AllKey, now);
      if cached.Some? {
        return AsList(cached.value);
      }
      if IsNullOrWhiteSpace(Some(connectionString)) {
        return Wrap(AllError, Err(ArgumentNull("connectionString")));
      }
      var list := ReadList(db, AllNewestFirst);
      if list.Err? {
        return Wrap(AllError, Err(list.error));
      }
      forall id ensures AllKey != IdKey(id) {
        KeysDisjoint(id, ListRequest(1, 0, "", false, None));
      }
      if Coherent(cache.entries, db.rows) {
        CoherentAfterCachingList(cache.entries, db.rows, AllKey, list.value, now + TtlMs);
      }
      cache.Set(AllKey, Listing(list.value), now);
      r := list;
    }
  }

  // ---------------------------------------------------------------------------
  // What keeps the cache coherent, and what does not

  /** Caching the latest row under the latest key keeps the cache coherent. */
  lemma CoherentAfterCachingLatest(entries: map<string, Entry>, rows: seq<Greeting>, g: Greeting, expiresAt: int)
    requires Coherent(entries, rows) && Latest(rows) == Some(g)
    ensures Coherent(entries[LastKey := Entry(Single(g), expiresAt)], rows)
  {
    var e := entries[LastKey := Entry(Single(g), expiresAt)];
    forall id | IdKey(id) in e
      ensures e[IdKey(id)].payload.Single? && FindById(rows, id) == Some(e[IdKey(id)].payload.greeting)
    {
      KeysDisjoint(id, ListRequest(1, 0, "", false, None));
    }
  }

  /** Caching the row found for an id under its key keeps the cache coherent. */
  lemma CoherentAfterCachingRow(entries: map<string, Entry>, rows: seq<Greeting>, id: int, g: Greeting, expiresAt: int)
    requires Coherent(entries, rows) && FindById(rows, id) == Some(g)
    ensures Coherent(entries[IdKey(id) := Entry(Single(g), expiresAt)], rows)
  {
    var e := entries[IdKey(id) := Entry(Single(g), expiresAt)];
    KeysDisjoint(id, ListRequest(1, 0, "", false, None));
    forall other | IdKey(other) in e
      ensures e[IdKey(other)].payload.Single? && FindById(rows, other) == Some(e[IdKey(other)].payload.greeting)
    {
      if IdKey(other) == IdKey(id) {
        IdKeyInjective(other, id);
      }
    }
  }

  /** Caching a list under a list key keeps the cache coherent, because list
      keys are neither the latest key nor an id key. */
  lemma CoherentAfterCachingList(entries: map<string, Entry>, rows: seq<Greeting>, key: string, list: seq<Greeting>, expiresAt: int)
    requires Coherent(entries, rows)
    requires key != LastKey && forall id :: key != IdKey(id)
    ensures Coherent(entries[key := Entry(Listing(list), expiresAt)], rows)
  {
  }

  /** A save keeps the cache coherent: it removes the latest entry, which the
      new row may have made stale, and the new id's key; every other id still
      finds the same row, since the new id is fresh. */
  lemma CoherentAfterSave(entries: map<string, Entry>, rows: seq<Greeting>, g: Greeting)
    requires Coherent(entries, rows) && FindById(rows, g.id).None?
    ensures Coherent(entries - {LastKey, IdKey(g.id)}, rows + [g])
  {
    var e := entries - {LastKey, IdKey(g.id)};
    forall id | IdKey(id) in e
      ensures e[IdKey(id)].payload.Single? && FindById(rows + [g], id) == Some(e[IdKey(id)].payload.greeting)
    {
      FindAfterInsert(rows, g, id);
    }
  }

  /** With a coherent cache, the cached latest and by-id reads return what the
      table holds, whether the entry is live or not. */
  lemma CoherentHitsAgree(entries: map<string, Entry>, rows: seq<Greeting>, id: int)
    requires Coherent(entries, rows)
    ensures LastKey in entries ==> AsGreeting(entries[LastKey].payload) == Ok(Latest(rows))
    ensures IdKey(id) in entries ==> AsGreeting(entries[IdKey(id)].payload) == Ok(FindById(rows, id))
  {
  }

  /** The list entries are never invalidated: after a save the all-greetings
      entry is still there, unchanged, and it lacks the new row, which the
      table now holds. A read within five minutes returns that stale list. */
  lemma SaveLeavesAllGreetingsStale(entries: map<string, Entry>, rows: seq<Greeting>, g: Greeting)
    requires AllKey in entries && entries[AllKey].payload == Listing(NewestFirst(rows))
    requires FindById(rows, g.id).None?
    ensures var after := entries - {LastKey, IdKey(g.id)};
      AllKey in after && after[AllKey] == entries[AllKey]
      && g !in entries[AllKey].payload.greetings
      && g in NewestFirst(rows + [g])
  {
    KeysDisjoint(g.id, ListRequest(1, 0, "", false, None));
    assert g !in rows by {
      forall i | 0 <= i < |rows| ensures rows[i] != g {
        assert rows[i].id != g.id;
      }
    }
    assert multiset(NewestFirst(rows)) == multiset(rows);
    assert g !in multiset(NewestFirst(rows));
    assert multiset(NewestFirst(rows + [g])) == multiset(rows + [g]);
    assert g in multiset(rows + [g]);
  }

  /** Two list requests whose keys collide as written: the first caches its
      one-row page, and the second, within the entry's lifetime, is served
      that page although its own filter selects nothing. */
  method ListCacheCollision(repo: GreetingSqlRepository, g: Greeting, pageSize: int, now: int, later: int)
      returns (first: Result<seq<Greeting>, Error>, second: Result<seq<Greeting>, Error>)
    requires repo.Valid() && repo.db.rows == [g] && repo.db.reachable
    requires !IsNullOrWhiteSpace(Some(repo.connectionString))
    requires pageSize >= 1 && !repo.db.like(g.message, "y_True_")
    requires ListKeyAsWritten(ListRequest(1, pageSize, "X_False_y", true, None)) !in repo.cache.entries
    requires now <= later < now + TtlMs
    modifies repo.cache
    ensures first == Ok([g]) && second == Ok([g])
    ensures ListPage(repo.db.like, ListRequest(1, pageSize, "X", false, Some("y_True_")), repo.db.rows) == []
  {
    var a := ListRequest(1, pageSize, "X_False_y", true, None);
    var b := ListRequest(1, pageSize, "X", false, Some("y_True_"));
    ListKeyAsWrittenCollides(repo.db.like, g, pageSize);
    first := repo.GetGreetings(a, now);
    second := repo.GetGreetings(b, later);
  }

  /** Likewise every list page entry survives a save unchanged. */
  lemma SaveKeepsListEntries(entries: map<string, Entry>, req: ListRequest, id: int)
    requires ListKeyAsWritten(req) in entries
    ensures var after := entries - {LastKey, IdKey(id)};
      ListKeyAsWritten(req) in after && after[ListKeyAsWritten(req)] == entries[ListKeyAsWritten(req)]
  {
    KeysDisjoint(id, req);
  }
}
