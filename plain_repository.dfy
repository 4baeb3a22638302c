/**
 * `GreetingRepository`: the uncached SQLite adapter. Every operation opens a
 * connection, runs one statement and lets any failure propagate unchanged.
 */
module PlainRepository {
  import opened Wrappers
  import opened Domain
  import opened Query
  import opened Sqlite

  class GreetingRepository {
    const db: Database

    constructor (db: Database)
      ensures this.db == db
    {
      this.db := db;
    }

    /** The row with the greatest `CreatedAt`, or `None` on an empty table. */
    method GetLastGreeting() returns (r: Result<Option<Greeting>, Error>)
      requires db.Valid()
      ensures r == if db.reachable then Ok(Latest(db.rows)) else Err(StoreFailure)
    {
      var reader := db.Read(LatestRow);
      if reader.Err? {
        return Err(reader.error);
      }
      LatestRowIsLatest(db.like, db.rows);
      if reader.value != [] {
        r := Ok(Some(reader.value[0]));
      } else {
        r := Ok(None);
      }
    }

    /** The row with the given id, or `None` when no row has it. */
    method GetGreetingById(id: int) returns (r: Result<Option<Greeting>, Error>)
      requires db.Valid()
      ensures r == if db.reachable then Ok(FindById(db.rows, id)) else Err(StoreFailure)
    {
      var reader := db.Read(RowById(id));
      if reader.Err? {
        return Err(reader.error);
      }
      if reader.value != [] {
        r := Ok(Some(reader.value[0]));
      } else {
        r := Ok(None);
      }
    }

    /** Inserts the message with the current time and returns the greeting
        with the `CreatedAt` and `Id` the insert gave it. The connection is
        opened before the greeting is touched, so a store failure wins over a
        null greeting. */
    method SaveGreeting(greeting: Option<Greeting>, now: int) returns (r: Result<Greeting, Error>)
      requires db.Valid()
      modifies db
      ensures db.Valid() && db.reachable == old(db.reachable)
      ensures !old(db.reachable) ==> r == Err(StoreFailure) && db.rows == old(db.rows) && db.lastRowId == old(db.lastRowId)
      ensures old(db.reachable) && greeting.None? ==>
        r == Err(NullReference) && db.rows == old(db.rows) && db.lastRowId == old(db.lastRowId)
      ensures old(db.reachable) && greeting.Some? ==>
        r == Ok(Greeting(old(db.lastRowId) + 1, greeting.value.message, now))
        && r.value.id > 0
        && db.rows == old(db.rows) + [r.value]
        && db.lastRowId == r.value.id
    {
      if !db.reachable {
        return Err(StoreFailure);
      }
      if greeting.None? {
        return Err(NullReference);
      }
      var saved := greeting.value.(createdAt := now);
      var id := db.Insert(saved.message, saved.createdAt);
      saved := saved.(id := id.value);
      r := Ok(saved);
    }

    /** The filtered, sorted page of rows. */
    method GetGreetings(req: ListRequest) returns (r: Result<seq<Greeting>, Error>)
      requires db.Valid() && ValidPaging(req)
      ensures r == if db.reachable then Ok(ListPage(db.like, req, db.rows)) else Err(StoreFailure)
    {
      r := ReadList(db, PageOf(req));
    }

    /** Every row, newest first. */
    method GetAllGreetings() returns (r: Result<seq<Greeting>, Error>)
      requires db.Valid()
      ensures r == if db.reachable then Ok(NewestFirst(db.rows)) else Err(StoreFailure)
    {
      r := ReadList(db, AllNewestFirst);
    }
  }
}
