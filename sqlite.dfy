/**
 * The SQLite `Greetings` table both SQL adapters talk to, reduced to its rows,
 * the AUTOINCREMENT counter and whether a connection can be opened, together
 * with the four SELECT statements the adapters issue and the reader loop they
 * use to collect a result set.
 */
module Sqlite {
  import opened Wrappers
  import opened Domain
  import opened Query

  /** The SELECT statements of the adapters. */
  datatype Select =
    | LatestRow              // ORDER BY CreatedAt DESC LIMIT 1
    | RowById(id: int)       // WHERE Id = @Id
    | PageOf(req: ListRequest) // [WHERE Message LIKE @Filter] ORDER BY .. LIMIT .. OFFSET ..
    | AllNewestFirst         // ORDER BY CreatedAt DESC

  predicate WellFormed(stmt: Select) {
    stmt.PageOf? ==> ValidPaging(stmt.req)
  }

  /** The rows with the given id, in table order. */
  function WithId(rows: seq<Greeting>, id: int): (r: seq<Greeting>)
    ensures r == [] <==> FindById(rows, id).None?
    ensures r != [] ==> r[0] == FindById(rows, id).value
  {
    if rows == [] then []
    else if rows[0].id == id then [rows[0]] + WithId(rows[1..], id)
    else WithId(rows[1..], id)
  }

  /** The result set of a statement, in the order the reader yields it. */
  function Evaluate(like: Matcher, stmt: Select, rows: seq<Greeting>): seq<Greeting>
    requires WellFormed(stmt)
  {
    match stmt
    case LatestRow => Window(SortRows(ByCreatedAt, true, rows), 0, 1)
    case RowById(id) => WithId(rows, id)
    case PageOf(req) => ListPage(like, req, rows)
    case AllNewestFirst => NewestFirst(rows)
  }

  /** The first row of `ORDER BY CreatedAt DESC LIMIT 1` is the latest row. */
  lemma LatestRowIsLatest(like: Matcher, rows: seq<Greeting>)
    ensures Evaluate(like, LatestRow, rows) == [] <==> Latest(rows).None?
    ensures Evaluate(like, LatestRow, rows) != [] ==> Evaluate(like, LatestRow, rows)[0] == Latest(rows).value
  {
  }

  /** Ids are positive, strictly increasing in table order, and never above the
      AUTOINCREMENT counter. */
  predicate IdsAssigned(rows: seq<Greeting>, lastRowId: int) {
    lastRowId >= 0
    && (forall i :: 0 <= i < |rows| ==> 0 < rows[i].id <= lastRowId)
    && (forall i, j :: 0 <= i < j < |rows| ==> rows[i].id < rows[j].id)
  }

  class Database {
    var rows: seq<Greeting>
    var lastRowId: int
    /** Whether a connection opens and the statements run; `false` stands for
        every failure of the store itself. */
    var reachable: bool
    /** `Message LIKE '%' || filter || '%'`. */
    const like: Matcher

    ghost predicate Valid()
      reads this
    {
      IdsAssigned(rows, lastRowId)
    }

    constructor (like: Matcher)
      ensures Valid() && rows == [] && lastRowId == 0 && reachable && this.like == like
    {
      rows := [];
      lastRowId := 0;
      reachable := true;
      this.like := like;
    }

    /** `ExecuteReader`: the result set of a statement, or the store's failure. */
    function Read(stmt: Select): (r: Result<seq<Greeting>, Error>)
      requires WellFormed(stmt)
      reads this
      ensures r.Err? <==> !reachable
    {
      if reachable then Ok(Evaluate(like, stmt, rows)) else Err(StoreFailure)
    }

    /** `INSERT INTO Greetings (Message, CreatedAt) ...; SELECT last_insert_rowid()`:
        the new row gets the next AUTOINCREMENT id. */
    method Insert(message: string, createdAt: int) returns (r: Result<int, Error>)
      requires Valid()
      modifies this
      ensures Valid() && reachable == old(reachable)
      ensures old(reachable) ==>
        r == Ok(old(lastRowId) + 1) && lastRowId == old(lastRowId) + 1
        && rows == old(rows) + [Greeting(lastRowId, message, createdAt)]
      ensures !old(reachable) ==> r == Err(StoreFailure) && rows == old(rows) && lastRowId == old(lastRowId)
    {
      if !reachable {
        return Err(StoreFailure);
      }
      lastRowId := lastRowId + 1;
      rows := rows + [Greeting(lastRowId, message, createdAt)];
      r := Ok(lastRowId);
    }
  }

  /** The `while (reader.Read()) list.Add(new Greeting { ... })` loop of the
      list reads: collects the whole result set, in reader order. */
  method ReadList(db: Database, stmt: Select) returns (r: Result<seq<Greeting>, Error>)
    requires WellFormed(stmt)
    ensures r.Err? <==> !db.reachable
    ensures r.Err? ==> r.error == StoreFailure
    ensures r.Ok? ==> r.value == Evaluate(db.like, stmt, db.rows)
  {
    var reader := db.Read(stmt);
    if reader.Err? {
      return Err(reader.error);
    }
    var resultSet := reader.value;
    var list: seq<Greeting> := [];
    var i := 0;
    while i < |resultSet|
      invariant 0 <= i <= |resultSet|
      invariant list == resultSet[..i]
    {
      list := list + [resultSet[i]];
      i := i + 1;
    }
    return Ok(list);
  }

  // ---------------------------------------------------------------------------
  // The table after an insert

  /** The next AUTOINCREMENT id is fresh: no row has it yet. */
  lemma FreshIdAbsent(rows: seq<Greeting>, lastRowId: int)
    requires IdsAssigned(rows, lastRowId)
    ensures FindById(rows, lastRowId + 1).None?
  {
  }

  /** After an insert, the new id finds the new row; every other id finds what
      it found before. */
  lemma {:induction false} FindAfterInsert(rows: seq<Greeting>, g: Greeting, id: int)
    requires FindById(rows, g.id).None?
    ensures FindById(rows + [g], id) == if id == g.id then Some(g) else FindById(rows, id)
  {
    if rows == [] {
      assert rows + [g] == [g];
    } else {
      assert (rows + [g])[1..] == rows[1..] + [g];
      if rows[0].id != id && rows[0].id != g.id {
        FindAfterInsert(rows[1..], g, id);
      }
    }
  }

  /** An id above the counter was never assigned, so it finds nothing. */
  lemma NeverAssigned(rows: seq<Greeting>, lastRowId: int, id: int)
    requires IdsAssigned(rows, lastRowId) && (id > lastRowId || id <= 0)
    ensures FindById(rows, id).None?
  {
  }

  /** A row inserted later than every existing row becomes the latest one. */
  lemma InsertedNewestIsLatest(rows: seq<Greeting>, g: Greeting)
    requires forall h :: h in rows ==> h.createdAt < g.createdAt
    ensures Latest(rows + [g]) == Some(g)
  {
    LatestIsNewest(rows + [g]);
    var l := Latest(rows + [g]).value;
    assert g in rows + [g];
    assert l in rows || l == g;
  }
}
