/**
 * `GreetingMongoRepository`: the MongoDB adapter. Its reads are single query
 * pipelines (find, sort, skip, limit) over the `Greetings` collection; its
 * save inserts the greeting as given, assigning neither id nor timestamp.
 */
module MongoRepository {
  import opened Wrappers
  import opened Text
  import opened Domain
  import opened Query

  /** The `Greetings` collection: its documents in insertion order, whether the
      server answers, and the case-insensitive regular-expression test. The
      driver maps `Greeting.Id` to `_id`, the collection's unique key. */
  class MongoCollection {
    var documents: seq<Greeting>
    var reachable: bool
    const regex: Matcher

    /** No two documents share an `_id`. */
    ghost predicate Valid()
      reads this
    {
      forall i, j :: 0 <= i < j < |documents| ==> documents[i].id != documents[j].id
    }

    constructor (regex: Matcher)
      ensures Valid() && documents == [] && reachable && this.regex == regex
    {
      documents := [];
      reachable := true;
      this.regex := regex;
    }
  }

  /** `Find(filter).Sort(..).Skip((page - 1) * pageSize).Limit(pageSize)` on
      the documents: a limit of 0 is no limit to the server. */
  function MongoPage(regex: Matcher, req: ListRequest, documents: seq<Greeting>): seq<Greeting>
    requires ValidPaging(req)
  {
    var sorted := SortRows(SortFieldOf(req.orderBy), req.desc, FilterRows(regex, req.filter, documents));
    Window(sorted, Offset(req), if req.pageSize == 0 then |sorted| else req.pageSize)
  }

  /** What a Mongo page holds: selected documents in order, no more of each
      than the selection has, all of it when the page size is 0. */
  lemma MongoPageFacts(regex: Matcher, req: ListRequest, documents: seq<Greeting>)
    requires ValidPaging(req)
    ensures var r := MongoPage(regex, req, documents);
      var n := SelectedCount(regex, req.filter, documents);
      |r| == (if req.pageSize == 0 then n
              else if Offset(req) >= n then 0 else if n - Offset(req) < req.pageSize then n - Offset(req) else req.pageSize)
      && (forall d :: d in r ==> d in documents && Selected(regex, req.filter, d))
      && Sorted(SortFieldOf(req.orderBy), req.desc, r)
      && multiset(r) <= multiset(FilterRows(regex, req.filter, documents))
      && (req.pageSize == 0 ==> multiset(r) == multiset(FilterRows(regex, req.filter, documents)))
  {
    MongoPageSpec(regex, req, documents);
    if req.pageSize > 0 {
      ListPageSpec(regex, req, documents);
    } else {
      FilterRowsSelected(regex, req.filter, documents);
      var sel := FilterRows(regex, req.filter, documents);
      var sorted := SortRows(SortFieldOf(req.orderBy), req.desc, sel);
      assert |sorted| == |sel| by { assert |multiset(sorted)| == |multiset(sel)|; }
      forall d | d in sorted ensures d in sel {
        assert d in multiset(sorted);
      }
    }
  }

  /** A positive page size pages like the SQL stores; a zero page size
      returns the whole sorted selection. */
  lemma MongoPageSpec(regex: Matcher, req: ListRequest, documents: seq<Greeting>)
    requires ValidPaging(req)
    ensures req.pageSize > 0 ==> MongoPage(regex, req, documents) == ListPage(regex, req, documents)
    ensures req.pageSize == 0 ==>
      MongoPage(regex, req, documents) == SortRows(SortFieldOf(req.orderBy), req.desc, FilterRows(regex, req.filter, documents))
  {
    if req.pageSize == 0 {
      var sorted := SortRows(SortFieldOf(req.orderBy), req.desc, FilterRows(regex, req.filter, documents));
      assert Offset(req) == 0;
      var w := Window(sorted, 0, |sorted|);
      assert |w| == |sorted|;
      assert forall i :: 0 <= i < |w| ==> w[i] == sorted[i];
    }
  }

  /** The constructor's checks: the connection string, then the database
      name, each rejected when null or white space. */
  function ValidateConnectionParameters(connectionString: Option<string>, dbName: Option<string>): (r: Option<Error>)
    ensures r.None? <==> !IsNullOrWhiteSpace(connectionString) && !IsNullOrWhiteSpace(dbName)
    ensures r == Some(ArgumentNull("connectionString")) <==> IsNullOrWhiteSpace(connectionString)
    ensures r == Some(ArgumentNull("dbName")) <==> !IsNullOrWhiteSpace(connectionString) && IsNullOrWhiteSpace(dbName)
  {
    if IsNullOrWhiteSpace(connectionString) then Some(ArgumentNull("connectionString"))
    else if IsNullOrWhiteSpace(dbName) then Some(ArgumentNull("dbName"))
    else None
  }

  class GreetingMongoRepository {
    const collection: MongoCollection

    constructor Init(collection: MongoCollection)
      ensures this.collection == collection
    {
      this.collection := collection;
    }

    /** The public constructor. `collection` is the one the client would open
        for `dbName`; connecting is not modelled. */
    static method New(connectionString: Option<string>, dbName: Option<string>, collection: MongoCollection)
      returns (r: Result<GreetingMongoRepository, Error>)
      ensures var v := ValidateConnectionParameters(connectionString, dbName);
        (v.Some? ==> r == Err(v.value))
        && (v.None? ==> r.Ok? && fresh(r.value) && r.value.collection == collection)
    {
      var v := ValidateConnectionParameters(connectionString, dbName);
      if v.Some? {
        return Err(v.value);
      }
      var repo := new GreetingMongoRepository.Init(collection);
      r := Ok(repo);
    }

    /** `Find(_ => true).SortByDescending(CreatedAt).FirstOrDefault()`: a
        document with the greatest creation time, or null on an empty collection. */
    function GetLastGreeting(): (r: Result<Option<Greeting>, Error>)
      reads collection
      ensures r.Err? <==> !collection.reachable
      ensures r.Err? ==> r.error == StoreFailure
      ensures r.Ok? ==> (r.value.None? <==> collection.documents == [])
      ensures r.Ok? && r.value.Some? ==>
        r.value.value in collection.documents
        && forall d :: d in collection.documents ==> d.createdAt <= r.value.value.createdAt
    {
      LatestIsNewest(collection.documents);
      if collection.reachable then Ok(Latest(collection.documents)) else Err(StoreFailure)
    }

    /** `Find(g => g.Id == id).FirstOrDefault()`. */
    function GetGreetingById(id: int): (r: Result<Option<Greeting>, Error>)
      reads collection
      ensures r.Err? <==> !collection.reachable
      ensures r.Err? ==> r.error == StoreFailure
      ensures r.Ok? ==> (r.value.Some? <==> exists d :: d in collection.documents && d.id == id)
      ensures r.Ok? && r.value.Some? ==> r.value.value in collection.documents && r.value.value.id == id
    {
      if collection.reachable then Ok(FindById(collection.documents, id)) else Err(StoreFailure)
    }

    /** The list read, with no filter when it is blank. A page size of 0
        returns every selected document, sorted. */
    function GetGreetings(req: ListRequest): (r: Result<seq<Greeting>, Error>)
      requires ValidPaging(req)
      reads collection
      ensures r.Err? <==> !collection.reachable
      ensures r.Err? ==> r.error == StoreFailure
      ensures r.Ok? ==>
        var n := SelectedCount(collection.regex, req.filter, collection.documents);
        |r.value| == (if req.pageSize == 0 then n
                      else if Offset(req) >= n then 0 else if n - Offset(req) < req.pageSize then n - Offset(req) else req.pageSize)
        && (forall d :: d in r.value ==> d in collection.documents && Selected(collection.regex, req.filter, d))
        && Sorted(SortFieldOf(req.orderBy), req.desc, r.value)
        && multiset(r.value) <= multiset(FilterRows(collection.regex, req.filter, collection.documents))
      ensures r.Ok? && req.pageSize == 0 ==>
        multiset(r.value) == multiset(FilterRows(collection.regex, req.filter, collection.documents))
    {
      MongoPageFacts(collection.regex, req, collection.documents);
      if collection.reachable then Ok(MongoPage(collection.regex, req, collection.documents)) else Err(StoreFailure)
    }

    /** `Find(_ => true).SortByDescending(CreatedAt)`: every document, newest first. */
    function GetAllGreetings(): (r: Result<seq<Greeting>, Error>)
      reads collection
      ensures r.Err? <==> !collection.reachable
      ensures r.Err? ==> r.error == StoreFailure
      ensures r.Ok? ==>
        multiset(r.value) == multiset(collection.documents)
        && forall i, j :: 0 <= i < j < |r.value| ==> r.value[j].createdAt <= r.value[i].createdAt
    {
      NewestFirstIsOrderedPermutation(collection.documents);
      if collection.reachable then Ok(NewestFirst(collection.documents)) else Err(StoreFailure)
    }

    /** `InsertOne(greeting)`: a null greeting is rejected before anything is
        inserted; a greeting whose id is already an `_id` of the collection is
        refused by the server; otherwise it is stored once, exactly as given. */
    method SaveGreeting(greeting: Option<Greeting>) returns (r: Result<Greeting, Error>)
      requires collection.Valid()
      modifies collection
      ensures collection.Valid() && collection.reachable == old(collection.reachable)
      ensures greeting.None? ==> r == Err(ArgumentNull("greeting")) && collection.documents == old(collection.documents)
      ensures greeting.Some? && !old(collection.reachable) ==>
        r == Err(StoreFailure) && collection.documents == old(collection.documents)
      ensures greeting.Some? && old(collection.reachable)
              && (exists d :: d in old(collection.documents) && d.id == greeting.value.id) ==>
        r == Err(DuplicateKey(greeting.value.id)) && collection.documents == old(collection.documents)
      ensures greeting.Some? && old(collection.reachable)
              && (forall d :: d in old(collection.documents) ==> d.id != greeting.value.id) ==>
        r == Ok(greeting.value) && collection.documents == old(collection.documents) + [greeting.value]
    {
      if greeting.None? {
        return Err(ArgumentNull("greeting"));
      }
      if !collection.reachable {
        return Err(StoreFailure);
      }
      if FindById(collection.documents, greeting.value.id).Some? {
        return Err(DuplicateKey(greeting.value.id));
      }
      collection.documents := collection.documents + [greeting.value];
      r := Ok(greeting.value);
    }
  }

  /** Every greeting the API saves has id 0, so through MongoDB the first
      save on an empty collection is stored and the second is refused for
      its `_id`, leaving only the first. */
  method RepeatedUnassignedSave(repo: GreetingMongoRepository, first: Greeting, second: Greeting)
      returns (r1: Result<Greeting, Error>, r2: Result<Greeting, Error>)
    requires repo.collection.Valid() && repo.collection.documents == [] && repo.collection.reachable
    requires first.id == 0 && second.id == 0
    modifies repo.collection
    ensures r1 == Ok(first) && r2 == Err(DuplicateKey(0))
    ensures repo.collection.documents == [first]
  {
    r1 := repo.SaveGreeting(Some(first));
    assert first in repo.collection.documents;
    r2 := repo.SaveGreeting(Some(second));
  }
}
