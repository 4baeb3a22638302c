/**
 * What the five queries of a greeting store return, stated once over the
 * abstract table (a sequence of rows in insertion order) and shared by the
 * SQLite and MongoDB adapters: the latest row, the row with a given id, a
 * filtered, sorted and paged list, and every row newest first.
 */
module Query {
  import opened Wrappers
  import opened Text
  import opened Domain

  /** The column a list is sorted on. */
  datatype SortField = ByMessage | ByCreatedAt

  /** Only the exact string "Message" selects the message column; anything
      else, including "message" or "", sorts on the creation time. */
  function SortFieldOf(orderBy: string): (f: SortField)
    ensures f == ByMessage <==> orderBy == "Message"
  {
    if orderBy == "Message" then ByMessage else ByCreatedAt
  }

  /** The store's test of a message against a non-blank filter: SQLite's
      `LIKE '%filter%'` or MongoDB's case-insensitive regular expression. */
  type Matcher = (string, string) -> bool

  /** The arguments of a list read. */
  datatype ListRequest = ListRequest(page: int, pageSize: int, orderBy: string, desc: bool, filter: Option<string>)

  /** Paging arguments the stores are given meaning for. */
  predicate ValidPaging(req: ListRequest) {
    req.page >= 1 && req.pageSize >= 0
  }

  /** `(page - 1) * pageSize`, the number of rows skipped. */
  function Offset(req: ListRequest): nat
    requires ValidPaging(req)
  {
    (req.page - 1) * req.pageSize
  }

  // ---------------------------------------------------------------------------
  // Ordering

  /** Ascending order on one column: ordinal for messages, numeric for times. */
  predicate KeyLeq(field: SortField, a: Greeting, b: Greeting) {
    match field
    case ByMessage => LexLeq(a.message, b.message)
    case ByCreatedAt => a.createdAt <= b.createdAt
  }

  /** `a` may come before `b` in an `ORDER BY field ASC|DESC` result. */
  predicate InOrder(field: SortField, desc: bool, a: Greeting, b: Greeting) {
    if desc then KeyLeq(field, b, a) else KeyLeq(field, a, b)
  }

  lemma InOrderTotal(field: SortField, desc: bool, a: Greeting, b: Greeting)
    ensures InOrder(field, desc, a, b) || InOrder(field, desc, b, a)
  {
    if field == ByMessage { LexLeqTotal(a.message, b.message); }
  }

  lemma InOrderTransitive(field: SortField, desc: bool, a: Greeting, b: Greeting, c: Greeting)
    requires InOrder(field, desc, a, b) && InOrder(field, desc, b, c)
    ensures InOrder(field, desc, a, c)
  {
    if field == ByMessage {
      if desc { LexLeqTransitive(c.message, b.message, a.message); }
      else { LexLeqTransitive(a.message, b.message, c.message); }
    }
  }

  /** Every earlier row may precede every later one. */
  predicate Sorted(field: SortField, desc: bool, s: seq<Greeting>) {
    forall i, j :: 0 <= i < j < |s| ==> InOrder(field, desc, s[i], s[j])
  }

  /** Places `x` before the first row it may precede. */
  function Insert(field: SortField, desc: bool, x: Greeting, s: seq<Greeting>): (r: seq<Greeting>)
    ensures multiset(r) == multiset(s) + multiset{x}
  {
    if s == [] || InOrder(field, desc, x, s[0]) then [x] + s
    else
      assert s == [s[0]] + s[1..];
      [s[0]] + Insert(field, desc, x, s[1..])
  }

  lemma {:induction false} InsertSorted(field: SortField, desc: bool, x: Greeting, s: seq<Greeting>)
    requires Sorted(field, desc, s)
    ensures Sorted(field, desc, Insert(field, desc, x, s))
  {
    if s == [] {
    } else if InOrder(field, desc, x, s[0]) {
      forall j | 0 <= j < |s| ensures InOrder(field, desc, x, s[j]) {
        if j > 0 { InOrderTransitive(field, desc, x, s[0], s[j]); }
      }
      ConsSorted(field, desc, x, s);
    } else {
      InOrderTotal(field, desc, x, s[0]);
      InsertSorted(field, desc, x, s[1..]);
      HeadPrecedesInsert(field, desc, x, s);
      ConsSorted(field, desc, s[0], Insert(field, desc, x, s[1..]));
    }
  }

  /** A row that precedes every row of a sorted sequence can head it. */
  lemma ConsSorted(field: SortField, desc: bool, a: Greeting, t: seq<Greeting>)
    requires Sorted(field, desc, t)
    requires forall j :: 0 <= j < |t| ==> InOrder(field, desc, a, t[j])
    ensures Sorted(field, desc, [a] + t)
  {
    var r := [a] + t;
    forall i, j | 0 <= i < j < |r| ensures InOrder(field, desc, r[i], r[j]) {
      assert r[j] == t[j - 1];
      if i > 0 { assert r[i] == t[i - 1]; }
    }
  }

  /** The head of a sorted sequence precedes every row of the rest with a row
      it precedes inserted. */
  lemma HeadPrecedesInsert(field: SortField, desc: bool, x: Greeting, s: seq<Greeting>)
    requires s != [] && Sorted(field, desc, s) && InOrder(field, desc, s[0], x)
    ensures forall j :: 0 <= j < |Insert(field, desc, x, s[1..])| ==> InOrder(field, desc, s[0], Insert(field, desc, x, s[1..])[j])
  {
    var t := Insert(field, desc, x, s[1..]);
    forall j | 0 <= j < |t| ensures InOrder(field, desc, s[0], t[j]) {
      assert t[j] in multiset(t);
      if t[j] != x {
        assert t[j] in multiset(s[1..]);
        var k :| 0 <= k < |s[1..]| && s[1..][k] == t[j];
        assert s[k + 1] == t[j];
      }
    }
  }

  /** `ORDER BY field ASC|DESC`: a sorted permutation of the rows. Rows with
      equal keys keep their table order. */
  function SortRows(field: SortField, desc: bool, s: seq<Greeting>): (r: seq<Greeting>)
    ensures multiset(r) == multiset(s)
    ensures Sorted(field, desc, r)
  {
    if s == [] then []
    else
      var t := SortRows(field, desc, s[1..]);
      InsertSorted(field, desc, s[0], t);
      assert s == [s[0]] + s[1..];
      Insert(field, desc, s[0], t)
  }

  // ---------------------------------------------------------------------------
  // Selection and paging

  /** `LIMIT limit OFFSET offset`: the rows from position `offset` on, at most
      `limit` of them. */
  function Window(s: seq<Greeting>, offset: nat, limit: nat): (r: seq<Greeting>)
    ensures |r| == if offset >= |s| then 0 else if |s| - offset < limit then |s| - offset else limit
    ensures forall i :: 0 <= i < |r| ==> r[i] == s[offset + i]
  {
    if offset >= |s| then []
    else s[offset..if offset + limit < |s| then offset + limit else |s|]
  }

  /** The rows whose message matches `filter`, in table order. */
  function Matching(m: Matcher, filter: string, rows: seq<Greeting>): (r: seq<Greeting>)
    ensures forall g :: g in r <==> g in rows && m(g.message, filter)
    ensures multiset(r) <= multiset(rows)
  {
    if rows == [] then []
    else
      assert rows == [rows[0]] + rows[1..];
      (if m(rows[0].message, filter) then [rows[0]] else []) + Matching(m, filter, rows[1..])
  }

  /** The `WHERE` clause: present only for a non-blank filter. */
  function FilterRows(m: Matcher, filter: Option<string>, rows: seq<Greeting>): seq<Greeting> {
    if IsNullOrWhiteSpace(filter) then rows else Matching(m, filter.value, rows)
  }

  /** A row is selected by a list request's filter. */
  predicate Selected(m: Matcher, filter: Option<string>, g: Greeting) {
    IsNullOrWhiteSpace(filter) || m(g.message, filter.value)
  }

  /** The list read: filter, sort on the requested column and direction, skip
      `(page - 1) * pageSize` rows and keep at most `pageSize`. */
  function ListPage(m: Matcher, req: ListRequest, rows: seq<Greeting>): seq<Greeting>
    requires ValidPaging(req)
  {
    Window(SortRows(SortFieldOf(req.orderBy), req.desc, FilterRows(m, req.filter, rows)), Offset(req), req.pageSize)
  }

  /** The rows selected by the filter, whatever the paging. */
  function SelectedCount(m: Matcher, filter: Option<string>, rows: seq<Greeting>): nat {
    |FilterRows(m, filter, rows)|
  }

  /** `ORDER BY CreatedAt DESC LIMIT 1`: the first row of the newest-first order. */
  function Latest(rows: seq<Greeting>): Option<Greeting> {
    var w := Window(SortRows(ByCreatedAt, true, rows), 0, 1);
    if w == [] then None else Some(w[0])
  }

  /** `WHERE Id = @Id`, first row read. */
  function FindById(rows: seq<Greeting>, id: int): (r: Option<Greeting>)
    ensures r.Some? <==> exists i :: 0 <= i < |rows| && rows[i].id == id
    ensures r.Some? ==> r.value in rows && r.value.id == id
  {
    if rows == [] then None
    else if rows[0].id == id then Some(rows[0])
    else
      assert forall i :: 1 <= i < |rows| ==> rows[i] == rows[1..][i - 1];
      FindById(rows[1..], id)
  }

  /** `ORDER BY CreatedAt DESC` over the whole table. */
  function NewestFirst(rows: seq<Greeting>): seq<Greeting> {
    SortRows(ByCreatedAt, true, rows)
  }

  // ---------------------------------------------------------------------------
  // What the queries promise

  /** The latest read is a row with the greatest creation time, and it is
      absent exactly when the table is empty. */
  lemma LatestIsNewest(rows: seq<Greeting>)
    ensures Latest(rows).None? <==> rows == []
    ensures Latest(rows).Some? ==>
      Latest(rows).value in rows && forall g :: g in rows ==> g.createdAt <= Latest(rows).value.createdAt
  {
    var s := SortRows(ByCreatedAt, true, rows);
    assert |s| == |rows| by { assert |multiset(s)| == |multiset(rows)|; }
    if rows != [] {
      var w := s[0];
      assert w in multiset(rows);
      forall g | g in rows ensures g.createdAt <= w.createdAt {
        assert g in multiset(s);
        var k :| 0 <= k < |s| && s[k] == g;
        if k > 0 { assert InOrder(ByCreatedAt, true, s[0], s[k]); }
      }
    }
  }

  /** The all-records read holds every row, newest first, and is empty exactly
      when the table is. */
  lemma NewestFirstIsOrderedPermutation(rows: seq<Greeting>)
    ensures multiset(NewestFirst(rows)) == multiset(rows)
    ensures |NewestFirst(rows)| == |rows|
    ensures NewestFirst(rows) == [] <==> rows == []
    ensures forall i, j :: 0 <= i < j < |NewestFirst(rows)| ==>
      NewestFirst(rows)[j].createdAt <= NewestFirst(rows)[i].createdAt
  {
    var s := NewestFirst(rows);
    assert |s| == |rows| by { assert |multiset(s)| == |multiset(rows)|; }
    forall i, j | 0 <= i < j < |s| ensures s[j].createdAt <= s[i].createdAt {
      assert InOrder(ByCreatedAt, true, s[i], s[j]);
    }
  }

  /** A list page has `min(pageSize, selected - offset)` rows (none past the
      end), each of them a row of the table selected by the filter, and it is
      ordered on the requested column and direction. */
  lemma ListPageSpec(m: Matcher, req: ListRequest, rows: seq<Greeting>)
    requires ValidPaging(req)
    ensures var n := SelectedCount(m, req.filter, rows);
      |ListPage(m, req, rows)| ==
        if Offset(req) >= n then 0 else if n - Offset(req) < req.pageSize then n - Offset(req) else req.pageSize
    ensures forall g :: g in ListPage(m, req, rows) ==> g in rows && Selected(m, req.filter, g)
    ensures Sorted(SortFieldOf(req.orderBy), req.desc, ListPage(m, req, rows))
    ensures multiset(ListPage(m, req, rows)) <= multiset(FilterRows(m, req.filter, rows))
  {
    var sel := FilterRows(m, req.filter, rows);
    var s := SortRows(SortFieldOf(req.orderBy), req.desc, sel);
    var r := ListPage(m, req, rows);
    ListPageIsWindow(m, req, rows);
    assert |s| == |sel| by { assert |multiset(s)| == |multiset(sel)|; }
    WindowMultiset(s, Offset(req), req.pageSize);
    WindowSorted(SortFieldOf(req.orderBy), req.desc, s, Offset(req), req.pageSize);
    FilterRowsSelected(m, req.filter, rows);
    forall g | g in r ensures g in sel {
      assert g in multiset(r);
    }
  }

  /** A list page is the window at its offset over the sorted selection. */
  lemma ListPageIsWindow(m: Matcher, req: ListRequest, rows: seq<Greeting>)
    requires ValidPaging(req)
    ensures ListPage(m, req, rows)
      == Window(SortRows(SortFieldOf(req.orderBy), req.desc, FilterRows(m, req.filter, rows)), Offset(req), req.pageSize)
  {
  }

  /** The filter keeps exactly the table's rows it selects. */
  lemma FilterRowsSelected(m: Matcher, filter: Option<string>, rows: seq<Greeting>)
    ensures forall g :: g in FilterRows(m, filter, rows) <==> g in rows && Selected(m, filter, g)
  {
  }

  /** A window of a sorted sequence is sorted. */
  lemma WindowSorted(field: SortField, desc: bool, s: seq<Greeting>, offset: nat, limit: nat)
    requires Sorted(field, desc, s)
    ensures Sorted(field, desc, Window(s, offset, limit))
  {
    var r := Window(s, offset, limit);
    forall i, j | 0 <= i < j < |r| ensures InOrder(field, desc, r[i], r[j]) {
      assert r[i] == s[offset + i] && r[j] == s[offset + j];
    }
  }

  /** A window holds rows of its sequence, none more often than there. */
  lemma WindowMultiset(s: seq<Greeting>, offset: nat, limit: nat)
    ensures multiset(Window(s, offset, limit)) <= multiset(s)
  {
    if offset < |s| {
      var e := if offset + limit < |s| then offset + limit else |s|;
      assert s == s[..offset] + s[offset..e] + s[e..];
    }
  }

  /** Two adjacent windows make up the window over both. */
  lemma WindowSplit(s: seq<Greeting>, offset: nat, middle: nat, first: nat, second: nat)
    requires middle == offset + first
    ensures Window(s, offset, first) + Window(s, middle, second) == Window(s, offset, first + second)
  {
    var a := Window(s, offset, first);
    var b := Window(s, middle, second);
    var c := Window(s, offset, first + second);
    assert |a + b| == |c|;
    forall i | 0 <= i < |c| ensures (a + b)[i] == c[i] {
      if i >= |a| {
        assert (a + b)[i] == b[i - |a|] == s[offset + first + (i - |a|)];
      }
    }
  }

  /** Page `p` followed by page `p + 1` is one slice of the same sorted
      selection: no row is skipped or repeated between pages. */
  lemma ConsecutivePages(m: Matcher, req: ListRequest, rows: seq<Greeting>)
    requires ValidPaging(req)
    ensures ListPage(m, req, rows) + ListPage(m, req.(page := req.page + 1), rows)
      == Window(SortRows(SortFieldOf(req.orderBy), req.desc, FilterRows(m, req.filter, rows)), Offset(req), req.pageSize + req.pageSize)
  {
    var s := SortRows(SortFieldOf(req.orderBy), req.desc, FilterRows(m, req.filter, rows));
    var middle := NextOffset(req);
    WindowSplit(s, Offset(req), middle, req.pageSize, req.pageSize);
  }

  /** Page `page + 1` starts `pageSize` rows after page `page`. */
  lemma NextOffset(req: ListRequest) returns (middle: nat)
    requires ValidPaging(req)
    ensures middle == Offset(req.(page := req.page + 1)) == Offset(req) + req.pageSize
  {
    middle := req.page * req.pageSize;
    assert middle == (req.page - 1) * req.pageSize + req.pageSize;
  }

  /** With no filter and a first page at least as large as the table, the page
      holds every row. */
  lemma FirstPageCoversTable(m: Matcher, req: ListRequest, rows: seq<Greeting>)
    requires req.page == 1 && req.pageSize >= |rows| && IsNullOrWhiteSpace(req.filter)
    ensures multiset(ListPage(m, req, rows)) == multiset(rows)
  {
    var s := SortRows(SortFieldOf(req.orderBy), req.desc, rows);
    assert |s| == |rows| by { assert |multiset(s)| == |multiset(rows)|; }
    assert ListPage(m, req, rows) == s;
  }

  /** Five rows, first page of two: exactly two rows. */
  lemma FiveRowsFirstPageOfTwo(m: Matcher, rows: seq<Greeting>, orderBy: string, desc: bool)
    requires |rows| == 5
    ensures |ListPage(m, ListRequest(1, 2, orderBy, desc, None), rows)| == 2
  {
    ListPageSpec(m, ListRequest(1, 2, orderBy, desc, None), rows);
  }

  /** A filter that matches the message of one row only yields exactly that row. */
  lemma SingleMatch(m: Matcher, rows: seq<Greeting>, k: nat, f: string, orderBy: string, desc: bool, pageSize: int)
    requires k < |rows| && !IsNullOrWhiteSpace(Some(f)) && pageSize >= 1
    requires forall i :: 0 <= i < |rows| ==> (m(rows[i].message, f) <==> i == k)
    ensures ListPage(m, ListRequest(1, pageSize, orderBy, desc, Some(f)), rows) == [rows[k]]
  {
    var sel := Matching(m, f, rows);
    assert sel == [rows[k]] by { MatchingSingle(m, f, rows, k); }
    var s := SortRows(SortFieldOf(orderBy), desc, sel);
    assert |s| == 1 by { assert |multiset(s)| == |multiset(sel)|; }
    assert s[0] in multiset(sel);
  }

  lemma {:induction false} MatchingSingle(m: Matcher, f: string, rows: seq<Greeting>, k: nat)
    requires k < |rows|
    requires forall i :: 0 <= i < |rows| ==> (m(rows[i].message, f) <==> i == k)
    ensures Matching(m, f, rows) == [rows[k]]
  {
    if k == 0 {
      MatchingNone(m, f, rows[1..]);
    } else {
      MatchingSingle(m, f, rows[1..], k - 1);
    }
  }

  lemma {:induction false} MatchingNone(m: Matcher, f: string, rows: seq<Greeting>)
    requires forall i :: 0 <= i < |rows| ==> !m(rows[i].message, f)
    ensures Matching(m, f, rows) == []
  {
    if rows != [] {
      MatchingNone(m, f, rows[1..]);
    }
  }

  /** A filter that matches nothing yields an empty page. */
  lemma NoMatch(m: Matcher, rows: seq<Greeting>, f: string, req: ListRequest)
    requires ValidPaging(req) && req.filter == Some(f) && !IsNullOrWhiteSpace(Some(f))
    requires forall i :: 0 <= i < |rows| ==> !m(rows[i].message, f)
    ensures ListPage(m, req, rows) == []
  {
    MatchingNone(m, f, rows);
  }

  /** Sorting on "Message" puts "A" first ascending and "B" first descending. */
  lemma MessageOrderAscDesc(m: Matcher, a: Greeting, b: Greeting)
    requires a.message == "A" && b.message == "B"
    ensures ListPage(m, ListRequest(1, 10, "Message", false, None), [a, b])[0].message == "A"
    ensures ListPage(m, ListRequest(1, 10, "Message", true, None), [a, b])[0].message == "B"
  {
    assert LexLeq("A", "B") && !LexLeq("B", "A");
    assert [a, b][1..] == [b];
  }
}
