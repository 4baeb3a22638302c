/**
 * `GreetingLinksAssembler.BuildLinks`: the hypermedia links of one page of a
 * greeting listing. Arguments are 32-bit integers.
 */
module Links {
  import opened Text
  import opened Domain

  const ListPath: string := "/api/v1/hello/list"
  const CreateHref: string := "/api/v1/hello"

  /** `/api/v1/hello/list?page={page}&pageSize={pageSize}`. */
  function PageHref(page: int, pageSize: int): string {
    ListPath + "?page=" + IntToString(page) + "&pageSize=" + IntToString(pageSize)
  }

  /** The least integer not below `t / p`. */
  function CeilingDiv(t: int, p: int): (q: int)
    requires p != 0
    ensures p > 0 ==> (q - 1) * p < t <= q * p
    ensures p < 0 ==> q * p <= t < (q - 1) * p
  {
    if p > 0 then
      var d := (-t) / p;
      FloorDivBounds(-t, p);
      assert (-d - 1) * p == -(d * p) - p && (-d) * p == -(d * p);
      -d
    else
      var d := t / (-p);
      FloorDivBounds(t, -p);
      assert (-d) * p == d * (-p) && (-d - 1) * p == d * (-p) + (-p);
      -d
  }

  lemma FloorDivBounds(x: int, p: int)
    requires p > 0
    ensures (x / p) * p <= x < (x / p) * p + p
  {
  }

  /** `(int)Math.Ceiling(totalItems / (double)pageSize)`. For 32-bit
      arguments the double quotient is never rounded across an integer, so
      the ceiling is exact. A quotient outside the 32-bit range (only
      `Int32Min / -1`) and the infinite or undefined quotient of a zero page
      size convert to `Int32Min`: the legacy x64 conversion, which the
      assembler's zero-page-size test relies on (newer runtimes saturate). */
  function TotalPages(totalItems: int, pageSize: int): (r: int)
    requires IsInt32(totalItems) && IsInt32(pageSize)
    ensures IsInt32(r)
    ensures pageSize > 0 ==> (r - 1) * pageSize < totalItems <= r * pageSize
    ensures pageSize < 0 && r != Int32Min ==> r * pageSize <= totalItems < (r - 1) * pageSize
    ensures pageSize == 0 ==> r == Int32Min
  {
    if pageSize == 0 then Int32Min
    else
      var q := CeilingDiv(totalItems, pageSize);
      if pageSize > 0 then
        CeilingDivInRange(totalItems, pageSize);
        q
      else if IsInt32(q) then q
      else Int32Min
  }

  /** For a positive divisor the ceiling of a 32-bit dividend is 32-bit. */
  lemma CeilingDivInRange(t: int, p: int)
    requires IsInt32(t) && p > 0
    ensures IsInt32(CeilingDiv(t, p))
  {
    var q := CeilingDiv(t, p);
    if q > Int32Max {
      assert (q - 1) * p >= q - 1 by { MulMonotone(q - 1, 1, p); }
    } else if q < Int32Min {
      assert q * p <= q by { MulMonotoneNeg(q, 1, p); }
    }
  }

  lemma MulMonotone(a: int, b: int, p: int)
    requires a >= 0 && 1 <= b <= p
    ensures a * p >= a * b
  {
  }

  lemma MulMonotoneNeg(a: int, b: int, p: int)
    requires a <= 0 && 1 <= b <= p
    ensures a * p <= a * b
  {
  }

  /** Whether `links` holds a link with relation `rel`. */
  predicate HasRel(links: seq<LinkDto>, rel: string) {
    exists i :: 0 <= i < |links| && links[i].rel == rel
  }

  const Self: string := "self"
  const Create: string := "create"
  const Prev: string := "prev"
  const Next: string := "next"

  /** The links: always `self` and `create`, in that order; then `prev` when
      past the first page and there is at least one page; then `next` while
      before the last page. */
  function BuildLinks(page: int, pageSize: int, totalItems: int): (links: seq<LinkDto>)
    requires IsInt32(page) && IsInt32(pageSize) && IsInt32(totalItems)
    ensures 2 <= |links| <= 4
    ensures links[0] == LinkDto(Self, PageHref(page, pageSize))
    ensures links[1] == LinkDto(Create, CreateHref)
  {
    var totalPages := TotalPages(totalItems, pageSize);
    [LinkDto(Self, PageHref(page, pageSize)), LinkDto(Create, CreateHref)]
    + (if page > 1 && totalPages > 0 then [LinkDto(Prev, PageHref(page - 1, pageSize))] else [])
    + (if page < totalPages then [LinkDto(Next, PageHref(page + 1, pageSize))] else [])
  }

  /** `prev` and `next` appear exactly under their conditions, each pointing
      one page back or forward, and nothing else follows `self` and `create`. */
  lemma BuildLinksSelection(page: int, pageSize: int, totalItems: int)
    requires IsInt32(page) && IsInt32(pageSize) && IsInt32(totalItems)
    ensures var links := BuildLinks(page, pageSize, totalItems);
      (HasRel(links, Prev) <==> page > 1 && TotalPages(totalItems, pageSize) > 0)
      && (HasRel(links, Next) <==> page < TotalPages(totalItems, pageSize))
      && (|links| == 2 <==> !HasRel(links, Prev) && !HasRel(links, Next))
      && forall i :: 2 <= i < |links| ==>
           (links[i].rel == Prev && links[i].href == PageHref(page - 1, pageSize))
           || (links[i].rel == Next && links[i].href == PageHref(page + 1, pageSize))
  {
    var links := BuildLinks(page, pageSize, totalItems);
    var totalPages := TotalPages(totalItems, pageSize);
    assert Self[0] != Prev[0] && Create[0] != Prev[0] && Self[0] != Next[0] && Create[0] != Next[0];
    assert Prev[0] != Next[0];
    if page > 1 && totalPages > 0 { assert links[2].rel == Prev; }
    if page < totalPages { assert links[|links| - 1].rel == Next; }
  }

  /** No relation appears twice, and `prev` comes before `next`. */
  lemma BuildLinksDistinct(page: int, pageSize: int, totalItems: int)
    requires IsInt32(page) && IsInt32(pageSize) && IsInt32(totalItems)
    ensures var links := BuildLinks(page, pageSize, totalItems);
      (forall i, j :: 0 <= i < j < |links| ==> links[i].rel != links[j].rel)
      && forall i, j :: 0 <= i < |links| && 0 <= j < |links| && links[i].rel == Prev && links[j].rel == Next ==> i < j
  {
    var links := BuildLinks(page, pageSize, totalItems);
    assert Self[0] != Create[0] && Self[0] != Prev[0] && Create[0] != Prev[0] && Self[0] != Next[0] && Create[0] != Next[0];
    assert Prev[0] != Next[0];
  }

  // ---------------------------------------------------------------------------
  // What the links mean for a positive page size

  /** With a positive page size, `next` appears exactly when items remain
      after the current page. */
  lemma NextIffItemsRemain(page: int, pageSize: int, totalItems: int)
    requires IsInt32(page) && IsInt32(totalItems) && IsInt32(pageSize) && pageSize > 0
    ensures HasRel(BuildLinks(page, pageSize, totalItems), Next) <==> page * pageSize < totalItems
  {
    BuildLinksSelection(page, pageSize, totalItems);
    var r := TotalPages(totalItems, pageSize);
    if page < r {
      assert page * pageSize <= (r - 1) * pageSize by { MulLe(page, r - 1, pageSize); }
    } else {
      assert r * pageSize <= page * pageSize by { MulLe(r, page, pageSize); }
    }
  }

  lemma MulLe(a: int, b: int, p: int)
    requires a <= b && p > 0
    ensures a * p <= b * p
  {
  }

  /** With a positive page size, `prev` appears exactly on a page after the
      first when there is at least one item; its target may lie past the last
      page. */
  lemma PrevIffItemsExist(page: int, pageSize: int, totalItems: int)
    requires IsInt32(page) && IsInt32(totalItems) && IsInt32(pageSize) && pageSize > 0
    ensures HasRel(BuildLinks(page, pageSize, totalItems), Prev) <==> page > 1 && totalItems > 0
  {
    BuildLinksSelection(page, pageSize, totalItems);
    var r := TotalPages(totalItems, pageSize);
    if r > 0 {
      MulLe(0, r - 1, pageSize);
      assert totalItems > 0;
    } else {
      MulLe(r, 0, pageSize);
      assert totalItems <= 0;
    }
  }

  /** No items, negative items or a zero page size: only `self` and `create`. */
  lemma NothingToPage(page: int, pageSize: int, totalItems: int)
    requires IsInt32(page) && IsInt32(totalItems) && IsInt32(pageSize) && page >= 1
    requires (totalItems <= 0 && pageSize > 0) || pageSize == 0
    ensures |BuildLinks(page, pageSize, totalItems)| == 2
  {
    BuildLinksSelection(page, pageSize, totalItems);
    if pageSize > 0 {
      PrevIffItemsExist(page, pageSize, totalItems);
      NextIffItemsRemain(page, pageSize, totalItems);
      MulLe(0, page, pageSize);
    }
  }

  /** The documented examples: 100 items in pages of 10. */
  lemma TenPagesOfTen()
    ensures var first := BuildLinks(1, 10, 100);
      HasRel(first, Next) && !HasRel(first, Prev)
    ensures HasRel(BuildLinks(2, 10, 100), Prev)
    ensures !HasRel(BuildLinks(10, 10, 100), Next)
    ensures var zero := BuildLinks(0, 10, 100);
      HasRel(zero, Next) && !HasRel(zero, Prev)
    ensures var negative := BuildLinks(-1, 10, 100);
      HasRel(negative, Next) && !HasRel(negative, Prev)
    ensures var middle := BuildLinks(50, 10, 1000);
      |middle| == 4 && HasRel(middle, Prev) && HasRel(middle, Next)
  {
    BuildLinksSelection(1, 10, 100);
    BuildLinksSelection(2, 10, 100);
    BuildLinksSelection(10, 10, 100);
    BuildLinksSelection(0, 10, 100);
    BuildLinksSelection(-1, 10, 100);
    BuildLinksSelection(50, 10, 1000);
    assert TotalPages(100, 10) == 10;
    assert TotalPages(1000, 10) == 100;
  }
}
