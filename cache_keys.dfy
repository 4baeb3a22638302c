/**
 * The cache keys of the SQL adapter. Each read kind writes under its own key
 * shape, and a list read's key encodes its arguments: two different list
 * requests must never share a key, or one would be served the other's page.
 */
module CacheKeys {
  import opened Wrappers
  import opened Text
  import opened Domain
  import opened Query

  const Prefix: string := "Greeting_"

  /** The key of the latest-greeting read. */
  const LastKey: string := Prefix + "Last"

  /** The key of the all-greetings read. */
  const AllKey: string := Prefix + "All"

  /** The key of a by-id read: `Greeting_{id}`. */
  function IdKey(id: int): string {
    Prefix + IntToString(id)
  }

  /** The list key as the adapter formats it:
      `Greeting_List_{page}_{pageSize}_{orderBy}_{desc}_{filter}`, where a null
      filter prints as nothing. The fields are not delimited unambiguously. */
  function ListKeyAsWritten(req: ListRequest): string {
    "Greeting_List_" + IntToString(req.page) + "_" + IntToString(req.pageSize) + "_"
      + req.orderBy + "_" + BoolToString(req.desc) + "_"
      + (if req.filter.Some? then req.filter.value else "")
  }

  /** The corrected list key: the free-text `orderBy` is preceded by its
      length and a present filter by `=`, so the key can be parsed back. */
  function ListKey(req: ListRequest): string {
    Prefix + ("List_" + (IntToString(req.page) + (['_'] + (IntToString(req.pageSize) + (['_']
      + (IntToString(|req.orderBy|) + (['_'] + (req.orderBy + (BoolToString(req.desc)
      + (['_'] + FilterPart(req.filter)))))))))))
  }

  function FilterPart(filter: Option<string>): string {
    if filter.Some? then "=" + filter.value else ""
  }

  // ---------------------------------------------------------------------------
  // The defect of the key as written

  /** Two list requests that differ in `orderBy`, `desc` and `filter` get the
      same key as written, yet ask for different pages: on a one-row table
      whose message the filter does not match, the first request returns the
      row and the second returns nothing. Whichever is read first is then
      served from the cache to the other. */
  lemma ListKeyAsWrittenCollides(m: Matcher, g: Greeting, pageSize: int)
    requires pageSize >= 1 && !m(g.message, "y_True_")
    ensures var a := ListRequest(1, pageSize, "X_False_y", true, None);
            var b := ListRequest(1, pageSize, "X", false, Some("y_True_"));
            a != b
            && ListKeyAsWritten(a) == ListKeyAsWritten(b)
            && ListPage(m, a, [g]) == [g]
            && ListPage(m, b, [g]) == []
  {
    var a := ListRequest(1, pageSize, "X_False_y", true, None);
    var b := ListRequest(1, pageSize, "X", false, Some("y_True_"));
    var p := "Greeting_List_" + IntToString(1) + "_" + IntToString(pageSize) + "_";
    assert ListKeyAsWritten(a) == p + "X_False_y" + "_" + "True" + "_" + "";
    assert ListKeyAsWritten(b) == p + "X" + "_" + "False" + "_" + "y_True_";
    assert p + "X_False_y" + "_" + "True" + "_" + "" == p + "X_False_y_True_";
    assert p + "X" + "_" + "False" + "_" + "y_True_" == p + "X_False_y_True_";
    assert "X_False_y" != "X";
    FirstPageCoversTable(m, a, [g]);
    assert multiset(ListPage(m, a, [g])) == multiset{g};
    assert |ListPage(m, a, [g])| == 1 by {
      assert |multiset(ListPage(m, a, [g]))| == 1;
    }
    assert ListPage(m, a, [g])[0] in multiset{g};
    assert !IsWhiteSpace("y_True_"[0]);
    NoMatch(m, [g], "y_True_", b);
  }

  // ---------------------------------------------------------------------------
  // The corrected keys are distinct

  lemma BoolToStringInjective(a: bool, b: bool, x: string, y: string)
    requires BoolToString(a) + x == BoolToString(b) + y
    ensures a == b && x == y
  {
    var s := BoolToString(a) + x;
    assert s[0] == BoolToString(a)[0] && s[0] == BoolToString(b)[0];
    SplitAtLength(BoolToString(a), x, BoolToString(b), y);
  }

  lemma FilterPartInjective(a: Option<string>, b: Option<string>)
    requires FilterPart(a) == FilterPart(b)
    ensures a == b
  {
    if a.Some? && b.Some? {
      assert a.value == FilterPart(a)[1..] == b.value;
    }
  }

  /** Equal list keys come from equal requests. */
  lemma ListKeyInjective(a: ListRequest, b: ListRequest)
    requires ListKey(a) == ListKey(b)
    ensures a == b
  {
    IntToStringFree(a.page, '_');
    IntToStringFree(b.page, '_');
    IntToStringFree(a.pageSize, '_');
    IntToStringFree(b.pageSize, '_');
    IntToStringFree(|a.orderBy|, '_');
    IntToStringFree(|b.orderBy|, '_');
    var ra := "List_" + (IntToString(a.page) + (['_'] + (IntToString(a.pageSize) + (['_']
      + (IntToString(|a.orderBy|) + (['_'] + (a.orderBy + (BoolToString(a.desc)
      + (['_'] + FilterPart(a.filter))))))))));
    var rb := "List_" + (IntToString(b.page) + (['_'] + (IntToString(b.pageSize) + (['_']
      + (IntToString(|b.orderBy|) + (['_'] + (b.orderBy + (BoolToString(b.desc)
      + (['_'] + FilterPart(b.filter))))))))));
    SplitAtLength(Prefix, ra, Prefix, rb);
    var sa := IntToString(a.page) + (['_'] + (IntToString(a.pageSize) + (['_']
      + (IntToString(|a.orderBy|) + (['_'] + (a.orderBy + (BoolToString(a.desc)
      + (['_'] + FilterPart(a.filter)))))))));
    var sb := IntToString(b.page) + (['_'] + (IntToString(b.pageSize) + (['_']
      + (IntToString(|b.orderBy|) + (['_'] + (b.orderBy + (BoolToString(b.desc)
      + (['_'] + FilterPart(b.filter)))))))));
    SplitAtLength("List_", sa, "List_", sb);
    SplitAt(IntToString(a.page), IntToString(a.pageSize) + (['_']
      + (IntToString(|a.orderBy|) + (['_'] + (a.orderBy + (BoolToString(a.desc)
      + (['_'] + FilterPart(a.filter))))))), IntToString(b.page), IntToString(b.pageSize) + (['_']
      + (IntToString(|b.orderBy|) + (['_'] + (b.orderBy + (BoolToString(b.desc)
      + (['_'] + FilterPart(b.filter))))))), '_');
    IntToStringInjective(a.page, b.page);
    SplitAt(IntToString(a.pageSize), IntToString(|a.orderBy|) + (['_'] + (a.orderBy + (BoolToString(a.desc)
      + (['_'] + FilterPart(a.filter))))), IntToString(b.pageSize), IntToString(|b.orderBy|) + (['_'] + (b.orderBy + (BoolToString(b.desc)
      + (['_'] + FilterPart(b.filter))))), '_');
    IntToStringInjective(a.pageSize, b.pageSize);
    SplitAt(IntToString(|a.orderBy|), a.orderBy + (BoolToString(a.desc) + (['_'] + FilterPart(a.filter))),
      IntToString(|b.orderBy|), b.orderBy + (BoolToString(b.desc) + (['_'] + FilterPart(b.filter))), '_');
    IntToStringInjective(|a.orderBy|, |b.orderBy|);
    SplitAtLength(a.orderBy, BoolToString(a.desc) + (['_'] + FilterPart(a.filter)),
      b.orderBy, BoolToString(b.desc) + (['_'] + FilterPart(b.filter)));
    BoolToStringInjective(a.desc, b.desc, ['_'] + FilterPart(a.filter), ['_'] + FilterPart(b.filter));
    assert FilterPart(a.filter) == (['_'] + FilterPart(a.filter))[1..];
    FilterPartInjective(a.filter, b.filter);
  }

  /** Different ids have different keys. */
  lemma IdKeyInjective(a: int, b: int)
    requires IdKey(a) == IdKey(b)
    ensures a == b
  {
    SplitAtLength(Prefix, IntToString(a), Prefix, IntToString(b));
    IntToStringInjective(a, b);
  }

  /** The four key shapes never meet: no read can find another kind's entry,
      and removing the latest and by-id keys leaves every list entry alone. */
  lemma KeysDisjoint(id: int, req: ListRequest)
    ensures LastKey != AllKey
    ensures IdKey(id) != LastKey && IdKey(id) != AllKey && IdKey(id) != ListKey(req)
    ensures ListKey(req) != LastKey && ListKey(req) != AllKey
    ensures IdKey(id) != ListKeyAsWritten(req)
    ensures ListKeyAsWritten(req) != LastKey && ListKeyAsWritten(req) != AllKey
  {
    var i := IntToString(id);
    assert LastKey[9] == 'L' && AllKey[9] == 'A';
    assert IdKey(id)[9] == i[0];
    assert ListKey(req)[9] == 'L' && ListKey(req)[10] == 'i' && LastKey[10] == 'a';
    assert ListKeyAsWritten(req)[9] == 'L' && ListKeyAsWritten(req)[10] == 'i';
  }
}
