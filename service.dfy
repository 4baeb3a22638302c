/**
 * `HelloService`: the application service between the HTTP layer and the
 * repository. It validates its arguments before touching the repository,
 * rethrows every repository failure unchanged, and shapes a listing into a
 * paged result with links.
 *
 * The repository is given by its reply to the one call an operation makes:
 * for a save, the reply is the greeting as the repository leaves it (the SQL
 * adapters assign its id in place, the MongoDB adapter does not).
 */
module Service {
  import opened Wrappers
  import opened Text
  import opened Domain
  import Links

  const IdMessage: string := "O Id deve ser maior que zero."
  const NullGreetingMessage: string := "A saudação não pode ser nula."
  const BlankMessageMessage: string := "A mensagem da saudação não pode ser nula ou vazia."
  const LengthMessage: string := "A mensagem da saudação não pode ter mais de 200 caracteres."
  const MaxMessageLength: nat := 200

  /** What an operation returned or threw, and whether it called the repository. */
  datatype Outcome<T> = Outcome(result: Result<T, Error>, repositoryCalled: bool)

  /** The constructor's checks: the repository, then the logger. */
  function ConstructorGuard(repo: Option<Injected>, logger: Option<Injected>): (r: Option<Error>)
    ensures r.None? <==> repo.Some? && logger.Some?
    ensures repo.None? ==> r == Some(ArgumentNull("repo"))
    ensures repo.Some? && logger.None? ==> r == Some(ArgumentNull("logger"))
  {
    if repo.None? then Some(ArgumentNull("repo"))
    else if logger.None? then Some(ArgumentNull("logger"))
    else None
  }

  /** `ValidateId`: identifiers are positive. */
  function ValidateId(id: int): (r: Option<Error>)
    ensures r.None? <==> id > 0
    ensures r.Some? ==> r.value == Argument(IdMessage)
  {
    if id <= 0 then Some(Argument(IdMessage)) else None
  }

  /** The three checks of a save, in order: the greeting is present, its
      message has a character other than white space, and it has at most 200
      characters. */
  function ValidateGreeting(greeting: Option<Greeting>): (r: Option<Error>)
    ensures r.None? <==>
      (greeting.Some?
       && (exists i :: 0 <= i < |greeting.value.message| && !IsWhiteSpace(greeting.value.message[i]))
       && |greeting.value.message| <= MaxMessageLength)
    ensures r.None? ==> 1 <= |greeting.value.message| <= MaxMessageLength
    ensures greeting.None? ==> r == Some(Argument(NullGreetingMessage))
    ensures greeting.Some? && IsNullOrWhiteSpace(Some(greeting.value.message)) ==> r == Some(Argument(BlankMessageMessage))
    ensures greeting.Some? && !IsNullOrWhiteSpace(Some(greeting.value.message)) && |greeting.value.message| > MaxMessageLength ==>
      r == Some(Argument(LengthMessage))
  {
    if greeting.None? then Some(Argument(NullGreetingMessage))
    else if IsNullOrWhiteSpace(Some(greeting.value.message)) then Some(Argument(BlankMessageMessage))
    else if |greeting.value.message| > MaxMessageLength then Some(Argument(LengthMessage))
    else None
  }

  /** `GetLastGreetingAsync`: the repository's answer, or its failure rethrown. */
  function GetLastGreeting(reply: Result<Option<Greeting>, Error>): (o: Outcome<Option<Greeting>>)
    ensures o.repositoryCalled && o.result == reply
  {
    Outcome(reply, true)
  }

  /** `GetGreetingByIdAsync`: a non-positive id is rejected without calling the
      repository; otherwise the repository's answer or failure. */
  function GetGreetingById(id: int, reply: Result<Option<Greeting>, Error>): (o: Outcome<Option<Greeting>>)
    ensures o.repositoryCalled <==> id > 0
    ensures id <= 0 ==> o.result == Err(Argument(IdMessage))
    ensures id > 0 ==> o.result == reply
  {
    var invalid := ValidateId(id);
    if invalid.Some? then Outcome(Err(invalid.value), false) else Outcome(reply, true)
  }

  /** `SaveGreetingAsync`: an invalid greeting is rejected before the
      repository is called; after a successful save the id the repository left
      on the greeting must be positive. */
  function SaveGreeting(greeting: Option<Greeting>, reply: Result<Greeting, Error>): (o: Outcome<Greeting>)
    ensures o.repositoryCalled <==> ValidateGreeting(greeting).None?
    ensures !o.repositoryCalled ==> o.result == Err(ValidateGreeting(greeting).value)
    ensures o.repositoryCalled && reply.Err? ==> o.result == reply
    ensures o.repositoryCalled && reply.Ok? ==>
      o.result == (if reply.value.id > 0 then reply else Err(Argument(IdMessage)))
    ensures o.result.Ok? ==> o.result.value.id > 0 && 1 <= |greeting.value.message| <= MaxMessageLength
  {
    var invalid := ValidateGreeting(greeting);
    if invalid.Some? then Outcome(Err(invalid.value), false)
    else if reply.Err? then Outcome(reply, true)
    else
      var idCheck := ValidateId(reply.value.id);
      if idCheck.Some? then Outcome(Err(idCheck.value), true) else Outcome(reply, true)
  }

  /** The projection of a greeting onto its transfer object. */
  function ToDto(g: Greeting): (d: GreetingDto)
    ensures d.id == g.id && d.message == g.message && d.createdAt == g.createdAt
  {
    GreetingDto(g.id, g.message, g.createdAt)
  }

  /** Every greeting projected, in order. */
  function ToDtos(gs: seq<Greeting>): (ds: seq<GreetingDto>)
    ensures |ds| == |gs|
    ensures forall i :: 0 <= i < |gs| ==> ds[i] == ToDto(gs[i])
  {
    seq(|gs|, i requires 0 <= i < |gs| => ToDto(gs[i]))
  }

  /** Whether a repository reply fits the 32-bit count of a .NET list. */
  predicate CountFits(reply: Result<Option<seq<Greeting>>, Error>) {
    reply.Ok? && reply.value.Some? ==> |reply.value.value| <= Int32Max
  }

  /** `GetPagedGreetingsAsync`: the items of the page the repository returned
      (null counts as none), the page and page size echoed, the number of
      items returned as the total, and the links for that total. */
  function GetPagedGreetings(page: int, pageSize: int, reply: Result<Option<seq<Greeting>>, Error>): (o: Outcome<PagedGreetingDto>)
    requires IsInt32(page) && IsInt32(pageSize) && CountFits(reply)
    ensures o.repositoryCalled
    ensures reply.Err? ==> o.result == Err(reply.error)
    ensures reply.Ok? <==> o.result.Ok?
    ensures o.result.Ok? ==>
      var gs := if reply.value.Some? then reply.value.value else [];
      var dto := o.result.value;
      dto.page == page && dto.pageSize == pageSize
      && dto.totalItems == |gs| == |dto.items|
      && (forall i :: 0 <= i < |gs| ==> dto.items[i] == ToDto(gs[i]))
      && dto.links == Links.BuildLinks(page, pageSize, |gs|)
  {
    if reply.Err? then Outcome(Err(reply.error), true)
    else
      var items := ToDtos(if reply.value.Some? then reply.value.value else []);
      var totalItems := |items|;
      Outcome(Ok(PagedGreetingDto(items, page, pageSize, totalItems, Links.BuildLinks(page, pageSize, totalItems))), true)
  }

  /** `GetAllGreetingsAsync`: the repository's answer, or its failure rethrown. */
  function GetAllGreetings(reply: Result<seq<Greeting>, Error>): (o: Outcome<seq<Greeting>>)
    ensures o.repositoryCalled && o.result == reply
  {
    Outcome(reply, true)
  }

  // ---------------------------------------------------------------------------
  // What the service promises

  /** Nothing is swallowed: once the arguments are valid, a repository
      failure is what every operation throws. */
  lemma FailuresRethrownUnchanged(e: Error, id: int, greeting: Option<Greeting>, page: int, pageSize: int)
    requires id > 0 && ValidateGreeting(greeting).None? && IsInt32(page) && IsInt32(pageSize)
    ensures GetLastGreeting(Err(e)).result == Err(e)
    ensures GetGreetingById(id, Err(e)).result == Err(e)
    ensures SaveGreeting(greeting, Err(e)).result == Err(e)
    ensures GetPagedGreetings(page, pageSize, Err(e)).result == Err(e)
    ensures GetAllGreetings(Err(e)).result == Err(e)
  {
  }

  /** A save through an adapter that assigns positive ids (both SQL adapters)
      returns the stored greeting. */
  lemma SaveWithAssignedId(greeting: Greeting, stored: Greeting)
    requires ValidateGreeting(Some(greeting)).None? && stored.id > 0
    ensures SaveGreeting(Some(greeting), Ok(stored)) == Outcome(Ok(stored), true)
  {
  }

  /** A save through the MongoDB adapter of a greeting whose id is still 0 is
      stored, and then rejected for its id. */
  lemma SaveWithUnassignedId(greeting: Greeting)
    requires ValidateGreeting(Some(greeting)).None? && greeting.id == 0
    ensures SaveGreeting(Some(greeting), Ok(greeting)) == Outcome(Err(Argument(IdMessage)), true)
  {
  }

  /** A message of 201 characters is rejected for its length without a
      repository call, even when it is otherwise valid. */
  lemma OverlongMessageRejected(g: Greeting, reply: Result<Greeting, Error>)
    requires |g.message| == MaxMessageLength + 1 && !IsWhiteSpace(g.message[0])
    ensures SaveGreeting(Some(g), reply) == Outcome(Err(Argument(LengthMessage)), false)
  {
  }

  // ---------------------------------------------------------------------------
  // The total of a paged result

  /** As written, the total is the size of the page just returned, so on any
      first or later page no `next` link is offered, however many matching
      greetings remain. */
  lemma {:induction false} PagedNeverOffersNext(page: int, pageSize: int, gs: seq<Greeting>)
    requires IsInt32(page) && IsInt32(pageSize) && page >= 1 && pageSize > 0 && |gs| <= pageSize
    ensures var o := GetPagedGreetings(page, pageSize, Ok(Some(gs)));
      o.result.Ok? && !Links.HasRel(o.result.value.links, Links.Next)
  {
    Links.NextIffItemsRemain(page, pageSize, |gs|);
    Links.MulLe(1, page, pageSize);
  }

  /** Page 1 of 2 over five matching greetings: two are returned, three
      remain, and there is no `next` link. */
  lemma FirstOfFivePagesHasNoNext(gs: seq<Greeting>)
    requires |gs| == 2
    ensures !Links.HasRel(GetPagedGreetings(1, 2, Ok(Some(gs))).result.value.links, Links.Next)
  {
    PagedNeverOffersNext(1, 2, gs);
  }

  /** The paged result with the total the comment beside it describes: the
      number of greetings the filter selects, counted by the store, rather
      than the size of the page. */
  function GetPagedGreetingsCounted(page: int, pageSize: int, reply: Result<Option<seq<Greeting>>, Error>, matching: int): (o: Outcome<PagedGreetingDto>)
    requires IsInt32(page) && IsInt32(pageSize) && IsInt32(matching) && CountFits(reply)
    ensures o.repositoryCalled
    ensures reply.Err? ==> o.result == Err(reply.error)
    ensures reply.Ok? <==> o.result.Ok?
    ensures o.result.Ok? ==>
      var gs := if reply.value.Some? then reply.value.value else [];
      var dto := o.result.value;
      dto.page == page && dto.pageSize == pageSize && dto.totalItems == matching
      && |dto.items| == |gs| && (forall i :: 0 <= i < |gs| ==> dto.items[i] == ToDto(gs[i]))
      && dto.links == Links.BuildLinks(page, pageSize, matching)
  {
    if reply.Err? then Outcome(Err(reply.error), true)
    else
      var items := ToDtos(if reply.value.Some? then reply.value.value else []);
      Outcome(Ok(PagedGreetingDto(items, page, pageSize, matching, Links.BuildLinks(page, pageSize, matching))), true)
  }

  /** With the counted total, `next` is offered exactly when matching
      greetings remain after the current page, and `prev` exactly on a later
      page when anything matches. */
  lemma CountedLinksFollowRemainingItems(page: int, pageSize: int, gs: seq<Greeting>, matching: int)
    requires IsInt32(page) && IsInt32(pageSize) && IsInt32(matching) && pageSize > 0 && |gs| <= Int32Max
    ensures var links := GetPagedGreetingsCounted(page, pageSize, Ok(Some(gs)), matching).result.value.links;
      (Links.HasRel(links, Links.Next) <==> page * pageSize < matching)
      && (Links.HasRel(links, Links.Prev) <==> page > 1 && matching > 0)
  {
    Links.NextIffItemsRemain(page, pageSize, matching);
    Links.PrevIffItemsExist(page, pageSize, matching);
  }
}
