/**
 * The entity, the transfer objects and the exceptions shared by every layer
 * of the greeting API.
 */
module Domain {
  import opened Wrappers

  /** The greeting entity. `createdAt` is a UTC timestamp in milliseconds. */
  datatype Greeting = Greeting(id: int, message: string, createdAt: int)

  /** The exceptions the core throws, with the parameter name or message the
      source attaches to them. `InvalidOperation` keeps its inner exception;
      `DuplicateKey` is MongoDB's write error for an `_id` already taken. */
  datatype Error =
    | ArgumentNull(paramName: string)
    | Argument(message: string)
    | InvalidOperation(message: string, inner: Error)
    | NotSupported(message: string)
    | NullReference
    | StoreFailure
    | DuplicateKey(id: int)
    | Deserialization
    | BrokenCircuit

  /** An injected collaborator whose behaviour the core never looks at (a
      logger, a Polly policy, an inner repository); `None` is a null reference. */
  datatype Injected = Injected

  /** `GreetingDto`, `LinkDto` and `PagedGreetingDto`. */
  datatype GreetingDto = GreetingDto(id: int, message: string, createdAt: int)
  datatype LinkDto = LinkDto(rel: string, href: string)
  datatype PagedGreetingDto = PagedGreetingDto(
    items: seq<GreetingDto>, page: int, pageSize: int, totalItems: int, links: seq<LinkDto>)

  const Int32Min: int := -0x8000_0000
  const Int32Max: int := 0x7FFF_FFFF

  predicate IsInt32(n: int) {
    Int32Min <= n <= Int32Max
  }
}
