# Greeting persistence stack, modelled in Dafny

The ASP.NET API template stores greetings (an id, a message and a creation
time). It reads and writes them through one repository interface that has
three implementations:

- `GreetingRepository`, a plain SQLite adapter.
- `GreetingSqlRepository`, a SQLite adapter that reads through a distributed
  cache. Entries live for five minutes. A save invalidates the latest key and
  the new row's id key.
- `GreetingMongoRepository`, a MongoDB adapter.

`GreetingRepositoryFactory` picks the adapter named by the configuration and
runs that adapter's configuration checks. `GreetingRepositoryPollyDecorator`
wraps every repository call in one shared resilience policy:

- a retry with 3 retries, waiting 200 ms times the retry number;
- a 2 s optimistic timeout;
- a circuit breaker that opens for 10 s after 2 consecutive failures.

`HelloService` validates its arguments, calls the repository and rethrows its
failures. For a listing, it builds a paged result whose hypermedia links come
from `GreetingLinksAssembler.BuildLinks`.

The model follows the source file by file:

| file | module | form |
|---|---|---|
| `query.dfy` | `Query` | The five queries as functions over a table (a sequence of rows), with their properties as lemmas. |
| `sqlite.dfy` | `Sqlite` | The SQLite table as a class (`Database`): its rows, the AUTOINCREMENT counter and a `reachable` flag. Also the reader loop as a method. |
| `plain_repository.dfy` | `PlainRepository` | `GreetingRepository` as a class over a `Database`. |
| `cache.dfy` | `Cache` | The cache as a class holding a map from keys to entries with an expiry time. |
| `cache_keys.dfy` | `CacheKeys` | The cache keys and the proofs that they are distinct. |
| `sql_repository.dfy` | `SqlRepository` | `GreetingSqlRepository`. Its methods state exactly how the cache and the table change. A ghost invariant, `Coherent`, says that the latest and by-id entries agree with the table, and every method preserves it. |
| `mongo_repository.dfy` | `MongoRepository` | The collection as a class, plus `GreetingMongoRepository`. |
| `factory.dfy` | `RepositoryFactory` | Pure functions that describe the adapter that would be built. |
| `resilience.dfy` | `Resilience` | The breaker as a state machine, the retry loop as a method proved against a recursive specification (`Run`/`Call`), and the decorator as a class sharing one `ResiliencePolicy`. |
| `links.dfy` | `Links` | `BuildLinks` over 32-bit arguments. |
| `service.dfy` | `Service` | `HelloService` as pure functions of the repository's reply. |

Supporting modules: `wrappers.dfy` (Option, Result), `text.dfy` (white space,
integer formatting, ordinal string order) and `domain.dfy` (entities, DTOs and
the exceptions as an `Error` datatype).

Conventions:

- A .NET `null` is `None`, and a thrown exception is an `Err`.
- Times are integers in milliseconds. The clock (`now`) is a parameter.
- The greeting that `SaveGreetingAsync` updates in place is returned instead.

Where the code and its documentation disagree, the model follows the code:

- The policy makes up to 1 + 3 attempts, not 3 attempts in total.
- Once the retries are spent, the last exception is rethrown as it is, not wrapped.
- The cached list read uses the list key exactly as the adapter formats it,
  and that key can be shared by different requests (see Findings). The
  corrected key, which determines its request, is defined and proved
  injective alongside.
- MongoDB treats a page size of 0 as no limit, so that list read returns the
  whole sorted selection.
- A page size of 0 gives `BuildLinks` only `self` and `create`, because the
  conversion of an infinite or undefined quotient to `int` gives
  `int.MinValue`. That is the legacy x64 conversion, which the assembler's
  zero-page-size test relies on; newer runtimes and Arm64 saturate instead.

## Model

| member | source | states |
|---|---|---|
| Query.SortFieldOf | templates/dotnet-api/src/DotNetApi/Infrastructure/Repositories/GreetingRepository.cs:117 | Only the exact string "Message" sorts on the message column; every other `orderBy` sorts on the creation time. |
| Query.SortRows | templates/dotnet-api/src/DotNetApi/Infrastructure/Repositories/GreetingRepository.cs:117 | `ORDER BY` yields a permutation of its input that is sorted on the column, ascending or descending. |
| Query.Window | templates/dotnet-api/src/DotNetApi/Infrastructure/Repositories/GreetingRepository.cs:118-121 | `LIMIT/OFFSET` keeps `min(limit, n - offset)` rows (none past the end), each one the row `offset` positions further on. |
| Query.Matching | templates/dotnet-api/src/DotNetApi/Infrastructure/Repositories/GreetingRepository.cs:112-116 | The `WHERE Message LIKE` filter keeps exactly the rows whose message matches, and nothing beyond the table's rows. |
| Query.FindById | templates/dotnet-api/src/DotNetApi/Infrastructure/Repositories/GreetingRepository.cs:62-82 | The by-id read finds a row exactly when some row has that id, and the row found has it. |
| Query.LatestIsNewest | templates/dotnet-api/src/DotNetApi/Infrastructure/Repositories/GreetingRepository.cs:36-55 | The latest read is absent exactly on an empty table; otherwise it is a row with the greatest creation time. |
| Query.NewestFirstIsOrderedPermutation | templates/dotnet-api/src/DotNetApi/Infrastructure/Repositories/GreetingRepository.cs:139-159 | The all-greetings read holds every row exactly once, newest first, and is empty exactly when the table is. |
| Query.ListPageSpec | templates/dotnet-api/src/DotNetApi/Infrastructure/Repositories/GreetingRepository.cs:104-135 | A list page has `min(pageSize, selected - offset)` rows. Each is a table row that the filter selects, no row appears more often than in the selection, and the page is sorted as requested. |
| Query.ConsecutivePages | templates/dotnet-api/src/DotNetApi/Infrastructure/Repositories/GreetingRepository.cs:118-121 | Page `p` followed by page `p + 1` is one contiguous slice of the sorted selection, so no row is skipped or repeated between them. |
| Query.WindowSplit | templates/dotnet-api/src/DotNetApi/Infrastructure/Repositories/GreetingRepository.cs:118-121 | Two adjacent `LIMIT/OFFSET` windows together are the window of their combined size. |
| Query.WindowMultiset | templates/dotnet-api/src/DotNetApi/Infrastructure/Repositories/GreetingRepository.cs:118-121 | A window holds no row more often than its input does. |
| Query.FirstPageCoversTable | templates/dotnet-api/src/DotNetApi/Infrastructure/Repositories/GreetingRepository.cs:104-135 | With no filter, a first page at least as large as the table holds every row. |
| Query.FiveRowsFirstPageOfTwo | templates/dotnet-api/tests/DotNetApi.Tests/GreetingRepositoryTests.cs:69-76 | Five rows, page 1 of size 2: two rows. |
| Query.SingleMatch | templates/dotnet-api/tests/DotNetApi.Tests/GreetingRepositoryTests.cs:77-79 | A filter matching one row's message yields exactly that row. |
| Query.NoMatch | templates/dotnet-api/tests/DotNetApi.Tests/GreetingRepositoryTests.cs:96-102 | A filter matching nothing yields an empty page. |
| Query.MessageOrderAscDesc | templates/dotnet-api/tests/DotNetApi.Tests/GreetingRepositoryTests.cs:83-93 | Sorting on "Message" puts "A" first ascending and "B" first descending. |
| Sqlite.WithId | templates/dotnet-api/src/DotNetApi/Infrastructure/Repositories/GreetingRepository.cs:68-79 | `WHERE Id = @Id` is empty exactly when no row has the id, and its first row is the one found. |
| Sqlite.LatestRowIsLatest | templates/dotnet-api/src/DotNetApi/Infrastructure/Repositories/GreetingRepository.cs:42-53 | `ORDER BY CreatedAt DESC LIMIT 1` returns the latest row, or nothing on an empty table. |
| Sqlite.Database.Read | templates/dotnet-api/src/DotNetApi/Infrastructure/Repositories/GreetingRepository.cs:36-55 | A statement fails exactly when the store cannot be reached. |
| Sqlite.Database.Insert | templates/dotnet-api/src/DotNetApi/Infrastructure/Repositories/GreetingRepository.cs:94-97 | An insert appends the row under the next AUTOINCREMENT id and returns that id. Ids stay positive and increasing. A failed insert changes nothing. |
| Sqlite.ReadList | templates/dotnet-api/src/DotNetApi/Infrastructure/Repositories/GreetingRepository.cs:123-132 | The reader loop collects the whole result set in reader order, or fails exactly when the store does. |
| Sqlite.FreshIdAbsent | templates/dotnet-api/src/DotNetApi/Infrastructure/Repositories/GreetingRepository.cs:94-97 | The next AUTOINCREMENT id belongs to no row yet. |
| Sqlite.FindAfterInsert | templates/dotnet-api/tests/DotNetApi.Tests/GreetingRepositoryTests.cs:55-67 | After an insert, the new id finds the new row, and every other id finds what it found before. |
| Sqlite.NeverAssigned | templates/dotnet-api/tests/DotNetApi.Tests/GreetingRepositoryTests.cs:55-67 | An id that is not positive, or is above the counter, finds nothing. |
| Sqlite.InsertedNewestIsLatest | templates/dotnet-api/tests/DotNetApi.Tests/GreetingRepositoryTests.cs:43-53 | A row saved later than every other row becomes the latest. |
| PlainRepository.GreetingRepository.GetLastGreeting | templates/dotnet-api/src/DotNetApi/Infrastructure/Repositories/GreetingRepository.cs:36-55 | Returns the latest row (None on an empty table), or the store failure unchanged. |
| PlainRepository.GreetingRepository.GetGreetingById | templates/dotnet-api/src/DotNetApi/Infrastructure/Repositories/GreetingRepository.cs:62-82 | Returns the row with the id or None, or the store failure. |
| PlainRepository.GreetingRepository.SaveGreeting | templates/dotnet-api/src/DotNetApi/Infrastructure/Repositories/GreetingRepository.cs:88-99 | Store failure first, then a null greeting (NullReference). Otherwise the greeting gets `now` and the next id, and it is appended to the table. |
| PlainRepository.GreetingRepository.GetGreetings | templates/dotnet-api/src/DotNetApi/Infrastructure/Repositories/GreetingRepository.cs:104-135 | Returns the filtered, sorted page, or the store failure. |
| PlainRepository.GreetingRepository.GetAllGreetings | templates/dotnet-api/src/DotNetApi/Infrastructure/Repositories/GreetingRepository.cs:139-159 | Returns every row newest first, or the store failure. |
| Cache.DistributedCache.Get | templates/dotnet-api/src/DotNetApi/Infrastructure/Repositories/GreetingSqlRepository.cs:51-54 | A key is a hit exactly while its entry has not expired, and the hit returns that entry's value. |
| Cache.DistributedCache.Set | templates/dotnet-api/src/DotNetApi/Infrastructure/Repositories/GreetingSqlRepository.cs:72 | Stores the value under the key with a five-minute absolute expiry and leaves every other key alone. |
| Cache.DistributedCache.Remove | templates/dotnet-api/src/DotNetApi/Infrastructure/Repositories/GreetingSqlRepository.cs:150-151 | Removes exactly the key. |
| CacheKeys.ListKeyAsWrittenCollides | templates/dotnet-api/src/DotNetApi/Infrastructure/Repositories/GreetingSqlRepository.cs:167 | Two different list requests share a key as written, yet select different pages (see Findings). |
| CacheKeys.ListKeyInjective | templates/dotnet-api/src/DotNetApi/Infrastructure/Repositories/GreetingSqlRepository.cs:167 | With the corrected key, equal list keys come from equal requests. |
| CacheKeys.IdKeyInjective | templates/dotnet-api/src/DotNetApi/Infrastructure/Repositories/GreetingSqlRepository.cs:94 | Different ids have different keys. |
| CacheKeys.KeysDisjoint | templates/dotnet-api/src/DotNetApi/Infrastructure/Repositories/GreetingSqlRepository.cs:51-54 | The latest, all, by-id and list keys never coincide, for the list key both as written and corrected. |
| SqlRepository.ConstructorGuard | templates/dotnet-api/src/DotNetApi/Infrastructure/Repositories/GreetingSqlRepository.cs:42-46 | The constructor rejects the first null among factory, logger, cache and policy, and accepts only when all are present. |
| SqlRepository.Wrap | templates/dotnet-api/src/DotNetApi/Infrastructure/Repositories/GreetingSqlRepository.cs:80-84 | A failure comes out as `InvalidOperationException` with the operation's message and the original as the inner exception. A success passes through. |
| SqlRepository.GreetingSqlRepository.New | templates/dotnet-api/src/DotNetApi/Infrastructure/Repositories/GreetingSqlRepository.cs:40-47 | Fails with the guard's error, or builds a repository over the factory's database and the cache. |
| SqlRepository.GreetingSqlRepository.StoreRead | templates/dotnet-api/src/DotNetApi/Infrastructure/Repositories/GreetingSqlRepository.cs:260-264 | A null or blank connection string is rejected before the statement runs. |
| SqlRepository.GreetingSqlRepository.GetLastGreeting | templates/dotnet-api/src/DotNetApi/Infrastructure/Repositories/GreetingSqlRepository.cs:49-90 | A live entry is returned as is. A miss reads the latest row and caches it only when found. A failure is wrapped and the cache is unchanged. The coherence invariant is kept, and under it the result is the table's latest row. |
| SqlRepository.GreetingSqlRepository.GetGreetingById | templates/dotnet-api/src/DotNetApi/Infrastructure/Repositories/GreetingSqlRepository.cs:92-133 | The same as the latest read, under the id's key. |
| SqlRepository.GreetingSqlRepository.SaveGreeting | templates/dotnet-api/src/DotNetApi/Infrastructure/Repositories/GreetingSqlRepository.cs:135-163 | A null greeting or a store failure comes out wrapped, with nothing changed. Otherwise the row is appended with the next id and `now`, and exactly the latest key and the new id's key are removed. Coherence is kept. |
| SqlRepository.GreetingSqlRepository.GetGreetings | templates/dotnet-api/src/DotNetApi/Infrastructure/Repositories/GreetingSqlRepository.cs:165-216 | Under the list key as written: a live entry is returned as is. A miss reads the page and caches it, even when empty. A failure is wrapped. Coherence is kept. |
| SqlRepository.GreetingSqlRepository.GetAllGreetings | templates/dotnet-api/src/DotNetApi/Infrastructure/Repositories/GreetingSqlRepository.cs:218-258 | The same as the list read, for every row newest first under the all key. |
| SqlRepository.CoherentAfterCachingLatest | templates/dotnet-api/src/DotNetApi/Infrastructure/Repositories/GreetingSqlRepository.cs:65-75 | Caching the latest row keeps the latest and by-id entries in agreement with the table. |
| SqlRepository.CoherentAfterCachingRow | templates/dotnet-api/src/DotNetApi/Infrastructure/Repositories/GreetingSqlRepository.cs:108-118 | Caching the row found for an id keeps the cache coherent. |
| SqlRepository.CoherentAfterCachingList | templates/dotnet-api/src/DotNetApi/Infrastructure/Repositories/GreetingSqlRepository.cs:202 | Caching a list never disturbs the latest or by-id entries. |
| SqlRepository.CoherentAfterSave | templates/dotnet-api/src/DotNetApi/Infrastructure/Repositories/GreetingSqlRepository.cs:144-151 | Removing the latest key and the new id's key after an insert is enough to keep those entries coherent. |
| SqlRepository.CoherentHitsAgree | templates/dotnet-api/src/DotNetApi/Infrastructure/Repositories/GreetingSqlRepository.cs:51-54 | Under coherence, a cached latest or by-id hit returns what the table holds. |
| SqlRepository.SaveLeavesAllGreetingsStale | templates/dotnet-api/src/DotNetApi/Infrastructure/Repositories/GreetingSqlRepository.cs:150-151 | After a save, the all-greetings entry survives unchanged and lacks the new row, which the table now holds. |
| SqlRepository.SaveKeepsListEntries | templates/dotnet-api/src/DotNetApi/Infrastructure/Repositories/GreetingSqlRepository.cs:150-151 | After a save, every list page entry survives unchanged. |
| SqlRepository.ListCacheCollision | templates/dotnet-api/src/DotNetApi/Infrastructure/Repositories/GreetingSqlRepository.cs:165-170 | A list read caches its one-row page, and a different request with the same key, read within five minutes, is served that row although its filter selects nothing (see Findings). |
| MongoRepository.ValidateConnectionParameters | templates/dotnet-api/src/DotNetApi/Infrastructure/Repositories/GreetingMongoRepository.cs:94-100 | Rejects a null or blank connection string, then a null or blank database name, and accepts only when both are present and not blank. |
| MongoRepository.GreetingMongoRepository.New | templates/dotnet-api/src/DotNetApi/Infrastructure/Repositories/GreetingMongoRepository.cs:21-28 | Fails with the validation error, or builds the repository over the collection. |
| MongoRepository.GreetingMongoRepository.GetLastGreeting | templates/dotnet-api/src/DotNetApi/Infrastructure/Repositories/GreetingMongoRepository.cs:34-38 | Null exactly on an empty collection. Otherwise a document with the greatest creation time. Fails exactly when the server does. |
| MongoRepository.GreetingMongoRepository.GetGreetingById | templates/dotnet-api/src/DotNetApi/Infrastructure/Repositories/GreetingMongoRepository.cs:56-59 | Finds a document exactly when one has the id, and the one found has it. |
| MongoRepository.MongoPageSpec | templates/dotnet-api/src/DotNetApi/Infrastructure/Repositories/GreetingMongoRepository.cs:77-78 | A positive page size pages exactly like the SQL list read, and a page size of 0 (no limit to the server) gives the whole sorted selection. |
| MongoRepository.MongoPageFacts | templates/dotnet-api/src/DotNetApi/Infrastructure/Repositories/GreetingMongoRepository.cs:64-81 | A page has `min(pageSize, selected - skip)` documents, or every selected one for a page size of 0. Each is selected, none appears more often than in the selection, and the page is sorted. |
| MongoRepository.GreetingMongoRepository.GetGreetings | templates/dotnet-api/src/DotNetApi/Infrastructure/Repositories/GreetingMongoRepository.cs:64-81 | Fails exactly when the server does. Otherwise returns `min(pageSize, selected - skip)` documents, or all selected ones when the page size is 0. Each is in the collection and selected by the regex filter, none appears more often than in the selection (exactly as often for size 0), and the page is sorted as requested. |
| MongoRepository.GreetingMongoRepository.GetAllGreetings | templates/dotnet-api/src/DotNetApi/Infrastructure/Repositories/GreetingMongoRepository.cs:86-89 | Every document exactly once, newest first. |
| MongoRepository.GreetingMongoRepository.SaveGreeting | templates/dotnet-api/src/DotNetApi/Infrastructure/Repositories/GreetingMongoRepository.cs:45-49 | A null greeting is rejected before anything is inserted. A greeting whose id is already a document's `_id` is refused as a duplicate key, with nothing inserted. Otherwise the greeting is appended once, exactly as given, with no id or time assigned. Ids stay unique. |
| MongoRepository.RepeatedUnassignedSave | templates/dotnet-api/src/DotNetApi/Controllers/HelloController.cs:120-128 | Two saves with id 0, as the API makes them, on an empty collection: the first is stored and the second fails as a duplicate key, leaving only the first. |
| RepositoryFactory.CreateSqliteRepository | templates/dotnet-api/src/DotNetApi/Infrastructure/Repositories/GreetingRepositoryFactory.cs:46-55 | A null or empty connection string, then a null logger, then a null cache is rejected. Otherwise it builds the SQLite adapter on that connection string. |
| RepositoryFactory.CreateMongoRepository | templates/dotnet-api/src/DotNetApi/Infrastructure/Repositories/GreetingRepositoryFactory.cs:57-68 | An empty connection string, then an empty database name, is rejected by the factory. Past those checks, any failure is exactly the adapter's validation error. It succeeds exactly when neither is blank. |
| RepositoryFactory.CreateForProviderOrThrow | templates/dotnet-api/src/DotNetApi/Infrastructure/Repositories/GreetingRepositoryFactory.cs:27-38 | A null provider is rejected. "Sqlite" and "MongoDB" select their adapter, and any other name is not supported. |
| RepositoryFactory.Create | templates/dotnet-api/src/DotNetApi/Infrastructure/Repositories/GreetingRepositoryFactory.cs:21-25 | The switch is applied to the configured provider. A success implies that the provider is one of the two names. |
| RepositoryFactory.BlankProviderIsNotSupported | templates/dotnet-api/src/DotNetApi/Infrastructure/Repositories/GreetingRepositoryFactory.cs:27-44 | An empty or blank provider is reported as not supported. The white-space check is never reached. |
| RepositoryFactory.WhiteSpaceMongoConnectionString | templates/dotnet-api/src/DotNetApi/Infrastructure/Repositories/GreetingMongoRepository.cs:94-98 | A blank MongoDB connection string passes the factory's check and is rejected by the adapter. |
| Resilience.Waits | templates/dotnet-api/src/DotNetApi/Infrastructure/Repositories/GreetingRepositoryPollyDecorator.cs:19 | The k-th retry waits `200 * k` ms. |
| Resilience.Retry | templates/dotnet-api/src/DotNetApi/Infrastructure/Repositories/GreetingRepositoryPollyDecorator.cs:18-22 | The retry loop returns the result, breaker, invocation count, waits and finishing time of the specification `Call`. |
| Resilience.ResiliencePolicy.Execute | templates/dotnet-api/src/DotNetApi/Infrastructure/Repositories/GreetingRepositoryPollyDecorator.cs:18-22 | One execution returns `Call`'s result and leaves `Call`'s breaker in the shared policy. |
| Resilience.RunBounds | templates/dotnet-api/src/DotNetApi/Infrastructure/Repositories/GreetingRepositoryPollyDecorator.cs:19 | At most 3 retries, and at most one invocation of the inner call per attempt. |
| Resilience.CallBounds | templates/dotnet-api/src/DotNetApi/Infrastructure/Repositories/GreetingRepositoryPollyDecorator.cs:19 | A call reaches the inner repository at most 4 times and waits a prefix of 200, 400, 600 ms. |
| Resilience.FirstSuccessPassesThrough | templates/dotnet-api/tests/DotNetApi.Tests/GreetingRepositoryPollyDecoratorTests.cs:80-89 | An admitted first success is returned unchanged after one invocation, with the breaker closed. |
| Resilience.SuccessClosesBreaker | templates/dotnet-api/src/DotNetApi/Infrastructure/Repositories/GreetingRepositoryPollyDecorator.cs:21 | A successful call leaves the breaker closed with no failures counted. |
| Resilience.OpenBreakerRejects | templates/dotnet-api/src/DotNetApi/Infrastructure/Repositories/GreetingRepositoryPollyDecorator.cs:21 | While the breaker stays open, every attempt is rejected without an inner call, and the call fails with a broken circuit after 3 retries. |
| Resilience.AlwaysFailingFromFresh | templates/dotnet-api/tests/DotNetApi.Tests/GreetingRepositoryPollyDecoratorTests.cs:14-25 | From a fresh breaker, an always-failing inner call is reached exactly twice. The breaker opens, and the call fails with a broken circuit. |
| Resilience.FailuresCountAcrossOperations | templates/dotnet-api/src/DotNetApi/Infrastructure/Repositories/GreetingRepositoryPollyDecorator.cs:13-22 | The breaker is shared: after one operation opens it, another operation started within the break never reaches its inner call. |
| Resilience.GreetingRepositoryPollyDecorator.New | templates/dotnet-api/src/DotNetApi/Infrastructure/Repositories/GreetingRepositoryPollyDecorator.cs:15-23 | A null inner repository is rejected. Otherwise it builds a fresh policy with a closed breaker. |
| Resilience.GreetingRepositoryPollyDecorator.GetLastGreeting | templates/dotnet-api/src/DotNetApi/Infrastructure/Repositories/GreetingRepositoryPollyDecorator.cs:25-28 | Returns the policy's result for the inner call and updates the shared breaker. |
| Resilience.GreetingRepositoryPollyDecorator.GetGreetingById | templates/dotnet-api/src/DotNetApi/Infrastructure/Repositories/GreetingRepositoryPollyDecorator.cs:30-33 | The same, for the by-id read. |
| Resilience.GreetingRepositoryPollyDecorator.SaveGreeting | templates/dotnet-api/src/DotNetApi/Infrastructure/Repositories/GreetingRepositoryPollyDecorator.cs:35-38 | The same, for the save. |
| Resilience.GreetingRepositoryPollyDecorator.GetGreetings | templates/dotnet-api/src/DotNetApi/Infrastructure/Repositories/GreetingRepositoryPollyDecorator.cs:40-43 | The same, for the list read. |
| Resilience.GreetingRepositoryPollyDecorator.GetAllGreetings | templates/dotnet-api/src/DotNetApi/Infrastructure/Repositories/GreetingRepositoryPollyDecorator.cs:45-48 | The same, for the all-greetings read. |
| Resilience.SharedBreakerScenario | templates/dotnet-api/src/DotNetApi/Infrastructure/Repositories/GreetingRepositoryPollyDecorator.cs:25-48 | A failing latest read opens the decorator's breaker, and an all-greetings read started within the break is rejected. |
| Links.TotalPages | templates/dotnet-api/src/DotNetApi/Application/Services/GreetingLinksAssembler.cs:22 | The page count is the exact ceiling of items over page size. It is 32-bit, and a zero page size gives `int.MinValue`. |
| Links.BuildLinks | templates/dotnet-api/src/DotNetApi/Application/Services/GreetingLinksAssembler.cs:14-31 | Between 2 and 4 links. The first two are always `self` (for this page) and `create`. |
| Links.BuildLinksSelection | templates/dotnet-api/src/DotNetApi/Application/Services/GreetingLinksAssembler.cs:22-28 | `prev` appears exactly when past page 1 and there is a page, pointing one page back. `next` appears exactly before the last page, pointing one page on. Nothing else is added. |
| Links.BuildLinksDistinct | templates/dotnet-api/src/DotNetApi/Application/Services/GreetingLinksAssembler.cs:16-28 | No relation appears twice, and `prev` comes before `next`. |
| Links.NextIffItemsRemain | templates/dotnet-api/src/DotNetApi/Application/Services/GreetingLinksAssembler.cs:22-28 | For a positive page size, `next` appears exactly when items remain after this page. |
| Links.PrevIffItemsExist | templates/dotnet-api/src/DotNetApi/Application/Services/GreetingLinksAssembler.cs:22-25 | For a positive page size, `prev` appears exactly past page 1 when there is any item. |
| Links.NothingToPage | templates/dotnet-api/tests/DotNetApi.Tests/GreetingLinksAssemblerTests.cs:46-93 | No items, negative items or a zero page size: only `self` and `create`. |
| Links.TenPagesOfTen | templates/dotnet-api/tests/DotNetApi.Tests/GreetingLinksAssemblerTests.cs:9-103 | The documented cases of 100 items in pages of 10 (pages 1, 2, 10, 0 and -1), and page 50 of 1000 items. |
| Service.ConstructorGuard | templates/dotnet-api/src/DotNetApi/Application/Services/HelloService.cs:15-19 | A null repository, then a null logger, is rejected. |
| Service.ValidateId | templates/dotnet-api/src/DotNetApi/Application/Services/HelloService.cs:142-146 | An id is accepted exactly when it is positive. |
| Service.ValidateGreeting | templates/dotnet-api/src/DotNetApi/Application/Services/HelloService.cs:151-173 | A greeting is accepted exactly when present, with a character other than white space and at most 200 characters. Each failure gets its own message, in that order. |
| Service.GetLastGreeting | templates/dotnet-api/src/DotNetApi/Application/Services/HelloService.cs:24-37 | The repository's answer or failure, unchanged. |
| Service.GetGreetingById | templates/dotnet-api/src/DotNetApi/Application/Services/HelloService.cs:44-58 | The repository is called exactly for a positive id. A non-positive id is rejected; otherwise the answer or failure is unchanged. |
| Service.SaveGreeting | templates/dotnet-api/src/DotNetApi/Application/Services/HelloService.cs:65-81 | The repository is called exactly for a valid greeting. Its failure is rethrown, and a stored id that is not positive is rejected. A success has a positive id and a valid message. |
| Service.ToDtos | templates/dotnet-api/src/DotNetApi/Application/Services/HelloService.cs:93-98 | Every greeting projected to its DTO, in order. |
| Service.GetPagedGreetings | templates/dotnet-api/src/DotNetApi/Application/Services/HelloService.cs:86-119 | The page's items (null as none), page and size echoed, the total set to the item count, and the links for that total. A failure is rethrown. |
| Service.GetAllGreetings | templates/dotnet-api/src/DotNetApi/Application/Services/HelloService.cs:124-137 | The repository's answer or failure, unchanged. |
| Service.FailuresRethrownUnchanged | templates/dotnet-api/tests/DotNetApi.Tests/HelloServiceTests.cs:23-61 | Once the arguments are valid, every operation throws the repository's failure as it is. |
| Service.SaveWithAssignedId | templates/dotnet-api/src/DotNetApi/Application/Services/HelloService.cs:72-73 | A valid save through an adapter that assigns a positive id returns the stored greeting. |
| Service.SaveWithUnassignedId | templates/dotnet-api/src/DotNetApi/Application/Services/HelloService.cs:72-73 | A valid save whose id stays 0 (the MongoDB adapter) is stored and then rejected for its id. |
| Service.OverlongMessageRejected | templates/dotnet-api/tests/DotNetApi.Tests/HelloServiceTests.cs:149-166 | A 201-character message is rejected for its length, without a repository call. |
| Service.PagedNeverOffersNext | templates/dotnet-api/src/DotNetApi/Application/Services/HelloService.cs:100-103 | As written, a page no larger than its size never gets a `next` link (see Findings). |
| Service.FirstOfFivePagesHasNoNext | templates/dotnet-api/src/DotNetApi/Application/Services/HelloService.cs:100-103 | Page 1 of size 2 over five matching greetings has no `next` link. |
| Service.GetPagedGreetingsCounted | templates/dotnet-api/src/DotNetApi/Application/Services/HelloService.cs:100-112 | The corrected paged result. The total is the number of matching greetings, and the links are built for it. |
| Service.CountedLinksFollowRemainingItems | templates/dotnet-api/src/DotNetApi/Application/Services/HelloService.cs:100-103 | With the counted total, `next` appears exactly when matching greetings remain, and `prev` exactly past page 1 when any match. |

## Left out

- Connections, `Task.Run`, `async` and disposal are left out. A store is reached or not (`reachable`), and every store failure is one error, `StoreFailure`.
- The check of `GreetingSqlRepository` for its test connection factory is left out. A `ConnectionFactory` pairs a connection string with a database.
- SQLite's `LIKE` and MongoDB's case-insensitive regular expression are an abstract matcher, so case and wildcard rules are not modelled.
- Query.SortRows: rows with equal keys keep their table order, which neither store promises.
- Ids and page offsets are unbounded integers. The 32-bit overflow of `(page - 1) * pageSize` and of the AUTOINCREMENT id is not modelled.
- PlainRepository.GreetingRepository.GetGreetings: requires `page >= 1` and `pageSize >= 0`; SQLite's treatment of a negative `LIMIT` or `OFFSET` is not modelled.
- SqlRepository.GreetingSqlRepository.GetGreetings: requires `page >= 1` and `pageSize >= 0`; SQLite's treatment of a negative `LIMIT` or `OFFSET` is not modelled.
- MongoRepository.GreetingMongoRepository.GetGreetings: requires `page >= 1` and `pageSize >= 0`. A negative limit, which the driver turns into a single batch of `|limit|` documents, and the driver's rejection of a negative skip are not modelled.
- MongoDB write errors other than a duplicate `_id` fall under `StoreFailure`.
- Service.ValidateGreeting: a null message is treated as an absent greeting, so it gets the null-greeting message, and message length counts characters, not UTF-16 code units.
- The 2 s Polly timeout is left out. It is optimistic and the delegates ignore cancellation, so it never fires, and inner calls take no time in the model.
- Concurrency, logging and the per-scope lifetime of the decorator (and so of its breaker) are left out.
- Cache failures and JSON serialization are left out. A payload is the value itself, which makes a malformed entry a `Deserialization` error.
- Aliasing and in-place mutation of the saved `Greeting` are left out. The updated greeting is returned instead.
- The unused `_policy` field and the no-op policy that the factory hands to `GreetingSqlRepository` are left out.
- `GreetingRepositoryFactory.ValidateProvider` is dead code (no caller) and is left out.
- The messages of `ArgumentNullException` are left out. Only the parameter name is kept.
- SqlRepository.GreetingSqlRepository.SaveGreeting: it does not validate the connection string, as in the source, so a blank one reaches the store.
- The MongoDB client and its connection are left out. The adapter is given its collection. So are the construction-time throws of the real clients: `new MongoClient` on a malformed connection URI, `GetDatabase` on an invalid database name (one containing `.`), and the parsing of the SQLite connection string when the cached adapter's constructor reads it. RepositoryFactory.CreateSqliteRepository and RepositoryFactory.CreateMongoRepository therefore succeed on some configurations where the source throws.
- Resilience.GreetingRepositoryPollyDecorator: the inner repository is given by its answers to successive invocations (`inner(k)`), not as an object. The arguments the decorator passes through unchanged do not affect the result.
- Service: the repository is given by its reply to the one call an operation makes. The `orderBy`, `desc` and `filter` arguments of the paged read are passed through unmodelled.

## Findings

| source | as written | input that shows it | evidently intended | confidence | as-written member | corrected member |
|---|---|---|---|---|---|---|
| templates/dotnet-api/src/DotNetApi/Infrastructure/Repositories/GreetingSqlRepository.cs:167 | The list cache key joins page, page size, `orderBy`, `desc` and filter with `_`. `orderBy` and the filter are free text, so different requests can share a key. | `orderBy = "X_False_y", desc = true`, no filter and `orderBy = "X", desc = false, filter = "y_True_"` both give `Greeting_List_1_{size}_X_False_y_True_`. On a one-row table the first selects the row and the second nothing, and whichever is read first is served to the other for five minutes. | A key that determines the request | high (not executed) | CacheKeys.ListKeyAsWrittenCollides | CacheKeys.ListKeyInjective |
| templates/dotnet-api/src/DotNetApi/Application/Services/HelloService.cs:100-103 | `totalItems` is the number of items on the returned page, though the comment beside it says the total across the filter. | 5 matching greetings, page 1, page size 2: the repository returns 2, the total is 2 and there is no `next` link, though 3 greetings remain. No page whose size is at least its item count ever gets `next`. | The total of matching greetings, so that `next` appears exactly when more remain | high (not executed) | Service.PagedNeverOffersNext | Service.CountedLinksFollowRemainingItems |
