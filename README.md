# Multi-tenant to-do API: a Dafny model

This project models the core of `aws-dotnet-todo-api`, an HTTP API storing to-do items for many
tenants in one DynamoDB table. It covers four layers and proves properties about each.

- **Key scheme and records** (`entities.dfy`). An item lives under `TENANT#<tenant>` /
  `TODOITEM#<id>`. Its idempotency receipt lives under
  `IDEMPOTENCY#<token>#TENANT#<tenant>` / `IDEMPOTENCY#<token>`.
- **The table and the store** (`dynamodb.dfy`, `store.dfy`).
  - The table is a map from `(PK, SK)` to a record.
  - The engine operations the store uses are functions on that map: the conditional transaction
    of two puts, the conditional update, the conditional delete, the point get, and the backward
    GSI1 query with its limit, its post-limit filter and its cursor.
  - `DynamoDbStore` is a class holding the table. Its methods change it as create, update and
    delete do. Each method is proved equal to a specification function, and the store
    invariant is proved preserved.
- **The API edge** (`validation.dfy`, `requests.dfy`, `mapper.dfy`, `api_errors.dfy`,
  `endpoints.dfy`).
  - The FluentValidation rule chains of the five validators.
  - The tenant-id pre-processor, which lower-cases the id in place.
  - The entity-to-DTO projection and the request-to-args mappers.
  - The three error-body factories, and the exception handler with its grouping of failures by
    property.
  - The five endpoint handlers: token and limit defaulting, and mapping store results to
    200/204/404.
- **The typed client** (`client.dfy`). The Polly retry predicate and retry count, each call's
  status switch, and the list URL built by successive `url +=` steps. An idealised parser that
  splits at `&` and at the first `=`, and does no percent-decoding, reads the query string back.

The repository's `TodoItemEntity.cs` does not define `Pk`, `Sk`, `Gsi1Pk` or the `GSI1PK` and
`GSI1SK` attributes that `DynamoDbStore.cs` uses. They are defined here to agree with what
`Create` writes:

- `Pk(t, id) = "TENANT#" + t` (the id takes no part);
- `Sk(id) = "TODOITEM#" + id`;
- `Gsi1Pk(t) = "TENANT#" + t`;
- the stored `GSI1PK`/`GSI1SK` equal `PK`/`SK`.

`Entities.ReceiptPkDiffersFromTestExpectation` records that the receipt key the code builds
never equals the one its unit test expects.

The repository's list tests page through results with a loop that runs while the returned
token is not null (src/Todo.IntegrationTests/ListTodoItemsTest.cs:129 and 233). A client is
therefore meant to follow tokens until a null one comes back. The list handler drops the cursor
whenever the *filtered* page is empty, even when more records follow. That is the finding below.

## Model

| member | source | states |
|---|---|---|
| Entities.TodoItemEntity.Create | src/Todo.Core/Entities/TodoItemEntity.cs:25-49 | A new item has PK `TENANT#`+tenant and SK `TODOITEM#`+its fresh id. It is not completed, copies title, notes, tenant and token from the args, has created = updated = the one clock reading, and has tag `TodoItem`. |
| Entities.IdempotencyEntity.Create | src/Todo.Core/Entities/IdempotencyEntity.cs:16-34 | A receipt has PK `IDEMPOTENCY#`+token+`#TENANT#`+tenant and SK `IDEMPOTENCY#`+token. It points at the paired item's id, copies tenant and token, copies the item's timestamps, and has tag `Idempotency`. |
| Entities.ItemKeyInjective | src/Todo.Core/Entities/TodoItemEntity.cs:30-31 | Two item keys are equal iff their tenants and ids are. |
| Entities.ItemSkInjective | src/Todo.Core/Entities/TodoItemEntity.cs:31 | Distinct item ids give distinct sort keys, and conversely. |
| Entities.IdempotencyKeyInjective | src/Todo.Core/Entities/IdempotencyEntity.cs:18-19 | Two receipt keys are equal iff their tokens and tenants are. |
| Entities.KeySpacesDisjoint | src/Todo.Core/Entities/BaseEntity.cs:8-12 | An item and a receipt never share a PK, an SK or a primary key. |
| Entities.ItemSkMatchesListPrefix | src/Todo.Core/DynamoDbStore.cs:163 | Every item sort key begins with `TODOITEM#`. |
| Entities.ReceiptSkNeverMatchesListPrefix | src/Todo.Core/Entities/IdempotencyEntity.cs:19 | No receipt sort key begins with `TODOITEM#`, so List never returns a receipt. |
| Entities.ItemSkOrderIsIdOrder | src/Todo.Core/Entities/TodoItemEntity.cs:31 | Item sort keys order exactly as their ULIDs do. |
| Entities.ReceiptPkDiffersFromTestExpectation | src/Todo.Core/Entities/IdempotencyEntity.cs:18 | The receipt PK the code builds never equals `TENANT#t#IDEMPOTENCY#tok`, the form the unit test expects. |
| Entities.CreatedPairAgrees | src/Todo.Core/Entities/IdempotencyEntity.cs:25-29 | The receipt's (tenant, item id) address exactly the new item. The two keys differ. The tokens agree and the timestamps are equal. |
| DynamoDb.Reason | src/Todo.Core/DynamoDbStore.cs:55-64 | A put's condition fails iff a record holds its key. An ALL_OLD pre-image comes back iff it failed and asked for one, and it is the stored record. |
| DynamoDb.PutAll | src/Todo.Core/DynamoDbStore.cs:60-65 | After the puts, each key holds its record. The key set is the old keys plus the written ones. Every other record is unchanged. |
| DynamoDb.PutTwo | src/Todo.Core/DynamoDbStore.cs:60-63 | A two-put transaction on distinct keys writes both records. |
| DynamoDb.TransactWrite | src/Todo.Core/DynamoDbStore.cs:60-69 | All-or-nothing: it commits iff no key is taken and no conflict occurs, and then writes every put. Otherwise it cancels with one reason per put. |
| DynamoDb.ApplyKeepsIdentity | src/Todo.Core/DynamoDbStore.cs:102-109 | An update sets title, notes, completion and update time. It keeps id, tenant, token, creation time, keys and tag. |
| DynamoDb.UpdateItem | src/Todo.Core/DynamoDbStore.cs:96-118 | The conditional update changes the item iff its key exists and returns the post-image. Otherwise it returns nothing and leaves the table unchanged. |
| DynamoDb.DeleteItem | src/Todo.Core/DynamoDbStore.cs:126-143 | The conditional delete reports true iff the key existed. It removes that key only. |
| DynamoDb.GetItem | src/Todo.Core/DynamoDbStore.cs:151 | The get finds an item iff one is stored under the key, and returns it. |
| DynamoDb.FilterCompleted | src/Todo.Core/DynamoDbStore.cs:173-177 | The filter keeps exactly the items whose completion equals the given value, in order. With no value it keeps all. |
| DynamoDb.QueryPage | src/Todo.Core/DynamoDbStore.cs:156-181 | A page holds at most `limit` items. Each is stored in the tenant partition under a `TODOITEM#` key below the cursor and passes the filter. A page with no cursor is everything that is left. |
| DynamoDb.FilterKeepsIndexOrder | src/Todo.Core/DynamoDbStore.cs:172-176 | The completion filter keeps the descending GSI1 sort-key order of the items it keeps. |
| DynamoDb.ReadInKeyOrder | src/Todo.Core/DynamoDbStore.cs:169 | Items read at strictly descending index keys are in descending index order, and none is below the last key read. |
| DynamoDb.QueryPageOrder | src/Todo.Core/DynamoDbStore.cs:165-178 | A backward page is strictly descending by GSI1 sort key. It carries a cursor iff at least `limit` index keys were left to read. The cursor is one of those keys, and every item on the page is at or above it. |
| DynamoDb.ResumeShrinks | src/Todo.Core/DynamoDbStore.cs:171 | Resuming from a page's cursor leaves strictly fewer index entries to read. |
| DynamoDb.ResumeAfterPage | src/Todo.Core/DynamoDbStore.cs:171 | After a full page, resuming from its cursor leaves exactly the candidate keys the page did not read. |
| DynamoDb.TraverseComplete | src/Todo.Core/DynamoDbStore.cs:166-180 | Following cursors page by page until none comes back yields the same sequence as one backward scan of every matching item below the start. |
| DynamoDb.PageThenRest | src/Todo.Core/DynamoDbStore.cs:169-171 | A full page followed by everything below its cursor is everything below the page's start. |
| Store.ItemKeyHoldsItem | src/Todo.Core/DynamoDbStore.cs:146-154 | In a well-keyed table, whatever an item key holds is the item with that tenant and id. |
| Store.ReceiptKeyHoldsReceipt | src/Todo.Core/DynamoDbStore.cs:77-78 | Whatever a receipt key holds is the receipt for that token and tenant. |
| Store.Lookup | src/Todo.Core/DynamoDbStore.cs:146-154 | Get returns only the item of the asked tenant and id, and it is well keyed. |
| Store.DynamoDbStore.CreateTodoItem | src/Todo.Core/DynamoDbStore.cs:50-88 | Create runs the two-put transaction. It reads reason [1]'s pre-image on a condition failure and re-throws any other cancellation. It keeps the invariant and equals `CreateSpec`. |
| Store.DynamoDbStore.UpdateTodoItem | src/Todo.Core/DynamoDbStore.cs:90-119 | Update keeps the invariant and equals `UpdateSpec`. |
| Store.DynamoDbStore.DeleteTodoItem | src/Todo.Core/DynamoDbStore.cs:121-144 | Delete keeps the invariant and equals `DeleteSpec`. |
| Store.DynamoDbStore.GetTodoItem | src/Todo.Core/DynamoDbStore.cs:146-154 | Get finds an item iff its key is stored, returns exactly the stored item of that tenant and id, and changes nothing. |
| Store.DynamoDbStore.ListTodoItems | src/Todo.Core/DynamoDbStore.cs:156-181 | A page has at most `limit` items. Each belongs to the tenant, is what Get returns for its id, and passes the filter. The page is newest first (strictly descending ids). It carries a cursor iff at least `limit` index keys were left to read, and every item's sort key is at or above that cursor. |
| Store.CreateKeepsInvariant | src/Todo.Core/DynamoDbStore.cs:55-67 | Given a fresh id, create keeps the table well keyed and every receipt paired with its item. |
| Store.UpdateKeepsInvariant | src/Todo.Core/DynamoDbStore.cs:96-118 | Update keeps the store invariant. |
| Store.DeleteKeepsInvariant | src/Todo.Core/DynamoDbStore.cs:126-143 | Delete keeps the store invariant. |
| Store.CreateResult | src/Todo.Core/DynamoDbStore.cs:58-87 | A successful create returns an item of the caller's tenant with the caller's token, and Get then finds it. A failed create writes nothing. |
| Store.CreateIdempotent | src/Todo.Core/DynamoDbStore.cs:69-83 | Repeating a successful create with the same tenant and token returns the same item and writes nothing, whatever the clock, the fresh id or interference. |
| Store.ReplayAfterDeleteFails | src/Todo.Core/DynamoDbStore.cs:80-81 | Replaying a create whose item was deleted fails and writes nothing. |
| Store.UpdateResult | src/Todo.Core/DynamoDbStore.cs:90-119 | Update finds exactly what Get finds. It assigns title, notes, completion and update time, keeps the creation time, token, tenant and id, and returns the post-image. Every other record is unchanged; with no item the table is unchanged. |
| Store.DeleteResult | src/Todo.Core/DynamoDbStore.cs:121-144 | Delete reports true iff Get would find the item. Afterwards Get finds nothing, every other record is unchanged, and a second delete reports false. |
| Store.ListPageBelongsToTenant | src/Todo.Core/DynamoDbStore.cs:156-181 | Each listed item belongs to the tenant, is stored, and passes the filter. At most `limit` come back. Its GSI1 sort key is its `TODOITEM#` key, the page is newest first, and the cursor is present iff `limit` keys were left and at or below every item's key. |
| Store.ListTraversalComplete | src/Todo.Core/DynamoDbStore.cs:156-181 | Following the store's cursors from the start yields exactly the tenant's stored items that pass the filter, newest first. |
| Store.TenantItemsNewestFirst | src/Todo.Core/DynamoDbStore.cs:170 | The whole tenant partition read backward holds exactly the tenant's matching items, in descending id order. |
| Store.IndexOrderIsIdOrder | src/Todo.Core/DynamoDbStore.cs:160-169 | For well-keyed items, strictly descending GSI1 sort-key order is strictly newest-first id order, because the key is `TODOITEM#` followed by the id. |
| Validation.Check | src/Todo.Api/Endpoints/CreateTodoItemEndpoint.cs:23-25 | A rule chain without stopping: every failing rule is reported for this property, and nothing else. Order and multiplicity are in `Validation.CheckInRuleOrder`. |
| Validation.FailingIndices | src/Todo.Api/Endpoints/CreateTodoItemEndpoint.cs:23-25 | The positions of the rejecting rules in the chain, strictly increasing, each one a rule that rejects the value. |
| Validation.FailingIndicesComplete | src/Todo.Api/Endpoints/CreateTodoItemEndpoint.cs:23-25 | Every rejecting rule's position is listed. |
| Validation.CheckInRuleOrder | src/Todo.Api/Endpoints/CreateTodoItemEndpoint.cs:23-25 | The failures are exactly one per rejecting position, in declaration order: the k-th failure is that of the k-th rejecting rule. |
| Validation.TextRulesAccept | src/Todo.Api/Endpoints/CreateTodoItemEndpoint.cs:24-25 | `NotEmpty().MinimumLength(3).MaximumLength(100)` accepts exactly non-null, non-blank text of 3 to 100 characters. |
| Validation.NotEmptyAccepts | src/Todo.Api/Endpoints/CreateTodoItemEndpoint.cs:23 | `NotEmpty` on the tenant id accepts exactly non-null, non-blank text. |
| Validation.NotNullAccepts | src/Todo.Api/Endpoints/UpdateTodoItemEndpoint.cs:25 | `NotNull` accepts exactly a present value. |
| Validation.LimitRulesAccept | src/Todo.Api/Endpoints/ListTodoItemsEndpoint.cs:25 | The limit rules accept exactly an absent limit or one in 1..50. |
| Validation.InvalidTextExamples | src/Todo.Api/Endpoints/CreateTodoItemEndpoint.cs:24 | Null, empty, blank, two-character and 101-character titles fail exactly the rules listed for each. |
| Validation.LimitExamples | src/Todo.Api/Endpoints/ListTodoItemsEndpoint.cs:25 | Limits 0 and 51 fail one rule each. Limits 1, 50 and none pass. |
| Requests.CreateTodoItemFailures | src/Todo.Api/Endpoints/CreateTodoItemEndpoint.cs:19-27 | A create request passes iff the tenant id is not empty and title and notes are valid text. Title and notes failures appear exactly when those fields are invalid. |
| Requests.UpdateTodoItemFailures | src/Todo.Api/Endpoints/UpdateTodoItemEndpoint.cs:20-30 | An update passes iff tenant, item id, title, notes and completion are all valid. The item-id and completion failures appear exactly when those fields are missing. |
| Requests.ItemRequestFailures | src/Todo.Api/Endpoints/DeleteTodoItemEndpoint.cs:14-18 | Delete and Get requests pass iff the tenant id is not empty and the item id is present. |
| Requests.ListTodoItemsFailures | src/Todo.Api/Endpoints/ListTodoItemsEndpoint.cs:20-27 | A list request passes iff the tenant id is not empty and the limit is absent or in 1..50. |
| Requests.CreateMissingTitleAndNotes | src/Todo.Api/Endpoints/CreateTodoItemEndpoint.cs:23-25 | Missing title and notes give exactly one `NotEmpty` failure each, and nothing else. |
| Requests.UpdateMissingItemId | src/Todo.Api/Endpoints/UpdateTodoItemEndpoint.cs:24-28 | An otherwise valid update missing only its item id fails exactly `NotNull` on `TodoItemId`. |
| Requests.ListLimitTooLarge | src/Todo.Api/Endpoints/ListTodoItemsEndpoint.cs:25 | A limit of 51 fails exactly `LessThanOrEqualTo(50)`. |
| Requests.StandardisedTenantsShareKeys | src/Todo.Api/TenantIdChecker.cs:14-18 | After lower-casing, two tenant ids address the same item key iff they differ only in letter case. |
| Requests.PreProcess | src/Todo.Api/TenantIdChecker.cs:10-21 | A request with a tenant id gets its lower-cased form and keeps every other field. A null id throws and leaves the request unchanged. Other requests are untouched. |
| Strings.ToLowerIdempotent | src/Todo.Api/TenantIdChecker.cs:18 | Lower-casing twice gives what lower-casing once gives, so running the checker twice changes nothing more. |
| Strings.ToLowerEqualIff | src/Todo.Api/TenantIdChecker.cs:18 | Two ids lower-case to the same id iff they are equal ignoring letter case. |
| Mapping.ToDto | src/Todo.Api/Mapper.cs:15-20 | The DTO copies id, tenant, token, title, notes, completion and both timestamps. |
| Mapping.FromDto | src/Todo.Api/Mapper.cs:15-20 | The item a DTO describes is well keyed. |
| Mapping.DtoRoundTrip | src/Todo.Api/Mapper.cs:15-19 | The attributes the projection drops are determined by the ones it keeps: a stored item is rebuilt from its DTO. |
| Mapping.ToDtoInjective | src/Todo.Api/Mapper.cs:20 | Two stored items have the same DTO iff they are the same item. |
| Mapping.ToDtoIgnoresKeys | src/Todo.Api/Mapper.cs:15-20 | Two items have equal DTOs iff they agree on the eight copied attributes, whatever their PK, SK, GSI1 keys and tag. |
| Mapping.CreateArgs | src/Todo.Api/Mapper.cs:11 | The create args copy tenant, title, notes and token from the request. |
| Mapping.UpdateArgs | src/Todo.Api/Mapper.cs:12 | The update args copy tenant, item id, title, notes and completion. |
| Mapping.DeleteArgs | src/Todo.Api/Mapper.cs:13 | The delete args copy tenant and item id. |
| Mapping.CreatedItemReflectsRequest | src/Todo.Api/Endpoints/CreateTodoItemEndpoint.cs:49-54 | A newly created item's DTO echoes the request's tenant, title, notes and token. It carries the new id, is not completed, and has equal timestamps. |
| ApiErrors.FactoriesDistinct | src/Todo.Api/ApiErrorResponse.cs:16-41 | The factories give 404/`NotFoundError`, 400/`ValidationError` and 500/`InternalServerError`: pairwise distinct codes, each with no errors. |
| ApiErrors.Positions | src/Todo.Api/ExceptionResponseHandler.cs:25 | The indices of one property's failures, strictly increasing, each pointing at a failure of that property. |
| ApiErrors.PositionsComplete | src/Todo.Api/ExceptionResponseHandler.cs:25 | Every failure of the property has its index listed. |
| ApiErrors.GroupKeys | src/Todo.Api/ExceptionResponseHandler.cs:25 | The groups' keys are the failing property names, each once. |
| ApiErrors.FirstIndex | src/Todo.Api/ExceptionResponseHandler.cs:25 | The index of a property's first failure: within `fs` only when that entry is a failure of the property, `|fs|` otherwise. |
| ApiErrors.FirstIndexIsFirst | src/Todo.Api/ExceptionResponseHandler.cs:25 | No failure before that index is one of the property. |
| ApiErrors.GroupKeysByFirstAppearance | src/Todo.Api/ExceptionResponseHandler.cs:25 | The keys are ordered as `GroupBy` orders its groups: every key fails somewhere, and keys come in increasing order of their first failure's index. |
| ApiErrors.MessagesOf | src/Todo.Api/ExceptionResponseHandler.cs:27 | A group's messages are messages of failures of that property. |
| ApiErrors.MessagesOfInOrder | src/Todo.Api/ExceptionResponseHandler.cs:27 | A group's messages are exactly the messages of that property's failures, one per failure, in index order. |
| ApiErrors.GroupErrors | src/Todo.Api/ExceptionResponseHandler.cs:25-28 | There is one error entry per distinct property, in order of first appearance, listing that property's messages in order. |
| ApiErrors.GroupingKeepsEveryFailure | src/Todo.Api/ExceptionResponseHandler.cs:25-28 | The groups' message lists together hold exactly as many messages as there were failures. |
| ApiErrors.EveryMessageListed | src/Todo.Api/ExceptionResponseHandler.cs:27 | Every failure's message is listed under its property. |
| ApiErrors.TryHandle | src/Todo.Api/ExceptionResponseHandler.cs:7-41 | JSON errors give 400 with one `JsonException` entry. Validation failures give 400 with the grouped failures, or none when null. Anything else gives 500. The status always equals the body's status, and the handler always reports handled. |
| ApiErrors.TwoPropertiesTwoEntries | src/Todo.Api/ExceptionResponseHandler.cs:25-28 | Failures on Title and Notes group into two entries, one per property. |
| Endpoints.ItemResponse | src/Todo.Api/Endpoints/GetTodoItemEndpoint.cs:45-57 | A null result is 404 with the not-found body. An item is 200 with its DTO. |
| Endpoints.DeleteResponse | src/Todo.Api/Endpoints/DeleteTodoItemEndpoint.cs:40-45 | Delete answers 204 iff the store deleted the item, and 404 with the not-found body otherwise. |
| Endpoints.CreateTodoItem | src/Todo.Api/Endpoints/CreateTodoItemEndpoint.cs:44-58 | A missing token is replaced by a fresh one and a given token is kept. The store's create runs on the mapped args, and the result is the returned item's DTO. |
| Endpoints.UpdateTodoItem | src/Todo.Api/Endpoints/UpdateTodoItemEndpoint.cs:48-66 | Update calls the store with the mapped args and answers 404 or 200 from its result. |
| Endpoints.DeleteTodoItem | src/Todo.Api/Endpoints/DeleteTodoItemEndpoint.cs:35-46 | Delete calls the store with the mapped args and answers 204 or 404 from its result. |
| Endpoints.GetTodoItem | src/Todo.Api/Endpoints/GetTodoItemEndpoint.cs:41-58 | Get answers 404 iff nothing is stored under the tenant and id. Otherwise it answers 200 with the DTO of the item stored under that key, and it changes nothing. |
| Endpoints.UpdateAnswers | src/Todo.Api/Endpoints/UpdateTodoItemEndpoint.cs:50-65 | Update answers 404 iff Get would. Its DTO otherwise has the new fields and update time, plus the original creation time and token. |
| Endpoints.DeleteAnswers | src/Todo.Api/Endpoints/DeleteTodoItemEndpoint.cs:37-45 | Delete answers 204 iff the item exists. Afterwards Get and Delete both answer 404. |
| Endpoints.Dtos | src/Todo.Api/Endpoints/ListTodoItemsEndpoint.cs:60-64 | A page maps one-to-one, in order, to DTOs. |
| Endpoints.ListResponseAsWritten | src/Todo.Api/Endpoints/ListTodoItemsEndpoint.cs:51-70 | The handler's mapping as written. An empty page answers no items and a null token. A non-empty page answers its items' DTOs, one per item in order, and the store's cursor. |
| Endpoints.ListResponse | src/Todo.Api/Endpoints/ListTodoItemsEndpoint.cs:60-70 | The corrected mapping: the page's items' DTOs, one per item in order, and the store's cursor, always passed through. |
| Endpoints.ListTodoItems | src/Todo.Api/Endpoints/ListTodoItemsEndpoint.cs:45-73 | The handler as written. An absent limit becomes 25. Limit, filter and token reach the store unchanged, and the page is answered with the as-written mapping. |
| Endpoints.ListTodoItemsCorrected | src/Todo.Api/Endpoints/ListTodoItemsEndpoint.cs:45-73 | The same handler with the corrected mapping, which passes the store's cursor through. |
| Endpoints.TraversalFollowsStore | src/Todo.Api/Endpoints/ListTodoItemsEndpoint.cs:50-70 | With the cursor passed through, a client following tokens sees exactly the store's own traversal. |
| Endpoints.ListingReturnsEveryMatchingItem | src/Todo.Api/Endpoints/ListTodoItemsEndpoint.cs:45-73 | A client following tokens to the end receives every stored item of the tenant that passes the filter, and nothing else, newest first. |
| Endpoints.AsWrittenStopsAtEmptyPage | src/Todo.Api/Endpoints/ListTodoItemsEndpoint.cs:51-58 | As written, a page the filter emptied ends the client's listing. |
| Endpoints.AsWrittenListingMissesItem | src/Todo.Api/Endpoints/ListTodoItemsEndpoint.cs:51-58 | Concrete table: an open item sits below a newer completed one. With limit 1 and filter "open", the as-written listing returns nothing, while the corrected one returns the open item. |
| Client.RetriedStatuses | src/Todo.Client/TodoClient.cs:34-41 | Every status of 500 or more is retried. Below 500 exactly 404 and 408 are. |
| Client.Run | src/Todo.Client/TodoClient.cs:30-43 | The policy stops at the first attempt it does not retry, or after the retries run out. Every earlier attempt threw a retried status. |
| Client.Execute | src/Todo.Client/TodoClient.cs:30 | A call makes 1 to 6 attempts and ends with the last one. Every earlier one was retried, and the last is final or the sixth. |
| Client.ExecuteStopsAtFirstFinalAttempt | src/Todo.Client/TodoClient.cs:30-43 | A call's outcome is its first non-retried attempt, when one comes within six. |
| Client.SuccessOnly | src/Todo.Client/TodoClient.cs:65-78 | Create, Update and List return iff the status is 200. Otherwise they throw with that status and body. |
| Client.DeleteSwitch | src/Todo.Client/TodoClient.cs:122-134 | Delete returns true iff 204, false iff 404, and otherwise throws. |
| Client.GetSwitch | src/Todo.Client/TodoClient.cs:149-164 | Get returns the body iff 200, null iff 404, and otherwise throws. |
| Client.NotFoundEndsDeleteAndGet | src/Todo.Client/TodoClient.cs:128-131 | A 404 ends Delete (false) and Get (null) after one attempt: it is a result there, not a retried exception. |
| Client.NotFoundRetriedForOthers | src/Todo.Client/TodoClient.cs:34-41 | For Create, Update and List, six 404s in a row end in the sixth exception. |
| Client.BadRequestNotRetried | src/Todo.Client/TodoClient.cs:34-41 | A 400 ends every call after one attempt. |
| Client.BuildListUrl | src/Todo.Client/TodoClient.cs:172-174 | The URL is the path, `?limit=` with the limit or 25, then `&paginationToken=` only if a token is given, then `&isCompleted=` only if a flag is given, in that order. |
| Client.QueryRoundTrip | src/Todo.Client/TodoClient.cs:172-174 | Parsing a rendered query gives back its parameters, in order, provided names hold no `=` or `&` and values no `&`. |
| Client.ListUrlReadsBack | src/Todo.Client/TodoClient.cs:172-174 | The model's idealised query parser reads back the limit (25 when none), the token only when one was given, and `True`/`False` only when a flag was given. The parser splits at `&` and at the first `=` and does no percent-decoding. This holds when the token holds no `&`. |

## Left out

- Async, the cancellation token, and the clock are left out. `now` and every generated ULID are parameters.
- ULIDs are 26-character Crockford strings; ULID generation and `UlidConverter` are not modelled.
- Store.DynamoDbStore.CreateTodoItem assumes that the fresh item id is named by no stored receipt (`IdFresh`). This is what ULID uniqueness provides. Without it, the invariant linking receipts to items cannot be kept.
- Other transaction cancellations (throttling, races) are a `conflict` parameter. Concurrent creates with the same token, secondary-index lag, 1 MB page limits and the pagination token's encoding are not modelled. The cursor is the last evaluated GSI1 sort key.
- `IdempotencyEntity.TenantId` is declared `Ulid` in the source. It is a string here, as in the args it is copied from.
- The single table name (`todo-table`) is implicit: there is one table map.
- The Delete and Get requests have the same two fields and the same validator. Both are `Requests.ItemRequest`.
- Requests.PreProcess lower-cases ASCII letters only. .NET's culture-aware `ToLower` also changes other letters.
- Validation.Check measures length in characters of `seq<char>`, not UTF-16 code units, and treats only ASCII white space as blank. Failures carry the failed rule, not the library's formatted message text.
- FluentValidation runs before the global pre-processor in the pipeline. The model checks the request fields as given and does not model that ordering.
- JSON (de)serialisation, HTTP transport, the endpoints' route configuration, and the `Program.cs` wiring are not modelled.
- Client.Execute does not model the time between retries: Polly's jittered backoff delays are left out, and only the retry count and the predicate are kept.
- Client.BuildListUrl takes the token as given, and the client does not URL-escape it. `Client.ListUrlReadsBack` reads the URL back with an idealised parser that splits at `&` and at the first `=` and does no percent-decoding, so it requires only a token without `&`. A real server also decodes `+` and `%XX`, and `new Uri` cuts the URL at `#`. A token containing `&`, `+`, `%` or `#` is therefore not carried faithfully, and the model does not capture that.
- Client calls other than List build fixed URLs, which are not modelled. Create builds its URL from the tenant id. Update, Delete and Get build theirs from the tenant id and the item id.
- Integer widths: limits, statuses and attempt counts are unbounded integers. The values the source uses are far from 32-bit limits.

## Findings

| source | as written | input that shows it | evidently intended | confidence | as-written member | corrected member |
|---|---|---|---|---|---|---|
| src/Todo.Api/Endpoints/ListTodoItemsEndpoint.cs:51-58 | When the store's page is empty, the handler answers an empty list and a null token, even when the store returned a cursor. With a completion filter, the filter runs after the limit, so a page can be empty while more matching items follow. A client stops at the null token and never sees them. The repository's own filter test asserts this behaviour. Its final assertion (src/Todo.IntegrationTests/ListTodoItemsTest.cs:238) expects 4 pages: 10 open items, then 10 newer completed ones, limit 4, filter "completed". That count holds only as written, because page 4 is the first empty page and ends the loop. With the cursor passed through, pages 4 and 5 come back empty with a cursor and page 6 has none, so the corrected mapping changes that assertion to 6. | One tenant with an open item and a newer completed item; List with limit 1 and isCompleted=false. The first page scans the completed item, filters it out and comes back empty with a cursor. The handler drops the cursor, so the open item is never listed. | Pass the store's cursor through whatever the page holds, so following tokens lists every matching item. | not executed | Endpoints.AsWrittenListingMissesItem | Endpoints.ListingReturnsEveryMatchingItem |
