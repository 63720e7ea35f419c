/**
 * The five endpoint handlers: each maps its validated request to store arguments, calls the
 * store, and maps the outcome to an HTTP result (200 with the item's transfer object, 204,
 * or 404 with the not-found body). Store exceptions escape to the exception handler.
 */
module Endpoints {
  import opened Wrappers
  import opened Strings
  import opened Entities
  import opened DynamoDb
  import opened Store
  import opened Requests
  import opened Mapping
  import ApiErrors

  /** The results of the single-item endpoints. */
  datatype Response =
    | OkItem(todoItem: TodoItemDto)
    | NoContent
    | NotFound(error: ApiErrors.ApiErrorResponse)

  /** Update and Get: no item answers 404 with the not-found body, an item answers 200 with its DTO. */
  function ItemResponse(e: Option<TodoItemEntity>): (r: Response)
    ensures r.NotFound? <==> e.None?
    ensures r.NotFound? ==> r.error == ApiErrors.NotFound() && r.error.statusCode == 404
    ensures e.Some? ==> r == OkItem(ToDto(e.value))
  {
    if e.None? then NotFound(ApiErrors.NotFound()) else OkItem(ToDto(e.value))
  }

  /** Delete: 204 when the store removed the item, 404 otherwise. */
  function DeleteResponse(deleted: bool): (r: Response)
    ensures r == NoContent <==> deleted
    ensures !deleted ==> r == NotFound(ApiErrors.NotFound())
  {
    if !deleted then NotFound(ApiErrors.NotFound()) else NoContent
  }

  /** Assigns a token when the request has none, then creates the item (or replays the earlier create). */
  method CreateTodoItem(store: DynamoDbStore, request: CreateTodoItemRequest, newToken: Ulid, now: Timestamp, todoItemId: Ulid, conflict: bool)
    returns (r: Result<TodoItemDto, StoreError>)
    requires store.Valid() && IdFresh(store.table, todoItemId)
    requires CreateTodoItemFailures(request) == []
    modifies store, request
    ensures store.Valid()
    ensures request.tenantId == old(request.tenantId) && request.title == old(request.title) && request.notes == old(request.notes)
    ensures request.idempotencyToken == Some(old(request.idempotencyToken).GetOr(newToken))
    ensures var (t, result) := CreateSpec(old(store.table), CreateArgs(request), now, todoItemId, conflict);
      && store.table == t
      && r == if result.Ok? then Ok(ToDto(result.value)) else Err(result.error)
  {
    if request.idempotencyToken.None? {
      request.idempotencyToken := Some(newToken);
    }
    var args := CreateArgs(request);
    var entity := store.CreateTodoItem(args, now, todoItemId, conflict);
    if entity.Err? {
      return Err(entity.error);
    }
    return Ok(ToDto(entity.value));
  }

  method UpdateTodoItem(store: DynamoDbStore, request: UpdateTodoItemRequest, now: Timestamp) returns (r: Response)
    requires store.Valid() && UpdateTodoItemFailures(request) == []
    modifies store
    ensures store.Valid()
    ensures var (t, e) := UpdateSpec(old(store.table), UpdateArgs(request), now);
      store.table == t && r == ItemResponse(e)
  {
    var args := UpdateArgs(request);
    var entity := store.UpdateTodoItem(args, now);
    r := ItemResponse(entity);
  }

  method DeleteTodoItem(store: DynamoDbStore, request: ItemRequest) returns (r: Response)
    requires store.Valid() && ItemRequestFailures(request) == []
    modifies store
    ensures store.Valid()
    ensures var (t, deleted) := DeleteSpec(old(store.table), DeleteArgs(request));
      store.table == t && r == DeleteResponse(deleted)
  {
    var args := DeleteArgs(request);
    var result := store.DeleteTodoItem(args);
    r := DeleteResponse(result);
  }

  /** Get: 404 exactly when nothing is stored under the requested tenant and id. */
  function GetTodoItem(store: DynamoDbStore, request: ItemRequest): (r: Response)
    reads store, request
    requires store.Valid() && ItemRequestFailures(request) == []
    ensures r.NotFound? <==> TodoItemEntity.Key(request.tenantId.value, request.todoItemId.value) !in store.table
    ensures r.OkItem? ==> Some(r.todoItem.tenantId) == request.tenantId && Some(r.todoItem.todoItemId) == request.todoItemId
    ensures r.OkItem? ==>
      var k := TodoItemEntity.Key(request.tenantId.value, request.todoItemId.value);
      k in store.table && store.table[k].Item? && r.todoItem == ToDto(store.table[k].item)
  {
    ItemResponse(store.GetTodoItem(request.tenantId.value, request.todoItemId.value))
  }

  /**
   * Update answers 404 exactly when Get would; otherwise its DTO carries the request's title,
   * notes and completion, the update time, and the item's original creation time and token.
   */
  lemma UpdateAnswers(t: Table, args: UpdateTodoItemArgs, now: Timestamp)
    requires StoreInvariant(t)
    ensures var before := Lookup(t, args.tenantId, args.todoItemId);
      var r := ItemResponse(UpdateSpec(t, args, now).1);
      && (r.NotFound? <==> before.None?)
      && (r.OkItem? ==>
            && r.todoItem.title == args.title && r.todoItem.notes == args.notes
            && r.todoItem.isCompleted == args.isCompleted && r.todoItem.updatedDate == now
            && r.todoItem.createdDate == before.value.base.createdDate
            && r.todoItem.idempotencyToken == before.value.idempotencyToken
            && r.todoItem.tenantId == args.tenantId && r.todoItem.todoItemId == args.todoItemId)
  {
    UpdateResult(t, args, now);
  }

  /** Delete answers 204 exactly when the item exists; afterwards both Get and Delete answer 404. */
  lemma DeleteAnswers(t: Table, args: DeleteTodoItemArgs)
    requires StoreInvariant(t)
    ensures var (t', deleted) := DeleteSpec(t, args);
      && StoreInvariant(t')
      && (DeleteResponse(deleted) == NoContent <==> Lookup(t, args.tenantId, args.todoItemId).Some?)
      && ItemResponse(Lookup(t', args.tenantId, args.todoItemId)).NotFound?
      && DeleteResponse(DeleteSpec(t', args).1).NotFound?
  {
    DeleteResult(t, args);
  }

  // ---------------------------------------------------------------------------
  // Listing
  // ---------------------------------------------------------------------------

  datatype ListTodoItemsResponse = ListTodoItemsResponse(todoItems: seq<TodoItemDto>, paginationToken: Option<string>)

  function Dtos(items: seq<TodoItemEntity>): (ds: seq<TodoItemDto>)
    ensures |ds| == |items|
    ensures forall i :: 0 <= i < |items| ==> ds[i] == ToDto(items[i])
  {
    seq(|items|, i requires 0 <= i < |items| => ToDto(items[i]))
  }

  lemma DtosAppend(a: seq<TodoItemEntity>, b: seq<TodoItemEntity>)
    ensures Dtos(a + b) == Dtos(a) + Dtos(b)
  {
    assert forall i :: 0 <= i < |a + b| ==> Dtos(a + b)[i] == (Dtos(a) + Dtos(b))[i];
  }

  /**
   * The list result as the handler builds it: a page with no items answers an empty list and
   * a null token, dropping the store's cursor; any other page answers its items and the cursor.
   */
  function ListResponseAsWritten(page: Page): (r: ListTodoItemsResponse)
    ensures r.paginationToken.Some? ==> r.paginationToken == page.lastEvaluatedKey && page.items != []
    ensures page.items != [] ==>
      && r.paginationToken == page.lastEvaluatedKey
      && |r.todoItems| == |page.items|
      && forall i :: 0 <= i < |page.items| ==> r.todoItems[i] == ToDto(page.items[i])
    ensures page.items == [] ==> r.todoItems == [] && r.paginationToken.None?
  {
    if |page.items| == 0 then ListTodoItemsResponse([], None)
    else ListTodoItemsResponse(Dtos(page.items), page.lastEvaluatedKey)
  }

  /** The list result passing the store's cursor through even when the filter emptied the page. */
  function ListResponse(page: Page): (r: ListTodoItemsResponse)
    ensures r.paginationToken == page.lastEvaluatedKey
    ensures |r.todoItems| == |page.items|
    ensures forall i :: 0 <= i < |page.items| ==> r.todoItems[i] == ToDto(page.items[i])
  {
    ListTodoItemsResponse(Dtos(page.items), page.lastEvaluatedKey)
  }

  /**
   * Defaults the limit to 25 and returns one page of the tenant's items, as the handler is
   * written: a page the filter emptied answers a null token.
   */
  method ListTodoItems(store: DynamoDbStore, request: ListTodoItemsRequest) returns (r: ListTodoItemsResponse)
    requires store.Valid() && ListTodoItemsFailures(request) == []
    modifies request
    ensures request.limit == Some(old(request.limit).GetOr(25)) && 1 <= request.limit.value <= 50
    ensures request.tenantId == old(request.tenantId) && request.isCompleted == old(request.isCompleted)
    ensures request.paginationToken == old(request.paginationToken)
    ensures r == ListResponseAsWritten(ListSpec(store.table, request.tenantId.value, request.limit.value, request.isCompleted, request.paginationToken))
  {
    if request.limit.None? {
      request.limit := Some(25);
    }
    var page := store.ListTodoItems(request.tenantId.value, request.limit.value, request.isCompleted, request.paginationToken);
    r := ListResponseAsWritten(page);
  }

  /** The same handler with the corrected result mapping, which always passes the cursor on. */
  method ListTodoItemsCorrected(store: DynamoDbStore, request: ListTodoItemsRequest) returns (r: ListTodoItemsResponse)
    requires store.Valid() && ListTodoItemsFailures(request) == []
    modifies request
    ensures request.limit == Some(old(request.limit).GetOr(25)) && 1 <= request.limit.value <= 50
    ensures request.tenantId == old(request.tenantId) && request.isCompleted == old(request.isCompleted)
    ensures request.paginationToken == old(request.paginationToken)
    ensures r == ListResponse(ListSpec(store.table, request.tenantId.value, request.limit.value, request.isCompleted, request.paginationToken))
  {
    if request.limit.None? {
      request.limit := Some(25);
    }
    var page := store.ListTodoItems(request.tenantId.value, request.limit.value, request.isCompleted, request.paginationToken);
    r := ListResponse(page);
  }

  /**
   * What a client collects by calling List with one limit and filter, starting with no token
   * and sending back each returned token until a null one comes back; `asWritten` chooses
   * which of the two result mappings the endpoint uses.
   */
  function ClientTraversal(t: Table, tenantId: string, limit: nat, isCompleted: Option<bool>, token: Option<string>, asWritten: bool): seq<TodoItemDto>
    requires TableWellKeyed(t)
    requires limit >= 1
    decreases |IndexSortKeys(t, TodoItemEntity.Gsi1Pk(tenantId), TodoItemPrefix, token)|
  {
    var page := ListSpec(t, tenantId, limit, isCompleted, token);
    var r := if asWritten then ListResponseAsWritten(page) else ListResponse(page);
    if r.paginationToken.None? then r.todoItems
    else
      ResumeShrinks(t, TodoItemEntity.Gsi1Pk(tenantId), TodoItemPrefix, limit, token);
      r.todoItems + ClientTraversal(t, tenantId, limit, isCompleted, r.paginationToken, asWritten)
  }

  /** With the cursor passed through, the client sees the store's own traversal. */
  lemma {:induction false} TraversalFollowsStore(t: Table, tenantId: string, limit: nat, isCompleted: Option<bool>, token: Option<string>)
    requires TableWellKeyed(t)
    requires limit >= 1
    ensures ClientTraversal(t, tenantId, limit, isCompleted, token, false)
      == Dtos(Traverse(t, TodoItemEntity.Gsi1Pk(tenantId), TodoItemPrefix, limit, isCompleted, token))
    decreases |IndexSortKeys(t, TodoItemEntity.Gsi1Pk(tenantId), TodoItemPrefix, token)|
  {
    var partition := TodoItemEntity.Gsi1Pk(tenantId);
    var page := ListSpec(t, tenantId, limit, isCompleted, token);
    if page.lastEvaluatedKey.Some? {
      ResumeShrinks(t, partition, TodoItemPrefix, limit, token);
      TraversalFollowsStore(t, tenantId, limit, isCompleted, page.lastEvaluatedKey);
      DtosAppend(page.items, Traverse(t, partition, TodoItemPrefix, limit, isCompleted, page.lastEvaluatedKey));
    }
  }

  /**
   * A client following the tokens to the end receives every stored item of the tenant that
   * passes the filter and nothing else, each once, newest first.
   */
  lemma ListingReturnsEveryMatchingItem(t: Table, tenantId: string, limit: nat, isCompleted: Option<bool>)
    requires StoreInvariant(t)
    requires limit >= 1
    ensures var all := ClientTraversal(t, tenantId, limit, isCompleted, None, false);
      && (forall e: TodoItemEntity :: e.WellKeyed() ==>
            (ToDto(e) in all <==> Lookup(t, tenantId, e.todoItemId) == Some(e) && Matches(e, isCompleted)))
      && (forall i, j :: 0 <= i < j < |all| ==> LexLess(all[j].todoItemId, all[i].todoItemId))
  {
    var items := Traverse(t, TodoItemEntity.Gsi1Pk(tenantId), TodoItemPrefix, limit, isCompleted, None);
    TraversalFollowsStore(t, tenantId, limit, isCompleted, None);
    ListTraversalComplete(t, tenantId, limit, isCompleted);
    var all := Dtos(items);
    forall e: TodoItemEntity | e.WellKeyed()
      ensures ToDto(e) in all <==> Lookup(t, tenantId, e.todoItemId) == Some(e) && Matches(e, isCompleted)
    {
      if ToDto(e) in all {
        var i :| 0 <= i < |all| && all[i] == ToDto(e);
        assert items[i] in items;
        ToDtoInjective(items[i], e);
      }
      if Lookup(t, tenantId, e.todoItemId) == Some(e) && Matches(e, isCompleted) {
        var i :| 0 <= i < |items| && items[i] == e;
        assert all[i] == ToDto(e);
      }
    }
  }

  // ---------------------------------------------------------------------------
  // The as-written list mapping loses items
  // ---------------------------------------------------------------------------

  /** A page the filter emptied ends the as-written listing, even when the store said more may follow. */
  lemma AsWrittenStopsAtEmptyPage(t: Table, tenantId: string, limit: nat, isCompleted: Option<bool>, token: Option<string>)
    requires TableWellKeyed(t)
    requires limit >= 1
    requires ListSpec(t, tenantId, limit, isCompleted, token).items == []
    ensures ClientTraversal(t, tenantId, limit, isCompleted, token, true) == []
  {
  }

  const OlderId: Ulid := "00000000000000000000000000"
  const NewerId: Ulid := "10000000000000000000000000"

  /** An open item created first and a completed item created after it, both of tenant "t". */
  function OpenItem(): TodoItemEntity {
    TodoItemEntity.Create(CreateTodoItemArgs("t", "first", "open", OlderId), 1, OlderId)
  }

  function DoneItem(): TodoItemEntity {
    TodoItemEntity.Create(CreateTodoItemArgs("t", "second", "done", NewerId), 2, NewerId).(isCompleted := true)
  }

  function TwoItemTable(): Table {
    map[OpenItem().base.PrimaryKey() := Item(OpenItem()), DoneItem().base.PrimaryKey() := Item(DoneItem())]
  }

  /** The two-item table is a valid store state holding the open item under its key. */
  lemma TwoItemTableValid()
    ensures StoreInvariant(TwoItemTable())
    ensures Lookup(TwoItemTable(), "t", OlderId) == Some(OpenItem())
  {
    var t := TwoItemTable();
    assert OlderId != NewerId by {
      assert OlderId[0] != NewerId[0];
    }
    ItemSkInjective(OlderId, NewerId);
    assert StoreInvariant(t);
    ItemKeyHoldsItem(t, "t", OlderId);
  }

  /** Its item index holds exactly the two sort keys. */
  lemma TwoItemTableIndex()
    ensures TableWellKeyed(TwoItemTable())
    ensures IndexSortKeys(TwoItemTable(), TodoItemEntity.Gsi1Pk("t"), TodoItemPrefix, None)
      == {TodoItemEntity.Sk(OlderId), TodoItemEntity.Sk(NewerId)}
  {
    var t := TwoItemTable();
    var partition := TodoItemEntity.Gsi1Pk("t");
    TwoItemTableValid();
    ItemSkMatchesListPrefix(OlderId);
    ItemSkMatchesListPrefix(NewerId);
    IndexSortKeysMember(t, partition, TodoItemPrefix, None, TodoItemEntity.Sk(OlderId));
    IndexSortKeysMember(t, partition, TodoItemPrefix, None, TodoItemEntity.Sk(NewerId));
    IndexSortKeysLocated(t, partition, TodoItemPrefix, None);
  }

  /**
   * When a tenant's index holds two items, the first page of size one for the open items reads
   * only the newer one; if that one is completed the page is empty but carries a cursor.
   */
  lemma FirstPageOfTwo(t: Table, tenantId: string, older: Ulid, newer: Ulid)
    requires TableWellKeyed(t)
    requires IndexSortKeys(t, TodoItemEntity.Gsi1Pk(tenantId), TodoItemPrefix, None)
      == {TodoItemEntity.Sk(older), TodoItemEntity.Sk(newer)}
    requires LexLess(older, newer)
    requires Lookup(t, tenantId, newer).Some? && Lookup(t, tenantId, newer).value.isCompleted
    ensures ListSpec(t, tenantId, 1, Some(false), None) == Page([], Some(TodoItemEntity.Sk(newer)))
  {
    var partition := TodoItemEntity.Gsi1Pk(tenantId);
    var skOld := TodoItemEntity.Sk(older);
    var skNew := TodoItemEntity.Sk(newer);
    var keys := IndexSortKeys(t, partition, TodoItemPrefix, None);
    ItemSkOrderIsIdOrder(older, newer);
    LexAsymmetric(skOld, skNew);
    assert Greatest(keys) == skNew;
    assert TopDescending(keys, 1) == [skNew];
    ItemKeyHoldsItem(t, tenantId, newer);
    assert ItemsAt(t, partition, [skNew]) == [Lookup(t, tenantId, newer).value];
  }

  /**
   * Listing the open items one at a time: the newest item is read first and filtered out, so
   * the first page is empty; as written the endpoint then answers a null token and the client
   * never sees the open item, which the corrected mapping does return.
   */
  lemma AsWrittenListingMissesItem()
    ensures StoreInvariant(TwoItemTable())
    ensures Lookup(TwoItemTable(), "t", OlderId) == Some(OpenItem()) && Matches(OpenItem(), Some(false))
    ensures ClientTraversal(TwoItemTable(), "t", 1, Some(false), None, true) == []
    ensures ToDto(OpenItem()) in ClientTraversal(TwoItemTable(), "t", 1, Some(false), None, false)
  {
    var t := TwoItemTable();
    TwoItemTableValid();
    TwoItemTableIndex();
    assert LexLess(OlderId, NewerId);
    ItemKeyHoldsItem(t, "t", NewerId);
    assert Lookup(t, "t", NewerId) == Some(DoneItem());
    FirstPageOfTwo(t, "t", OlderId, NewerId);
    AsWrittenStopsAtEmptyPage(t, "t", 1, Some(false), None);
    ListingReturnsEveryMatchingItem(t, "t", 1, Some(false));
  }
}
