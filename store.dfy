/**
 * The data-access layer: `DynamoDbStore` keeps to-do items and idempotency receipts in the
 * single table and implements create (idempotent per tenant and token), update, delete,
 * get and the paged list.
 */
module Store {
  import opened Wrappers
  import opened Strings
  import opened Entities
  import opened DynamoDb

  datatype UpdateTodoItemArgs = UpdateTodoItemArgs(todoItemId: Ulid, tenantId: string, title: string, notes: string, isCompleted: bool)

  datatype DeleteTodoItemArgs = DeleteTodoItemArgs(todoItemId: Ulid, tenantId: string)

  /** The exceptions CreateTodoItemAsync lets escape. */
  datatype StoreError =
    | TransactionCanceled(reasons: seq<CancellationReason>)  // no condition failed: the cancellation is re-thrown
    | NullPreImage                                           // the receipt's condition held, so no ALL_OLD image was returned
    | DuplicateNotFound                                      // the receipt names an item that no longer exists

  // ---------------------------------------------------------------------------
  // The table's invariant
  // ---------------------------------------------------------------------------

  /** A receipt's item, while it exists, carries the receipt's idempotency token. */
  predicate ReceiptPaired(t: Table, r: IdempotencyEntity) {
    var k := TodoItemEntity.Key(r.tenantId, r.todoItemId);
    k in t && t[k].Item? ==> t[k].item.idempotencyToken == r.idempotencyToken
  }

  predicate StoreInvariant(t: Table) {
    && TableWellKeyed(t)
    && forall k :: k in t && t[k].Receipt? ==> ReceiptPaired(t, t[k].receipt)
  }

  /** No receipt names `id` yet: what generating a fresh ULID guarantees. */
  predicate IdFresh(t: Table, id: Ulid) {
    forall k :: k in t && t[k].Receipt? ==> t[k].receipt.todoItemId != id
  }

  /** Whatever is stored under an item key is the item with that tenant and id. */
  lemma ItemKeyHoldsItem(t: Table, tenantId: string, id: Ulid)
    requires TableWellKeyed(t)
    ensures var k := TodoItemEntity.Key(tenantId, id);
      k in t ==> t[k].Item? && t[k].item.tenantId == tenantId && t[k].item.todoItemId == id
  {
    var k := TodoItemEntity.Key(tenantId, id);
    if k in t {
      match t[k]
      case Item(e) =>
        ItemKeyInjective(e.tenantId, e.todoItemId, tenantId, id);
      case Receipt(e) =>
        KeySpacesDisjoint(tenantId, id, e.idempotencyToken, e.tenantId);
    }
  }

  /** Whatever is stored under a receipt key is the receipt for that token and tenant. */
  lemma ReceiptKeyHoldsReceipt(t: Table, token: Ulid, tenantId: string)
    requires TableWellKeyed(t)
    ensures var k := IdempotencyEntity.Key(token, tenantId);
      k in t ==> t[k].Receipt? && t[k].receipt.idempotencyToken == token && t[k].receipt.tenantId == tenantId
  {
    var k := IdempotencyEntity.Key(token, tenantId);
    if k in t {
      match t[k]
      case Item(e) =>
        KeySpacesDisjoint(e.tenantId, e.todoItemId, token, tenantId);
      case Receipt(e) =>
        IdempotencyKeyInjective(e.idempotencyToken, e.tenantId, token, tenantId);
    }
  }

  // ---------------------------------------------------------------------------
  // The operations on table values
  // ---------------------------------------------------------------------------

  /** GetItem on the item key of (tenant, id). */
  function Lookup(t: Table, tenantId: string, id: Ulid): (r: Option<TodoItemEntity>)
    requires TableWellKeyed(t)
    ensures r.Some? ==> r.value.tenantId == tenantId && r.value.todoItemId == id
    ensures r.Some? ==> r.value.WellKeyed()
  {
    ItemKeyHoldsItem(t, tenantId, id);
    GetItem(t, TodoItemEntity.Key(tenantId, id))
  }

  /**
   * The outcome of CreateTodoItemAsync. A stored receipt for (token, tenant) turns the call
   * into a replay that returns the item the receipt names; otherwise both records are
   * written together, unless the item key is taken (the receipt's condition then holds and
   * no pre-image comes back) or the transaction is cancelled for another reason.
   */
  function CreateSpec(t: Table, args: CreateTodoItemArgs, now: Timestamp, todoItemId: Ulid, conflict: bool): (Table, Result<TodoItemEntity, StoreError>)
    requires StoreInvariant(t)
  {
    var item := TodoItemEntity.Create(args, now, todoItemId);
    var receipt := IdempotencyEntity.Create(args, item);
    var itemKey := item.base.PrimaryKey();
    var receiptKey := receipt.base.PrimaryKey();
    if receiptKey in t then
      ReceiptKeyHoldsReceipt(t, args.idempotencyToken, args.tenantId);
      var duplicate := t[receiptKey].receipt;
      match Lookup(t, duplicate.tenantId, duplicate.todoItemId)
      case Some(e) => (t, Ok(e))
      case None => (t, Err(DuplicateNotFound))
    else if itemKey in t then
      (t, Err(NullPreImage))
    else if conflict then
      (t, Err(TransactionCanceled([CancellationReason(TransactionConflict, None), CancellationReason(TransactionConflict, None)])))
    else
      (t[itemKey := Item(item)][receiptKey := Receipt(receipt)], Ok(item))
  }

  function UpdateKey(args: UpdateTodoItemArgs): Key {
    TodoItemEntity.Key(args.tenantId, args.todoItemId)
  }

  /** The outcome of UpdateTodoItemAsync: the conditional UpdateItem on the item's key. */
  function UpdateSpec(t: Table, args: UpdateTodoItemArgs, now: Timestamp): (Table, Option<TodoItemEntity>)
    requires StoreInvariant(t)
  {
    ItemKeyHoldsItem(t, args.tenantId, args.todoItemId);
    UpdateItem(t, UpdateKey(args), ItemUpdate(args.title, args.notes, args.isCompleted, now))
  }

  /** The outcome of DeleteTodoItemAsync: the conditional DeleteItem on the item's key. */
  function DeleteSpec(t: Table, args: DeleteTodoItemArgs): (Table, bool) {
    DeleteItem(t, TodoItemEntity.Key(args.tenantId, args.todoItemId))
  }

  /** The page ListTodoItemsAsync returns: the tenant's GSI1 partition, item sort keys only, newest first. */
  function ListSpec(t: Table, tenantId: string, limit: nat, isComplete: Option<bool>, paginationToken: Option<string>): Page
    requires TableWellKeyed(t)
    requires limit >= 1
  {
    Query(t, TodoItemEntity.Gsi1Pk(tenantId), TodoItemPrefix, limit, isComplete, paginationToken)
  }

  // ---------------------------------------------------------------------------
  // The store object
  // ---------------------------------------------------------------------------

  class DynamoDbStore {
    var table: Table

    ghost predicate Valid()
      reads this
    {
      StoreInvariant(table)
    }

    constructor ()
      ensures Valid()
      ensures table == map[]
    {
      table := map[];
    }

    method CreateTodoItem(args: CreateTodoItemArgs, now: Timestamp, todoItemId: Ulid, conflict: bool)
      returns (r: Result<TodoItemEntity, StoreError>)
      requires Valid()
      requires IdFresh(table, todoItemId)
      modifies this
      ensures Valid()
      ensures (table, r) == CreateSpec(old(table), args, now, todoItemId, conflict)
    {
      var entity := TodoItemEntity.Create(args, now, todoItemId);
      var idempotencyEntity := IdempotencyEntity.Create(args, entity);
      KeySpacesDisjoint(args.tenantId, todoItemId, args.idempotencyToken, args.tenantId);
      var puts := [TransactPut(Item(entity), false), TransactPut(Receipt(idempotencyEntity), true)];
      CreateKeepsInvariant(table, args, now, todoItemId, conflict);
      PutTwo(table, puts[0], puts[1]);
      assert puts == [puts[0], puts[1]];
      match TransactWrite(table, puts, conflict)
      case Committed(t) =>
        table := t;
        return Ok(entity);
      case Canceled(reasons) =>
        if exists i :: 0 <= i < |reasons| && reasons[i].code == ConditionalCheckFailed {
          var document := reasons[1].item;
          if document.None? {
            return Err(NullPreImage);
          }
          ReceiptKeyHoldsReceipt(table, args.idempotencyToken, args.tenantId);
          var duplicateEntity := document.value.receipt;
          var found := GetTodoItem(duplicateEntity.tenantId, duplicateEntity.todoItemId);
          if found.None? {
            return Err(DuplicateNotFound);
          }
          return Ok(found.value);
        }
        assert reasons[0].code != ConditionalCheckFailed && reasons[1].code != ConditionalCheckFailed;
        assert reasons == [reasons[0], reasons[1]];
        return Err(TransactionCanceled(reasons));
    }

    method UpdateTodoItem(args: UpdateTodoItemArgs, now: Timestamp) returns (r: Option<TodoItemEntity>)
      requires Valid()
      modifies this
      ensures Valid()
      ensures (table, r) == UpdateSpec(old(table), args, now)
    {
      var key := TodoItemEntity.Key(args.tenantId, args.todoItemId);
      ItemKeyHoldsItem(table, args.tenantId, args.todoItemId);
      UpdateKeepsInvariant(table, args, now);
      var result := UpdateItem(table, key, ItemUpdate(args.title, args.notes, args.isCompleted, now));
      table := result.0;
      return result.1;
    }

    method DeleteTodoItem(args: DeleteTodoItemArgs) returns (r: bool)
      requires Valid()
      modifies this
      ensures Valid()
      ensures (table, r) == DeleteSpec(old(table), args)
    {
      var key := TodoItemEntity.Key(args.tenantId, args.todoItemId);
      DeleteKeepsInvariant(table, args);
      var result := DeleteItem(table, key);
      table := result.0;
      return result.1;
    }

    /** The item of `tenantId` with id `todoItemId`, if it is stored. */
    function GetTodoItem(tenantId: string, todoItemId: Ulid): (r: Option<TodoItemEntity>)
      reads this
      requires Valid()
      ensures r.Some? ==> r.value.tenantId == tenantId && r.value.todoItemId == todoItemId
      ensures r.Some? <==> TodoItemEntity.Key(tenantId, todoItemId) in table
      ensures r.Some? ==> table[TodoItemEntity.Key(tenantId, todoItemId)] == Item(r.value)
    {
      ItemKeyHoldsItem(table, tenantId, todoItemId);
      Lookup(table, tenantId, todoItemId)
    }

    /** One page of the tenant's items, newest first, at most `limit` of them. */
    function ListTodoItems(tenantId: string, limit: nat, isComplete: Option<bool>, paginationToken: Option<string>): (p: Page)
      reads this
      requires Valid()
      requires limit >= 1
      ensures |p.items| <= limit
      ensures forall i :: 0 <= i < |p.items| ==>
        p.items[i].tenantId == tenantId && GetTodoItem(tenantId, p.items[i].todoItemId) == Some(p.items[i])
      ensures forall i :: 0 <= i < |p.items| ==> Matches(p.items[i], isComplete)
      ensures NewestFirst(p.items)
      ensures p.lastEvaluatedKey.Some? <==>
        limit <= |IndexSortKeys(table, TodoItemEntity.Gsi1Pk(tenantId), TodoItemPrefix, paginationToken)|
      ensures p.lastEvaluatedKey.Some? ==> forall i :: 0 <= i < |p.items| ==>
        var sk := TodoItemEntity.Sk(p.items[i].todoItemId);
        sk == p.lastEvaluatedKey.value || LexLess(p.lastEvaluatedKey.value, sk)
    {
      ListPageBelongsToTenant(table, tenantId, limit, isComplete, paginationToken);
      ListSpec(table, tenantId, limit, isComplete, paginationToken)
    }
  }

  // ---------------------------------------------------------------------------
  // Properties of the store
  // ---------------------------------------------------------------------------

  /** Create keeps the invariant, given a fresh item id. */
  lemma CreateKeepsInvariant(t: Table, args: CreateTodoItemArgs, now: Timestamp, id: Ulid, conflict: bool)
    requires StoreInvariant(t)
    requires IdFresh(t, id)
    ensures StoreInvariant(CreateSpec(t, args, now, id, conflict).0)
  {
    var item := TodoItemEntity.Create(args, now, id);
    var receipt := IdempotencyEntity.Create(args, item);
    var itemKey := item.base.PrimaryKey();
    var receiptKey := receipt.base.PrimaryKey();
    var t' := CreateSpec(t, args, now, id, conflict).0;
    if t' != t {
      assert t' == t[itemKey := Item(item)][receiptKey := Receipt(receipt)];
      KeySpacesDisjoint(args.tenantId, id, args.idempotencyToken, args.tenantId);
      forall k | k in t' && t'[k].Receipt?
        ensures ReceiptPaired(t', t'[k].receipt)
      {
        if k != receiptKey {
          var r := t[k].receipt;
          var rk := TodoItemEntity.Key(r.tenantId, r.todoItemId);
          ItemKeyInjective(r.tenantId, r.todoItemId, args.tenantId, id);
          KeySpacesDisjoint(r.tenantId, r.todoItemId, args.idempotencyToken, args.tenantId);
          assert ReceiptPaired(t, r);
        }
      }
    }
  }

  lemma UpdateKeepsInvariant(t: Table, args: UpdateTodoItemArgs, now: Timestamp)
    requires StoreInvariant(t)
    ensures StoreInvariant(UpdateSpec(t, args, now).0)
  {
    var k := UpdateKey(args);
    ItemKeyHoldsItem(t, args.tenantId, args.todoItemId);
    if k in t {
      var u := ItemUpdate(args.title, args.notes, args.isCompleted, now);
      var t' := UpdateSpec(t, args, now).0;
      ApplyKeepsIdentity(t[k].item, u);
      forall k' | k' in t' && t'[k'].Receipt?
        ensures ReceiptPaired(t', t'[k'].receipt)
      {
        assert ReceiptPaired(t, t[k'].receipt);
      }
    }
  }

  lemma DeleteKeepsInvariant(t: Table, args: DeleteTodoItemArgs)
    requires StoreInvariant(t)
    ensures StoreInvariant(DeleteSpec(t, args).0)
  {
    var t' := DeleteSpec(t, args).0;
    forall k' | k' in t' && t'[k'].Receipt?
      ensures ReceiptPaired(t', t'[k'].receipt)
    {
      assert ReceiptPaired(t, t[k'].receipt);
    }
  }

  /**
   * A successful create returns an item of the caller's tenant carrying the caller's
   * idempotency token, stored in the resulting table; a failed create writes nothing.
   */
  lemma CreateResult(t: Table, args: CreateTodoItemArgs, now: Timestamp, id: Ulid, conflict: bool)
    requires StoreInvariant(t)
    requires IdFresh(t, id)
    ensures var (t', r) := CreateSpec(t, args, now, id, conflict);
      && (r.Ok? ==> r.value.tenantId == args.tenantId && r.value.idempotencyToken == args.idempotencyToken)
      && (r.Ok? ==> TableWellKeyed(t') && Lookup(t', args.tenantId, r.value.todoItemId) == Some(r.value))
      && (r.Err? ==> t' == t)
  {
    CreateKeepsInvariant(t, args, now, id, conflict);
    var item := TodoItemEntity.Create(args, now, id);
    var receipt := IdempotencyEntity.Create(args, item);
    var receiptKey := receipt.base.PrimaryKey();
    KeySpacesDisjoint(args.tenantId, id, args.idempotencyToken, args.tenantId);
    if receiptKey in t {
      ReceiptKeyHoldsReceipt(t, args.idempotencyToken, args.tenantId);
      var duplicate := t[receiptKey].receipt;
      assert ReceiptPaired(t, duplicate);
      ItemKeyHoldsItem(t, duplicate.tenantId, duplicate.todoItemId);
    }
  }

  /**
   * Create is idempotent: once a create has succeeded, repeating it with the same tenant and
   * token (whatever the clock, the generated id or interference) changes nothing and returns
   * the same item, as long as that item has not been changed since.
   */
  lemma CreateIdempotent(t: Table, args: CreateTodoItemArgs, now1: Timestamp, id1: Ulid, conflict1: bool,
                         now2: Timestamp, id2: Ulid, conflict2: bool)
    requires StoreInvariant(t)
    requires IdFresh(t, id1)
    requires CreateSpec(t, args, now1, id1, conflict1).1.Ok?
    ensures var (t1, r1) := CreateSpec(t, args, now1, id1, conflict1);
      StoreInvariant(t1) && CreateSpec(t1, args, now2, id2, conflict2) == (t1, r1)
  {
    var (t1, r1) := CreateSpec(t, args, now1, id1, conflict1);
    CreateKeepsInvariant(t, args, now1, id1, conflict1);
    CreateResult(t, args, now1, id1, conflict1);
    var receiptKey := IdempotencyEntity.Key(args.idempotencyToken, args.tenantId);
    KeySpacesDisjoint(args.tenantId, id1, args.idempotencyToken, args.tenantId);
    assert receiptKey in t1;
    ReceiptKeyHoldsReceipt(t1, args.idempotencyToken, args.tenantId);
    var item2 := TodoItemEntity.Create(args, now2, id2);
    assert IdempotencyEntity.Create(args, item2).base.PrimaryKey() == receiptKey;
  }

  /** After the item a receipt names is deleted, replaying its create fails instead of re-creating it. */
  lemma ReplayAfterDeleteFails(t: Table, args: CreateTodoItemArgs, now: Timestamp, id: Ulid, conflict: bool)
    requires StoreInvariant(t)
    requires IdempotencyEntity.Key(args.idempotencyToken, args.tenantId) in t
    requires var k := IdempotencyEntity.Key(args.idempotencyToken, args.tenantId);
      t[k].Receipt? && TodoItemEntity.Key(args.tenantId, t[k].receipt.todoItemId) !in t
    ensures CreateSpec(t, args, now, id, conflict) == (t, Err(DuplicateNotFound))
  {
    ReceiptKeyHoldsReceipt(t, args.idempotencyToken, args.tenantId);
  }

  /**
   * Update finds exactly the items Get finds; it assigns title, notes, completion and the
   * update time, keeps everything else about the item, and touches no other record.
   */
  lemma UpdateResult(t: Table, args: UpdateTodoItemArgs, now: Timestamp)
    requires StoreInvariant(t)
    ensures var (t', r) := UpdateSpec(t, args, now);
      var before := Lookup(t, args.tenantId, args.todoItemId);
      && TableWellKeyed(t')
      && (r.Some? <==> before.Some?)
      && (r.None? ==> t' == t)
      && (r.Some? ==>
            && r.value.title == args.title && r.value.notes == args.notes
            && r.value.isCompleted == args.isCompleted && r.value.base.updatedDate == now
            && r.value.base.createdDate == before.value.base.createdDate
            && r.value.idempotencyToken == before.value.idempotencyToken
            && r.value.tenantId == args.tenantId && r.value.todoItemId == args.todoItemId
            && Lookup(t', args.tenantId, args.todoItemId) == r)
      && (forall k :: k != UpdateKey(args) ==> (k in t' <==> k in t) && (k in t ==> t'[k] == t[k]))
  {
    UpdateKeepsInvariant(t, args, now);
    ItemKeyHoldsItem(t, args.tenantId, args.todoItemId);
    var k := UpdateKey(args);
    if k in t {
      ApplyKeepsIdentity(t[k].item, ItemUpdate(args.title, args.notes, args.isCompleted, now));
    }
  }

  /**
   * Delete reports true exactly when Get would have found the item; afterwards Get finds
   * nothing and every other record is untouched, so a second delete reports false.
   */
  lemma DeleteResult(t: Table, args: DeleteTodoItemArgs)
    requires StoreInvariant(t)
    ensures var (t', r) := DeleteSpec(t, args);
      && StoreInvariant(t')
      && (r <==> Lookup(t, args.tenantId, args.todoItemId).Some?)
      && Lookup(t', args.tenantId, args.todoItemId).None?
      && (forall k :: k != TodoItemEntity.Key(args.tenantId, args.todoItemId) ==> (k in t' <==> k in t) && (k in t' ==> t'[k] == t[k]))
      && DeleteSpec(t', args) == (t', false)
  {
    DeleteKeepsInvariant(t, args);
    ItemKeyHoldsItem(t, args.tenantId, args.todoItemId);
  }

  /** Every item on a list page belongs to the tenant, is stored, and passes the completion filter. */
  lemma ListPageBelongsToTenant(t: Table, tenantId: string, limit: nat, isComplete: Option<bool>, paginationToken: Option<string>)
    requires TableWellKeyed(t)
    requires limit >= 1
    ensures var p := ListSpec(t, tenantId, limit, isComplete, paginationToken);
      && |p.items| <= limit
      && (forall i :: 0 <= i < |p.items| ==>
            p.items[i].tenantId == tenantId && Lookup(t, tenantId, p.items[i].todoItemId) == Some(p.items[i]))
      && (forall i :: 0 <= i < |p.items| ==> Matches(p.items[i], isComplete))
      && (forall i :: 0 <= i < |p.items| ==> p.items[i].gsi1sk == TodoItemEntity.Sk(p.items[i].todoItemId))
      && NewestFirst(p.items)
      && (p.lastEvaluatedKey.Some? <==>
            limit <= |IndexSortKeys(t, TodoItemEntity.Gsi1Pk(tenantId), TodoItemPrefix, paginationToken)|)
      && (p.lastEvaluatedKey.Some? ==> forall i :: 0 <= i < |p.items| ==>
            var sk := TodoItemEntity.Sk(p.items[i].todoItemId);
            sk == p.lastEvaluatedKey.value || LexLess(p.lastEvaluatedKey.value, sk))
  {
    var partition := TodoItemEntity.Gsi1Pk(tenantId);
    var p := ListSpec(t, tenantId, limit, isComplete, paginationToken);
    QueryPage(t, partition, TodoItemPrefix, limit, isComplete, paginationToken);
    QueryPageOrder(t, partition, TodoItemPrefix, limit, isComplete, paginationToken);
    forall i | 0 <= i < |p.items|
      ensures && p.items[i].tenantId == tenantId && Lookup(t, tenantId, p.items[i].todoItemId) == Some(p.items[i])
              && p.items[i].gsi1sk == TodoItemEntity.Sk(p.items[i].todoItemId) && p.items[i].WellKeyed()
    {
      var e := p.items[i];
      var k := (partition, e.gsi1sk);
      assert t[k] == Item(e);
      assert e.WellKeyed();
      PrefixCancel(TenantPrefix, e.tenantId, tenantId);
    }
    IndexOrderIsIdOrder(p.items);
  }

  /**
   * Listing with a filter, following pagination tokens to the end, returns exactly the
   * tenant's stored items that pass the filter, each once, newest (largest id) first.
   */
  lemma ListTraversalComplete(t: Table, tenantId: string, limit: nat, isComplete: Option<bool>)
    requires StoreInvariant(t)
    requires limit >= 1
    ensures var all := Traverse(t, TodoItemEntity.Gsi1Pk(tenantId), TodoItemPrefix, limit, isComplete, None);
      && (forall e :: e in all <==> Lookup(t, tenantId, e.todoItemId) == Some(e) && Matches(e, isComplete))
      && NewestFirst(all)
  {
    var partition := TodoItemEntity.Gsi1Pk(tenantId);
    TraverseComplete(t, partition, TodoItemPrefix, limit, isComplete, None);
    TenantItemsNewestFirst(t, tenantId, isComplete);
  }

  lemma TenantItemsNewestFirst(t: Table, tenantId: string, isComplete: Option<bool>)
    requires TableWellKeyed(t)
    ensures var all := AllMatching(t, TodoItemEntity.Gsi1Pk(tenantId), TodoItemPrefix, isComplete, None);
      && (forall e :: e in all <==> Lookup(t, tenantId, e.todoItemId) == Some(e) && Matches(e, isComplete))
      && NewestFirst(all)
  {
    var partition := TodoItemEntity.Gsi1Pk(tenantId);
    var ordered := AllDescending(IndexSortKeys(t, partition, TodoItemPrefix, None));
    IndexSortKeysLocated(t, partition, TodoItemPrefix, None);
    var read := ItemsAt(t, partition, ordered);
    TenantItemsRead(t, tenantId);
    forall j | 0 <= j < |read|
      ensures read[j].gsi1sk == ordered[j]
    {
      assert IndexedAt(t, partition, TodoItemPrefix, ordered[j]);
    }
    ReadInKeyOrder(read, ordered);
    FilterKeepsIndexOrder(read, isComplete);
    var all := AllMatching(t, partition, TodoItemPrefix, isComplete, None);
    assert all == FilterCompleted(read, isComplete);
    forall i | 0 <= i < |all|
      ensures all[i].WellKeyed()
    {
      assert all[i] in read;
      assert Lookup(t, tenantId, all[i].todoItemId) == Some(all[i]);
    }
    IndexOrderIsIdOrder(all);
  }

  /** Reading the whole tenant partition of the index yields exactly the tenant's items. */
  lemma TenantItemsRead(t: Table, tenantId: string)
    requires TableWellKeyed(t)
    ensures var partition := TodoItemEntity.Gsi1Pk(tenantId);
      var ordered := AllDescending(IndexSortKeys(t, partition, TodoItemPrefix, None));
      (forall i :: 0 <= i < |ordered| ==> (partition, ordered[i]) in t && t[(partition, ordered[i])].Item?)
      && forall e :: e in ItemsAt(t, partition, ordered) <==> Lookup(t, tenantId, e.todoItemId) == Some(e)
  {
    var partition := TodoItemEntity.Gsi1Pk(tenantId);
    var ordered := AllDescending(IndexSortKeys(t, partition, TodoItemPrefix, None));
    IndexSortKeysLocated(t, partition, TodoItemPrefix, None);
    var read := ItemsAt(t, partition, ordered);
    forall e
      ensures e in read <==> Lookup(t, tenantId, e.todoItemId) == Some(e)
    {
      if e in read {
        var i :| 0 <= i < |read| && read[i] == e;
        assert t[(partition, ordered[i])] == Item(e);
        assert e.WellKeyed();
        PrefixCancel(TenantPrefix, e.tenantId, tenantId);
      }
      if Lookup(t, tenantId, e.todoItemId) == Some(e) {
        var k := TodoItemEntity.Key(tenantId, e.todoItemId);
        assert t[k] == Item(e) && e.WellKeyed();
        ItemSkMatchesListPrefix(e.todoItemId);
        IndexSortKeysMember(t, partition, TodoItemPrefix, None, e.gsi1sk);
        assert e.gsi1sk in ordered;
        var i :| 0 <= i < |ordered| && ordered[i] == e.gsi1sk;
        assert read[i] == e;
      }
    }
  }

  /** Strictly newest first: each item's id sorts before the ids of the items ahead of it. */
  predicate NewestFirst(items: seq<TodoItemEntity>) {
    forall i, j :: 0 <= i < j < |items| ==> LexLess(items[j].todoItemId, items[i].todoItemId)
  }

  /**
   * For well-keyed items, descending index order is newest-first order: the GSI1 sort key is
   * `TODOITEM#` followed by the id, and that prefix does not change the order.
   */
  lemma IndexOrderIsIdOrder(items: seq<TodoItemEntity>)
    requires forall i :: 0 <= i < |items| ==> items[i].WellKeyed()
    requires IndexDescending(items)
    ensures NewestFirst(items)
  {
    forall i, j | 0 <= i < j < |items|
      ensures LexLess(items[j].todoItemId, items[i].todoItemId)
    {
      assert items[i].gsi1sk == TodoItemEntity.Sk(items[i].todoItemId);
      assert items[j].gsi1sk == TodoItemEntity.Sk(items[j].todoItemId);
      ItemSkOrderIsIdOrder(items[j].todoItemId, items[i].todoItemId);
    }
  }
}
