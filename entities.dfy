/**
 * The two records the store persists in its single table and the key scheme that places
 * them: a to-do item under `TENANT#<tenant>` / `TODOITEM#<item id>`, and its idempotency
 * receipt under `IDEMPOTENCY#<token>#TENANT#<tenant>` / `IDEMPOTENCY#<token>`.
 */
module Entities {
  import opened Strings

  predicate IsCrockfordDigit(c: char) {
    '0' <= c <= '9' || ('A' <= c <= 'Z' && c != 'I' && c != 'L' && c != 'O' && c != 'U')
  }

  /**
   * A ULID in its canonical text form, which is how it appears inside keys: 26 Crockford
   * base-32 characters. Generation (clock plus randomness) is outside the model; fresh ULIDs
   * arrive as parameters.
   */
  type Ulid = s: string | |s| == 26 && forall i :: 0 <= i < |s| ==> IsCrockfordDigit(s[i])
    witness "00000000000000000000000000"

  /** A UTC `DateTime`, as a tick count. */
  type Timestamp = int

  /** Every entity is stored in this one table. */
  const TableName: string := "todo-table"

  const TenantPrefix: string := "TENANT#"
  const TodoItemPrefix: string := "TODOITEM#"
  const IdempotencyPrefix: string := "IDEMPOTENCY#"
  const TodoItemTag: string := "TodoItem"
  const IdempotencyTag: string := "Idempotency"

  /** A primary key: (partition key PK, sort key SK). */
  type Key = (string, string)

  /**
   * The attributes every entity shares. PK, SK, Entity and CreatedDate are init-only;
   * UpdatedDate is the one settable field.
   */
  datatype BaseEntity = BaseEntity(pk: string, sk: string, entity: string, createdDate: Timestamp, updatedDate: Timestamp)
  {
    /** A record is addressed by the pair (PK, SK). */
    function PrimaryKey(): Key {
      (pk, sk)
    }
  }

  /** What the API layer hands to the store to create an item. */
  datatype CreateTodoItemArgs = CreateTodoItemArgs(tenantId: string, title: string, notes: string, idempotencyToken: Ulid)

  datatype TodoItemEntity = TodoItemEntity(
    base: BaseEntity,
    gsi1pk: string,
    gsi1sk: string,
    tenantId: string,
    todoItemId: Ulid,
    title: string,
    notes: string,
    isCompleted: bool,
    idempotencyToken: Ulid)
  {
    /** The partition key of an item: the tenant's partition (the item id does not take part). */
    static function Pk(tenantId: string, todoItemId: Ulid): string {
      TenantPrefix + tenantId
    }

    static function Sk(todoItemId: Ulid): string {
      TodoItemPrefix + todoItemId
    }

    /** The partition key of the secondary index GSI1: one partition per tenant. */
    static function Gsi1Pk(tenantId: string): string {
      TenantPrefix + tenantId
    }

    static function Key(tenantId: string, todoItemId: Ulid): Key {
      (Pk(tenantId, todoItemId), Sk(todoItemId))
    }

    /** The keys and the tag that `Create` writes; they are never changed afterwards. */
    predicate WellKeyed() {
      && base.PrimaryKey() == Key(tenantId, todoItemId)
      && gsi1pk == Gsi1Pk(tenantId)
      && gsi1sk == base.sk
      && base.entity == TodoItemTag
    }

    /** A new item for `args`, stamped with one clock reading and a freshly generated id. */
    static function Create(args: CreateTodoItemArgs, now: Timestamp, todoItemId: Ulid): (e: TodoItemEntity)
      ensures e.WellKeyed()
      ensures e.base.pk == TenantPrefix + args.tenantId
      ensures e.base.sk == TodoItemPrefix + todoItemId && e.todoItemId == todoItemId
      ensures !e.isCompleted
      ensures e.tenantId == args.tenantId && e.title == args.title && e.notes == args.notes
      ensures e.idempotencyToken == args.idempotencyToken
      ensures e.base.createdDate == now && e.base.updatedDate == now
      ensures e.base.entity == "TodoItem"
    {
      var pk := TenantPrefix + args.tenantId;
      var sk := TodoItemPrefix + todoItemId;
      TodoItemEntity(
        BaseEntity(pk, sk, TodoItemTag, now, now),
        pk, sk,
        args.tenantId, todoItemId, args.title, args.notes, false, args.idempotencyToken)
    }
  }

  /** The receipt recording which item a (tenant, idempotency token) pair created. */
  datatype IdempotencyEntity = IdempotencyEntity(
    base: BaseEntity,
    todoItemId: Ulid,
    tenantId: string,
    idempotencyToken: Ulid)
  {
    static function Pk(idempotencyToken: Ulid, tenantId: string): string {
      IdempotencyPrefix + idempotencyToken + "#" + TenantPrefix + tenantId
    }

    static function Sk(idempotencyToken: Ulid): string {
      IdempotencyPrefix + idempotencyToken
    }

    static function Key(idempotencyToken: Ulid, tenantId: string): Key {
      (Pk(idempotencyToken, tenantId), Sk(idempotencyToken))
    }

    predicate WellKeyed() {
      && base.PrimaryKey() == Key(idempotencyToken, tenantId)
      && base.entity == IdempotencyTag
    }

    /** The receipt paired with `item`, the item `Create` built from the same `args`. */
    static function Create(args: CreateTodoItemArgs, item: TodoItemEntity): (e: IdempotencyEntity)
      ensures e.WellKeyed()
      ensures e.base.pk == "IDEMPOTENCY#" + args.idempotencyToken + "#TENANT#" + args.tenantId
      ensures e.base.sk == "IDEMPOTENCY#" + args.idempotencyToken
      ensures e.todoItemId == item.todoItemId
      ensures e.tenantId == args.tenantId && e.idempotencyToken == args.idempotencyToken
      ensures e.base.createdDate == item.base.createdDate && e.base.updatedDate == item.base.updatedDate
      ensures e.base.entity == "Idempotency"
    {
      var pk := IdempotencyPrefix + args.idempotencyToken + "#" + TenantPrefix + args.tenantId;
      var sk := IdempotencyPrefix + args.idempotencyToken;
      IdempotencyEntity(
        BaseEntity(pk, sk, IdempotencyTag, item.base.createdDate, item.base.updatedDate),
        item.todoItemId, args.tenantId, args.idempotencyToken)
    }
  }

  // ---------------------------------------------------------------------------
  // Properties of the key scheme
  // ---------------------------------------------------------------------------

  /** An item key names exactly one (tenant, item id) pair. */
  lemma ItemKeyInjective(tenant1: string, id1: Ulid, tenant2: string, id2: Ulid)
    ensures TodoItemEntity.Key(tenant1, id1) == TodoItemEntity.Key(tenant2, id2) <==> tenant1 == tenant2 && id1 == id2
  {
    PrefixCancel(TenantPrefix, tenant1, tenant2);
    PrefixCancel(TodoItemPrefix, id1, id2);
  }

  /** Distinct item ids give distinct sort keys. */
  lemma ItemSkInjective(id1: Ulid, id2: Ulid)
    ensures TodoItemEntity.Sk(id1) == TodoItemEntity.Sk(id2) <==> id1 == id2
  {
    PrefixCancel(TodoItemPrefix, id1, id2);
  }

  /** A receipt key names exactly one (token, tenant) pair. */
  lemma IdempotencyKeyInjective(token1: Ulid, tenant1: string, token2: Ulid, tenant2: string)
    ensures IdempotencyEntity.Key(token1, tenant1) == IdempotencyEntity.Key(token2, tenant2)
        <==> token1 == token2 && tenant1 == tenant2
  {
    PrefixCancel(IdempotencyPrefix, token1, token2);
    if token1 == token2 {
      var p := IdempotencyPrefix + token1 + "#" + TenantPrefix;
      assert IdempotencyEntity.Pk(token1, tenant1) == p + tenant1;
      assert IdempotencyEntity.Pk(token2, tenant2) == p + tenant2;
      PrefixCancel(p, tenant1, tenant2);
    }
  }

  /** Item records and receipts never share a partition key or a sort key. */
  lemma KeySpacesDisjoint(tenant: string, id: Ulid, token: Ulid, tenant': string)
    ensures TodoItemEntity.Pk(tenant, id) != IdempotencyEntity.Pk(token, tenant')
    ensures TodoItemEntity.Sk(id) != IdempotencyEntity.Sk(token)
    ensures TodoItemEntity.Key(tenant, id) != IdempotencyEntity.Key(token, tenant')
  {
    assert TodoItemEntity.Pk(tenant, id)[0] == 'T';
    assert IdempotencyEntity.Pk(token, tenant')[0] == 'I';
    assert TodoItemEntity.Sk(id)[0] == 'T';
    assert IdempotencyEntity.Sk(token)[0] == 'I';
  }

  /** Every item sort key matches the `begins_with(GSI1SK, "TODOITEM#")` condition of List. */
  lemma ItemSkMatchesListPrefix(id: Ulid)
    ensures StartsWith(TodoItemEntity.Sk(id), TodoItemPrefix)
  {
    StartsWithConcat(TodoItemPrefix, id);
  }

  /** No receipt sort key matches it, so List can never return a receipt. */
  lemma ReceiptSkNeverMatchesListPrefix(token: Ulid)
    ensures !StartsWith(IdempotencyEntity.Sk(token), TodoItemPrefix)
  {
    var sk := IdempotencyEntity.Sk(token);
    assert sk[..|TodoItemPrefix|][0] == 'I';
  }

  /** Sort-key order between two items is the text order of their ULIDs (newest last). */
  lemma ItemSkOrderIsIdOrder(id1: Ulid, id2: Ulid)
    ensures LexLess(TodoItemEntity.Sk(id1), TodoItemEntity.Sk(id2)) <==> LexLess(id1, id2)
  {
    LexCommonPrefix(TodoItemPrefix, id1, id2);
  }

  /**
   * The receipt partition key begins with the token, while the repository's unit test expects
   * `TENANT#<tenant>#IDEMPOTENCY#<token>`: the two never coincide.
   */
  lemma ReceiptPkDiffersFromTestExpectation(token: Ulid, tenant: string)
    ensures IdempotencyEntity.Pk(token, tenant) != TenantPrefix + tenant + "#" + IdempotencyPrefix + token
  {
    assert IdempotencyEntity.Pk(token, tenant)[0] == 'I';
    assert (TenantPrefix + tenant + "#" + IdempotencyPrefix + token)[0] == 'T';
  }

  /** The SK of a new item embeds exactly the id stored on it, and its receipt points back at it. */
  lemma CreatedPairAgrees(args: CreateTodoItemArgs, now: Timestamp, id: Ulid)
    ensures var item := TodoItemEntity.Create(args, now, id);
      var receipt := IdempotencyEntity.Create(args, item);
      && item.base.PrimaryKey() == TodoItemEntity.Key(receipt.tenantId, receipt.todoItemId)
      && item.base.PrimaryKey() != receipt.base.PrimaryKey()
      && item.idempotencyToken == receipt.idempotencyToken
      && receipt.base.createdDate == receipt.base.updatedDate
  {
    KeySpacesDisjoint(args.tenantId, id, args.idempotencyToken, args.tenantId);
  }
}
