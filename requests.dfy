/**
 * The endpoints' request objects, the validators each endpoint declares, and the global
 * pre-processor that standardises the tenant id of every request carrying one.
 */
module Requests {
  import opened Wrappers
  import opened Strings
  import opened Entities
  import opened Validation

  class CreateTodoItemRequest {
    var tenantId: Option<string>
    var title: Option<string>
    var notes: Option<string>
    var idempotencyToken: Option<Ulid>

    constructor (tenantId: Option<string>, title: Option<string>, notes: Option<string>, idempotencyToken: Option<Ulid>)
      ensures this.tenantId == tenantId && this.title == title && this.notes == notes
      ensures this.idempotencyToken == idempotencyToken
    {
      this.tenantId := tenantId;
      this.title := title;
      this.notes := notes;
      this.idempotencyToken := idempotencyToken;
    }
  }

  class UpdateTodoItemRequest {
    var tenantId: Option<string>
    var todoItemId: Option<Ulid>
    var title: Option<string>
    var notes: Option<string>
    var isCompleted: Option<bool>

    constructor (tenantId: Option<string>, todoItemId: Option<Ulid>, title: Option<string>, notes: Option<string>, isCompleted: Option<bool>)
      ensures this.tenantId == tenantId && this.todoItemId == todoItemId
      ensures this.title == title && this.notes == notes && this.isCompleted == isCompleted
    {
      this.tenantId := tenantId;
      this.todoItemId := todoItemId;
      this.title := title;
      this.notes := notes;
      this.isCompleted := isCompleted;
    }
  }

  /** The request of the Delete endpoint and, with the same two fields, of the Get endpoint. */
  class ItemRequest {
    var tenantId: Option<string>
    var todoItemId: Option<Ulid>

    constructor (tenantId: Option<string>, todoItemId: Option<Ulid>)
      ensures this.tenantId == tenantId && this.todoItemId == todoItemId
    {
      this.tenantId := tenantId;
      this.todoItemId := todoItemId;
    }
  }

  class ListTodoItemsRequest {
    var tenantId: Option<string>
    var limit: Option<int>
    var paginationToken: Option<string>
    var isCompleted: Option<bool>

    constructor (tenantId: Option<string>, limit: Option<int>, paginationToken: Option<string>, isCompleted: Option<bool>)
      ensures this.tenantId == tenantId && this.limit == limit
      ensures this.paginationToken == paginationToken && this.isCompleted == isCompleted
    {
      this.tenantId := tenantId;
      this.limit := limit;
      this.paginationToken := paginationToken;
      this.isCompleted := isCompleted;
    }
  }

  // ---------------------------------------------------------------------------
  // Validators
  // ---------------------------------------------------------------------------

  function OtherValue<T>(v: Option<T>): Value {
    Other(v.Some?)
  }

  /** Tenant id not empty; title and notes not empty and 3..100 characters long. */
  function CreateTodoItemFailures(r: CreateTodoItemRequest): (fs: seq<Failure>)
    reads r
    ensures fs == [] <==> NonEmptyText(r.tenantId) && ValidText(r.title) && ValidText(r.notes)
    ensures forall f :: f in fs ==> f.propertyName in {"TenantId", "Title", "Notes"}
    ensures (exists f :: f in fs && f.propertyName == "Title") <==> !ValidText(r.title)
    ensures (exists f :: f in fs && f.propertyName == "Notes") <==> !ValidText(r.notes)
  {
    NotEmptyAccepts("TenantId", r.tenantId);
    TextRulesAccept("Title", r.title);
    TextRulesAccept("Notes", r.notes);
    Check("TenantId", Text(r.tenantId), [NotEmpty])
      + Check("Title", Text(r.title), TextRules)
      + Check("Notes", Text(r.notes), TextRules)
  }

  /** As for Create, plus a present item id and a present completion flag. */
  function UpdateTodoItemFailures(r: UpdateTodoItemRequest): (fs: seq<Failure>)
    reads r
    ensures fs == [] <==>
      && NonEmptyText(r.tenantId) && r.todoItemId.Some?
      && ValidText(r.title) && ValidText(r.notes) && r.isCompleted.Some?
    ensures forall f :: f in fs ==> f.propertyName in {"TenantId", "TodoItemId", "Title", "Notes", "IsCompleted"}
    ensures (exists f :: f in fs && f.propertyName == "TodoItemId") <==> r.todoItemId.None?
    ensures (exists f :: f in fs && f.propertyName == "IsCompleted") <==> r.isCompleted.None?
  {
    NotEmptyAccepts("TenantId", r.tenantId);
    NotNullAccepts("TodoItemId", r.todoItemId.Some?);
    TextRulesAccept("Title", r.title);
    TextRulesAccept("Notes", r.notes);
    NotNullAccepts("IsCompleted", r.isCompleted.Some?);
    Check("TenantId", Text(r.tenantId), [NotEmpty])
      + Check("TodoItemId", OtherValue(r.todoItemId), [NotNull])
      + Check("Title", Text(r.title), TextRules)
      + Check("Notes", Text(r.notes), TextRules)
      + Check("IsCompleted", OtherValue(r.isCompleted), [NotNull])
  }

  /** The Delete and Get validators: tenant id not empty, item id present. */
  function ItemRequestFailures(r: ItemRequest): (fs: seq<Failure>)
    reads r
    ensures fs == [] <==> NonEmptyText(r.tenantId) && r.todoItemId.Some?
    ensures forall f :: f in fs ==> f.propertyName in {"TenantId", "TodoItemId"}
  {
    NotEmptyAccepts("TenantId", r.tenantId);
    NotNullAccepts("TodoItemId", r.todoItemId.Some?);
    Check("TenantId", Text(r.tenantId), [NotEmpty])
      + Check("TodoItemId", OtherValue(r.todoItemId), [NotNull])
  }

  /** Tenant id not empty; a given limit lies in 1..50 (an absent one is accepted). */
  function ListTodoItemsFailures(r: ListTodoItemsRequest): (fs: seq<Failure>)
    reads r
    ensures fs == [] <==> NonEmptyText(r.tenantId) && (r.limit.None? || 1 <= r.limit.value <= 50)
    ensures forall f :: f in fs ==> f.propertyName in {"TenantId", "Limit"}
  {
    NotEmptyAccepts("TenantId", r.tenantId);
    LimitRulesAccept("Limit", r.limit);
    Check("TenantId", Text(r.tenantId), [NotEmpty]) + Check("Limit", Number(r.limit), LimitRules)
  }

  /** A create request missing both title and notes fails exactly one rule on each of them. */
  lemma CreateMissingTitleAndNotes(r: CreateTodoItemRequest)
    requires NonEmptyText(r.tenantId) && r.title.None? && r.notes.None?
    ensures CreateTodoItemFailures(r) == [Failure("Title", NotEmpty), Failure("Notes", NotEmpty)]
  {
    NotEmptyAccepts("TenantId", r.tenantId);
    InvalidTextExamples("Title");
    InvalidTextExamples("Notes");
  }

  /** An update request that is valid except for a missing item id fails on exactly that property. */
  lemma UpdateMissingItemId(r: UpdateTodoItemRequest)
    requires NonEmptyText(r.tenantId) && r.todoItemId.None?
    requires ValidText(r.title) && ValidText(r.notes) && r.isCompleted.Some?
    ensures UpdateTodoItemFailures(r) == [Failure("TodoItemId", NotNull)]
  {
    NotEmptyAccepts("TenantId", r.tenantId);
    NotNullAccepts("TodoItemId", false);
    TextRulesAccept("Title", r.title);
    TextRulesAccept("Notes", r.notes);
    NotNullAccepts("IsCompleted", true);
  }

  /** A list request asking for 51 items fails exactly one rule. */
  lemma ListLimitTooLarge(r: ListTodoItemsRequest)
    requires NonEmptyText(r.tenantId) && r.limit == Some(51)
    ensures ListTodoItemsFailures(r) == [Failure("Limit", LessThanOrEqualTo(50))]
  {
    NotEmptyAccepts("TenantId", r.tenantId);
    LimitExamples("Limit");
  }

  // ---------------------------------------------------------------------------
  // Tenant id standardisation
  // ---------------------------------------------------------------------------

  /** Any request reaching the pipeline: one of the four that carry a tenant id, or another. */
  datatype AnyRequest =
    | ForCreate(create: CreateTodoItemRequest)
    | ForUpdate(update: UpdateTodoItemRequest)
    | ForItem(item: ItemRequest)
    | ForList(list: ListTodoItemsRequest)
    | WithoutTenant
  {
    predicate HasTenantId() {
      !WithoutTenant?
    }

    function Objects(): set<object> {
      match this
      case ForCreate(r) => {r}
      case ForUpdate(r) => {r}
      case ForItem(r) => {r}
      case ForList(r) => {r}
      case WithoutTenant => {}
    }

    function TenantId(): Option<string>
      requires HasTenantId()
      reads Objects()
    {
      match this
      case ForCreate(r) => r.tenantId
      case ForUpdate(r) => r.tenantId
      case ForItem(r) => r.tenantId
      case ForList(r) => r.tenantId
    }
  }

  /**
   * The point of standardising: two spellings of a tenant id reach the same stored item
   * after pre-processing exactly when they differ only in letter case.
   */
  lemma StandardisedTenantsShareKeys(a: string, b: string, id: Ulid)
    ensures TodoItemEntity.Key(ToLower(a), id) == TodoItemEntity.Key(ToLower(b), id) <==> EqualIgnoringCase(a, b)
  {
    ItemKeyInjective(ToLower(a), id, ToLower(b), id);
    ToLowerEqualIff(a, b);
  }

  /**
   * Replaces the tenant id of a request that carries one by its lower-case form, leaving
   * every other field alone. A null tenant id is dereferenced and throws (`thrown`).
   */
  method PreProcess(request: AnyRequest) returns (thrown: bool)
    modifies request.Objects()
    ensures !request.HasTenantId() ==> !thrown
    ensures request.HasTenantId() ==> (thrown <==> old(request.TenantId()).None?)
    ensures request.HasTenantId() && !thrown ==> request.TenantId() == Some(ToLower(old(request.TenantId()).value))
    ensures request.HasTenantId() && thrown ==> request.TenantId() == old(request.TenantId())
    ensures request.ForCreate? ==>
      && request.create.title == old(request.create.title)
      && request.create.notes == old(request.create.notes)
      && request.create.idempotencyToken == old(request.create.idempotencyToken)
    ensures request.ForUpdate? ==>
      && request.update.todoItemId == old(request.update.todoItemId)
      && request.update.title == old(request.update.title)
      && request.update.notes == old(request.update.notes)
      && request.update.isCompleted == old(request.update.isCompleted)
    ensures request.ForItem? ==> request.item.todoItemId == old(request.item.todoItemId)
    ensures request.ForList? ==>
      && request.list.limit == old(request.list.limit)
      && request.list.paginationToken == old(request.list.paginationToken)
      && request.list.isCompleted == old(request.list.isCompleted)
  {
    if !request.HasTenantId() {
      return false;
    }
    var current := request.TenantId();
    if current.None? {
      return true;
    }
    var lowered := Some(ToLower(current.value));
    match request {
      case ForCreate(r) => r.tenantId := lowered;
      case ForUpdate(r) => r.tenantId := lowered;
      case ForItem(r) => r.tenantId := lowered;
      case ForList(r) => r.tenantId := lowered;
    }
    thrown := false;
  }
}
