/**
 * The generated mapper: requests become store arguments by copying same-named properties,
 * and an item becomes its transfer object by dropping the key attributes and the tag.
 * The generated code dereferences a nullable source property whose target is not nullable,
 * so each mapping is only defined for the validated requests the endpoints hand it.
 */
module Mapping {
  import opened Wrappers
  import opened Entities
  import opened Store
  import opened Requests

  /** The item as clients see it: the stored attributes minus PK, SK, GSI1PK, GSI1SK and Entity. */
  datatype TodoItemDto = TodoItemDto(
    todoItemId: Ulid,
    title: string,
    notes: string,
    isCompleted: bool,
    tenantId: string,
    idempotencyToken: Ulid,
    createdDate: Timestamp,
    updatedDate: Timestamp)

  function ToDto(e: TodoItemEntity): (d: TodoItemDto)
    ensures d.todoItemId == e.todoItemId && d.tenantId == e.tenantId
    ensures d.title == e.title && d.notes == e.notes && d.isCompleted == e.isCompleted
    ensures d.idempotencyToken == e.idempotencyToken
    ensures d.createdDate == e.base.createdDate && d.updatedDate == e.base.updatedDate
  {
    TodoItemDto(e.todoItemId, e.title, e.notes, e.isCompleted, e.tenantId, e.idempotencyToken,
      e.base.createdDate, e.base.updatedDate)
  }

  /** The item a transfer object describes, with the keys and tag every stored item carries. */
  function FromDto(d: TodoItemDto): (e: TodoItemEntity)
    ensures e.WellKeyed()
  {
    var pk := TodoItemEntity.Pk(d.tenantId, d.todoItemId);
    var sk := TodoItemEntity.Sk(d.todoItemId);
    TodoItemEntity(
      BaseEntity(pk, sk, TodoItemTag, d.createdDate, d.updatedDate),
      TodoItemEntity.Gsi1Pk(d.tenantId), sk,
      d.tenantId, d.todoItemId, d.title, d.notes, d.isCompleted, d.idempotencyToken)
  }

  /**
   * Nothing is lost by dropping the ignored attributes: they are determined by the ones kept,
   * so a stored item can be rebuilt from its transfer object.
   */
  lemma DtoRoundTrip(e: TodoItemEntity)
    requires e.WellKeyed()
    ensures FromDto(ToDto(e)) == e
  {
  }

  /** Two stored items show the same transfer object only if they are the same item. */
  lemma ToDtoInjective(e1: TodoItemEntity, e2: TodoItemEntity)
    requires e1.WellKeyed() && e2.WellKeyed()
    ensures ToDto(e1) == ToDto(e2) <==> e1 == e2
  {
    DtoRoundTrip(e1);
    DtoRoundTrip(e2);
  }

  /**
   * The projection sees only the eight copied attributes: two items show the same transfer
   * object exactly when they agree on those, whatever their PK, SK, GSI1PK, GSI1SK and tag.
   */
  lemma ToDtoIgnoresKeys(e1: TodoItemEntity, e2: TodoItemEntity)
    ensures ToDto(e1) == ToDto(e2) <==>
      && e1.todoItemId == e2.todoItemId && e1.tenantId == e2.tenantId
      && e1.title == e2.title && e1.notes == e2.notes && e1.isCompleted == e2.isCompleted
      && e1.idempotencyToken == e2.idempotencyToken
      && e1.base.createdDate == e2.base.createdDate && e1.base.updatedDate == e2.base.updatedDate
  {
  }

  function CreateArgs(r: CreateTodoItemRequest): (a: CreateTodoItemArgs)
    reads r
    requires r.tenantId.Some? && r.title.Some? && r.notes.Some? && r.idempotencyToken.Some?
    ensures Some(a.tenantId) == r.tenantId && Some(a.title) == r.title && Some(a.notes) == r.notes
    ensures Some(a.idempotencyToken) == r.idempotencyToken
  {
    CreateTodoItemArgs(r.tenantId.value, r.title.value, r.notes.value, r.idempotencyToken.value)
  }

  function UpdateArgs(r: UpdateTodoItemRequest): (a: UpdateTodoItemArgs)
    reads r
    requires r.tenantId.Some? && r.todoItemId.Some? && r.title.Some? && r.notes.Some? && r.isCompleted.Some?
    ensures Some(a.tenantId) == r.tenantId && Some(a.todoItemId) == r.todoItemId
    ensures Some(a.title) == r.title && Some(a.notes) == r.notes && Some(a.isCompleted) == r.isCompleted
  {
    UpdateTodoItemArgs(r.todoItemId.value, r.tenantId.value, r.title.value, r.notes.value, r.isCompleted.value)
  }

  function DeleteArgs(r: ItemRequest): (a: DeleteTodoItemArgs)
    reads r
    requires r.tenantId.Some? && r.todoItemId.Some?
    ensures Some(a.tenantId) == r.tenantId && Some(a.todoItemId) == r.todoItemId
  {
    DeleteTodoItemArgs(r.todoItemId.value, r.tenantId.value)
  }

  /**
   * The item created for a request shows the client exactly what it sent: the request's tenant,
   * title, notes and token, not yet completed, created and updated at the same instant.
   */
  lemma CreatedItemReflectsRequest(r: CreateTodoItemRequest, now: Timestamp, id: Ulid)
    requires r.tenantId.Some? && r.title.Some? && r.notes.Some? && r.idempotencyToken.Some?
    ensures var d := ToDto(TodoItemEntity.Create(CreateArgs(r), now, id));
      && Some(d.tenantId) == r.tenantId && Some(d.title) == r.title && Some(d.notes) == r.notes
      && Some(d.idempotencyToken) == r.idempotencyToken && d.todoItemId == id
      && !d.isCompleted && d.createdDate == d.updatedDate == now
  {
  }
}
