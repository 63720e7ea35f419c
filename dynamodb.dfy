/**
 * The behaviour of the DynamoDB table the store talks to, restricted to the operations it
 * uses: a two-put transaction with `attribute_not_exists(PK)` conditions, conditional
 * UpdateItem and DeleteItem, GetItem, and a backward query on the secondary index GSI1
 * with a limit, a filter expression and a cursor.
 */
module DynamoDb {
  import opened Wrappers
  import opened Strings
  import opened Entities

  /** One stored record of the single table. */
  datatype Record = Item(item: TodoItemEntity) | Receipt(receipt: IdempotencyEntity)
  {
    function Base(): BaseEntity {
      match this
      case Item(e) => e.base
      case Receipt(e) => e.base
    }

    function PrimaryKey(): Key {
      Base().PrimaryKey()
    }

    predicate WellKeyed() {
      match this
      case Item(e) => e.WellKeyed()
      case Receipt(e) => e.WellKeyed()
    }
  }

  /** The table: records by primary key. */
  type Table = map<Key, Record>

  /** Every record sits under its own primary key, and carries the keys its `Create` gave it. */
  predicate TableWellKeyed(t: Table) {
    forall k :: k in t ==> t[k].PrimaryKey() == k && t[k].WellKeyed()
  }

  // ---------------------------------------------------------------------------
  // TransactWriteItems with conditional puts
  // ---------------------------------------------------------------------------

  const ConditionalCheckFailed: string := "ConditionalCheckFailed"
  const TransactionConflict: string := "TransactionConflict"
  const NoFailure: string := "None"

  /** A put whose condition is `attribute_not_exists(PK)`, optionally returning ALL_OLD on failure. */
  datatype TransactPut = TransactPut(record: Record, returnAllOldOnFailure: bool)

  datatype CancellationReason = CancellationReason(code: string, item: Option<Record>)

  datatype TransactOutcome = Committed(table: Table) | Canceled(reasons: seq<CancellationReason>)

  function KeyOf(p: TransactPut): Key {
    p.record.PrimaryKey()
  }

  function KeysOf(puts: seq<TransactPut>): set<Key> {
    set i | 0 <= i < |puts| :: KeyOf(puts[i])
  }

  /** A transaction may touch each item only once. */
  predicate DistinctKeys(puts: seq<TransactPut>) {
    forall i, j :: 0 <= i < j < |puts| ==> KeyOf(puts[i]) != KeyOf(puts[j])
  }

  /** The reason reported for one put: its condition failed exactly when a record already has its key. */
  function Reason(t: Table, p: TransactPut): (r: CancellationReason)
    ensures r.code == ConditionalCheckFailed <==> KeyOf(p) in t
    ensures r.item.Some? <==> KeyOf(p) in t && p.returnAllOldOnFailure
    ensures r.item.Some? ==> r.item.value == t[KeyOf(p)]
  {
    if KeyOf(p) in t then
      CancellationReason(ConditionalCheckFailed, if p.returnAllOldOnFailure then Some(t[KeyOf(p)]) else None)
    else
      CancellationReason(NoFailure, None)
  }

  /** Writes every put, one after the other. */
  function PutAll(t: Table, puts: seq<TransactPut>): (r: Table)
    requires DistinctKeys(puts)
    ensures forall i :: 0 <= i < |puts| ==> KeyOf(puts[i]) in r && r[KeyOf(puts[i])] == puts[i].record
    ensures forall k :: k in r <==> k in t || k in KeysOf(puts)
    ensures forall k :: k in t && k !in KeysOf(puts) ==> r[k] == t[k]
    decreases |puts|
  {
    if puts == [] then t
    else
      var rest := puts[1..];
      assert forall k :: k in KeysOf(puts) <==> k == KeyOf(puts[0]) || k in KeysOf(rest) by {
        forall k | k in KeysOf(puts) && k != KeyOf(puts[0])
          ensures k in KeysOf(rest)
        {
          var i :| 0 <= i < |puts| && KeyOf(puts[i]) == k;
          assert KeyOf(rest[i - 1]) == k;
        }
        forall k | k in KeysOf(rest)
          ensures k in KeysOf(puts)
        {
          var i :| 0 <= i < |rest| && KeyOf(rest[i]) == k;
          assert KeyOf(puts[i + 1]) == k;
        }
      }
      assert KeyOf(puts[0]) !in KeysOf(rest) by {
        forall i | 0 <= i < |rest|
          ensures KeyOf(rest[i]) != KeyOf(puts[0])
        {
          assert rest[i] == puts[i + 1];
        }
      }
      var r := PutAll(t[KeyOf(puts[0]) := puts[0].record], rest);
      assert forall i :: 1 <= i < |puts| ==> puts[i] == rest[i - 1];
      r
  }

  /** A transaction of two puts writes both records. */
  lemma PutTwo(t: Table, a: TransactPut, b: TransactPut)
    requires KeyOf(a) != KeyOf(b)
    ensures DistinctKeys([a, b])
    ensures PutAll(t, [a, b]) == t[KeyOf(a) := a.record][KeyOf(b) := b.record]
  {
    assert [a, b][1..] == [b];
    assert [b][1..] == [];
  }

  /**
   * All-or-nothing: the transaction commits every put when no condition fails and no
   * concurrent transaction interferes (`conflict`); otherwise nothing is written and one
   * reason per put is reported, in the order the puts were given.
   */
  function TransactWrite(t: Table, puts: seq<TransactPut>, conflict: bool): (o: TransactOutcome)
    requires DistinctKeys(puts)
    ensures o.Committed? <==> !conflict && forall i :: 0 <= i < |puts| ==> KeyOf(puts[i]) !in t
    ensures o.Committed? ==> o.table == PutAll(t, puts)
    ensures o.Canceled? ==> |o.reasons| == |puts|
    ensures o.Canceled? && (exists i :: 0 <= i < |puts| && KeyOf(puts[i]) in t) ==>
      forall i :: 0 <= i < |puts| ==> o.reasons[i] == Reason(t, puts[i])
    ensures o.Canceled? && (forall i :: 0 <= i < |puts| ==> KeyOf(puts[i]) !in t) ==>
      forall i :: 0 <= i < |puts| ==> o.reasons[i] == CancellationReason(TransactionConflict, None)
  {
    if exists i :: 0 <= i < |puts| && KeyOf(puts[i]) in t then
      Canceled(seq(|puts|, i requires 0 <= i < |puts| => Reason(t, puts[i])))
    else if conflict then
      Canceled(seq(|puts|, i => CancellationReason(TransactionConflict, None)))
    else
      Committed(PutAll(t, puts))
  }

  // ---------------------------------------------------------------------------
  // Conditional UpdateItem and DeleteItem, GetItem
  // ---------------------------------------------------------------------------

  /** The attributes UpdateItem assigns. */
  datatype ItemUpdate = ItemUpdate(title: string, notes: string, isCompleted: bool, updatedDate: Timestamp)

  function Apply(e: TodoItemEntity, u: ItemUpdate): TodoItemEntity {
    e.(title := u.title, notes := u.notes, isCompleted := u.isCompleted,
       base := e.base.(updatedDate := u.updatedDate))
  }

  /** An update changes the four assigned attributes and keeps the identity, keys and creation date. */
  lemma ApplyKeepsIdentity(e: TodoItemEntity, u: ItemUpdate)
    ensures var n := Apply(e, u);
      && n.title == u.title && n.notes == u.notes && n.isCompleted == u.isCompleted
      && n.base.updatedDate == u.updatedDate
      && n.base.PrimaryKey() == e.base.PrimaryKey() && n.base.entity == e.base.entity
      && n.base.createdDate == e.base.createdDate
      && n.gsi1pk == e.gsi1pk && n.gsi1sk == e.gsi1sk
      && n.tenantId == e.tenantId && n.todoItemId == e.todoItemId
      && n.idempotencyToken == e.idempotencyToken
      && (e.WellKeyed() ==> n.WellKeyed())
  {
  }

  /**
   * UpdateItem with the condition `attribute_exists(PK) AND attribute_exists(SK)` and
   * ReturnValues ALL_NEW: when a record is stored under `k` it is updated and returned,
   * otherwise the condition fails and nothing changes.
   */
  function UpdateItem(t: Table, k: Key, u: ItemUpdate): (r: (Table, Option<TodoItemEntity>))
    requires k in t ==> t[k].Item?
    ensures k in t <==> r.1.Some?
    ensures k in t ==> r.1.value == Apply(t[k].item, u) && r.0 == t[k := Item(r.1.value)]
    ensures k !in t ==> r.0 == t
  {
    if k in t then
      var n := Apply(t[k].item, u);
      (t[k := Item(n)], Some(n))
    else
      (t, None)
  }

  /** DeleteItem with the same existence condition: reports whether a record was removed. */
  function DeleteItem(t: Table, k: Key): (r: (Table, bool))
    ensures r.1 <==> k in t
    ensures k !in r.0 && forall k' :: k' != k ==> (k' in r.0 <==> k' in t)
    ensures forall k' :: k' in r.0 ==> r.0[k'] == t[k']
  {
    if k in t then (t - {k}, true) else (t, false)
  }

  /** GetItem read as a to-do item: absent unless an item is stored under `k`. */
  function GetItem(t: Table, k: Key): (r: Option<TodoItemEntity>)
    ensures r.Some? <==> k in t && t[k].Item?
    ensures r.Some? ==> t[k] == Item(r.value)
  {
    if k in t && t[k].Item? then Some(t[k].item) else None
  }

  // ---------------------------------------------------------------------------
  // Query on the index GSI1, newest first, with Limit, FilterExpression and cursor
  // ---------------------------------------------------------------------------

  /** The record appears in the index partition `partition` and its index sort key begins with `prefix`. */
  predicate InIndex(r: Record, partition: string, prefix: string) {
    r.Item? && r.item.gsi1pk == partition && StartsWith(r.item.gsi1sk, prefix)
  }

  /** A backward query resumes strictly below the last evaluated sort key. */
  predicate Below(s: string, start: Option<string>) {
    start.None? || LexLess(s, start.value)
  }

  /** The index sort keys the key condition selects, below the cursor. */
  function IndexSortKeys(t: Table, partition: string, prefix: string, start: Option<string>): set<string> {
    set k | k in t && InIndex(t[k], partition, prefix) && Below(t[k].item.gsi1sk, start) :: t[k].item.gsi1sk
  }

  /** In a well-keyed table an index entry of `partition` is the item stored under `(partition, sk)`. */
  predicate IndexedAt(t: Table, partition: string, prefix: string, sk: string) {
    (partition, sk) in t && InIndex(t[(partition, sk)], partition, prefix) && t[(partition, sk)].item.gsi1sk == sk
  }

  lemma IndexSortKeysMember(t: Table, partition: string, prefix: string, start: Option<string>, sk: string)
    requires TableWellKeyed(t)
    ensures sk in IndexSortKeys(t, partition, prefix, start) <==> IndexedAt(t, partition, prefix, sk) && Below(sk, start)
  {
    if sk in IndexSortKeys(t, partition, prefix, start) {
      var k :| k in t && InIndex(t[k], partition, prefix) && Below(t[k].item.gsi1sk, start) && t[k].item.gsi1sk == sk;
      assert t[k].PrimaryKey() == k && t[k].item.WellKeyed();
    }
    if IndexedAt(t, partition, prefix, sk) && Below(sk, start) {
      var k := (partition, sk);
      assert k in t && InIndex(t[k], partition, prefix) && Below(t[k].item.gsi1sk, start);
    }
  }

  lemma IndexSortKeysLocated(t: Table, partition: string, prefix: string, start: Option<string>)
    requires TableWellKeyed(t)
    ensures forall sk :: sk in IndexSortKeys(t, partition, prefix, start) ==> IndexedAt(t, partition, prefix, sk) && Below(sk, start)
  {
    forall sk | sk in IndexSortKeys(t, partition, prefix, start)
      ensures IndexedAt(t, partition, prefix, sk) && Below(sk, start)
    {
      IndexSortKeysMember(t, partition, prefix, start, sk);
    }
  }

  /** The items stored under the given index sort keys, in the same order. */
  function ItemsAt(t: Table, partition: string, sks: seq<string>): (r: seq<TodoItemEntity>)
    requires forall i :: 0 <= i < |sks| ==> (partition, sks[i]) in t && t[(partition, sks[i])].Item?
    ensures |r| == |sks|
    ensures forall i :: 0 <= i < |sks| ==> t[(partition, sks[i])] == Item(r[i])
  {
    seq(|sks|, i requires 0 <= i < |sks| => t[(partition, sks[i])].item)
  }

  lemma ItemsAtAppend(t: Table, partition: string, a: seq<string>, b: seq<string>)
    requires forall i :: 0 <= i < |a| ==> (partition, a[i]) in t && t[(partition, a[i])].Item?
    requires forall i :: 0 <= i < |b| ==> (partition, b[i]) in t && t[(partition, b[i])].Item?
    ensures forall i :: 0 <= i < |a + b| ==> (partition, (a + b)[i]) in t && t[(partition, (a + b)[i])].Item?
    ensures ItemsAt(t, partition, a + b) == ItemsAt(t, partition, a) + ItemsAt(t, partition, b)
  {
    assert forall i :: 0 <= i < |a + b| ==> (a + b)[i] == if i < |a| then a[i] else b[i - |a|];
  }

  /** The filter expression `IsCompleted = :v`, applied when a value is given. */
  predicate Matches(e: TodoItemEntity, filter: Option<bool>) {
    filter.None? || e.isCompleted == filter.value
  }

  function FilterCompleted(items: seq<TodoItemEntity>, filter: Option<bool>): (r: seq<TodoItemEntity>)
    ensures |r| <= |items|
    ensures forall e :: e in r <==> e in items && Matches(e, filter)
    ensures filter.None? ==> r == items
    decreases |items|
  {
    if items == [] then []
    else
      var rest := FilterCompleted(items[1..], filter);
      assert items == [items[0]] + items[1..];
      if Matches(items[0], filter) then [items[0]] + rest else rest
  }

  lemma {:induction false} FilterCompletedAppend(a: seq<TodoItemEntity>, b: seq<TodoItemEntity>, filter: Option<bool>)
    ensures FilterCompleted(a + b, filter) == FilterCompleted(a, filter) + FilterCompleted(b, filter)
    decreases |a|
  {
    if a != [] {
      assert (a + b)[1..] == a[1..] + b;
      FilterCompletedAppend(a[1..], b, filter);
    } else {
      assert a + b == b;
    }
  }

  /** Strictly descending by index sort key: the order a backward query returns items in. */
  predicate IndexDescending(items: seq<TodoItemEntity>) {
    forall i, j :: 0 <= i < j < |items| ==> LexLess(items[j].gsi1sk, items[i].gsi1sk)
  }

  /** The filter keeps the relative order of the items it keeps. */
  lemma {:induction false} FilterKeepsIndexOrder(items: seq<TodoItemEntity>, filter: Option<bool>)
    requires IndexDescending(items)
    ensures IndexDescending(FilterCompleted(items, filter))
    decreases |items|
  {
    if items != [] {
      var rest := FilterCompleted(items[1..], filter);
      assert IndexDescending(items[1..]) by {
        forall i, j | 0 <= i < j < |items[1..]|
          ensures LexLess(items[1..][j].gsi1sk, items[1..][i].gsi1sk)
        {
          assert items[1..][j] == items[j + 1] && items[1..][i] == items[i + 1];
        }
      }
      FilterKeepsIndexOrder(items[1..], filter);
      var r := FilterCompleted(items, filter);
      if Matches(items[0], filter) {
        assert r == [items[0]] + rest;
        forall i, j | 0 <= i < j < |r|
          ensures LexLess(r[j].gsi1sk, r[i].gsi1sk)
        {
          assert r[j] == rest[j - 1];
          if i == 0 {
            assert r[j] in items[1..];
            var k :| 0 <= k < |items[1..]| && items[1..][k] == r[j];
            assert items[k + 1] == r[j];
          } else {
            assert r[i] == rest[i - 1];
          }
        }
      } else {
        assert r == rest;
      }
    }
  }

  /** One page of a query: the matching items read and the last evaluated index sort key, if any. */
  datatype Page = Page(items: seq<TodoItemEntity>, lastEvaluatedKey: Option<string>)

  /**
   * Query GSI1 for partition `partition`, sort keys beginning with `prefix`, backward, below
   * `start`: read the `limit` largest sort keys, drop the items the filter rejects (the
   * filter is applied after the limit), and report the last sort key read when the limit
   * was reached.
   */
  function Query(t: Table, partition: string, prefix: string, limit: nat, filter: Option<bool>, start: Option<string>): (p: Page)
    requires TableWellKeyed(t)
    requires limit >= 1
  {
    var candidates := IndexSortKeys(t, partition, prefix, start);
    var scanned := TopDescending(candidates, limit);
    IndexSortKeysLocated(t, partition, prefix, start);
    Page(
      FilterCompleted(ItemsAt(t, partition, scanned), filter),
      if |scanned| == limit then Some(scanned[limit - 1]) else None)
  }

  /** The items of a partition matching the key condition and the filter, newest first. */
  function AllMatching(t: Table, partition: string, prefix: string, filter: Option<bool>, start: Option<string>): seq<TodoItemEntity>
    requires TableWellKeyed(t)
  {
    IndexSortKeysLocated(t, partition, prefix, start);
    FilterCompleted(ItemsAt(t, partition, AllDescending(IndexSortKeys(t, partition, prefix, start))), filter)
  }

  /**
   * What a page holds: at most `limit` items, each stored in the queried partition under a
   * matching sort key below the cursor and accepted by the filter, newest first; with no
   * last evaluated key the page is everything that is left.
   */
  lemma QueryPage(t: Table, partition: string, prefix: string, limit: nat, filter: Option<bool>, start: Option<string>)
    requires TableWellKeyed(t)
    requires limit >= 1
    ensures var p := Query(t, partition, prefix, limit, filter, start);
      && |p.items| <= limit
      && (forall i :: 0 <= i < |p.items| ==>
            && (partition, p.items[i].gsi1sk) in t
            && t[(partition, p.items[i].gsi1sk)] == Item(p.items[i])
            && StartsWith(p.items[i].gsi1sk, prefix)
            && Below(p.items[i].gsi1sk, start)
            && Matches(p.items[i], filter))
      && (p.lastEvaluatedKey.None? ==> p.items == AllMatching(t, partition, prefix, filter, start))
  {
    var candidates := IndexSortKeys(t, partition, prefix, start);
    var scanned := TopDescending(candidates, limit);
    IndexSortKeysLocated(t, partition, prefix, start);
    var p := Query(t, partition, prefix, limit, filter, start);
    var read := ItemsAt(t, partition, scanned);
    forall i | 0 <= i < |p.items|
      ensures && (partition, p.items[i].gsi1sk) in t
              && t[(partition, p.items[i].gsi1sk)] == Item(p.items[i])
              && StartsWith(p.items[i].gsi1sk, prefix)
              && Below(p.items[i].gsi1sk, start)
              && Matches(p.items[i], filter)
    {
      assert p.items[i] in read;
      var j :| 0 <= j < |read| && read[j] == p.items[i];
      assert IndexedAt(t, partition, prefix, scanned[j]);
    }
    if p.lastEvaluatedKey.None? {
      assert |scanned| == |candidates|;
      forall x | x in candidates
        ensures x in scanned
      {
        if x !in scanned {
          DescendingNoDuplicates(scanned);
          SubsetOfDistinct(scanned, candidates);
        }
      }
      DescendingUnique(scanned, AllDescending(candidates));
    }
  }

  /** Items read at descending index sort keys are in descending index order. */
  lemma ReadInKeyOrder(items: seq<TodoItemEntity>, sks: seq<string>)
    requires |items| == |sks|
    requires forall j :: 0 <= j < |items| ==> items[j].gsi1sk == sks[j]
    requires Descending(sks)
    ensures IndexDescending(items)
    ensures |sks| > 0 ==> forall x :: x in items ==> x.gsi1sk == sks[|sks| - 1] || LexLess(sks[|sks| - 1], x.gsi1sk)
  {
    forall x | x in items && |sks| > 0
      ensures x.gsi1sk == sks[|sks| - 1] || LexLess(sks[|sks| - 1], x.gsi1sk)
    {
      var j :| 0 <= j < |items| && items[j] == x;
    }
  }

  /**
   * A page comes back newest first, and it carries a last evaluated key exactly when the
   * read stopped at the limit; that key is a candidate at or below every item on the page.
   */
  lemma QueryPageOrder(t: Table, partition: string, prefix: string, limit: nat, filter: Option<bool>, start: Option<string>)
    requires TableWellKeyed(t)
    requires limit >= 1
    ensures var p := Query(t, partition, prefix, limit, filter, start);
      && IndexDescending(p.items)
      && (p.lastEvaluatedKey.Some? <==> limit <= |IndexSortKeys(t, partition, prefix, start)|)
      && (p.lastEvaluatedKey.Some? ==>
            && p.lastEvaluatedKey.value in IndexSortKeys(t, partition, prefix, start)
            && forall i :: 0 <= i < |p.items| ==>
                 p.items[i].gsi1sk == p.lastEvaluatedKey.value || LexLess(p.lastEvaluatedKey.value, p.items[i].gsi1sk))
  {
    var candidates := IndexSortKeys(t, partition, prefix, start);
    var scanned := TopDescending(candidates, limit);
    IndexSortKeysLocated(t, partition, prefix, start);
    var read := ItemsAt(t, partition, scanned);
    forall j | 0 <= j < |read|
      ensures read[j].gsi1sk == scanned[j]
    {
      assert IndexedAt(t, partition, prefix, scanned[j]);
    }
    ReadInKeyOrder(read, scanned);
    FilterKeepsIndexOrder(read, filter);
    var p := Query(t, partition, prefix, limit, filter, start);
    assert p.items == FilterCompleted(read, filter);
    if |scanned| == limit {
      forall i | 0 <= i < |p.items|
        ensures p.items[i].gsi1sk == scanned[limit - 1] || LexLess(scanned[limit - 1], p.items[i].gsi1sk)
      {
        assert p.items[i] in p.items;
      }
    }
  }

  /**
   * After a page that reached its limit, the query resumed at its last evaluated key reads
   * exactly the candidates that page did not read.
   */
  lemma ResumeAfterPage(t: Table, partition: string, prefix: string, limit: nat, start: Option<string>)
    requires TableWellKeyed(t)
    requires limit >= 1
    requires |TopDescending(IndexSortKeys(t, partition, prefix, start), limit)| == limit
    ensures var candidates := IndexSortKeys(t, partition, prefix, start);
      var scanned := TopDescending(candidates, limit);
      forall x :: x in IndexSortKeys(t, partition, prefix, Some(scanned[limit - 1])) <==> x in candidates && x !in scanned
  {
    var candidates := IndexSortKeys(t, partition, prefix, start);
    var scanned := TopDescending(candidates, limit);
    var last := scanned[limit - 1];
    var next := IndexSortKeys(t, partition, prefix, Some(last));
    IndexSortKeysMember(t, partition, prefix, start, last);
    forall x
      ensures x in next <==> x in candidates && x !in scanned
    {
      IndexSortKeysMember(t, partition, prefix, start, x);
      IndexSortKeysMember(t, partition, prefix, Some(last), x);
      if x in next {
        if start.Some? {
          LexTransitive(x, last, start.value);
        }
        if x in scanned {
          var i :| 0 <= i < |scanned| && scanned[i] == x;
          if i == limit - 1 {
            LexIrreflexive(x);
          } else {
            LexAsymmetric(x, last);
          }
        }
      }
    }
  }

  /** Reading the cursor's page removes at least its last evaluated key from what is left. */
  lemma ResumeShrinks(t: Table, partition: string, prefix: string, limit: nat, start: Option<string>)
    requires TableWellKeyed(t)
    requires limit >= 1
    requires |TopDescending(IndexSortKeys(t, partition, prefix, start), limit)| == limit
    ensures var scanned := TopDescending(IndexSortKeys(t, partition, prefix, start), limit);
      |IndexSortKeys(t, partition, prefix, Some(scanned[limit - 1]))| < |IndexSortKeys(t, partition, prefix, start)|
  {
    var candidates := IndexSortKeys(t, partition, prefix, start);
    var scanned := TopDescending(candidates, limit);
    var next := IndexSortKeys(t, partition, prefix, Some(scanned[limit - 1]));
    ResumeAfterPage(t, partition, prefix, limit, start);
    assert next <= candidates - {scanned[limit - 1]};
    SubsetCardinality(next, candidates - {scanned[limit - 1]});
  }

  /** Every page of a query, following last evaluated keys until a page comes back without one. */
  function Traverse(t: Table, partition: string, prefix: string, limit: nat, filter: Option<bool>, start: Option<string>): seq<TodoItemEntity>
    requires TableWellKeyed(t)
    requires limit >= 1
    decreases |IndexSortKeys(t, partition, prefix, start)|
  {
    var p := Query(t, partition, prefix, limit, filter, start);
    if p.lastEvaluatedKey.None? then p.items
    else
      ResumeShrinks(t, partition, prefix, limit, start);
      p.items + Traverse(t, partition, prefix, limit, filter, p.lastEvaluatedKey)
  }

  /**
   * Following the cursor to the end yields every matching item exactly once, newest first,
   * whatever the page size and the filter.
   */
  lemma {:induction false} TraverseComplete(t: Table, partition: string, prefix: string, limit: nat, filter: Option<bool>, start: Option<string>)
    requires TableWellKeyed(t)
    requires limit >= 1
    ensures Traverse(t, partition, prefix, limit, filter, start) == AllMatching(t, partition, prefix, filter, start)
    decreases |IndexSortKeys(t, partition, prefix, start)|
  {
    var p := Query(t, partition, prefix, limit, filter, start);
    QueryPage(t, partition, prefix, limit, filter, start);
    if p.lastEvaluatedKey.Some? {
      ResumeShrinks(t, partition, prefix, limit, start);
      TraverseComplete(t, partition, prefix, limit, filter, p.lastEvaluatedKey);
      PageThenRest(t, partition, prefix, limit, filter, start);
    }
  }

  /** A full page followed by everything below its last evaluated key is everything below the cursor. */
  lemma PageThenRest(t: Table, partition: string, prefix: string, limit: nat, filter: Option<bool>, start: Option<string>)
    requires TableWellKeyed(t)
    requires limit >= 1
    requires Query(t, partition, prefix, limit, filter, start).lastEvaluatedKey.Some?
    ensures var p := Query(t, partition, prefix, limit, filter, start);
      p.items + AllMatching(t, partition, prefix, filter, p.lastEvaluatedKey) == AllMatching(t, partition, prefix, filter, start)
  {
    var candidates := IndexSortKeys(t, partition, prefix, start);
    var scanned := TopDescending(candidates, limit);
    var last := scanned[limit - 1];
    var others := IndexSortKeys(t, partition, prefix, Some(last));
    var rest := AllDescending(others);
    ResumeAfterPage(t, partition, prefix, limit, start);
    TopThenRest(candidates, limit, others);
    IndexSortKeysLocated(t, partition, prefix, start);
    IndexSortKeysLocated(t, partition, prefix, Some(last));
    ItemsAtAppend(t, partition, scanned, rest);
    FilterCompletedAppend(ItemsAt(t, partition, scanned), ItemsAt(t, partition, rest), filter);
  }

  lemma {:induction false} SubsetCardinality<T>(a: set<T>, b: set<T>)
    requires a <= b
    ensures |a| <= |b|
    decreases |a|
  {
    if a != {} {
      var x :| x in a;
      SubsetCardinality(a - {x}, b - {x});
    }
  }
}
