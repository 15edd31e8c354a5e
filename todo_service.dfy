/**
 * The service that wraps the item lifecycle over an id-keyed store.
 *
 * Each mutator looks one item up by id, applies one transition and writes
 * the new state back under the same id (the stored entity is updated in
 * place). A missing id is reported as TodoNotFound, a refused transition as
 * InvalidTodoState carrying the entity's message. The sweep forces every
 * NOT_DONE item whose due time is before `now` into PAST_DUE.
 */
module Service {
  import opened Wrappers
  import opened Domain

  /** TodoNotFoundException and InvalidTodoStateException. */
  datatype ServiceError = TodoNotFound(id: int) | InvalidTodoState(message: string)

  type Store = map<int, TodoItem>

  /** The entity's IllegalStateException, rethrown with the same message. */
  function Translate(e: IllegalState): (r: ServiceError)
    ensures r.InvalidTodoState? && r.message == e.message
  {
    InvalidTodoState(e.message)
  }

  /** The filter of the sweep's query: NOT_DONE and due strictly before `now`. */
  predicate Overdue(item: TodoItem, now: Timestamp) {
    item.status == NotDone && item.dueAt < now
  }

  /** The ids the sweep's query returns. */
  function OverdueIds(store: Store, now: Timestamp): (ids: set<int>)
    ensures forall id :: id in ids <==> id in store && Overdue(store[id], now)
  {
    set id | id in store && Overdue(store[id], now)
  }

  /** The store after one sweep at `now`. */
  function Swept(store: Store, now: Timestamp): (r: Store)
    ensures r.Keys == store.Keys
    ensures forall id :: id in store && Overdue(store[id], now) ==> r[id] == MarkPastDue(store[id])
    ensures forall id :: id in store && !Overdue(store[id], now) ==> r[id] == store[id]
  {
    map id | id in store :: if Overdue(store[id], now) then MarkPastDue(store[id]) else store[id]
  }

  /** After a sweep no stored item is overdue at that time: each one that was is PAST_DUE. */
  lemma SweepMarksOverdue(store: Store, now: Timestamp)
    ensures forall id :: id in store && Overdue(store[id], now) ==> Swept(store, now)[id].status == PastDue
    ensures forall id :: id in Swept(store, now) ==> !Overdue(Swept(store, now)[id], now)
  {
  }

  /** DONE items, PAST_DUE items and items due at or after `now` are untouched by a sweep. */
  lemma SweepLeavesOthers(store: Store, now: Timestamp, id: int)
    requires id in store
    requires store[id].status == Done || store[id].status == PastDue || store[id].dueAt >= now
    ensures id in Swept(store, now) && Swept(store, now)[id] == store[id]
  {
  }

  /** A second sweep at the same time changes nothing. */
  lemma SweepIdempotent(store: Store, now: Timestamp)
    ensures Swept(Swept(store, now), now) == Swept(store, now)
  {
  }

  /** A non-empty set has an element to pick. */
  lemma NonEmptyHasElement(s: set<int>)
    requires |s| != 0
    ensures exists x :: x in s
  {
    if forall x :: x !in s {
      assert false;
    }
  }

  /** Every stored item has a completion time exactly when it is DONE. */
  ghost predicate DoneAtIffDone(store: Store) {
    forall id :: id in store ==> (store[id].doneAt.Some? <==> store[id].status == Done)
  }

  /**
   * The sweep keeps the store consistent: it only touches NOT_DONE items,
   * which have no completion time, so no PAST_DUE item gains one.
   */
  lemma SweepPreservesDoneAtIffDone(store: Store, now: Timestamp)
    requires DoneAtIffDone(store)
    ensures DoneAtIffDone(Swept(store, now))
  {
  }

  class TodoService {
    /** The repository: every persisted item under its id. */
    var store: Store
    /** The next identity the repository hands out. */
    var nextId: int

    /** Ids already handed out lie below the counter, and doneAt matches the status. */
    ghost predicate Valid()
      reads this
    {
      && 1 <= nextId
      && (forall id :: id in store ==> 1 <= id < nextId)
      && DoneAtIffDone(store)
    }

    /**
     * The service over a repository that may already hold items from earlier
     * runs: `initial` is its content and `next` the identity it hands out next.
     */
    constructor (initial: Store, next: int)
      requires 1 <= next
      requires forall id :: id in initial ==> 1 <= id < next
      requires DoneAtIffDone(initial)
      ensures Valid()
      ensures store == initial && nextId == next
    {
      store := initial;
      nextId := next;
    }

    /** getById: the stored item, or TodoNotFound. */
    function GetById(id: int): (r: Result<TodoItem, ServiceError>)
      reads this
      ensures r.Success? <==> id in store
      ensures r.Success? ==> r.value == store[id]
      ensures r.Failure? ==> r.error == TodoNotFound(id)
    {
      if id in store then Success(store[id]) else Failure(TodoNotFound(id))
    }

    /** getAll: every stored item, keyed by id. */
    function GetAll(): (r: Store)
      reads this
      ensures r.Keys == store.Keys
      ensures forall id :: id in r ==> r[id] == store[id]
    {
      store
    }

    /** getNotDone: exactly the stored NOT_DONE items, so no DONE and no PAST_DUE item. */
    function GetNotDone(): (r: Store)
      reads this
      ensures forall id :: id in r <==> id in store && store[id].status == NotDone
      ensures forall id :: id in r ==> r[id] == store[id]
    {
      map id | id in store && store[id].status == NotDone :: store[id]
    }

    /** addTodo: a new NOT_DONE item under a fresh id; nothing already stored changes. */
    method AddTodo(description: string, dueAt: Timestamp, now: Timestamp) returns (id: int, item: TodoItem)
      requires Valid()
      modifies this
      ensures Valid()
      ensures id == old(nextId) && id !in old(store) && nextId == old(nextId) + 1
      ensures item == New(description, dueAt, now)
      ensures store == old(store)[id := item]
      ensures GetById(id) == Success(item)
    {
      item := New(description, dueAt, now);
      id := nextId;
      store := store[id := item];
      nextId := nextId + 1;
    }

    /** changeDescription(id, text). */
    method ChangeDescription(id: int, text: string) returns (r: Outcome<ServiceError>)
      requires Valid()
      modifies this
      ensures Valid() && nextId == old(nextId) && store.Keys == old(store).Keys
      ensures id !in old(store) ==> r == Fail(TodoNotFound(id)) && store == old(store)
      ensures id in old(store) && old(store)[id].status == PastDue ==>
                r == Fail(InvalidTodoState(PastDueMessage)) && store == old(store)
      ensures id in old(store) && old(store)[id].status != PastDue ==>
                r == Pass && store == old(store)[id := Domain.ChangeDescription(old(store)[id], text).value]
      ensures forall k :: k in old(store) && k != id ==> store[k] == old(store)[k]
    {
      var found := GetById(id);
      if found.Failure? {
        return Fail(found.error);
      }
      var next := Domain.ChangeDescription(found.value, text);
      if next.Failure? {
        return Fail(Translate(next.error));
      }
      store := store[id := next.value];
      r := Pass;
    }

    /** markDone(id), completing the item at `now`. */
    method MarkDone(id: int, now: Timestamp) returns (r: Outcome<ServiceError>)
      requires Valid()
      modifies this
      ensures Valid() && nextId == old(nextId) && store.Keys == old(store).Keys
      ensures id !in old(store) ==> r == Fail(TodoNotFound(id)) && store == old(store)
      ensures id in old(store) && old(store)[id].status == PastDue ==>
                r == Fail(InvalidTodoState(PastDueMessage)) && store == old(store)
      ensures id in old(store) && old(store)[id].status != PastDue ==>
                r == Pass && store == old(store)[id := Domain.MarkDone(old(store)[id], now).value]
      ensures forall k :: k in old(store) && k != id ==> store[k] == old(store)[k]
    {
      var found := GetById(id);
      if found.Failure? {
        return Fail(found.error);
      }
      var next := Domain.MarkDone(found.value, now);
      if next.Failure? {
        return Fail(Translate(next.error));
      }
      store := store[id := next.value];
      r := Pass;
    }

    /** markNotDone(id). */
    method MarkNotDone(id: int) returns (r: Outcome<ServiceError>)
      requires Valid()
      modifies this
      ensures Valid() && nextId == old(nextId) && store.Keys == old(store).Keys
      ensures id !in old(store) ==> r == Fail(TodoNotFound(id)) && store == old(store)
      ensures id in old(store) && old(store)[id].status == PastDue ==>
                r == Fail(InvalidTodoState(PastDueMessage)) && store == old(store)
      ensures id in old(store) && old(store)[id].status != PastDue ==>
                r == Pass && store == old(store)[id := Domain.MarkNotDone(old(store)[id]).value]
      ensures forall k :: k in old(store) && k != id ==> store[k] == old(store)[k]
    {
      var found := GetById(id);
      if found.Failure? {
        return Fail(found.error);
      }
      var next := Domain.MarkNotDone(found.value);
      if next.Failure? {
        return Fail(Translate(next.error));
      }
      store := store[id := next.value];
      r := Pass;
    }

    /**
     * markPastDueItems at `now`: query the overdue ids, then mark each
     * item past due in turn.
     */
    method MarkPastDueItems(now: Timestamp)
      requires Valid()
      modifies this
      ensures Valid() && nextId == old(nextId)
      ensures store == Swept(old(store), now)
    {
      var overdue := OverdueIds(store, now);
      var pending := overdue;
      while |pending| != 0
        invariant pending <= overdue
        invariant nextId == old(nextId)
        invariant store.Keys == old(store).Keys
        invariant forall id :: id in store ==>
          store[id] == if id in overdue && id !in pending then MarkPastDue(old(store)[id]) else old(store)[id]
        decreases pending
      {
        NonEmptyHasElement(pending);
        var id :| id in pending;
        store := store[id := MarkPastDue(store[id])];
        pending := pending - {id};
      }
      forall id | id in store
        ensures store[id] == Swept(old(store), now)[id]
      {
        assert id in overdue <==> Overdue(old(store)[id], now);
      }
      assert store == Swept(old(store), now);
      SweepPreservesDoneAtIffDone(old(store), now);
    }
  }

  /** The scenarios the service's tests walk through, stated from the contracts alone. */
  method Scenarios(today: Timestamp)
  {
    var service := new TodoService(map[], 1);

    // Create an item due tomorrow: NOT_DONE, no completion time, and it can be fetched back.
    var id, item := service.AddTodo("Test task", today + 1, today);
    assert item.status == NotDone && item.doneAt == None && item.dueAt == today + 1;
    assert service.GetById(id) == Success(item);

    // Done, then not done again.
    var r := service.MarkDone(id, today);
    assert r == Pass && service.store[id].status == Done && service.store[id].doneAt == Some(today);
    r := service.MarkNotDone(id);
    assert r == Pass && service.store[id].status == NotDone && service.store[id].doneAt == None;

    // An item created already overdue is still NOT_DONE until the sweep runs.
    var late, lateItem := service.AddTodo("Late task", today - 1, today);
    assert service.GetById(late).value.status == NotDone;
    service.MarkPastDueItems(today);
    assert service.store[late].status == PastDue;
    assert service.store[id].status == NotDone;

    // A past-due item refuses to be marked done, with a message mentioning "Past-due".
    r := service.MarkDone(late, today);
    assert r == Fail(InvalidTodoState(PastDueMessage));
    PastDueMessageMentionsPastDue();

    // An absent id is not found.
    r := service.MarkNotDone(late + 1);
    assert r == Fail(TodoNotFound(late + 1));
  }
}
