# To-do item lifecycle and service, in Dafny

This project models the core of a small to-do service: the `TodoItem`
entity's lifecycle state machine and the `TodoService` that runs it over an
id-keyed repository.

- `wrappers.dfy` (module `Wrappers`): `Option`, `Result` and `Outcome`,
  which stand in for Java's `null` and thrown exceptions.
- `todo_item.dfy` (module `Domain`): the entity. An item is `NotDone` when
  created. It toggles between `NotDone` and `Done` on request. The deadline
  sweep forces it into `PastDue`. `markDone`, `markNotDone` and
  `changeDescription` refuse a past-due item with an `IllegalState` error
  whose message is "Past-due items cannot be modified". `markPastDue` never
  fails. Each of them is a function from the item's state to its new state
  or to the error it throws. `After` and `Run` give the item's state after
  one call or a whole sequence of calls, refused calls included. The
  lemmas prove facts over every call sequence: `PastDue` is terminal, the
  creation and due times never change, and the status and `doneAt` stay in
  step.
- `todo_service.dfy` (module `Service`): class `TodoService`. Its field
  `store` is a `map<int, TodoItem>` standing for the repository, and
  `nextId` is the identity counter. `GetById`, `GetAll` and `GetNotDone` are
  read-only functions. `AddTodo`, the three mutators and the sweep
  `MarkPastDueItems` are methods that update the stored item in place, the
  way the Java service changes its managed entities. The sweep queries the
  overdue ids and then marks them one at a time in a loop. The loop is
  proved to produce `Swept(old(store), now)`, and the lemmas about `Swept`
  give the sweep's guarantees. `Valid()` is the service's invariant: every
  id is below the counter, and every stored item has a `doneAt` exactly
  when it is `Done`. `Scenarios` walks through the service's test scenarios
  using only the contracts.

Timestamps are integers. Every operation that reads the wall clock in the
source takes a `now` argument instead.

Notes on what the code does:
- The constructor does not check the description: an empty one is stored
  as given.
- `markPastDue` on an item that is already past due does nothing. It has no
  precondition.
- "`doneAt` present if and only if `Done`" does not hold for the entity on
  its own. `markPastDue` keeps `doneAt`, so a `Done` item marked past due
  still has one (`Domain.MarkPastDueKeepsDoneAt`). The service does keep
  the property, because its sweep only touches `NotDone` items. For the
  entity alone, `Domain.RunPreservesDoneAt` and
  `Domain.ReachableItemIsConsistent` prove the one-way form
  (`Domain.DoneAtMatchesStatus`): `Done` implies a `doneAt`, and `NotDone`
  implies none.

## Model

| member | source | states |
|---|---|---|
| `Domain.New` | src/main/java/com/example/todo_service/domain/TodoItem.java:35-40 | a new item is NOT_DONE, has no doneAt, and keeps the given description and due time; its creation time is `now` |
| `Domain.MarkDone` | src/main/java/com/example/todo_service/domain/TodoItem.java:44-50 | fails exactly on a PAST_DUE item, with the past-due message; otherwise the item is DONE with doneAt = `now`, and description, createdAt and dueAt are unchanged |
| `Domain.MarkNotDone` | src/main/java/com/example/todo_service/domain/TodoItem.java:52-58 | fails exactly on a PAST_DUE item, with the past-due message; otherwise the item is NOT_DONE with no doneAt, and the other fields are unchanged |
| `Domain.ChangeDescription` | src/main/java/com/example/todo_service/domain/TodoItem.java:60-65 | fails exactly on a PAST_DUE item, with the past-due message; otherwise only the description changes, to the new text |
| `Domain.MarkPastDue` | src/main/java/com/example/todo_service/domain/TodoItem.java:67-71 | never fails; the status becomes PAST_DUE and every other field, doneAt included, is unchanged |
| `Domain.PastDueMessageMentionsPastDue` | src/main/java/com/example/todo_service/domain/TodoItem.java:46 | the refusal message contains "Past-due" |
| `Domain.Perform` | src/main/java/com/example/todo_service/domain/TodoItem.java:44-71 | a call fails if and only if the item is PAST_DUE and the call is not markPastDue |
| `Domain.After` | src/main/java/com/example/todo_service/domain/TodoItem.java:44-71 | defines the item's state after one call, a refused call leaving it as it was (each guard at lines 45-47, 53-55 and 61-63 throws before any write); proves that one call keeps createdAt and dueAt, leaves a PAST_DUE item identical, and keeps "DONE has a doneAt, NOT_DONE has none" |
| `Domain.PastDueIsTerminal` | src/main/java/com/example/todo_service/domain/TodoItem.java:44-71 | no sequence of calls changes a PAST_DUE item in any field |
| `Domain.RunKeepsSchedule` | src/main/java/com/example/todo_service/domain/TodoItem.java:23-71 | no sequence of calls changes createdAt or dueAt |
| `Domain.RunPreservesDoneAt` | src/main/java/com/example/todo_service/domain/TodoItem.java:44-71 | every sequence of calls keeps "DONE has a doneAt, NOT_DONE has none" |
| `Domain.ReachableItemIsConsistent` | src/main/java/com/example/todo_service/domain/TodoItem.java:35-71 | every item reachable from the constructor has a doneAt when DONE and none when NOT_DONE, and still has its creation time and due time |
| `Domain.MarkNotDoneUndoesMarkDone` | src/main/java/com/example/todo_service/domain/TodoItem.java:44-58 | on an item that is not past due, markDone then markNotDone leaves it NOT_DONE with no doneAt and the other fields as before; on a fresh NOT_DONE item this gives back the item itself |
| `Domain.MarkPastDueIdempotent` | src/main/java/com/example/todo_service/domain/TodoItem.java:67-71 | markPastDue twice equals markPastDue once |
| `Domain.MarkPastDueKeepsDoneAt` | src/main/java/com/example/todo_service/domain/TodoItem.java:67-71 | a DONE item marked past due keeps its doneAt, so the entity alone does not keep "doneAt iff DONE" |
| `Service.Translate` | src/main/java/com/example/todo_service/service/TodoService.java:49-51 | the entity's IllegalStateException becomes InvalidTodoState with the same message |
| `Service.OverdueIds` | src/main/java/com/example/todo_service/service/TodoService.java:73-75 | the sweep's query returns exactly the stored ids whose item is NOT_DONE and due strictly before `now` |
| `Service.Swept` | src/main/java/com/example/todo_service/service/TodoService.java:72-78 | a sweep keeps the set of ids, marks each overdue item past due, and leaves every other item as it was |
| `Service.SweepMarksOverdue` | src/main/java/com/example/todo_service/service/TodoService.java:72-78 | after a sweep, each item that was overdue is PAST_DUE, and no stored item is still overdue at that time |
| `Service.SweepLeavesOthers` | src/main/java/com/example/todo_service/service/TodoService.java:73-75 | DONE items, PAST_DUE items and items due at or after `now` are identical after a sweep |
| `Service.SweepIdempotent` | src/main/java/com/example/todo_service/service/TodoService.java:72-78 | a second sweep at the same `now` changes nothing |
| `Service.SweepPreservesDoneAtIffDone` | src/main/java/com/example/todo_service/service/TodoService.java:72-78 | if every stored item has a doneAt exactly when DONE, this still holds after a sweep |
| `Service.TodoService.constructor` | src/main/java/com/example/todo_service/service/TodoService.java:20-22 | the service wraps the repository it is given, which may already hold items: its store is the given content and its counter the given next identity; the content must have ids below that counter and a doneAt exactly on DONE items, which is what this service itself maintains |
| `Service.TodoService.GetById` | src/main/java/com/example/todo_service/service/TodoService.java:29-33 | succeeds exactly when the id is stored, and then returns the stored item; otherwise fails with TodoNotFound(id) |
| `Service.TodoService.GetAll` | src/main/java/com/example/todo_service/service/TodoService.java:35-38 | returns every stored item under its id |
| `Service.TodoService.GetNotDone` | src/main/java/com/example/todo_service/service/TodoService.java:40-43 | returns exactly the stored NOT_DONE items, so no DONE and no PAST_DUE item |
| `Service.TodoService.AddTodo` | src/main/java/com/example/todo_service/service/TodoService.java:24-27 | stores a new NOT_DONE item under a fresh id, leaves every existing entry unchanged, and a later getById of that id returns the item |
| `Service.TodoService.ChangeDescription` | src/main/java/com/example/todo_service/service/TodoService.java:45-52 | fails with TodoNotFound for an absent id; fails with InvalidTodoState and the past-due message for a PAST_DUE item, leaving the store unchanged; otherwise changes only that item's description |
| `Service.TodoService.MarkDone` | src/main/java/com/example/todo_service/service/TodoService.java:54-61 | fails with TodoNotFound for an absent id; fails with InvalidTodoState and the past-due message for a PAST_DUE item, leaving the store unchanged; otherwise marks only that item done at `now` |
| `Service.TodoService.MarkNotDone` | src/main/java/com/example/todo_service/service/TodoService.java:63-70 | fails with TodoNotFound for an absent id; fails with InvalidTodoState and the past-due message for a PAST_DUE item, leaving the store unchanged; otherwise marks only that item not done |
| `Service.TodoService.MarkPastDueItems` | src/main/java/com/example/todo_service/service/TodoService.java:72-78 | the loop over the queried ids leaves the store equal to `Swept(old store, now)` and keeps the service invariant |

## Left out

- HTTP layer (controller, exception handler, request and response objects): routing, JSON shaping and status codes. The controller's one choice, `includeDone` picking `getAll` over `getNotDone`, is covered by the two queries.
- The scheduler's 60-second timer: the model has only the sweep itself.
- The JPA repository: it is replaced by the map. Generated SQL and transactions are not modelled. Identity generation is modelled by the counter `nextId`. The constructor takes its starting value `next`, which is 1 for an empty repository, and every stored id lies below it (`Valid()`).
- The entity's JPA no-argument constructor and its `equals`/`hashCode` by id: these only matter for persistence identity.
- Wall-clock time and time zones: `now` is an integer argument.
- Concurrency between the sweep and requests (last write wins at the store): the model is single-threaded.
- `null` descriptions and due times, and the 255-character column limit: the storage layer would reject these, and the core code does not check them.
- The text of TodoNotFoundException ("Todo item not found: " followed by the id): the model keeps only the id.
- List order: `getAll`, `getNotDone` and the sweep's query return lists in whatever order the repository gives. The model returns maps keyed by id, and the sweep visits ids in an arbitrary order. The result does not depend on that order.
- The `save` call that one unit test expects from the sweep: the sweep never calls `save`. The model only updates each stored item's status.
- Service.TodoService.GetAll: returns a map, not a list. The model therefore cannot express duplicates or order.
