/**
 * The to-do item entity and its lifecycle state machine.
 *
 * An item is NOT_DONE when created, toggles between NOT_DONE and DONE on
 * request, and is forced into PAST_DUE by the deadline sweep. PAST_DUE is
 * terminal: the three user operations refuse a past-due item.
 *
 * The Java entity mutates its own fields behind a guard that throws; here
 * each operation is a function from the item's state to a Result holding
 * either its new state or the IllegalStateException it throws.
 */
module Domain {
  import opened Wrappers

  /** A point in time; the wall clock is read by the caller and passed in. */
  type Timestamp = int

  datatype TodoStatus = NotDone | Done | PastDue

  /** The persistent fields of an item; its id is the key it is stored under. */
  datatype TodoItem = TodoItem(
    description: string,
    status: TodoStatus,
    createdAt: Timestamp,
    dueAt: Timestamp,
    doneAt: Option<Timestamp>)

  /** The IllegalStateException a guarded transition throws. */
  datatype IllegalState = IllegalState(message: string)

  /** The message of every refused transition. */
  const PastDueMessage: string := "Past-due items cannot be modified"

  /** `part` occurs in `s` starting at index `i`. */
  predicate OccursAt(s: string, part: string, i: int) {
    0 <= i <= |s| - |part| && s[i..i + |part|] == part
  }

  /** `part` occurs somewhere in `s`. */
  ghost predicate Contains(s: string, part: string) {
    exists i :: OccursAt(s, part, i)
  }

  /** The refusal message mentions "Past-due", which is what callers match on. */
  lemma PastDueMessageMentionsPastDue()
    ensures Contains(PastDueMessage, "Past-due")
  {
    assert OccursAt(PastDueMessage, "Past-due", 0);
  }

  /** DONE carries a completion time and NOT_DONE does not. */
  predicate DoneAtMatchesStatus(item: TodoItem) {
    && (item.status == Done ==> item.doneAt.Some?)
    && (item.status == NotDone ==> item.doneAt.None?)
  }

  /** The schedule fields, which no operation writes. */
  predicate SameSchedule(a: TodoItem, b: TodoItem) {
    a.createdAt == b.createdAt && a.dueAt == b.dueAt
  }

  /**
   * The public constructor: the description is stored as given (it is not
   * validated), creation time is `now`, and the item starts NOT_DONE.
   */
  function New(description: string, dueAt: Timestamp, now: Timestamp): (item: TodoItem)
    ensures item.status == NotDone && item.doneAt == None
    ensures item.description == description && item.dueAt == dueAt && item.createdAt == now
  {
    TodoItem(description, NotDone, now, dueAt, None)
  }

  /** markDone: refused when past due; otherwise DONE, completed at `now`. */
  function MarkDone(item: TodoItem, now: Timestamp): (r: Result<TodoItem, IllegalState>)
    ensures r.Failure? <==> item.status == PastDue
    ensures r.Failure? ==> r.error == IllegalState(PastDueMessage)
    ensures r.Success? ==> r.value.status == Done && r.value.doneAt == Some(now)
    ensures r.Success? ==> SameSchedule(r.value, item) && r.value.description == item.description
  {
    if item.status == PastDue then Failure(IllegalState(PastDueMessage))
    else Success(item.(status := Done, doneAt := Some(now)))
  }

  /** markNotDone: refused when past due; otherwise NOT_DONE with no completion time. */
  function MarkNotDone(item: TodoItem): (r: Result<TodoItem, IllegalState>)
    ensures r.Failure? <==> item.status == PastDue
    ensures r.Failure? ==> r.error == IllegalState(PastDueMessage)
    ensures r.Success? ==> r.value.status == NotDone && r.value.doneAt == None
    ensures r.Success? ==> SameSchedule(r.value, item) && r.value.description == item.description
  {
    if item.status == PastDue then Failure(IllegalState(PastDueMessage))
    else Success(item.(status := NotDone, doneAt := None))
  }

  /** changeDescription: refused when past due; otherwise only the description changes. */
  function ChangeDescription(item: TodoItem, text: string): (r: Result<TodoItem, IllegalState>)
    ensures r.Failure? <==> item.status == PastDue
    ensures r.Failure? ==> r.error == IllegalState(PastDueMessage)
    ensures r.Success? ==> r.value.description == text && r.value.(description := item.description) == item
  {
    if item.status == PastDue then Failure(IllegalState(PastDueMessage))
    else Success(item.(description := text))
  }

  /** markPastDue: never refused; the status becomes PAST_DUE and nothing else changes. */
  function MarkPastDue(item: TodoItem): (r: TodoItem)
    ensures r.status == PastDue
    ensures r.(status := item.status) == item
  {
    if item.status != PastDue then item.(status := PastDue) else item
  }

  /** One call on the entity, with the arguments it takes. */
  datatype Operation =
    | MarkDoneOp(at: Timestamp)
    | MarkNotDoneOp
    | ChangeDescriptionOp(text: string)
    | MarkPastDueOp

  /** Dispatch one call. Only the guarded calls can fail, and only on a past-due item. */
  function Perform(item: TodoItem, op: Operation): (r: Result<TodoItem, IllegalState>)
    ensures r.Failure? <==> item.status == PastDue && !op.MarkPastDueOp?
  {
    match op
    case MarkDoneOp(at) => MarkDone(item, at)
    case MarkNotDoneOp => MarkNotDone(item)
    case ChangeDescriptionOp(text) => ChangeDescription(item, text)
    case MarkPastDueOp => Success(MarkPastDue(item))
  }

  /**
   * The entity's state after the call returns or throws. Each guard throws
   * before any field is written, so a refused call leaves the item as it was.
   * One call never changes the schedule, never changes a past-due item, and
   * keeps the tie between status and doneAt.
   */
  function After(item: TodoItem, op: Operation): (r: TodoItem)
    ensures SameSchedule(r, item)
    ensures item.status == PastDue ==> r == item
    ensures DoneAtMatchesStatus(item) ==> DoneAtMatchesStatus(r)
  {
    match Perform(item, op)
    case Success(next) => next
    case Failure(_) => item
  }

  /** The entity's state after a sequence of calls, refused ones included. */
  function Run(item: TodoItem, ops: seq<Operation>): TodoItem
    decreases |ops|
  {
    if ops == [] then item else Run(After(item, ops[0]), ops[1..])
  }

  /** PAST_DUE is terminal: no call sequence changes a past-due item in any field. */
  lemma {:induction false} PastDueIsTerminal(item: TodoItem, ops: seq<Operation>)
    requires item.status == PastDue
    ensures Run(item, ops) == item
    decreases |ops|
  {
    if ops != [] {
      assert After(item, ops[0]) == item;
      PastDueIsTerminal(item, ops[1..]);
    }
  }

  /** createdAt and dueAt are never written after construction. */
  lemma {:induction false} RunKeepsSchedule(item: TodoItem, ops: seq<Operation>)
    ensures SameSchedule(Run(item, ops), item)
    decreases |ops|
  {
    if ops != [] {
      RunKeepsSchedule(After(item, ops[0]), ops[1..]);
    }
  }

  /** Every call preserves the tie between status and doneAt. */
  lemma {:induction false} RunPreservesDoneAt(item: TodoItem, ops: seq<Operation>)
    requires DoneAtMatchesStatus(item)
    ensures DoneAtMatchesStatus(Run(item, ops))
    decreases |ops|
  {
    if ops != [] {
      RunPreservesDoneAt(After(item, ops[0]), ops[1..]);
    }
  }

  /**
   * Every item reachable from the constructor keeps its creation time and
   * due time, has a completion time when DONE and none when NOT_DONE.
   */
  lemma ReachableItemIsConsistent(description: string, dueAt: Timestamp, now: Timestamp, ops: seq<Operation>)
    ensures DoneAtMatchesStatus(Run(New(description, dueAt, now), ops))
    ensures Run(New(description, dueAt, now), ops).createdAt == now
    ensures Run(New(description, dueAt, now), ops).dueAt == dueAt
  {
    RunPreservesDoneAt(New(description, dueAt, now), ops);
    RunKeepsSchedule(New(description, dueAt, now), ops);
  }

  /**
   * markDone then markNotDone on an open item leaves it NOT_DONE with no
   * completion time and everything else as before; on a NOT_DONE item with
   * no completion time this is the item itself.
   */
  lemma MarkNotDoneUndoesMarkDone(item: TodoItem, now: Timestamp)
    requires item.status != PastDue
    ensures MarkDone(item, now).Success?
    ensures MarkNotDone(MarkDone(item, now).value) == Success(item.(status := NotDone, doneAt := None))
    ensures item.status == NotDone && item.doneAt == None ==>
              MarkNotDone(MarkDone(item, now).value) == Success(item)
  {
  }

  /** markPastDue twice is markPastDue once. */
  lemma MarkPastDueIdempotent(item: TodoItem)
    ensures MarkPastDue(MarkPastDue(item)) == MarkPastDue(item)
  {
  }

  /**
   * markPastDue keeps doneAt, so on a DONE item it yields a PAST_DUE item
   * that still has a completion time: "doneAt present iff DONE" is not an
   * invariant of the entity alone (the service keeps it, see Service).
   */
  lemma MarkPastDueKeepsDoneAt(item: TodoItem)
    requires item.status == Done && item.doneAt.Some?
    ensures MarkPastDue(item).status != Done && MarkPastDue(item).doneAt == item.doneAt
  {
  }
}
