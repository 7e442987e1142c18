/**
 * The to-do state and what each handler does to it, as pure functions of the
 * previous state and of the values the handler reads from outside (the input
 * field, the edit field, the clock). The class in `Store` runs the same steps
 * in place.
 */
module Todo {
  import opened Wrappers
  import opened Seqs
  import opened Text

  /** A task: `{id, text, done}`. */
  datatype Task = Task(id: int, text: string, done: bool)

  /** A completion record: `{id, text, completedAt}`, both numbers taken from the clock. */
  datatype HistoryEntry = HistoryEntry(id: int, text: string, completedAt: int)

  /** The module-level state: the task list, the history (newest first) and the id counter. */
  datatype Snapshot = Snapshot(tasks: seq<Task>, history: seq<HistoryEntry>, nextId: int)

  predicate UniqueIds(ts: seq<Task>)
  {
    forall i, j :: 0 <= i < j < |ts| ==> ts[i].id != ts[j].id
  }

  predicate IdsBelow(ts: seq<Task>, bound: int)
  {
    forall k :: 0 <= k < |ts| ==> ts[k].id < bound
  }

  /** The id invariant: task ids are pairwise distinct and all below the counter. */
  predicate IdsValid(s: Snapshot)
  {
    UniqueIds(s.tasks) && IdsBelow(s.tasks, s.nextId)
  }

  predicate HasId(ts: seq<Task>, id: int)
  {
    exists k :: 0 <= k < |ts| && ts[k].id == id
  }

  // The callbacks the handlers pass to filter, map and find.

  function IdIs(id: int): Task -> bool { (t: Task) => t.id == id }

  function IdIsNot(id: int): Task -> bool { (t: Task) => t.id != id }

  function NotDone(t: Task): bool { !t.done }

  function IsDone(t: Task): bool { t.done }

  function FlipIf(id: int): Task -> Task
  {
    (t: Task) => if t.id == id then t.(done := !t.done) else t
  }

  function RenameIf(id: int, text: string): Task -> Task
  {
    (t: Task) => if t.id == id then t.(text := text) else t
  }

  function EntryIdIs(hid: int): HistoryEntry -> bool { (h: HistoryEntry) => h.id == hid }

  function EntryIdIsNot(hid: int): HistoryEntry -> bool { (h: HistoryEntry) => h.id != hid }

  // The handlers.

  /** `addTask`, given the input field's value. */
  function AddTask(s: Snapshot, input: string): Snapshot
  {
    var text := Trim(input);
    if text == [] then s
    else s.(tasks := s.tasks + [Task(s.nextId, text, false)], nextId := s.nextId + 1)
  }

  /** `toggle(id)`, given `Date.now()` (the new entry's id) and `new Date()` (its time). */
  function Toggle(s: Snapshot, id: int, stamp: int, now: int): Snapshot
  {
    match Find(IdIs(id), s.tasks)
    case None => s
    case Some(t) =>
      var history := if t.done then s.history else [HistoryEntry(stamp, t.text, now)] + s.history;
      Snapshot(Map(FlipIf(id), s.tasks), history, s.nextId)
  }

  /** `remove(id)`. */
  function Remove(s: Snapshot, id: int): Snapshot
  {
    s.(tasks := Filter(IdIsNot(id), s.tasks))
  }

  /** `clearDone()`. */
  function ClearDone(s: Snapshot): Snapshot
  {
    s.(tasks := Filter(NotDone, s.tasks))
  }

  /** `saveEdit(id)`, given the edit field's value. */
  function SaveEdit(s: Snapshot, id: int, value: string): Snapshot
  {
    var text := Trim(value);
    if text == [] then s else s.(tasks := Map(RenameIf(id, text), s.tasks))
  }

  /** `removeHistory(hid)`. */
  function RemoveHistory(s: Snapshot, hid: int): Snapshot
  {
    s.(history := Filter(EntryIdIsNot(hid), s.history))
  }

  /** `clearHistory()`. */
  function ClearHistory(s: Snapshot): Snapshot
  {
    s.(history := [])
  }

  /** One user event, with the outside values its handler reads. */
  datatype Op =
    | AddTaskOp(input: string)
    | ToggleOp(id: int, stamp: int, now: int)
    | RemoveOp(id: int)
    | ClearDoneOp
    | SaveEditOp(id: int, value: string)
    | RemoveHistoryOp(hid: int)
    | ClearHistoryOp

  function Apply(s: Snapshot, op: Op): Snapshot
  {
    match op
    case AddTaskOp(input) => AddTask(s, input)
    case ToggleOp(id, stamp, now) => Toggle(s, id, stamp, now)
    case RemoveOp(id) => Remove(s, id)
    case ClearDoneOp => ClearDone(s)
    case SaveEditOp(id, value) => SaveEdit(s, id, value)
    case RemoveHistoryOp(hid) => RemoveHistory(s, hid)
    case ClearHistoryOp => ClearHistory(s)
  }

  /** Events are handled one at a time, each to completion, in order. */
  function Run(s: Snapshot, ops: seq<Op>): Snapshot
    decreases |ops|
  {
    if ops == [] then s else Run(Apply(s, ops[0]), ops[1..])
  }

  /** The event is a toggle that moves a present task from not done to done. */
  predicate Completes(s: Snapshot, op: Op)
  {
    op.ToggleOp? && Find(IdIs(op.id), s.tasks).Some? && !Find(IdIs(op.id), s.tasks).value.done
  }

  // What the handlers promise.

  /**
   * `addTask` changes the state exactly when the input is not all whitespace, and
   * then appends one task that carries the old counter and the trimmed text.
   */
  lemma AddTaskSpec(s: Snapshot, input: string)
    ensures AddTask(s, input) == s <==> AllWhitespace(input)
    ensures !AllWhitespace(input) ==>
      var text := Trim(input);
      AddTask(s, input) == Snapshot(s.tasks + [Task(s.nextId, text, false)], s.history, s.nextId + 1)
      && text != [] && !IsWhitespace(text[0]) && !IsWhitespace(text[|text| - 1])
  {
    TrimEmptyIff(input);
    if !AllWhitespace(input) {
      assert |AddTask(s, input).tasks| == |s.tasks| + 1;
    }
  }

  lemma AddTaskKeepsIdsValid(s: Snapshot, input: string)
    requires IdsValid(s)
    ensures IdsValid(AddTask(s, input))
  {
  }

  /** `toggle` on an id that no task has changes nothing. */
  lemma ToggleAbsent(s: Snapshot, id: int, stamp: int, now: int)
    requires !HasId(s.tasks, id)
    ensures Toggle(s, id, stamp, now) == s
  {
    assert forall k :: 0 <= k < |s.tasks| ==> !IdIs(id)(s.tasks[k]);
  }

  /**
   * `toggle` on the task at position `i` flips its `done` in place and keeps every
   * other task; it prepends one history entry with the task's text when the task
   * was not done, and leaves the history alone when it was.
   */
  lemma TogglePresent(s: Snapshot, id: int, stamp: int, now: int, i: nat)
    requires UniqueIds(s.tasks)
    requires i < |s.tasks| && s.tasks[i].id == id
    ensures var t := s.tasks[i];
      Toggle(s, id, stamp, now) ==
        Snapshot(s.tasks[i := t.(done := !t.done)],
                 if t.done then s.history else [HistoryEntry(stamp, t.text, now)] + s.history,
                 s.nextId)
  {
    FindFirst(IdIs(id), s.tasks, i);
    var flipped := Map(FlipIf(id), s.tasks);
    forall k | 0 <= k < |s.tasks|
      ensures flipped[k] == s.tasks[i := s.tasks[i].(done := !s.tasks[i].done)][k]
    {
      if k != i {
        assert s.tasks[k].id != id;
      }
    }
  }

  /** Flipping `done` and replacing `text` keep every id where it was. */
  lemma MapKeepsIds(s: Snapshot, f: Task -> Task)
    requires IdsValid(s)
    requires forall t :: f(t).id == t.id
    ensures IdsValid(s.(tasks := Map(f, s.tasks)))
  {
  }

  /** Filtering a list with unique ids leaves a list with unique ids. */
  lemma {:induction false} FilterKeepsUniqueIds(p: Task -> bool, ts: seq<Task>)
    requires UniqueIds(ts)
    ensures UniqueIds(Filter(p, ts))
  {
    if ts != [] {
      FilterKeepsUniqueIds(p, ts[1..]);
      var rest := Filter(p, ts[1..]);
      if p(ts[0]) {
        forall k | 0 <= k < |rest| ensures rest[k].id != ts[0].id {
          var j :| 0 <= j < |ts[1..]| && ts[1..][j] == rest[k];
          assert ts[j + 1] == rest[k];
        }
      }
    }
  }

  lemma FilterKeepsIdsValid(s: Snapshot, p: Task -> bool)
    requires IdsValid(s)
    ensures IdsValid(s.(tasks := Filter(p, s.tasks)))
  {
    FilterKeepsUniqueIds(p, s.tasks);
  }

  lemma ToggleKeepsIdsValid(s: Snapshot, id: int, stamp: int, now: int)
    requires IdsValid(s)
    ensures IdsValid(Toggle(s, id, stamp, now)) && Toggle(s, id, stamp, now).nextId == s.nextId
  {
    var r := Toggle(s, id, stamp, now);
    assert r == s || r.(history := s.history) == s.(tasks := Map(FlipIf(id), s.tasks));
    MapKeepsIds(s, FlipIf(id));
  }

  lemma SaveEditKeepsIdsValid(s: Snapshot, id: int, value: string)
    requires IdsValid(s)
    ensures IdsValid(SaveEdit(s, id, value)) && SaveEdit(s, id, value).nextId == s.nextId
  {
    var text := Trim(value);
    assert SaveEdit(s, id, value) == s || SaveEdit(s, id, value) == s.(tasks := Map(RenameIf(id, text), s.tasks));
    MapKeepsIds(s, RenameIf(id, text));
  }

  /** Every handler keeps the id invariant and never lowers the counter. */
  lemma ApplyKeepsIdsValid(s: Snapshot, op: Op)
    requires IdsValid(s)
    ensures IdsValid(Apply(s, op)) && Apply(s, op).nextId >= s.nextId
  {
    match op
    case AddTaskOp(input) =>
      AddTaskKeepsIdsValid(s, input);
    case ToggleOp(id, stamp, now) =>
      ToggleKeepsIdsValid(s, id, stamp, now);
    case RemoveOp(id) =>
      FilterKeepsIdsValid(s, IdIsNot(id));
    case ClearDoneOp =>
      FilterKeepsIdsValid(s, NotDone);
    case SaveEditOp(id, value) =>
      SaveEditKeepsIdsValid(s, id, value);
    case RemoveHistoryOp(hid) =>
      assert Apply(s, op).tasks == s.tasks && Apply(s, op).nextId == s.nextId;
    case ClearHistoryOp =>
      assert Apply(s, op).tasks == s.tasks && Apply(s, op).nextId == s.nextId;
  }

  /** After any sequence of events every task id is still unique and below the counter. */
  lemma {:induction false} RunKeepsIdsValid(s: Snapshot, ops: seq<Op>)
    requires IdsValid(s)
    ensures IdsValid(Run(s, ops)) && Run(s, ops).nextId >= s.nextId
    decreases |ops|
  {
    if ops != [] {
      ApplyKeepsIdsValid(s, ops[0]);
      RunKeepsIdsValid(Apply(s, ops[0]), ops[1..]);
    }
  }

  /**
   * The history grows only when a toggle completes a task, and then by exactly one
   * entry at the front carrying that task's text; every other event leaves the
   * history as it was or removes entries from it, keeping the order of the rest.
   */
  lemma HistoryGrowsOnlyOnCompletion(s: Snapshot, op: Op)
    ensures |Apply(s, op).history| > |s.history| <==> Completes(s, op)
    ensures Completes(s, op) ==>
      var h := Apply(s, op).history;
      |h| == |s.history| + 1 && h[1..] == s.history
      && h[0] == HistoryEntry(op.stamp, Find(IdIs(op.id), s.tasks).value.text, op.now)
    ensures op.ToggleOp? && !Completes(s, op) ==> Apply(s, op).history == s.history
    ensures !Completes(s, op) ==> IsSubsequence(Apply(s, op).history, s.history)
  {
    if Completes(s, op) {
      assert ([HistoryEntry(op.stamp, Find(IdIs(op.id), s.tasks).value.text, op.now)] + s.history)[1..] == s.history;
    } else if op.RemoveHistoryOp? {
      FilterIsSubsequence(EntryIdIsNot(op.hid), s.history);
    } else if !op.ClearHistoryOp? {
      SubsequenceOfItself(s.history);
    }
  }

  /**
   * `remove(id)` keeps exactly the tasks with another id, each as often as it
   * occurs, in their order; when the
   * ids are unique and the task is at position `i`, that one task is cut out.
   */
  lemma RemoveSpec(s: Snapshot, id: int)
    ensures var r := Remove(s, id);
      r.history == s.history && r.nextId == s.nextId
      && IsSubsequence(r.tasks, s.tasks)
      && (forall k :: 0 <= k < |r.tasks| ==> r.tasks[k] in s.tasks && r.tasks[k].id != id)
      && (forall k :: 0 <= k < |s.tasks| && s.tasks[k].id != id ==> s.tasks[k] in r.tasks)
      && |r.tasks| == |s.tasks| - |Filter(IdIs(id), s.tasks)|
  {
    FilterIsSubsequence(IdIsNot(id), s.tasks);
    FilterComplement(IdIsNot(id), IdIs(id), s.tasks);
  }

  lemma RemovePresent(s: Snapshot, id: int, i: nat)
    requires UniqueIds(s.tasks)
    requires i < |s.tasks| && s.tasks[i].id == id
    ensures Remove(s, id).tasks == s.tasks[..i] + s.tasks[i + 1..]
  {
    var ts, p := s.tasks, IdIsNot(id);
    assert ts == ts[..i] + ([ts[i]] + ts[i + 1..]);
    FilterConcat(p, ts[..i], [ts[i]] + ts[i + 1..]);
    FilterConcat(p, [ts[i]], ts[i + 1..]);
    FilterKeepsAll(p, ts[..i]);
    FilterKeepsAll(p, ts[i + 1..]);
    assert Filter(p, [ts[i]]) == [];
  }

  /**
   * `clearDone` keeps exactly the tasks that are not done, in their order, so no
   * done task is left and as many remain as there were tasks not done.
   */
  lemma ClearDoneSpec(s: Snapshot)
    ensures var r := ClearDone(s);
      r.history == s.history && r.nextId == s.nextId
      && IsSubsequence(r.tasks, s.tasks)
      && (forall k :: 0 <= k < |r.tasks| ==> !r.tasks[k].done && r.tasks[k] in s.tasks)
      && (forall k :: 0 <= k < |s.tasks| && !s.tasks[k].done ==> s.tasks[k] in r.tasks)
      && |r.tasks| == |s.tasks| - |Filter(IsDone, s.tasks)|
  {
    FilterIsSubsequence(NotDone, s.tasks);
    FilterComplement(NotDone, IsDone, s.tasks);
  }

  /**
   * `saveEdit` with a blank value changes nothing; otherwise it replaces the text of
   * the task at position `i` with the trimmed value and keeps its id, its `done`,
   * every other task and the order.
   */
  lemma SaveEditSpec(s: Snapshot, id: int, value: string, i: nat)
    requires UniqueIds(s.tasks)
    requires i < |s.tasks| && s.tasks[i].id == id
    ensures AllWhitespace(value) ==> SaveEdit(s, id, value) == s
    ensures !AllWhitespace(value) ==>
      SaveEdit(s, id, value) == s.(tasks := s.tasks[i := s.tasks[i].(text := Trim(value))])
  {
    TrimEmptyIff(value);
    if !AllWhitespace(value) {
      var renamed := Map(RenameIf(id, Trim(value)), s.tasks);
      forall k | 0 <= k < |s.tasks|
        ensures renamed[k] == s.tasks[i := s.tasks[i].(text := Trim(value))][k]
      {
        if k != i {
          assert s.tasks[k].id != id;
        }
      }
    }
  }

  /** `saveEdit` on an id that no task has leaves the tasks as they were. */
  lemma SaveEditAbsent(s: Snapshot, id: int, value: string)
    requires !HasId(s.tasks, id)
    ensures SaveEdit(s, id, value) == s
  {
    var renamed := Map(RenameIf(id, Trim(value)), s.tasks);
    assert forall k :: 0 <= k < |s.tasks| ==> renamed[k] == s.tasks[k];
  }

  /**
   * `removeHistory(hid)` keeps exactly the entries with another id, in their order:
   * a subsequence with only such entries and as many as there are, so an entry
   * that occurs twice is kept twice. Tasks and counter are untouched.
   */
  lemma RemoveHistorySpec(s: Snapshot, hid: int)
    ensures var r := RemoveHistory(s, hid);
      r.tasks == s.tasks && r.nextId == s.nextId
      && IsSubsequence(r.history, s.history)
      && (forall k :: 0 <= k < |r.history| ==> r.history[k] in s.history && r.history[k].id != hid)
      && (forall k :: 0 <= k < |s.history| && s.history[k].id != hid ==> s.history[k] in r.history)
      && |r.history| == |s.history| - |Filter(EntryIdIs(hid), s.history)|
  {
    FilterIsSubsequence(EntryIdIsNot(hid), s.history);
    FilterComplement(EntryIdIsNot(hid), EntryIdIs(hid), s.history);
  }
}
