/**
 * The page's module-level state (`tasks`, `history`, `nextId`, `filter`) and the
 * event handlers that update it in place. Each handler's new state is the
 * corresponding step of `Todo` applied to the old one; the lemmas there say what
 * those steps do.
 */
module Store {
  import opened Wrappers
  import opened Seqs
  import opened Text
  import opened Todo
  import opened Storage

  class TodoStore {
    var tasks: seq<Task>
    var history: seq<HistoryEntry>
    var nextId: int
    var filter: string

    /** The id invariant of the task list. */
    predicate Valid()
      reads this
    {
      IdsValid(State())
    }

    /** The persistent part of the state. */
    function State(): Snapshot
      reads this
    {
      Snapshot(tasks, history, nextId)
    }

    /** Start-up: the filter starts at `all`, then `loadData` fills the rest from storage. */
    constructor (parseFailed: bool, stored: Stored)
      ensures State() == Load(parseFailed, stored) && filter == "all"
      ensures parseFailed ==> tasks == [] && history == [] && nextId == 1
    {
      filter := "all";
      var loaded := Load(parseFailed, stored);
      tasks, history, nextId := loaded.tasks, loaded.history, loaded.nextId;
    }

    /** `addTask`, with the input field's value. */
    method AddTask(input: string)
      modifies this
      ensures State() == Todo.AddTask(old(State()), input) && filter == old(filter)
      ensures AllWhitespace(input) ==> tasks == old(tasks) && nextId == old(nextId)
      ensures !AllWhitespace(input) ==>
        tasks == old(tasks) + [Task(old(nextId), Trim(input), false)] && nextId == old(nextId) + 1
      ensures history == old(history)
      ensures old(Valid()) ==> Valid()
    {
      var text := Trim(input);
      TrimEmptyIff(input);
      if text == [] {
        return;
      }
      tasks := tasks + [Task(nextId, text, false)];
      nextId := nextId + 1;
    }

    /** `toggle(id)`, with `Date.now()` as `stamp` and `new Date()` as `now`. */
    method Toggle(id: int, stamp: int, now: int)
      modifies this
      ensures State() == Todo.Toggle(old(State()), id, stamp, now) && filter == old(filter)
      ensures !HasId(old(tasks), id) ==> tasks == old(tasks) && history == old(history)
      ensures old(Valid()) ==> Valid()
    {
      var found := Find(IdIs(id), tasks);
      if found.None? {
        return;
      }
      var task := found.value;
      if !task.done {
        history := [HistoryEntry(stamp, task.text, now)] + history;
      }
      tasks := Map(FlipIf(id), tasks);
      if IdsValid(old(State())) {
        MapKeepsIds(old(State()), FlipIf(id));
      }
    }

    /** `remove(id)`. */
    method Remove(id: int)
      modifies this
      ensures State() == Todo.Remove(old(State()), id) && filter == old(filter)
      ensures old(Valid()) ==> Valid()
    {
      tasks := Filter(IdIsNot(id), tasks);
      if IdsValid(old(State())) {
        FilterKeepsIdsValid(old(State()), IdIsNot(id));
      }
    }

    /** `clearDone()`. */
    method ClearDone()
      modifies this
      ensures State() == Todo.ClearDone(old(State())) && filter == old(filter)
      ensures forall k :: 0 <= k < |tasks| ==> !tasks[k].done
      ensures old(Valid()) ==> Valid()
    {
      tasks := Filter(NotDone, tasks);
      if IdsValid(old(State())) {
        FilterKeepsIdsValid(old(State()), NotDone);
      }
    }

    /** `setFilter(f)`: only the filter changes. */
    method SetFilter(f: string)
      modifies this
      ensures filter == f && State() == old(State())
    {
      filter := f;
    }

    /** `saveEdit(id)`, with the edit field's value. */
    method SaveEdit(id: int, value: string)
      modifies this
      ensures State() == Todo.SaveEdit(old(State()), id, value) && filter == old(filter)
      ensures AllWhitespace(value) ==> tasks == old(tasks)
      ensures old(Valid()) ==> Valid()
    {
      var text := Trim(value);
      TrimEmptyIff(value);
      if text != [] {
        tasks := Map(RenameIf(id, text), tasks);
        if IdsValid(old(State())) {
          MapKeepsIds(old(State()), RenameIf(id, text));
        }
      }
    }

    /** `removeHistory(hid)`. */
    method RemoveHistory(hid: int)
      modifies this
      ensures State() == Todo.RemoveHistory(old(State()), hid) && filter == old(filter)
      ensures tasks == old(tasks) && nextId == old(nextId)
    {
      history := Filter(EntryIdIsNot(hid), history);
    }

    /** `clearHistory()`. */
    method ClearHistory()
      modifies this
      ensures State() == Todo.ClearHistory(old(State())) && filter == old(filter)
      ensures history == [] && tasks == old(tasks) && nextId == old(nextId)
    {
      history := [];
    }
  }
}
