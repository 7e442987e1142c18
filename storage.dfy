/**
 * `loadData` and `saveData`. The key-value store and JSON are outside the model:
 * `Load` receives the values already parsed, with `None` for a missing key or a
 * value that parses to something falsy (for the counter: `NaN`), and a flag for
 * a parse that threw.
 */
module Storage {
  import opened Wrappers
  import opened Todo

  /** The three stored entries `tasks`, `history` and `nextId`, as parsed. */
  datatype Stored = Stored(tasks: Option<seq<Task>>, history: Option<seq<HistoryEntry>>, nextId: Option<int>)

  /**
   * `loadData`: each missing entry falls back to its default (`[]`, `[]`, `1`), a
   * stored counter of 0 also becomes 1 (`parseInt(…) || 1`), and a parse failure
   * resets all three entries at once.
   */
  function Load(parseFailed: bool, stored: Stored): (s: Snapshot)
    ensures s.nextId != 0
    ensures parseFailed ==> s == Snapshot([], [], 1)
  {
    if parseFailed then Snapshot([], [], 1)
    else
      var counter := match stored.nextId
        case Some(n) => if n == 0 then 1 else n
        case None => 1;
      Snapshot(stored.tasks.GetOr([]), stored.history.GetOr([]), counter)
  }

  /** `saveData`: all three entries written back. */
  function Save(s: Snapshot): Stored
  {
    Stored(Some(s.tasks), Some(s.history), Some(s.nextId))
  }

  /** Without a parse failure, each entry falls back to its default on its own. */
  lemma LoadDefaults(stored: Stored)
    ensures var s := Load(false, stored);
      (stored.tasks.None? ==> s.tasks == []) && (stored.tasks.Some? ==> s.tasks == stored.tasks.value)
      && (stored.history.None? ==> s.history == [])
      && (stored.history.Some? ==> s.history == stored.history.value)
      && (stored.nextId.None? ==> s.nextId == 1)
      && (stored.nextId.Some? ==> s.nextId == if stored.nextId.value == 0 then 1 else stored.nextId.value)
  {
  }

  /** Saving and loading again gives back the same state exactly when the counter is not 0. */
  lemma SaveLoadRoundTrip(s: Snapshot)
    ensures Load(false, Save(s)) == s <==> s.nextId != 0
  {
  }

  /** A reload never lowers the counter, so the id invariant survives it. */
  lemma ReloadKeepsIdsValid(s: Snapshot)
    requires IdsValid(s)
    ensures Load(false, Save(s)).tasks == s.tasks && Load(false, Save(s)).history == s.history
    ensures Load(false, Save(s)).nextId >= s.nextId
    ensures IdsValid(Load(false, Save(s)))
  {
  }
}
