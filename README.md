# To-do list state store, modelled in Dafny

The page keeps three pieces of state: the task list (`{id, text, done}` records), the completion history (`{id, text, completedAt}` records, newest first) and the id counter `nextId`. There is also the active filter. Each user event runs one handler to completion. A handler may read a value from the page or the clock, then changes the state. Most handlers then save the state and re-render. `setFilter` does not save, `saveEdit` saves only when the value is not blank, and `removeHistory` and `clearHistory` re-render only the history panel. This project models that state and its handlers:

- `Todo` gives each handler as a pure step on a `Snapshot` of the state, plus the lemmas that say what each step does. Those lemmas cover what is appended, flipped, renamed or removed, that order is kept, that nothing else changes, and that the id invariant holds.
- `Store.TodoStore` is a class with the fields `tasks`, `history`, `nextId` and `filter`. Its methods run the handlers in place. Each method's new state is the matching `Todo` step applied to the old state, and each method keeps the id invariant.
- `Storage` holds the `loadData` fallback rule and `saveData`.
- `Render` holds what `render` and `renderHistory` select before they build markup: the counts, the visible subset, the empty-state message and the escaped row text.
- `Text` holds `trim` and `escapeHtml`. `Seqs` holds the `filter`, `map` and `find` array methods the handlers are written with.

Values the handlers read from outside are method parameters:
- the input field's value;
- the edit field's value;
- `Date.now()` (the new history entry's id) and `new Date()` (its time), both as millisecond numbers;
- the parsed stored values.

Behaviour of the code worth knowing:
- A parse failure resets all three stored values at once. A missing or falsy value falls back to its default on its own. A stored counter of 0 also becomes 1.
- Filter values other than `all` and `done` show the open tasks. However, only `active` gets the "All caught up!" message.
- History ids come from `Date.now()` and need not be unique. `removeHistory` removes every entry with the given id.

## Model

| member | source | states |
|---|---|---|
| Seqs.Filter | script.js:81 | `filter` keeps exactly the elements that pass the test and never makes the list longer |
| Seqs.FilterIsSubsequence | script.js:87 | the filtered list is a subsequence of the original, so the relative order is kept |
| Seqs.FilterConcat | script.js:134 | filtering a concatenation is the concatenation of the filtered parts |
| Seqs.FilterKeepsAll | script.js:168-170 | when every element passes the test, the filter returns the list unchanged |
| Seqs.FilterComplement | script.js:161-162 | filtering by a test and by its negation gives lengths that add up to the whole list |
| Seqs.Map | script.js:74 | `map` keeps the length and applies the callback at every position |
| Seqs.Find | script.js:69 | `find` gives nothing exactly when no element passes, and otherwise an element of the list that passes |
| Seqs.FindFirst | script.js:69 | `find` returns the first element that passes the test |
| Text.TrimStart | script.js:60 | strips a prefix of whitespace and stops at the first other character |
| Text.TrimEnd | script.js:60 | strips a suffix of whitespace and stops at the last other character |
| Text.Trim | script.js:120 | `trim` returns an infix of its input with only whitespace around it, and the result neither starts nor ends with whitespace |
| Text.TrimEmptyIff | script.js:61 | text is empty after trimming exactly when it is all whitespace |
| Text.TrimIdempotent | script.js:60 | trimming already trimmed text changes nothing |
| Text.ReplaceAll | script.js:210 | a global `replace` of one character leaves none of it behind when the replacement lacks it, and leaves a string without the character alone |
| Text.ReplaceAllHas | script.js:210 | a character occurs after the replacement exactly when it occurred before and is not the replaced one, or the replaced one occurred and the replacement holds it |
| Text.EscapeHtml | script.js:209-211 | the output has no `<` or `>`, and text with no `&`, `<` or `>` comes back unchanged |
| Text.EscapeHtmlIsEscapeEach | script.js:210 | the three sequential passes agree with escaping each character on its own (`&`, `<`, `>`) |
| Text.UnescapeEscapeEach | script.js:210 | decoding character by character escaped text gives back the original |
| Text.EscapeHtmlRoundTrip | script.js:209-211 | escaping loses nothing: the decoded markup is exactly the original text |
| Text.AttributeValue | script.js:105 | the value read from a double-quoted attribute has no `"` and is a prefix of what follows `value="` |
| Text.EscapeHtmlCutsAttribute | script.js:105 | when the text holds a `"`, escaped text still holds it, and the edit field's attribute value ends before the escaped text does |
| Text.EditFieldLosesText | script.js:105 | the edit field for the task `a"b` shows `a` |
| Text.EscapeAttribute | script.js:105 | attribute escaping leaves no `<`, `>` or `"` in its output |
| Text.EscapeAttributeKeepsEditValue | script.js:105 | with quotes escaped, the attribute holds the whole escaped text, and decoding it gives the task text back |
| Todo.AddTaskSpec | script.js:59-66 | `addTask` changes the state exactly when the input is not all whitespace; then it appends one task with the old counter, the trimmed non-empty text and `done` false, and increments the counter |
| Todo.AddTaskKeepsIdsValid | script.js:62 | `nextId++` keeps task ids unique and below the counter |
| Todo.ToggleAbsent | script.js:69-70 | `toggle` on an id no task has changes nothing |
| Todo.TogglePresent | script.js:71-74 | with unique ids, `toggle` flips `done` of that task in place and keeps the other tasks and the counter; it prepends one history entry with the task's text only if the task was not done |
| Todo.MapKeepsIds | script.js:74 | a `map` that keeps every id keeps the id invariant |
| Todo.FilterKeepsUniqueIds | script.js:81 | filtering a list with unique ids leaves unique ids |
| Todo.FilterKeepsIdsValid | script.js:87 | `remove` and `clearDone` keep the id invariant |
| Todo.ApplyKeepsIdsValid | script.js:59-144 | every handler keeps the id invariant and never lowers the counter |
| Todo.RunKeepsIdsValid | script.js:58-144 | after any sequence of handled events, task ids are unique and below a counter that never went down |
| Todo.HistoryGrowsOnlyOnCompletion | script.js:71-73 | the history grows only on a not-done to done toggle, by one entry at the front with the task's text; any other toggle leaves it unchanged, and every other event leaves a subsequence of it |
| Todo.RemoveSpec | script.js:80-84 | `remove(id)` keeps exactly the tasks with another id, in order and as many as there are, and changes neither the history nor the counter |
| Todo.RemovePresent | script.js:81 | with unique ids, `remove` cuts out exactly the one task with that id |
| Todo.ClearDoneSpec | script.js:86-90 | `clearDone` keeps exactly the tasks that are not done, in order; none of them is done and their number is the total minus the done count |
| Todo.SaveEditSpec | script.js:118-126 | `saveEdit` with a blank value changes nothing; otherwise it replaces only the text of that task with the trimmed value, keeping its id, `done` and position |
| Todo.SaveEditAbsent | script.js:122 | `saveEdit` on an id no task has changes nothing |
| Todo.RemoveHistorySpec | script.js:133-137 | `removeHistory(hid)` keeps exactly the entries with another id, in order and as many as there are (a repeated entry stays repeated), and changes neither the tasks nor the counter |
| Storage.Load | script.js:24-33 | the loaded counter is never 0, and a parse failure resets tasks, history and counter all together to `[]`, `[]`, `1` |
| Storage.LoadDefaults | script.js:26-29 | without a parse failure, each missing entry falls back to its own default, and a stored counter of 0 becomes 1 |
| Storage.SaveLoadRoundTrip | script.js:18-29 | saving and then loading gives back the same state exactly when the counter is not 0 |
| Storage.ReloadKeepsIdsValid | script.js:18-29 | a save and reload keeps tasks and history, never lowers the counter, and so keeps the id invariant |
| Render.CountsPartition | script.js:161-162 | the remaining and completed counts add up to the number of tasks, whatever the filter |
| Render.VisibleSpec | script.js:168-170 | the visible list is the subsequence the filter selects: everything for `all`, done tasks for `done`, open tasks for any other value; for `done` and the rest it is the same list whose length is shown as the completed or remaining count |
| Render.RenderBodySpec | script.js:172-187 | the filter's empty message appears exactly when nothing is visible; otherwise there is one row per visible task, in order, whose escaped text decodes to the task text and holds no angle bracket |
| Render.RenderHistorySpec | script.js:190-207 | the history count is the number of entries; all entries are listed in stored order with escaped text that decodes to the entry's text and holds no angle bracket, or the empty message appears when there are none |
| Render.FilterExample | script.js:168-170 | with an open task A and a done task B, `active` shows A, `done` shows B and `all` shows A then B |
| Store.TodoStore.constructor | script.js:45-52 | the filter starts at `all` and the rest of the state is what `loadData` produces |
| Store.TodoStore.AddTask | script.js:59-66 | the new state is the `addTask` step; a blank input leaves tasks and counter alone, and any other input appends the trimmed task and increments the counter; the id invariant is kept |
| Store.TodoStore.Toggle | script.js:68-78 | the new state is the `toggle` step; an absent id changes nothing; the id invariant is kept |
| Store.TodoStore.Remove | script.js:80-84 | the new state is the `remove` step; the id invariant is kept |
| Store.TodoStore.ClearDone | script.js:86-90 | the new state is the `clearDone` step, no task left is done, and the id invariant is kept |
| Store.TodoStore.SetFilter | script.js:92-93 | only the filter changes |
| Store.TodoStore.SaveEdit | script.js:118-126 | the new state is the `saveEdit` step; a blank value leaves the tasks alone; the id invariant is kept |
| Store.TodoStore.RemoveHistory | script.js:133-137 | the new state is the `removeHistory` step; tasks and counter are unchanged |
| Store.TodoStore.ClearHistory | script.js:139-144 | the history becomes empty; tasks and counter are unchanged |

## Left out

- The theme toggle, the theme restore and the splash-screen timer (script.js:1-15, 35-43): cosmetic UI and a `setTimeout`.
- `toggleHistory` (script.js:146-150): it flips a panel flag that only drives CSS classes.
- `startEdit` and `cancelEdit` (script.js:100-116, 128-130): they build and tear down DOM rows. Only the escaping of the edit field's value attribute is modelled, under Findings.
- The markup templates of `render` and `renderHistory`, and the "N task(s) remaining" wording (script.js:164-166, 180-187, 197-206). Rows are modelled as id, escaped text and flags rather than HTML strings.
- `formatTime` (script.js:152-156): locale-dependent `Date` formatting. History rows carry the raw completion time.
- `localStorage`, `JSON.parse`, `JSON.stringify` and `parseInt` (script.js:18-33): these are foreign calls. `Storage.Load` takes their results as already-parsed values. A missing key, a falsy JSON value or a `NaN` counter is `None`, and a thrown exception is a flag. A stored value that parses to something truthy of the wrong shape is not modelled.
- Storage.SaveLoadRoundTrip: `completedAt` is modelled as a millisecond number. The code's trip through an ISO string and `new Date(...)` is taken as exact. The code's trip through `String(nextId)` and `parseInt` is also taken as exact, which holds for safe integers only.
- Todo.AddTaskKeepsIdsValid: ids and the counter are unbounded integers. JavaScript numbers lose exactness above 2^53, which a counter never reaches in use.
- Store.TodoStore.SaveEdit: the edit field is passed in as a string. The code throws when the edit field is not in the page, and that path is not modelled.
- `saveData` and the re-render calls after each handler are not modelled as effects. `Storage.Save` gives the values written.
- The whole offline worker `sw.js`: asynchronous Cache API and `fetch` calls with no state logic of its own.

## Findings

| source | as written | input that shows it | evidently intended | confidence | as-written member | corrected member |
|---|---|---|---|---|---|---|
| script.js:105 | the edit field is written as `value="${escapeHtml(task.text)}"`, but `escapeHtml` (script.js:209-211) leaves `"` alone, so a quote in the task text ends the attribute early; the field is filled with a cut-down text, and the rest of the text lands in the tag as attributes | task text `a"b`: the edit field shows `a`, and saving the edit stores `a` | quotes escaped as `&quot;` inside the attribute, so the field holds the whole task text | not executed | Text.EscapeHtmlCutsAttribute, Text.EditFieldLosesText | Text.EscapeAttribute, Text.EscapeAttributeKeepsEditValue |
