/**
 * What `render` and `renderHistory` compute before building markup: the counts,
 * the visible subset chosen by the filter, the empty-state message, and each
 * row's escaped text.
 */
module Render {
  import opened Seqs
  import opened Text
  import opened Todo

  /** A task row: its id, its text as escaped markup, and whether it is drawn as done. */
  datatype Row = Row(id: int, html: string, done: bool)

  /** A history row: its id, its escaped text, and the completion time. */
  datatype HistoryRow = HistoryRow(id: int, html: string, completedAt: int)

  /** The list region shows either an empty-state message or the rows. */
  datatype Body<R> = Empty(message: string) | Rows(rows: seq<R>)

  datatype TaskView = TaskView(remaining: nat, completed: nat, body: Body<Row>)

  datatype HistoryView = HistoryView(count: nat, body: Body<HistoryRow>)

  /** The filter test: `all` shows everything, `done` the done tasks, any other value the open ones. */
  function Shows(filter: string): Task -> bool
  {
    (t: Task) => if filter == "all" then true else if filter == "done" then t.done else !t.done
  }

  function Visible(ts: seq<Task>, filter: string): seq<Task>
  {
    Filter(Shows(filter), ts)
  }

  function EmptyMessage(filter: string): string
  {
    if filter == "done" then "No completed tasks yet."
    else if filter == "active" then "All caught up!"
    else "Add your first task above."
  }

  function TaskRow(t: Task): Row
  {
    Row(t.id, EscapeHtml(t.text), t.done)
  }

  function EntryRow(h: HistoryEntry): HistoryRow
  {
    HistoryRow(h.id, EscapeHtml(h.text), h.completedAt)
  }

  /** `render`. */
  function RenderTasks(ts: seq<Task>, filter: string): TaskView
  {
    var visible := Visible(ts, filter);
    TaskView(|Filter(NotDone, ts)|, |Filter(IsDone, ts)|,
             if visible == [] then Empty(EmptyMessage(filter)) else Rows(Map(TaskRow, visible)))
  }

  /** `renderHistory`. */
  function RenderHistory(hs: seq<HistoryEntry>): HistoryView
  {
    HistoryView(|hs|, if hs == [] then Empty("No completed tasks yet.") else Rows(Map(EntryRow, hs)))
  }

  /** The remaining and completed counts partition the whole task list, whatever the filter. */
  lemma CountsPartition(ts: seq<Task>, filter: string)
    ensures RenderTasks(ts, filter).remaining + RenderTasks(ts, filter).completed == |ts|
  {
    FilterComplement(NotDone, IsDone, ts);
  }

  /**
   * The visible tasks are those the filter selects, in the list's order: all of
   * them for `all`, the done ones for `done`, the open ones otherwise. For `done`
   * and the rest they are the very tasks counted as completed or remaining.
   */
  lemma VisibleSpec(ts: seq<Task>, filter: string)
    ensures IsSubsequence(Visible(ts, filter), ts)
    ensures filter == "all" ==> Visible(ts, filter) == ts
    ensures forall k :: 0 <= k < |Visible(ts, filter)| ==>
      var t := Visible(ts, filter)[k];
      t in ts && (filter == "done" ==> t.done) && (filter != "all" && filter != "done" ==> !t.done)
    ensures forall k :: 0 <= k < |ts| && (filter == "done" ==> ts[k].done)
                                      && (filter != "all" && filter != "done" ==> !ts[k].done)
                        ==> ts[k] in Visible(ts, filter)
    ensures filter == "done" ==> Visible(ts, filter) == Filter(IsDone, ts)
                                 && |Visible(ts, filter)| == RenderTasks(ts, filter).completed
    ensures filter != "all" && filter != "done" ==>
      Visible(ts, filter) == Filter(NotDone, ts) && |Visible(ts, filter)| == RenderTasks(ts, filter).remaining
  {
    FilterIsSubsequence(Shows(filter), ts);
    if filter == "all" {
      FilterKeepsAll(Shows(filter), ts);
    } else if filter == "done" {
      FilterAgree(Shows(filter), IsDone, ts);
    } else {
      FilterAgree(Shows(filter), NotDone, ts);
    }
  }

  /**
   * The list shows the filter's empty-state message exactly when nothing is
   * visible, and otherwise one row per visible task, in order, whose markup shows
   * that task's text and contains no angle bracket.
   */
  lemma RenderBodySpec(ts: seq<Task>, filter: string)
    ensures var v := RenderTasks(ts, filter);
      (v.body.Empty? <==> Visible(ts, filter) == [])
      && (v.body.Empty? ==> v.body.message == EmptyMessage(filter))
      && (v.body.Rows? ==>
            |v.body.rows| == |Visible(ts, filter)|
            && forall k :: 0 <= k < |v.body.rows| ==>
                 var t := Visible(ts, filter)[k];
                 v.body.rows[k].id == t.id && v.body.rows[k].done == t.done
                 && Unescape(v.body.rows[k].html) == t.text
                 && '<' !in v.body.rows[k].html && '>' !in v.body.rows[k].html)
  {
    var visible := Visible(ts, filter);
    if visible != [] {
      forall k | 0 <= k < |visible| ensures Unescape(TaskRow(visible[k]).html) == visible[k].text {
        EscapeHtmlRoundTrip(visible[k].text);
      }
    }
  }

  /**
   * The history panel counts every entry and lists them all in stored order (newest
   * first), each with escaped text that shows the entry's text, or the empty-state
   * message when there are none.
   */
  lemma RenderHistorySpec(hs: seq<HistoryEntry>)
    ensures var v := RenderHistory(hs);
      v.count == |hs|
      && (v.body.Empty? <==> hs == [])
      && (v.body.Empty? ==> v.body.message == "No completed tasks yet.")
      && (v.body.Rows? ==>
            |v.body.rows| == |hs|
            && forall k :: 0 <= k < |hs| ==>
                 v.body.rows[k].id == hs[k].id && v.body.rows[k].completedAt == hs[k].completedAt
                 && Unescape(v.body.rows[k].html) == hs[k].text
                 && '<' !in v.body.rows[k].html && '>' !in v.body.rows[k].html)
  {
    forall k | 0 <= k < |hs| ensures Unescape(EntryRow(hs[k]).html) == hs[k].text {
      EscapeHtmlRoundTrip(hs[k].text);
    }
  }

  /** Two tasks, A open and B done: `active` shows A, `done` shows B, `all` shows both in order. */
  lemma FilterExample()
    ensures var a, b := Task(1, "A", false), Task(2, "B", true);
      Visible([a, b], "active") == [a] && Visible([a, b], "done") == [b] && Visible([a, b], "all") == [a, b]
  {
    var a, b := Task(1, "A", false), Task(2, "B", true);
    assert [a, b][1..] == [b] && [b][1..] == [];
    assert Filter(Shows("active"), [b]) == [];
    assert Filter(Shows("done"), [b]) == [b];
    assert Filter(Shows("all"), [b]) == [b];
  }
}
