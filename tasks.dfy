/** The task record of the to-do tool and the pure transformations its
    command handlers apply to the loaded task list: the status overwrite of
    `done`, the positional filter of `delete`, the prompt choices of both,
    and the table rows of `list`. A task is identified only by its position
    in the list (0-based internally, 1-based on screen). */
module Tasks {

  /** One stored task. `createdAt` is the creation timestamp, kept as the
      opaque ISO-8601 string that was stored. */
  datatype Task = Task(title: string, done: bool, createdAt: string)

  /** A selection answered by the checkbox prompt: the `value`s of the
      choices the user left checked. */
  type Selection = seq<int>

  /** The task `add` appends: not done yet, stamped with the current time. */
  function NewTask(title: string, now: string): (t: Task)
    ensures t.title == title && !t.done && t.createdAt == now
  {
    Task(title, false, now)
  }

  /** The glyph shown for a task's status. */
  function Glyph(done: bool): char
  {
    if done then CheckMark else CrossMark
  }

  const CheckMark: char := '\U{2713}'
  const CrossMark: char := '\U{2717}'

  // ---------------------------------------------------------------------
  // done: the status of every task is overwritten by the selection

  /** The list after `done` with answer `sel`: each task is done exactly when
      its index was selected, whatever its status was before. */
  function Marked(tasks: seq<Task>, sel: Selection): seq<Task>
  {
    seq(|tasks|, i requires 0 <= i < |tasks| => tasks[i].(done := i in sel))
  }

  /** What `done` promises, and that nothing else satisfies it: the same
      number of tasks, titles and timestamps untouched, and a task is done
      if and only if its index is in the selection. */
  predicate DoneExactly(before: seq<Task>, after: seq<Task>, sel: Selection)
  {
    |after| == |before| &&
    forall i :: 0 <= i < |before| ==>
      after[i].title == before[i].title &&
      after[i].createdAt == before[i].createdAt &&
      (after[i].done <==> i in sel)
  }

  /** `Marked` meets `DoneExactly`, and is the only list that does. */
  lemma MarkedIsDoneExactly(tasks: seq<Task>, sel: Selection, after: seq<Task>)
    ensures DoneExactly(tasks, Marked(tasks, sel), sel)
    ensures DoneExactly(tasks, after, sel) ==> after == Marked(tasks, sel)
  {
  }

  /** The previous status plays no part in the result of `done`. */
  lemma MarkedIgnoresPriorStatus(a: seq<Task>, b: seq<Task>, sel: Selection)
    requires |a| == |b|
    requires forall i :: 0 <= i < |a| ==> a[i].title == b[i].title && a[i].createdAt == b[i].createdAt
    ensures Marked(a, sel) == Marked(b, sel)
  {
  }

  /** Confirming an empty selection marks every task not done. */
  lemma MarkedNothing(tasks: seq<Task>)
    ensures |Marked(tasks, [])| == |tasks|
    ensures forall i :: 0 <= i < |tasks| ==> !Marked(tasks, [])[i].done
  {
  }

  /** Selecting every index marks every task done. */
  lemma MarkedEverything(tasks: seq<Task>, sel: Selection)
    requires forall i :: 0 <= i < |tasks| ==> i in sel
    ensures |Marked(tasks, sel)| == |tasks|
    ensures forall i :: 0 <= i < |tasks| ==> Marked(tasks, sel)[i].done
  {
  }

  /** Running `done` twice with the same answer is the same as running it once. */
  lemma MarkedIdempotent(tasks: seq<Task>, sel: Selection)
    ensures Marked(Marked(tasks, sel), sel) == Marked(tasks, sel)
  {
  }

  // ---------------------------------------------------------------------
  // delete: keep the tasks whose index is not selected

  /** The list after `delete` with answer `sel`, built as the filter does:
      every position is visited in order and kept when it is not selected. */
  function Remaining(tasks: seq<Task>, sel: Selection): seq<Task>
    decreases |tasks|
  {
    if tasks == [] then []
    else
      var n := |tasks| - 1;
      Remaining(tasks[..n], sel) + (if n in sel then [] else [tasks[n]])
  }

  /** The ascending list of the positions below `n` that are not selected:
      the positions `delete` keeps. */
  function Kept(sel: Selection, n: nat): (r: seq<int>)
    ensures forall k :: 0 <= k < |r| ==> 0 <= r[k] < n && r[k] !in sel
    ensures forall k, l :: 0 <= k < l < |r| ==> r[k] < r[l]
    ensures forall i :: 0 <= i < n && i !in sel ==> i in r
  {
    if n == 0 then []
    else Kept(sel, n - 1) + (if n - 1 in sel then [] else [n - 1])
  }

  /** The in-range positions the selection names, each counted once. */
  ghost function Selected(sel: Selection, n: nat): set<int>
  {
    set i | 0 <= i < n && i in sel
  }

  /** `delete` keeps exactly the unselected tasks, in their original order:
      the k-th remaining task is the task at the k-th kept position. */
  lemma {:induction false} RemainingIsKept(tasks: seq<Task>, sel: Selection)
    ensures |Remaining(tasks, sel)| == |Kept(sel, |tasks|)|
    ensures forall k :: 0 <= k < |Kept(sel, |tasks|)| ==>
      Remaining(tasks, sel)[k] == tasks[Kept(sel, |tasks|)[k]]
    decreases |tasks|
  {
    if tasks != [] {
      var n := |tasks| - 1;
      var prefix := tasks[..n];
      RemainingIsKept(prefix, sel);
      assert |prefix| == n;
      var K := Kept(sel, n);
      forall k | 0 <= k < |K|
        ensures Remaining(tasks, sel)[k] == tasks[Kept(sel, |tasks|)[k]]
      {
        assert Kept(sel, |tasks|)[k] == K[k];
        assert Remaining(tasks, sel)[k] == Remaining(prefix, sel)[k];
        assert prefix[K[k]] == tasks[K[k]];
      }
    }
  }

  /** The number of tasks `delete` keeps is the list length minus the number
      of distinct in-range indices selected. */
  lemma {:induction false} KeptCount(sel: Selection, n: nat)
    ensures |Kept(sel, n)| == n - |Selected(sel, n)|
  {
    if n == 0 {
      assert Selected(sel, 0) == {};
    } else {
      KeptCount(sel, n - 1);
      if n - 1 in sel {
        assert Selected(sel, n) == Selected(sel, n - 1) + {n - 1};
      } else {
        assert Selected(sel, n) == Selected(sel, n - 1);
      }
    }
  }

  /** Length of the result of `delete`. */
  lemma RemainingLength(tasks: seq<Task>, sel: Selection)
    ensures |Remaining(tasks, sel)| == |tasks| - |Selected(sel, |tasks|)|
  {
    RemainingIsKept(tasks, sel);
    KeptCount(sel, |tasks|);
  }

  /** Only the in-range part of the selection matters: two selections that
      name the same positions of the list delete the same tasks. */
  lemma {:induction false} RemainingIgnoresOutOfRange(tasks: seq<Task>, s: Selection, t: Selection)
    requires forall i :: 0 <= i < |tasks| ==> (i in s <==> i in t)
    ensures Remaining(tasks, s) == Remaining(tasks, t)
    decreases |tasks|
  {
    if tasks != [] {
      RemainingIgnoresOutOfRange(tasks[..|tasks| - 1], s, t);
    }
  }

  /** A selection that names no position of the list deletes nothing; in
      particular the empty selection returns the list unchanged. */
  lemma {:induction false} RemainingUnselected(tasks: seq<Task>, sel: Selection)
    requires forall i :: i in sel ==> i < 0 || i >= |tasks|
    ensures Remaining(tasks, sel) == tasks
    decreases |tasks|
  {
    if tasks != [] {
      var n := |tasks| - 1;
      RemainingUnselected(tasks[..n], sel);
      assert tasks[..n] + [tasks[n]] == tasks;
    }
  }

  /** Deleting never invents tasks: every remaining task was in the list. */
  lemma {:induction false} RemainingIsSubset(tasks: seq<Task>, sel: Selection)
    ensures forall t :: t in Remaining(tasks, sel) ==> t in tasks
  {
    RemainingIsKept(tasks, sel);
  }

  // ---------------------------------------------------------------------
  // The checkbox prompts

  /** One entry of a checkbox prompt: the label shown, the value reported
      back when the entry is left checked, and whether it starts checked. */
  datatype Choice = Choice(name: string, value: int, checked: bool)

  /** The `done` prompt: one entry per task, labelled with its status glyph
      and title, valued by its index, pre-checked when the task is done. */
  function DoneChoices(tasks: seq<Task>): seq<Choice>
  {
    seq(|tasks|, i requires 0 <= i < |tasks| =>
      Choice([Glyph(tasks[i].done), ' '] + tasks[i].title, i, tasks[i].done))
  }

  /** The `delete` prompt: one entry per task, labelled with its title,
      valued by its index, starting unchecked. */
  function DeleteChoices(tasks: seq<Task>): seq<Choice>
  {
    seq(|tasks|, i requires 0 <= i < |tasks| => Choice(tasks[i].title, i, false))
  }

  /** The answer the prompt reports when the user confirms without toggling
      anything: the values of the entries that start checked, in order. */
  function CheckedValues(cs: seq<Choice>): (r: Selection)
    ensures forall v :: v in r <==> exists k :: 0 <= k < |cs| && cs[k].checked && cs[k].value == v
  {
    if cs == [] then []
    else
      var rest := CheckedValues(cs[1..]);
      assert forall k :: 1 <= k < |cs| ==> cs[k] == cs[1..][k - 1];
      (if cs[0].checked then [cs[0].value] else []) + rest
  }

  /** Each `done` entry stands for the task at its own index, shows its
      status glyph before its title, and starts checked exactly when the
      task is done. */
  lemma DoneChoicesDescribeTasks(tasks: seq<Task>)
    ensures |DoneChoices(tasks)| == |tasks|
    ensures forall i :: 0 <= i < |tasks| ==>
      DoneChoices(tasks)[i].value == i &&
      (DoneChoices(tasks)[i].checked <==> tasks[i].done) &&
      DoneChoices(tasks)[i].name == [if tasks[i].done then CheckMark else CrossMark, ' '] + tasks[i].title
  {
  }

  /** Each `delete` entry stands for the task at its own index, shows its
      title, and starts unchecked. */
  lemma DeleteChoicesDescribeTasks(tasks: seq<Task>)
    ensures |DeleteChoices(tasks)| == |tasks|
    ensures forall i :: 0 <= i < |tasks| ==>
      DeleteChoices(tasks)[i].value == i &&
      DeleteChoices(tasks)[i].name == tasks[i].title &&
      !DeleteChoices(tasks)[i].checked
  {
  }

  /** Confirming the `done` prompt as presented keeps every status. */
  lemma DoneDefaultKeepsStatus(tasks: seq<Task>)
    ensures Marked(tasks, CheckedValues(DoneChoices(tasks))) == tasks
  {
    var cs := DoneChoices(tasks);
    forall i | 0 <= i < |tasks|
      ensures Marked(tasks, CheckedValues(cs))[i] == tasks[i]
    {
      assert forall k :: 0 <= k < |cs| ==> cs[k].value == k && cs[k].checked == tasks[k].done;
      assert (i in CheckedValues(cs)) == tasks[i].done;
    }
  }

  /** Confirming the `delete` prompt as presented deletes nothing. */
  lemma DeleteDefaultKeepsAll(tasks: seq<Task>)
    ensures Remaining(tasks, CheckedValues(DeleteChoices(tasks))) == tasks
  {
    var cs := DeleteChoices(tasks);
    assert forall k :: 0 <= k < |cs| ==> !cs[k].checked;
    RemainingUnselected(tasks, CheckedValues(cs));
  }

  // ---------------------------------------------------------------------
  // list: the table rows

  /** One row of the `list` table: the 1-based position, the title (drawn
      struck through when done), the stored timestamp and the status glyph. */
  datatype Row = Row(number: int, title: string, struck: bool, createdAt: string, status: char)

  /** The column headings of the `list` table. */
  const Header: seq<string> := ["#", "Task", "Timestamp", "Status"]

  /** The row drawn for the task at 0-based index `i`. */
  function RowOf(task: Task, i: int): Row
  {
    Row(i + 1, task.title, task.done, task.createdAt, Glyph(task.done))
  }

  /** What the row of task `i` shows: its 1-based number, its own title and
      timestamp, a check mark exactly when it is done. */
  predicate ShowsTask(row: Row, task: Task, i: int)
  {
    row.number == i + 1 && row.title == task.title && row.createdAt == task.createdAt &&
    row.struck == task.done &&
    (row.status == CheckMark <==> task.done) &&
    (row.status == CrossMark <==> !task.done)
  }

  lemma RowOfShowsTask(task: Task, i: int)
    ensures ShowsTask(RowOf(task, i), task, i)
  {
  }
}
