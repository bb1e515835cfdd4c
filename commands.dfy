/** The four command handlers of the to-do tool. Each loads the task list
    from the store, acts on it and, for `add`, `done` and `delete`, saves it
    back. The clock reading, the user's answer to a checkbox prompt and the
    outcome of the final write are supplied as parameters. */
module Commands {
  import opened Tasks
  import opened TaskLists
  import opened Storage

  const AddedMessage: string := "Task added, complete it soon!"
  const NoTasksYet: string := "No tasks yet.."
  const DoneNoTasks: string := "No tasks found!"
  const DoneMessage: string := "Tasks updated :)"
  const DeleteNoTasks: string := "No tasks found"
  const DeletedMessage: string := "Task deleted!"

  /** What `list` shows: a message, or the table under its column headings. */
  datatype Screen = Message(text: string) | Table(header: seq<string>, rows: seq<Row>)

  /** The checkbox prompt a command puts to the user, if any. */
  datatype Prompt = NoPrompt | Checkbox(choices: seq<Choice>)

  /** `add <title>`: appends one new, not yet done task to the stored list. */
  method Add(store: Store, title: string, now: string, outcome: WriteOutcome) returns (msg: string)
    modifies store
    ensures msg == AddedMessage
    ensures store.file == AfterWrite(old(store.file), old(store.Load()) + [NewTask(title, now)], outcome)
    ensures outcome == Written ==> |store.Load()| == |old(store.Load())| + 1
    ensures outcome == Written ==> store.Load()[|store.Load()| - 1] == NewTask(title, now)
    ensures outcome == Written ==> store.Load()[..|old(store.Load())|] == old(store.Load())
    ensures outcome != Written ==> store.file == old(store.file) || store.Load() == []
  {
    var tasks := new TaskList(store.Load());
    tasks.Push(NewTask(title, now));
    store.Save(tasks.items, outcome);
    msg := AddedMessage;
  }

  /** The row loop of `list`: one row per task, in order. */
  method RenderRows(tasks: seq<Task>) returns (rows: seq<Row>)
    ensures |rows| == |tasks|
    ensures forall k :: 0 <= k < |tasks| ==> ShowsTask(rows[k], tasks[k], k)
  {
    rows := [];
    var i := 0;
    while i < |tasks|
      invariant 0 <= i <= |tasks| && |rows| == i
      invariant forall k :: 0 <= k < i ==> ShowsTask(rows[k], tasks[k], k)
    {
      RowOfShowsTask(tasks[i], i);
      rows := rows + [RowOf(tasks[i], i)];
      i := i + 1;
    }
  }

  /** `list`: the "no tasks" message for an empty list, otherwise the table
      with row k numbered k + 1. It changes nothing: it has no frame. */
  method List(store: Store) returns (screen: Screen)
    ensures store.Load() == [] <==> screen == Message(NoTasksYet)
    ensures store.Load() != [] ==>
      screen.Table? && screen.header == Header && |screen.rows| == |store.Load()| &&
      forall k :: 0 <= k < |store.Load()| ==> ShowsTask(screen.rows[k], store.Load()[k], k)
  {
    var tasks := store.Load();
    if |tasks| == 0 {
      return Message(NoTasksYet);
    }
    var rows := RenderRows(tasks);
    screen := Table(Header, rows);
  }

  /** `done`: on an empty list reports and stops, neither prompting nor
      saving; otherwise prompts with one pre-checked-as-stored entry per
      task and saves the list with every status overwritten by the answer. */
  method Done(store: Store, answer: Selection, outcome: WriteOutcome) returns (prompt: Prompt, msg: string)
    modifies store
    ensures old(store.Load()) == [] ==>
      prompt == NoPrompt && msg == DoneNoTasks && store.file == old(store.file)
    ensures old(store.Load()) != [] ==>
      prompt == Checkbox(DoneChoices(old(store.Load()))) && msg == DoneMessage
    ensures old(store.Load()) != [] ==>
      store.file == AfterWrite(old(store.file), Marked(old(store.Load()), answer), outcome)
    ensures old(store.Load()) != [] && outcome == Written ==>
      store.Load() == Marked(old(store.Load()), answer)
    ensures outcome != Written ==> store.file == old(store.file) || store.Load() == []
  {
    var tasks := new TaskList(store.Load());
    if |tasks.items| == 0 {
      return NoPrompt, DoneNoTasks;
    }
    prompt := Checkbox(DoneChoices(tasks.items));
    tasks.MarkDone(answer);
    store.Save(tasks.items, outcome);
    msg := DoneMessage;
  }

  /** `delete`: on an empty list reports and stops, neither prompting nor
      saving; otherwise prompts with one unchecked entry per task and saves
      the tasks whose index was not selected. */
  method Delete(store: Store, answer: Selection, outcome: WriteOutcome) returns (prompt: Prompt, msg: string)
    modifies store
    ensures old(store.Load()) == [] ==>
      prompt == NoPrompt && msg == DeleteNoTasks && store.file == old(store.file)
    ensures old(store.Load()) != [] ==>
      prompt == Checkbox(DeleteChoices(old(store.Load()))) && msg == DeletedMessage
    ensures old(store.Load()) != [] ==>
      store.file == AfterWrite(old(store.file), Remaining(old(store.Load()), answer), outcome)
    ensures old(store.Load()) != [] && outcome == Written ==>
      store.Load() == Remaining(old(store.Load()), answer)
    ensures outcome != Written ==> store.file == old(store.file) || store.Load() == []
  {
    var tasks := store.Load();
    if |tasks| == 0 {
      return NoPrompt, DeleteNoTasks;
    }
    prompt := Checkbox(DeleteChoices(tasks));
    var filtered := Remaining(tasks, answer);
    store.Save(filtered, outcome);
    msg := DeletedMessage;
  }

  /** A session on a fresh store whose writes all succeed: two `add`s, a
      `list`, a `done` that selects the first task, and another `list`.
      What it shows follows from the contracts above alone. */
  method Session(store: Store, t0: string, t1: string) returns (first: Screen, second: Screen)
    requires store.file == Missing
    modifies store
    ensures first.Table? && |first.rows| == 2
    ensures first.rows[0].number == 1 && first.rows[0].title == "buy milk" && first.rows[0].status == CrossMark
    ensures first.rows[1].number == 2 && first.rows[1].title == "call mom" && first.rows[1].status == CrossMark
    ensures second.Table? && |second.rows| == 2
    ensures second.rows[0].struck && second.rows[0].status == CheckMark
    ensures !second.rows[1].struck && second.rows[1].status == CrossMark
    ensures !first.rows[0].struck && !first.rows[1].struck
    ensures second.rows[0].number == 1 && second.rows[0].title == "buy milk"
    ensures second.rows[1] == first.rows[1]
  {
    var _ := Add(store, "buy milk", t0, Written);
    var _ := Add(store, "call mom", t1, Written);
    first := List(store);
    var _, _ := Done(store, [0], Written);
    second := List(store);
  }
}
