/** The task file behind every command: read in full when a command starts
    and, for the commands that change the list, written in full when it
    ends. Serialisation is abstracted: a file either is absent, is empty,
    holds text that does not parse as a task list, or holds a task list. */
module Storage {
  import opened Tasks

  /** What the text of an existing task file parses to. */
  datatype Content = Blank | Malformed | Json(tasks: seq<Task>)

  /** The state of the task file on disk. */
  datatype Stored = Missing | File(content: Content)

  /** `loadTasks`: an absent file, an empty file and an unreadable file all
      give the empty list; a well-formed file gives the tasks it holds. */
  function LoadTasks(f: Stored): (r: seq<Task>)
    ensures f.File? && f.content.Json? ==> r == f.content.tasks
    ensures r != [] <==> f.File? && f.content.Json? && f.content.tasks != []
  {
    match f
    case Missing => []
    case File(Blank) => []
    case File(Malformed) => []
    case File(Json(tasks)) => tasks
  }

  /** How the single `writeFileSync` of a save ends. The call first opens
      the file for writing, which empties it, and then writes the text.
      It can succeed, fail before the file is opened (leaving it as it
      was), fail after emptying it, or fail after writing part of the text. */
  datatype WriteOutcome = Written | NotOpened | Emptied | WrittenPartly

  /** The file after saving `tasks` with the given outcome. A proper prefix
      of the text written for a task list never parses as one, because the
      closing bracket comes last. */
  function AfterWrite(before: Stored, tasks: seq<Task>, outcome: WriteOutcome): Stored
  {
    match outcome
    case Written => File(Json(tasks))
    case NotOpened => before
    case Emptied => File(Blank)
    case WrittenPartly => File(Malformed)
  }

  /** A successful save is read back as exactly the saved list. A failed
      save leaves the old file, or a file that loads as the empty list. */
  lemma SaveThenLoad(before: Stored, tasks: seq<Task>, outcome: WriteOutcome)
    ensures outcome == Written ==> LoadTasks(AfterWrite(before, tasks, outcome)) == tasks
    ensures outcome != Written ==>
      AfterWrite(before, tasks, outcome) == before || LoadTasks(AfterWrite(before, tasks, outcome)) == []
  {
  }

  /** The task file, the one piece of state that outlives a command. */
  class Store {
    var file: Stored

    constructor (initial: Stored)
      ensures file == initial
    {
      file := initial;
    }

    /** The tasks a command starts from. */
    function Load(): seq<Task>
      reads this
    {
      LoadTasks(file)
    }

    /** `saveTasks`: overwrites the file with the whole list. When the write
        succeeds the next load yields exactly that list; when it fails the
        file is either as it was or loads as the empty list. */
    method Save(tasks: seq<Task>, outcome: WriteOutcome)
      modifies this
      ensures file == AfterWrite(old(file), tasks, outcome)
      ensures outcome == Written ==> Load() == tasks
      ensures outcome != Written ==> file == old(file) || Load() == []
    {
      SaveThenLoad(file, tasks, outcome);
      file := AfterWrite(file, tasks, outcome);
    }
  }
}
