/** The task array a command handler holds in memory between loading and
    saving. `add` pushes onto it and `done` overwrites the status of each of
    its tasks in place; both are modelled as methods on this object. */
module TaskLists {
  import opened Tasks

  class TaskList {
    /** The loaded tasks, in stored order. */
    var items: seq<Task>

    /** Wraps the tasks just loaded from the store. */
    constructor (loaded: seq<Task>)
      ensures items == loaded
    {
      items := loaded;
    }

    /** The `push` of `add`: one more task at the end, the others as they were. */
    method Push(t: Task)
      modifies this
      ensures |items| == |old(items)| + 1
      ensures items[|items| - 1] == t
      ensures items[..|old(items)|] == old(items)
    {
      items := items + [t];
    }

    /** The loop of `done`: visits every task in order and sets its status
        to whether its index is in the answer. */
    method MarkDone(answer: Selection)
      modifies this
      ensures items == Marked(old(items), answer)
      ensures DoneExactly(old(items), items, answer)
    {
      var i := 0;
      while i < |items|
        invariant 0 <= i <= |items| == |old(items)|
        invariant forall k :: 0 <= k < i ==> items[k] == old(items)[k].(done := k in answer)
        invariant forall k :: i <= k < |items| ==> items[k] == old(items)[k]
      {
        items := items[i := items[i].(done := i in answer)];
        i := i + 1;
      }
      MarkedIsDoneExactly(old(items), answer, items);
    }
  }
}
