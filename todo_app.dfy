/**
 A model of the task-list state held by the `App` component of a small to-do
 application: three ordered lists of task records (active, completed and
 recently deleted) and the text of the "new task" input box, together with the
 event handlers that change them.

 Tasks have no identity of their own: every handler names a task by its
 position in the list it is shown from.
 */
module TodoApp {

  /** One to-do record: its text and whether its row is being edited inline. */
  datatype Task = Task(value: string, editable: bool)

  /** What a storage key held when the application started: nothing, or a list. */
  datatype Option<T> = None | Some(value: T)

  // ---------------------------------------------------------------------------
  // List operations used by the handlers
  // ---------------------------------------------------------------------------

  /** The list with its element at position `i` spliced out; the rest keep their order. */
  function RemoveAt<T>(s: seq<T>, i: nat): (r: seq<T>)
    requires i < |s|
    ensures |r| == |s| - 1
    ensures forall j :: 0 <= j < i ==> r[j] == s[j]
    ensures forall j :: i <= j < |r| ==> r[j] == s[j + 1]
  {
    s[..i] + s[i + 1..]
  }

  /** The list with the `editable` flag of task `i` set to `flag` and nothing else changed. */
  function WithEditable(s: seq<Task>, i: nat, flag: bool): (r: seq<Task>)
    requires i < |s|
    ensures |r| == |s|
    ensures r[i].editable == flag && r[i].value == s[i].value
    ensures forall j :: 0 <= j < |s| && j != i ==> r[j] == s[j]
  {
    s[i := s[i].(editable := flag)]
  }

  /** The list with the text of task `i` replaced by `text` and nothing else changed. */
  function WithValue(s: seq<Task>, i: nat, text: string): (r: seq<Task>)
    requires i < |s|
    ensures |r| == |s|
    ensures r[i].value == text && r[i].editable == s[i].editable
    ensures forall j :: 0 <= j < |s| && j != i ==> r[j] == s[j]
  {
    s[i := s[i].(value := text)]
  }

  /** No task in the list is in the middle of an inline edit. */
  predicate Settled(s: seq<Task>)
  {
    forall t :: t in s ==> !t.editable
  }

  // ---------------------------------------------------------------------------
  // Properties of those operations
  // ---------------------------------------------------------------------------

  /** Splicing out position `i` loses exactly one copy of `s[i]` and nothing else. */
  lemma RemoveAtMultiset<T>(s: seq<T>, i: nat)
    requires i < |s|
    ensures multiset(RemoveAt(s, i)) + multiset{s[i]} == multiset(s)
  {
    assert s == s[..i] + [s[i]] + s[i + 1..];
  }

  /** Moving the task at `i` of `source` to the end of `target` keeps every task: the
      two lists hold together the same tasks, as many times, as before. */
  lemma MoveKeepsTasks<T>(source: seq<T>, target: seq<T>, i: nat)
    requires i < |source|
    ensures multiset(RemoveAt(source, i)) + multiset(target + [source[i]])
            == multiset(source) + multiset(target)
    ensures |RemoveAt(source, i)| + |target + [source[i]]| == |source| + |target|
  {
    RemoveAtMultiset(source, i);
  }

  /** A task moved to the end of a settled list keeps it settled when the task itself
      is not being edited. */
  lemma SettledAfterMove(source: seq<Task>, target: seq<Task>, i: nat)
    requires i < |source| && Settled(target) && !source[i].editable
    ensures Settled(target + [source[i]])
  {
  }

  /** A settled list stays settled when a task is spliced out of it. */
  lemma SettledAfterRemoveAt(s: seq<Task>, i: nat)
    requires i < |s| && Settled(s)
    ensures Settled(RemoveAt(s, i))
  {
  }

  /** Splicing out the last position undoes an append: a task appended and then
      spliced out again from the end leaves the list as it was. */
  lemma RemoveLastUndoesAppend<T>(s: seq<T>, x: T)
    ensures RemoveAt(s + [x], |s|) == s
  {
  }

  /** Starting an edit and saving it without changing the text restores the list. */
  lemma SaveUndoesEdit(s: seq<Task>, i: nat)
    requires i < |s| && !s[i].editable
    ensures WithEditable(WithEditable(s, i, true), i, false) == s
  {
  }

  /** Writing back the old text undoes a text update, and of two updates the later wins. */
  lemma UpdateRoundTrip(s: seq<Task>, i: nat, first: string, second: string)
    requires i < |s|
    ensures WithValue(WithValue(s, i, first), i, s[i].value) == s
    ensures WithValue(WithValue(s, i, first), i, second) == WithValue(s, i, second)
  {
  }

  // ---------------------------------------------------------------------------
  // The component state and its handlers
  // ---------------------------------------------------------------------------

  class App {
    var tasks: seq<Task>
    var completedTasks: seq<Task>
    var deletedTasks: seq<Task>
    var inputValue: string

    /** Every task held in any of the three lists, with multiplicity. */
    function AllTasks(): multiset<Task>
      reads this
    {
      multiset(tasks) + multiset(completedTasks) + multiset(deletedTasks)
    }

    /** The number of tasks across the three lists. */
    function Total(): nat
      reads this
    {
      |tasks| + |completedTasks| + |deletedTasks|
    }

    /** Start-up: each list is what its storage key held, or empty when the key held
        nothing; the input box starts empty. */
    constructor (storedTasks: Option<seq<Task>>, storedCompleted: Option<seq<Task>>,
                 storedDeleted: Option<seq<Task>>)
      ensures tasks == (if storedTasks.Some? then storedTasks.value else [])
      ensures completedTasks == (if storedCompleted.Some? then storedCompleted.value else [])
      ensures deletedTasks == (if storedDeleted.Some? then storedDeleted.value else [])
      ensures inputValue == ""
    {
      tasks := if storedTasks.Some? then storedTasks.value else [];
      completedTasks := if storedCompleted.Some? then storedCompleted.value else [];
      deletedTasks := if storedDeleted.Some? then storedDeleted.value else [];
      inputValue := "";
    }

    /** Typing into the input box replaces its text and touches no list. */
    method SetInputValue(text: string)
      modifies this
      ensures inputValue == text
      ensures tasks == old(tasks) && completedTasks == old(completedTasks)
      ensures deletedTasks == old(deletedTasks)
    {
      inputValue := text;
    }

    /** Add: a non-empty input becomes a new, non-editable task at the end of the
        active list and the input is cleared; an empty input changes nothing. Any
        non-empty text is accepted, including text made only of spaces. */
    method AddTask()
      modifies this
      ensures old(inputValue) != "" ==>
        tasks == old(tasks) + [Task(old(inputValue), false)] && inputValue == ""
      ensures old(inputValue) != "" ==>
        AllTasks() == old(AllTasks()) + multiset{Task(old(inputValue), false)} &&
        Total() == old(Total()) + 1
      ensures old(inputValue) == "" ==> tasks == old(tasks) && inputValue == old(inputValue)
      ensures completedTasks == old(completedTasks) && deletedTasks == old(deletedTasks)
    {
      if inputValue != "" {
        tasks := tasks + [Task(inputValue, false)];
        inputValue := "";
      }
    }

    /** Complete: the task at `i` leaves the active list, the others keep their order,
        and the very same record is appended to the completed list. No task is lost or
        duplicated. If the task was not being edited (the only case in which the view
        offers this action) a completed list free of editing tasks stays so. */
    method CompleteTask(i: nat)
      requires i < |tasks|
      modifies this
      ensures tasks == RemoveAt(old(tasks), i)
      ensures completedTasks == old(completedTasks) + [old(tasks)[i]]
      ensures deletedTasks == old(deletedTasks) && inputValue == old(inputValue)
      ensures AllTasks() == old(AllTasks()) && Total() == old(Total())
      ensures Settled(old(completedTasks)) && !old(tasks)[i].editable ==> Settled(completedTasks)
    {
      var taskToComplete := tasks[i];
      MoveKeepsTasks(tasks, completedTasks, i);
      completedTasks := completedTasks + [taskToComplete];
      tasks := RemoveAt(tasks, i);
    }

    /** Clear completed: the completed list becomes empty; nothing else changes. */
    method ClearCompletedTasks()
      modifies this
      ensures completedTasks == []
      ensures tasks == old(tasks) && deletedTasks == old(deletedTasks)
      ensures inputValue == old(inputValue)
      ensures Total() == old(Total()) - |old(completedTasks)|
    {
      completedTasks := [];
    }

    /** Remove: the task at `i` leaves the active list, the others keep their order,
        and the same record is appended to the recently deleted list. No task is lost or
        duplicated. If the task was not being edited, a deleted list free of editing
        tasks stays so. */
    method RemoveTask(i: nat)
      requires i < |tasks|
      modifies this
      ensures tasks == RemoveAt(old(tasks), i)
      ensures deletedTasks == old(deletedTasks) + [old(tasks)[i]]
      ensures completedTasks == old(completedTasks) && inputValue == old(inputValue)
      ensures AllTasks() == old(AllTasks()) && Total() == old(Total())
      ensures Settled(old(deletedTasks)) && !old(tasks)[i].editable ==> Settled(deletedTasks)
    {
      var taskToDelete := tasks[i];
      MoveKeepsTasks(tasks, deletedTasks, i);
      deletedTasks := deletedTasks + [taskToDelete];
      tasks := RemoveAt(tasks, i);
      assert AllTasks() == multiset(tasks) + multiset(deletedTasks) + multiset(completedTasks);
      assert old(AllTasks())
          == old(multiset(tasks)) + old(multiset(deletedTasks)) + multiset(completedTasks);
    }

    /** Permanently remove: the task at `i` of the deleted list is dropped for good,
        the others keep their order, and the other lists are untouched. */
    method PermanentlyRemove(i: nat)
      requires i < |deletedTasks|
      modifies this
      ensures deletedTasks == RemoveAt(old(deletedTasks), i)
      ensures tasks == old(tasks) && completedTasks == old(completedTasks)
      ensures inputValue == old(inputValue)
      ensures AllTasks() == old(AllTasks()) - multiset{old(deletedTasks)[i]}
      ensures Total() == old(Total()) - 1
      ensures Settled(old(deletedTasks)) ==> Settled(deletedTasks)
    {
      RemoveAtMultiset(deletedTasks, i);
      deletedTasks := RemoveAt(deletedTasks, i);
    }

    /** Permanently remove all: the deleted list becomes empty; nothing else changes. */
    method PermanentlyRemoveAll()
      modifies this
      ensures deletedTasks == []
      ensures tasks == old(tasks) && completedTasks == old(completedTasks)
      ensures inputValue == old(inputValue)
      ensures Total() == old(Total()) - |old(deletedTasks)|
    {
      deletedTasks := [];
    }

    /** Edit: only the `editable` flag of active task `i` is set; its text, the other
        tasks and the other lists stay as they were. */
    method EditTask(i: nat)
      requires i < |tasks|
      modifies this
      ensures tasks == WithEditable(old(tasks), i, true)
      ensures completedTasks == old(completedTasks) && deletedTasks == old(deletedTasks)
      ensures inputValue == old(inputValue) && Total() == old(Total())
    {
      var copy := tasks;
      copy := WithEditable(copy, i, true);
      tasks := copy;
    }

    /** Update: only the text of active task `i` is replaced, with no check on the new
        text (it may be empty); its flag, the other tasks and the other lists stay. */
    method UpdateTask(i: nat, text: string)
      requires i < |tasks|
      modifies this
      ensures tasks == WithValue(old(tasks), i, text)
      ensures completedTasks == old(completedTasks) && deletedTasks == old(deletedTasks)
      ensures inputValue == old(inputValue) && Total() == old(Total())
    {
      var copy := tasks;
      copy := WithValue(copy, i, text);
      tasks := copy;
    }

    /** Save: only the `editable` flag of active task `i` is cleared. */
    method SaveTask(i: nat)
      requires i < |tasks|
      modifies this
      ensures tasks == WithEditable(old(tasks), i, false)
      ensures completedTasks == old(completedTasks) && deletedTasks == old(deletedTasks)
      ensures inputValue == old(inputValue) && Total() == old(Total())
    {
      var copy := tasks;
      copy := WithEditable(copy, i, false);
      tasks := copy;
    }
  }
}
