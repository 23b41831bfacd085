/**
 The `App` screen component: its five pieces of state and the handlers that
 change them. Each handler is one atomic transition; the list computations it
 performs are the functions of `TaskList`.
 */
module TodoApp {
  import opened JsString
  import opened TaskList

  datatype Option<T> = None | Some(value: T)

  class App {
    /** The list shown on screen, in insertion order. */
    var tasks: seq<Task>
    /** The text box: the new task being typed, or the text being edited. */
    var newTask: string
    /** The task chosen for editing; `None` until the first edit is opened. */
    var currentTask: Option<Task>
    /** Whether the edit dialog is shown. */
    var isModalVisible: bool
    /** The contents of the search box. */
    var searchTerm: string

    /** The edit dialog is only ever shown once a task has been chosen, so its
        Save button always has a task to save. */
    ghost predicate Valid()
      reads this
    {
      isModalVisible ==> currentTask.Some?
    }

    /** The state the screen starts in. */
    constructor ()
      ensures Valid()
      ensures tasks == [] && newTask == "" && currentTask == None
      ensures !isModalVisible && searchTerm == ""
    {
      tasks := [];
      newTask := "";
      currentTask := None;
      isModalVisible := false;
      searchTerm := "";
    }

    /** Typing into the text box of the screen or of the edit dialog. */
    method SetNewTask(text: string)
      requires Valid()
      modifies this`newTask
      ensures Valid() && newTask == text
    {
      newTask := text;
    }

    /** Typing into the search box. */
    method SetSearchTerm(term: string)
      requires Valid()
      modifies this`searchTerm
      ensures Valid() && searchTerm == term
    {
      searchTerm := term;
    }

    /** The Add button. Blank input (empty once trimmed) is refused: `added` is
        false, which stands for the error alert, and nothing changes. Otherwise
        the task `{id, text: newTask}` goes at the end of the list with the
        text exactly as typed, untrimmed, and the text box is cleared. The id
        is the caller's, standing for the clock reading the screen uses. */
    method AddTask(id: string) returns (added: bool)
      requires Valid()
      modifies this`tasks, this`newTask
      ensures Valid()
      ensures added <==> !IsBlank(old(newTask))
      ensures added ==> tasks == old(tasks) + [Task(id, old(newTask))] && newTask == ""
      ensures !added ==> tasks == old(tasks) && newTask == old(newTask)
    {
      if IsBlank(newTask) {
        added := false;
        return;
      }
      tasks := tasks + [Task(id, newTask)];
      newTask := "";
      added := true;
    }

    /** The Delete action of a row: every task carrying `id` goes. */
    method DeleteTask(id: string)
      requires Valid()
      modifies this`tasks
      ensures Valid()
      ensures tasks == RemoveId(old(tasks), id)
    {
      tasks := RemoveId(tasks, id);
    }

    /** The Edit action of a row: the task becomes the one being edited, its
        text goes into the text box, and the dialog opens. The list is not
        touched. */
    method EditTask(task: Task)
      requires Valid()
      modifies this`currentTask, this`newTask, this`isModalVisible
      ensures Valid()
      ensures currentTask == Some(task) && newTask == task.text && isModalVisible
    {
      currentTask := Some(task);
      newTask := task.text;
      isModalVisible := true;
    }

    /** The Save button of the dialog: every task carrying the id of the task
        being edited gets the text box's contents as its text, with no trimming
        and no check for blank text; then the text box is cleared and the
        dialog closes. With no task chosen, reading its id fails as soon as
        the list has a task to compare: `ok` is then false and nothing changes.
        From a state where the dialog is shown, Save always succeeds. */
    method UpdateTask() returns (ok: bool)
      requires Valid()
      modifies this`tasks, this`newTask, this`isModalVisible
      ensures Valid()
      ensures ok <==> currentTask.Some? || old(tasks) == []
      ensures old(isModalVisible) ==> ok
      ensures ok ==> newTask == "" && !isModalVisible
      ensures ok && currentTask.Some? ==>
                tasks == ReplaceText(old(tasks), currentTask.value.id, old(newTask))
      ensures ok && currentTask.None? ==> tasks == old(tasks)
      ensures !ok ==> tasks == old(tasks) && newTask == old(newTask)
                      && isModalVisible == old(isModalVisible)
    {
      if currentTask.None? && tasks != [] {
        ok := false;
        return;
      }
      if currentTask.Some? {
        tasks := ReplaceText(tasks, currentTask.value.id, newTask);
      }
      newTask := "";
      isModalVisible := false;
      ok := true;
    }

    /** The Cancel button of the dialog, and the system back gesture that
        dismisses it: the dialog closes and nothing else changes. */
    method CancelEdit()
      requires Valid()
      modifies this`isModalVisible
      ensures Valid() && !isModalVisible
    {
      isModalVisible := false;
    }

    /** The list the screen shows: the tasks matching the search box, in
        list order. */
    function FilteredTasks(): (r: seq<Task>)
      reads this
      ensures forall t :: t in r <==> t in tasks && Includes(ToLower(t.text), ToLower(searchTerm))
      ensures searchTerm == "" ==> r == tasks
    {
      SearchEmptyTermIsIdentity(tasks);
      Search(tasks, searchTerm)
    }
  }
}
