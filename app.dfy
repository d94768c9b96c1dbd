/** The state of the `App` component and its event handlers. Each state hook
    becomes a field; each handler is a method that assigns the fields its
    setters assign and no others. */
module TodoApp {
  import opened Sequences
  import opened TaskModel

  const AddedMessage: string := "Task added successfully!"
  const EditedMessage: string := "Task edited successfully!"
  const DeletedMessage: string := "Task deleted successfully!"

  class App {
    var tasks: seq<Task>
    var taskToEdit: Option<Task>
    var taskToDelete: Option<Task>
    var assigneeFilter: string
    var priorityFilter: Priority
    var notification: Option<string>

    /** Start-up: the tasks come from the stored text or the seed, both
        filters are `"All"`, and nothing is being edited, deleted or
        announced. */
    constructor (stored: Option<string>, parse: string -> seq<Task>, seed: seq<Task>)
      ensures tasks == InitialTasks(stored, parse, seed)
      ensures taskToEdit == None && taskToDelete == None && notification == None
      ensures assigneeFilter == Wildcard && priorityFilter == All
    {
      tasks := InitialTasks(stored, parse, seed);
      taskToEdit := None;
      taskToDelete := None;
      assigneeFilter := Wildcard;
      priorityFilter := All;
      notification := None;
    }

    /** The tasks shown in the table. */
    function Visible(): seq<Task>
      reads this
    {
      FilteredTasks(tasks, assigneeFilter, priorityFilter)
    }

    /** The assignee choices shown in the filter controls. */
    function AssigneeChoices(): seq<string>
      reads this
    {
      AvailableAssignees(tasks)
    }

    method AddTask(newTask: Task)
      modifies this
      ensures tasks == old(tasks) + [newTask]
      ensures notification == Some(AddedMessage)
      ensures taskToEdit == old(taskToEdit) && taskToDelete == old(taskToDelete)
      ensures assigneeFilter == old(assigneeFilter) && priorityFilter == old(priorityFilter)
      ensures Visible() == (if Matches(newTask, assigneeFilter, priorityFilter) then [newTask] else [])
                           + old(Visible())
      ensures AssigneeChoices() == old(AssigneeChoices())
                                   + (if newTask.assignee in Assignees(old(tasks)) then [] else [newTask.assignee])
    {
      FilteredAfterAppend(tasks, newTask, assigneeFilter, priorityFilter);
      AvailableAssigneesAfterAppend(tasks, newTask);
      tasks := tasks + [newTask];
      notification := Some(AddedMessage);
    }

    method EditTask(updatedTask: Task)
      modifies this
      ensures tasks == Edited(old(tasks), updatedTask)
      ensures |tasks| == |old(tasks)| && Ids(tasks) == Ids(old(tasks))
      ensures notification == Some(EditedMessage)
      ensures taskToEdit == old(taskToEdit) && taskToDelete == old(taskToDelete)
      ensures assigneeFilter == old(assigneeFilter) && priorityFilter == old(priorityFilter)
    {
      EditedSpec(tasks, updatedTask);
      tasks := Edited(tasks, updatedTask);
      notification := Some(EditedMessage);
    }

    method OnClickEdit(task: Option<Task>)
      modifies this
      ensures taskToEdit == task
      ensures tasks == old(tasks) && taskToDelete == old(taskToDelete) && notification == old(notification)
      ensures assigneeFilter == old(assigneeFilter) && priorityFilter == old(priorityFilter)
    {
      taskToEdit := task;
    }

    method OnClickDelete(task: Task)
      modifies this
      ensures taskToDelete == Some(task)
      ensures tasks == old(tasks) && taskToEdit == old(taskToEdit) && notification == old(notification)
      ensures assigneeFilter == old(assigneeFilter) && priorityFilter == old(priorityFilter)
    {
      taskToDelete := Some(task);
    }

    /** Deletes the task awaiting confirmation, if there is one; otherwise
        nothing changes. */
    method ConfirmDeleteTask()
      modifies this
      ensures old(taskToDelete).Some? ==>
                && tasks == Removed(old(tasks), old(taskToDelete).value.id)
                && taskToDelete == None
                && notification == Some(DeletedMessage)
      ensures old(taskToDelete).None? ==>
                tasks == old(tasks) && taskToDelete == None && notification == old(notification)
      ensures WellFormed(old(tasks)) ==> WellFormed(tasks)
      ensures taskToEdit == old(taskToEdit)
      ensures assigneeFilter == old(assigneeFilter) && priorityFilter == old(priorityFilter)
    {
      if taskToDelete.Some? {
        if WellFormed(tasks) {
          RemovedWellFormed(tasks, taskToDelete.value.id);
        }
        tasks := Removed(tasks, taskToDelete.value.id);
        taskToDelete := None;
        notification := Some(DeletedMessage);
      }
    }

    /** Saves the task from the form: an edit when its id is truthy, otherwise
        an append under `freshId`, the generator's new id. */
    method SaveTask(task: Task, freshId: string)
      requires !Truthy(task.id) ==> IsFreshId(tasks, freshId)
      modifies this
      ensures tasks == Saved(old(tasks), task, freshId)
      ensures WellFormed(old(tasks)) ==> WellFormed(tasks)
      ensures taskToEdit == None
      ensures notification == Some(if Truthy(task.id) then EditedMessage else AddedMessage)
      ensures taskToDelete == old(taskToDelete)
      ensures assigneeFilter == old(assigneeFilter) && priorityFilter == old(priorityFilter)
    {
      SavedSpec(tasks, task, freshId);
      if Truthy(task.id) {
        EditTask(task);
      } else {
        AddTask(task.(id := Some(freshId)));
      }
      taskToEdit := None;
    }

    method SetAssigneeFilter(assignee: string)
      modifies this
      ensures assigneeFilter == assignee
      ensures tasks == old(tasks) && taskToEdit == old(taskToEdit) && taskToDelete == old(taskToDelete)
      ensures priorityFilter == old(priorityFilter) && notification == old(notification)
    {
      assigneeFilter := assignee;
    }

    method SetPriorityFilter(priority: Priority)
      modifies this
      ensures priorityFilter == priority
      ensures tasks == old(tasks) && taskToEdit == old(taskToEdit) && taskToDelete == old(taskToDelete)
      ensures assigneeFilter == old(assigneeFilter) && notification == old(notification)
    {
      priorityFilter := priority;
    }

    /** Both filters back to `"All"`, so every task shows, newest first. */
    method ResetFilters()
      modifies this
      ensures assigneeFilter == Wildcard && priorityFilter == All
      ensures tasks == old(tasks) && taskToEdit == old(taskToEdit) && taskToDelete == old(taskToDelete)
      ensures notification == old(notification)
      ensures Visible() == Reverse(tasks)
    {
      assigneeFilter := Wildcard;
      priorityFilter := All;
      FilteredAllIsReverse(tasks);
    }
  }

  /** An example collection for the sessions below; it is not the app's
      bundled seed data. */
  function SampleTasks(): seq<Task>
  {
    [ Task(Some("t1"), "Write report", "Dana", High),
      Task(Some("t2"), "Review code", "Lee", Medium),
      Task(Some("t3"), "Plan sprint", "Dana", Low) ]
  }

  /** A session as a user might run it: three sample tasks, a new one for Sam,
      then the view narrowed to Sam. Everything asserted follows from the
      contracts above. */
  method AddThenFilterSession()
  {
    var app := new App(None, (text: string) => [], SampleTasks());
    app.SaveTask(Task(None, "Buy milk", "Sam", Low), "t4");
    assert |app.tasks| == 4 && app.tasks[3].assignee == "Sam" && app.tasks[3].id == Some("t4");
    app.SetAssigneeFilter("Sam");
    FilteredSingleAssignee(app.tasks, "Sam", 3);
    assert app.Visible() == [app.tasks[3]];
  }

  /** Deleting the newest task after confirmation restores the sample tasks, and
      resetting the filters shows them newest first. */
  method DeleteThenResetSession()
  {
    var milk := Task(Some("t4"), "Buy milk", "Sam", Low);
    var start := SampleTasks() + [milk];
    RemovedAfterAppend(SampleTasks(), milk);
    var app := new App(None, (text: string) => [], start);
    app.SetAssigneeFilter("Sam");
    app.OnClickDelete(milk);
    app.ConfirmDeleteTask();
    assert app.tasks == SampleTasks() && app.taskToDelete == None;
    app.ResetFilters();
    assert app.Visible() == Reverse(SampleTasks());
    assert |app.Visible()| == 3 && app.Visible()[0].task == "Plan sprint";
  }
}
