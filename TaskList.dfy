/** The task list: the ordered tasks the interpreter changes in place.
    User-facing positions (deleteTask, updateTask) are 1-based; getTask
    takes a 0-based index. */
module TaskLists {
  import opened Results
  import opened Tasks
  import opened Rendering

  class TaskList {
    /** The tasks, in the order they were added. */
    var tasks: seq<Task>
    /** The priority queue built by the constructor; no operation reads or
        writes it, so it stays empty and says nothing about `tasks`. */
    var taskPriority: seq<Task>

    constructor ()
      ensures tasks == [] && taskPriority == []
    {
      tasks := [];
      taskPriority := [];
    }

    /** createTaskList: a new, empty list. */
    static method CreateTaskList() returns (list: TaskList)
      ensures fresh(list)
      ensures list.tasks == [] && list.taskPriority == []
    {
      list := new TaskList();
    }

    /** addTask: appends at the end and returns the task's display string. */
    method AddTask(task: Task) returns (s: string)
      modifies this`tasks
      ensures tasks == old(tasks) + [task]
      ensures |tasks| == |old(tasks)| + 1 && tasks[..|old(tasks)|] == old(tasks)
      ensures s == Display(task)
      ensures taskPriority == old(taskPriority)
    {
      tasks := tasks + [task];
      s := Display(task);
    }

    /** deleteTask: removes the task at 1-based position `taskNumber`, later
        tasks moving down by one, and returns the removed task's display
        string; a position outside 1..size fails in ArrayList.get before
        anything changes. */
    method DeleteTask(taskNumber: int) returns (r: Result<string>)
      modifies this`tasks
      ensures 1 <= taskNumber <= |old(tasks)| ==>
        && r == Success(Display(old(tasks)[taskNumber - 1]))
        && tasks == old(tasks)[..taskNumber - 1] + old(tasks)[taskNumber..]
        && |tasks| == |old(tasks)| - 1
        && (forall k :: 0 <= k < taskNumber - 1 ==> tasks[k] == old(tasks)[k])
        && (forall k :: taskNumber - 1 <= k < |tasks| ==> tasks[k] == old(tasks)[k + 1])
      ensures !(1 <= taskNumber <= |old(tasks)|) ==>
        r == Failure(IndexOutOfBounds) && tasks == old(tasks)
      ensures taskPriority == old(taskPriority)
    {
      var i := taskNumber - 1;
      if i < 0 || i >= |tasks| {
        return Failure(IndexOutOfBounds);
      }
      var removed := tasks[i];
      tasks := tasks[..i] + tasks[i + 1..];
      r := Success(Display(removed));
    }

    /** updateTask: marks the task at 1-based position `taskNumber` done and
        returns its new display string; size, order and every other task
        stay as they were. A position outside 1..size fails before anything
        changes. */
    method UpdateTask(taskNumber: int) returns (r: Result<string>)
      modifies this`tasks
      ensures 1 <= taskNumber <= |old(tasks)| ==>
        && r == Success(Display(SetDone(old(tasks)[taskNumber - 1])))
        && tasks == old(tasks)[taskNumber - 1 := SetDone(old(tasks)[taskNumber - 1])]
        && |tasks| == |old(tasks)| && tasks[taskNumber - 1].done
        && (forall k :: 0 <= k < |tasks| && k != taskNumber - 1 ==> tasks[k] == old(tasks)[k])
      ensures !(1 <= taskNumber <= |old(tasks)|) ==>
        r == Failure(IndexOutOfBounds) && tasks == old(tasks)
      ensures taskPriority == old(taskPriority)
    {
      var i := taskNumber - 1;
      if i < 0 || i >= |tasks| {
        return Failure(IndexOutOfBounds);
      }
      var updated := SetDone(tasks[i]);
      tasks := tasks[i := updated];
      r := Success(Display(updated));
    }

    /** refreshTasklist: replaces the list by an empty one. */
    method RefreshTasklist()
      modifies this`tasks
      ensures tasks == []
      ensures taskPriority == old(taskPriority)
    {
      tasks := [];
    }

    /** getListSize: the number of stored tasks. */
    method GetListSize() returns (n: int)
      ensures n == |tasks|
    {
      n := |tasks|;
    }

    /** getTask: the task at 0-based `index`, or an IndexOutOfBounds fault. */
    method GetTask(index: int) returns (r: Result<Task>)
      ensures 0 <= index < |tasks| ==> r == Success(tasks[index])
      ensures !(0 <= index < |tasks|) ==> r == Failure(IndexOutOfBounds)
    {
      if 0 <= index < |tasks| {
        r := Success(tasks[index]);
      } else {
        r := Failure(IndexOutOfBounds);
      }
    }
  }

  /** The two index bases meet: after updateTask(n), getTask(n - 1) reads
      the task updateTask marked done. */
  method UpdateThenGet(list: TaskList, n: int) returns (t: Result<Task>)
    requires 1 <= n <= |list.tasks|
    modifies list`tasks
    ensures t == Success(SetDone(old(list.tasks)[n - 1]))
    ensures t.value.done && t.value.description == old(list.tasks)[n - 1].description
  {
    var s := list.UpdateTask(n);
    t := list.GetTask(n - 1);
  }

  /** No sequence of operations touches the priority queue: it is empty
      after creation and still empty after an add, a delete, an update and
      a refresh. */
  method PriorityQueueUnused(task: Task, n: int) returns (list: TaskList)
    ensures list.taskPriority == []
  {
    list := TaskList.CreateTaskList();
    var s := list.AddTask(task);
    var d := list.DeleteTask(n);
    var u := list.UpdateTask(n);
    list.RefreshTasklist();
  }
}
