/** The command interpreter: one raw line is routed on its first
    space-separated word, applied to the task list, and reported to the
    storage collaborator. `Interpret` states what a line does as a value;
    `Process` does it in place and is proved to agree with it. */
module Parser {
  import opened Results
  import opened JavaStrings
  import opened Dates
  import opened Tasks
  import opened Events
  import opened Rendering
  import opened TaskLists
  import opened Persistence

  const TodoEmpty := "The description of a Todo cannot be empty"
  const DeadlineEmpty := "The description of a Deadline cannot be empty"
  const EventEmpty := "The description of an Event cannot be empty"
  const NotADate := "That does not look like a proper Date. Please input YYYY-MM-DD"
  const UnknownCommand := "OOPS!!! I'm sorry, but I don't know what that means :-("

  /** What `process` decided to do with a line. */
  datatype Command =
    | ListTasks
    | MarkDone(index: int)
    | Delete(index: int)
    | FindTasks(key: string)
    | AddTask   // everything else goes to processorAdd with the whole line

  /** The dispatch of `process`: split the line on " " (Java split, so
      trailing empty words are gone), route on the first word, and read the
      second word as the index of done/delete or the key of find. */
  function Route(line: string): Result<Command>
  {
    var words := Split(line, ' ');
    if |words| == 0 then Failure(ArrayIndexOutOfBounds)
    else if words[0] == "list" then Success(ListTasks)
    else if words[0] == "done" || words[0] == "delete" then
      if |words| < 2 then Failure(ArrayIndexOutOfBounds)
      else
        match ParseInt(words[1])
        case None => Failure(NumberFormat)
        case Some(n) => Success(if words[0] == "done" then MarkDone(n) else Delete(n))
    else if words[0] == "find" then
      if |words| < 2 then Failure(ArrayIndexOutOfBounds) else Success(FindTasks(words[1]))
    else Success(AddTask)
  }

  /** processorAdd without its effect: the task a line asks to add, or why
      it fails. The line is split once on " "; a deadline's remainder is
      split once on "/by" and the trimmed text after it must be a date; an
      event's remainder is split once on "/at" and both parts are kept as
      they are. */
  function NewTask(cmd: string): Result<Task>
  {
    var parts := SplitOnce(cmd, " ");
    if parts[0] == "todo" then
      if |parts| <= 1 then Failure(DukeException(TodoEmpty))
      else Success(CreateTodo(parts[1]))
    else if parts[0] == "deadline" then
      if |parts| <= 1 then Failure(DukeException(DeadlineEmpty))
      else
        var second := SplitOnce(parts[1], "/by");
        if |second| < 2 then Failure(ArrayIndexOutOfBounds)
        else
          match ParseDate(Trim(second[1]))
          case None => Failure(DukeException(NotADate))
          case Some(due) => Success(CreateDeadline(second[0], due))
    else if parts[0] == "event" then
      if |parts| <= 1 then Failure(DukeException(EventEmpty))
      else
        var second := SplitOnce(parts[1], "/at");
        if |second| < 2 then Failure(ArrayIndexOutOfBounds)
        else Success(NewEvent(second[0], second[1]))
    else Failure(DukeException(UnknownCommand))
  }

  /** One line of a listing: the number, ".", the display string, newline. */
  function NumberedLine(n: int, t: Task): string
  {
    IntString(n) + "." + Display(t) + "\n"
  }

  /** The body of a listing of `tasks`, numbered from 1 in order. */
  function ListBody(tasks: seq<Task>): string
  {
    if tasks == [] then ""
    else ListBody(tasks[..|tasks| - 1]) + NumberedLine(|tasks|, tasks[|tasks| - 1])
  }

  /** The tasks whose description contains `key`, in list order. */
  function Matches(tasks: seq<Task>, key: string): seq<Task>
  {
    if tasks == [] then []
    else
      var last := tasks[|tasks| - 1];
      Matches(tasks[..|tasks| - 1], key) + (if Contains(last.description, key) then [last] else [])
  }

  lemma ListBodySnoc(tasks: seq<Task>, t: Task)
    ensures ListBody(tasks + [t]) == ListBody(tasks) + NumberedLine(|tasks| + 1, t)
  {
    var s := tasks + [t];
    assert s[..|s| - 1] == tasks && s[|s| - 1] == t;
  }

  /** One step of a listing: the first `i + 1` tasks list as the first `i`
      followed by the numbered line of the task at `i`. */
  lemma ListStep(tasks: seq<Task>, i: nat)
    requires i < |tasks|
    ensures ListBody(tasks[..i + 1]) == ListBody(tasks[..i]) + NumberedLine(i + 1, tasks[i])
  {
    assert tasks[..i + 1] == tasks[..i] + [tasks[i]];
    ListBodySnoc(tasks[..i], tasks[i]);
  }

  /** One step of a find over `tasks`: the task at `i` joins the matches
      of the first `i` tasks, and the listing of the matches gains its
      numbered line, exactly when its description contains the key. */
  lemma FindStep(tasks: seq<Task>, i: nat, key: string)
    requires i < |tasks|
    ensures Contains(tasks[i].description, key) ==>
      && Matches(tasks[..i + 1], key) == Matches(tasks[..i], key) + [tasks[i]]
      && ListBody(Matches(tasks[..i + 1], key))
         == ListBody(Matches(tasks[..i], key)) + NumberedLine(|Matches(tasks[..i], key)| + 1, tasks[i])
    ensures !Contains(tasks[i].description, key) ==>
      Matches(tasks[..i + 1], key) == Matches(tasks[..i], key)
  {
    var s := tasks[..i + 1];
    assert s[..|s| - 1] == tasks[..i] && s[|s| - 1] == tasks[i];
    if Contains(tasks[i].description, key) {
      ListBodySnoc(Matches(tasks[..i], key), tasks[i]);
    }
  }

  /** Everything one line does: the response (or the fault), the tasks
      afterwards and the storage calls made, in order. */
  datatype Outcome = Outcome(response: Result<string>, tasks: seq<Task>, calls: seq<StorageCall>)

  function Interpret(line: string, tasks: seq<Task>): Outcome
  {
    match Route(line)
    case Failure(f) => Outcome(Failure(f), tasks, [])
    case Success(c) => Execute(c, line, tasks)
  }

  /** What a routed command does to `tasks`; `line` is only read by add. */
  function Execute(c: Command, line: string, tasks: seq<Task>): Outcome
  {
    match c
    case ListTasks => Outcome(Success(ListBody(tasks)), tasks, [])
    case MarkDone(n) =>
      if 1 <= n <= |tasks| then
        var t := SetDone(tasks[n - 1]);
        Outcome(Success(Display(t)), tasks[n - 1 := t], [Updated(Display(t), n)])
      else Outcome(Failure(IndexOutOfBounds), tasks, [])
    case Delete(n) =>
      if 1 <= n <= |tasks| then
        Outcome(Success(Display(tasks[n - 1])), tasks[..n - 1] + tasks[n..], [Deleted(n)])
      else Outcome(Failure(IndexOutOfBounds), tasks, [])
    case FindTasks(key) => Outcome(Success(ListBody(Matches(tasks, key))), tasks, [])
    case AddTask => Added(NewTask(line), tasks)
  }

  /** The add path once the new task (or its fault) is known: the task is
      appended and saved, a fault leaves everything as it was. */
  function Added(r: Result<Task>, tasks: seq<Task>): Outcome
  {
    match r
    case Failure(f) => Outcome(Failure(f), tasks, [])
    case Success(t) => Outcome(Success(Display(t)), tasks + [t], [Saved(Display(t))])
  }

  /** A routed line does what its command does. */
  lemma InterpretRouted(line: string, tasks: seq<Task>, c: Command)
    requires Route(line) == Success(c)
    ensures Interpret(line, tasks) == Execute(c, line, tasks)
  {
  }

  /** processorList: the numbered lines of every task, in list order. */
  method ProcessorList(list: TaskList) returns (body: string)
    ensures body == ListBody(list.tasks)
  {
    body := "";
    var size := list.GetListSize();
    var i := 0;
    while i < size
      invariant 0 <= i <= size == |list.tasks|
      invariant body == ListBody(list.tasks[..i])
    {
      var index := i + 1;
      var task := list.GetTask(i);
      ListStep(list.tasks, i);
      body := body + NumberedLine(index, task.value);
      i := i + 1;
    }
    assert list.tasks[..size] == list.tasks;
  }

  /** processorFind: the numbered lines of the tasks whose description
      contains `key`, numbered from 1 among the matches. */
  method ProcessorFind(list: TaskList, key: string) returns (body: string)
    ensures body == ListBody(Matches(list.tasks, key))
  {
    var counter := 1;
    body := "";
    var size := list.GetListSize();
    var i := 0;
    assert list.tasks[..i] == [];
    while i < size
      invariant 0 <= i <= size == |list.tasks|
      invariant counter == |Matches(list.tasks[..i], key)| + 1
      invariant body == ListBody(Matches(list.tasks[..i], key))
    {
      var task := list.GetTask(i);
      FindStep(list.tasks, i, key);
      if Contains(task.value.description, key) {
        body := body + NumberedLine(counter, task.value);
        counter := counter + 1;
      }
      i := i + 1;
    }
    assert list.tasks[..size] == list.tasks;
  }

  /** processorAdd: adds the task the line describes and returns its
      display string, or fails without touching the list. */
  method ProcessorAdd(cmd: string, list: TaskList) returns (r: Result<string>)
    modifies list`tasks
    ensures NewTask(cmd).Success? ==>
      && r == Success(Display(NewTask(cmd).value))
      && list.tasks == old(list.tasks) + [NewTask(cmd).value]
    ensures NewTask(cmd).Failure? ==>
      r == Failure(NewTask(cmd).fault) && list.tasks == old(list.tasks)
    ensures list.taskPriority == old(list.taskPriority)
  {
    match NewTask(cmd)
    case Failure(f) =>
      r := Failure(f);
    case Success(task) =>
      var added := list.AddTask(task);
      r := Success(Display(task));
  }

  /** process: runs one line against the list and the storage, exactly as
      `Interpret` says; storage is called only after the list operation has
      returned, and not at all when it failed. The Ui decoration of the
      response is not modelled. */
  method Process(command: string, list: TaskList, storage: Storage) returns (r: Result<string>)
    modifies list`tasks, storage
    ensures var o := Interpret(command, old(list.tasks));
      && r == o.response
      && list.tasks == o.tasks
      && storage.calls == old(storage.calls) + o.calls
    ensures list.taskPriority == old(list.taskPriority)
  {
    match Route(command)
    case Failure(f) =>
      r := Failure(f);
    case Success(c) =>
      InterpretRouted(command, list.tasks, c);
      r := Dispatch(c, command, list, storage);
  }

  /** The branches of `process` once the line is routed to `c`. */
  method Dispatch(c: Command, command: string, list: TaskList, storage: Storage) returns (r: Result<string>)
    modifies list`tasks, storage
    ensures var o := Execute(c, command, old(list.tasks));
      && r == o.response
      && list.tasks == o.tasks
      && storage.calls == old(storage.calls) + o.calls
    ensures list.taskPriority == old(list.taskPriority)
  {
    match c
    case ListTasks =>
      var response := ProcessorList(list);
      r := Success(response);
    case MarkDone(index) =>
      r := list.UpdateTask(index);
      if r.Success? {
        storage.UpdateRecord(r.value, index);
      }
    case Delete(index) =>
      r := list.DeleteTask(index);
      if r.Success? {
        storage.DeleteRecord(index);
      }
    case FindTasks(key) =>
      var response := ProcessorFind(list, key);
      r := Success(response);
    case AddTask =>
      r := ProcessorAdd(command, list);
      if r.Success? {
        storage.SaveRecord(r.value);
      }
  }
}
