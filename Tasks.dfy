/** Tasks as values: the three kinds the interpreter creates. The Todo,
    Deadline and base Task classes are not part of this model; their
    creation functions below fix only what the interpreter relies on. */
module Tasks {
  import opened Dates

  datatype Kind = TodoKind | DeadlineKind | EventKind

  /** A task: its kind, its description as the user typed it, its done flag
      and its kind-specific text (the due date of a deadline, the time
      marker of an event, empty for a todo). */
  datatype Task = Task(kind: Kind, description: string, done: bool, context: string)

  /** Todo.createTodo: a pending todo. */
  function CreateTodo(description: string): Task
  {
    Task(TodoKind, description, false, "")
  }

  /** Deadline.createDeadline: a pending deadline due on `due`. */
  function CreateDeadline(description: string, due: Date): Task
    requires ValidDate(due)
  {
    Task(DeadlineKind, description, false, FormatDate(due))
  }

  /** Task.setDone: the same task, marked done. */
  function SetDone(t: Task): Task
  {
    t.(done := true)
  }

  /** The done mark of the display strings: "O" when done, "X" when not. */
  function DoneMark(done: bool): string
  {
    if done then "O" else "X"
  }
}
