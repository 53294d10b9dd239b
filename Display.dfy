/** The display string of a task (its toString), dispatched on the kind. */
module Rendering {
  import opened Tasks
  import opened Events

  /** toString of a task. Events use Event.toString; the Todo and Deadline
      classes are not part of this model, so their strings here follow the
      same layout with the letters T and D and stand for whatever those
      classes print. */
  function Display(t: Task): string
  {
    match t.kind
    case EventKind => EventString(t)
    case TodoKind => "[T][" + DoneMark(t.done) + "] " + t.description
    case DeadlineKind => "[D][" + DoneMark(t.done) + "] " + t.description + "(by:" + t.context + ")"
  }

  /** Every display string opens with "[<kind letter>][<mark>] ", and its
      mark is "O" exactly when the task is done. */
  lemma DisplayLayout(t: Task)
    ensures var s := Display(t);
      && |s| >= 7 && s[0] == '[' && s[2..4] == "][" && s[5..7] == "] "
      && (s[4] == 'O' <==> t.done)
  {
    if t.kind == EventKind {
      EventStringLayout(t);
    }
  }

  /** Marking a task done twice shows it as marking it once does. */
  lemma DisplaySetDoneIdempotent(t: Task)
    ensures Display(SetDone(SetDone(t))) == Display(SetDone(t))
    ensures Display(SetDone(t))[4] == 'O'
  {
    DisplayLayout(SetDone(t));
  }
}
