/** The event task of Event.java: a task with a free-text time marker,
    shown as [E][<mark>] <task>(at:<event>). */
module Events {
  import opened Tasks

  /** The Event(task, event) constructor: a pending event that keeps both
      texts exactly as given. */
  function NewEvent(task: string, event: string): (t: Task)
    ensures t.kind == EventKind && !t.done
    ensures t.description == task && GetEvent(t) == event
  {
    Task(EventKind, task, false, event)
  }

  /** getEvent: the time marker text. */
  function GetEvent(t: Task): string
    requires t.kind == EventKind
  {
    t.context
  }

  /** Event.toString: "[E][", the done mark, "] ", the description
      verbatim, "(at:", the marker verbatim, ")". */
  function EventString(t: Task): string
    requires t.kind == EventKind
  {
    "[E][" + DoneMark(t.done) + "] " + t.description + "(at:" + GetEvent(t) + ")"
  }

  /** Where each part of an event's display string sits: the mark is "O"
      exactly when the event is done and "X" exactly when it is not, and
      the description and the marker appear verbatim at fixed offsets. */
  lemma EventStringLayout(t: Task)
    requires t.kind == EventKind
    ensures var s := EventString(t);
      && |s| == 12 + |t.description| + |GetEvent(t)|
      && s[..4] == "[E][" && s[5..7] == "] "
      && (s[4] == 'O' <==> t.done)
      && (s[4] == 'X' <==> !t.done)
    ensures var s := EventString(t);
      var n := |t.description|;
      && s[7..7 + n] == t.description
      && s[7 + n..11 + n] == "(at:"
      && s[11 + n..|s| - 1] == GetEvent(t)
      && s[|s| - 1] == ')'
  {
    var n := |t.description|;
    var head := "[E][" + DoneMark(t.done) + "] ";
    var withTask := head + t.description;
    var s := withTask + "(at:" + GetEvent(t) + ")";
    assert s == EventString(t);
    assert |head| == 7 && withTask[7..] == t.description;
    assert s[..7] == head;
    assert s[5..7] == head[5..7];
    assert s[..7 + n] == withTask;
    assert s[7..7 + n] == t.description;
    assert s[7 + n..11 + n] == "(at:";
    assert s[11 + n..|s| - 1] == GetEvent(t);
  }
}
