/** What a command line does, stated over `Interpret` (which `Process` is
    proved to carry out): routing, the failures of each command, what the
    add, done and delete paths change, and what list and find print. */
module ParserProperties {
  import opened Results
  import opened JavaStrings
  import opened Dates
  import opened Tasks
  import opened Events
  import opened Rendering
  import opened Persistence
  import opened Parser

  // ---------------------------------------------------------------------
  // Words of a line

  /** A line that starts with a space-free word followed by a space: that
      word is what `process` routes on and what the add path sees first,
      and the add path's description is everything after that space. */
  lemma LeadingWord(w: string, rest: string)
    requires w != [] && ' ' !in w
    ensures |Split(w + " " + rest, ' ')| > 0
    ensures Split(w + " " + rest, ' ')[0] == w
    ensures SplitOnce(w + " " + rest, " ") == [w, rest]
  {
    var line := w + " " + rest;
    assert line[|w|] == ' ' && line[..|w|] == w;
    PiecesAfterWord(w, ' ', rest);
    assert line == w + [' '] + rest;
    var ps := Pieces(line, ' ');
    DropTrailingEmptyShape(ps);
    assert ps[0] == w;
    assert Split(line, ' ') == DropTrailingEmpty(ps);
    SplitOnceFirstWord(line);
    FirstPieceUnique(line, ' ', w, SplitOnce(line, " ")[0]);
    ContainsChar(line, ' ');
    var parts := SplitOnce(line, " ");
    assert line == w + " " + parts[1];
    assert parts[1] == line[|w| + 1..] == rest;
  }

  /** Two space-free words separated by one space split into exactly those
      two words. */
  lemma TwoWords(w: string, v: string)
    requires w != [] && ' ' !in w
    requires v != [] && ' ' !in v
    ensures Split(w + " " + v, ' ') == [w, v]
  {
    var line := w + " " + v;
    assert line == w + [' '] + v;
    PiecesAfterWord(w, ' ', v);
    PiecesOfWord(v, ' ');
    assert ' ' in line by { assert line[|w|] == ' '; }
  }

  // ---------------------------------------------------------------------
  // From the route to the outcome

  lemma InterpretFind(line: string, tasks: seq<Task>, key: string)
    requires Route(line) == Success(FindTasks(key))
    ensures Interpret(line, tasks) == Outcome(Success(ListBody(Matches(tasks, key))), tasks, [])
  {
    InterpretRouted(line, tasks, FindTasks(key));
  }

  lemma InterpretAdd(line: string, tasks: seq<Task>)
    requires Route(line) == Success(AddTask)
    ensures Interpret(line, tasks) == Added(NewTask(line), tasks)
  {
  }

  // ---------------------------------------------------------------------
  // Routing and failures

  /** The commands that change the list and call storage. */
  predicate Changes(c: Command)
  {
    c.MarkDone? || c.Delete? || c.AddTask?
  }

  /** All or nothing: a line that fails changes no task and calls no
      storage; storage is called at most once, exactly when a changing
      command succeeded, and with the response it returned. */
  lemma AllOrNothing(line: string, tasks: seq<Task>)
    ensures var o := Interpret(line, tasks);
      && (o.response.Failure? ==> o.tasks == tasks && o.calls == [])
      && |o.calls| <= 1
      && (o.calls != [] <==> o.response.Success? && Route(line).Success? && Changes(Route(line).value))
      && (o.calls != [] && (o.calls[0].Saved? || o.calls[0].Updated?) ==>
            o.calls[0].record == o.response.value)
  {
    match Route(line)
    case Failure(_) =>
    case Success(c) =>
      InterpretRouted(line, tasks, c);
      ExecuteAllOrNothing(c, line, tasks);
  }

  lemma ExecuteAllOrNothing(c: Command, line: string, tasks: seq<Task>)
    ensures var o := Execute(c, line, tasks);
      && (o.response.Failure? ==> o.tasks == tasks && o.calls == [])
      && |o.calls| <= 1
      && (o.calls != [] <==> o.response.Success? && Changes(c))
      && (o.calls != [] && (o.calls[0].Saved? || o.calls[0].Updated?) ==>
            o.calls[0].record == o.response.value)
  {
  }

  /** A non-empty line of spaces only has no first word at all: reading it
      fails with ArrayIndexOutOfBounds. */
  lemma BlankLineFails(line: string, tasks: seq<Task>)
    requires line != [] && forall k :: 0 <= k < |line| ==> line[k] == ' '
    ensures Interpret(line, tasks) == Outcome(Failure(ArrayIndexOutOfBounds), tasks, [])
  {
    SplitEmpty(line, ' ');
  }

  /** A first word that is none of the seven commands fails with the
      "OOPS!!!" message and adds nothing. */
  lemma UnknownWordFails(line: string, tasks: seq<Task>)
    requires |Split(line, ' ')| > 0
    requires SplitOnce(line, " ")[0] !in
      {"list", "done", "delete", "find", "todo", "deadline", "event"}
    ensures Interpret(line, tasks) == Outcome(Failure(DukeException(UnknownCommand)), tasks, [])
  {
    SplitFirstWord(line);
  }

  /** A line of one space-free word that names no list-level command goes
      to the add path, which sees that word alone. */
  lemma OneWord(w: string, tasks: seq<Task>)
    requires ' ' !in w && w !in {"list", "done", "delete", "find"}
    ensures Interpret(w, tasks) == Added(NewTask(w), tasks)
    ensures SplitOnce(w, " ") == [w]
  {
    ContainsChar(w, ' ');
    assert Split(w, ' ') == [w];
    assert Route(w) == Success(AddTask);
    InterpretAdd(w, tasks);
  }

  /** todo, deadline or event with nothing after the word fail with the
      message for that kind and leave the list as it was. */
  lemma EmptyDescriptionFails(line: string, tasks: seq<Task>)
    requires line in {"todo", "deadline", "event"}
    ensures var o := Interpret(line, tasks);
      && o.tasks == tasks && o.calls == []
      && (line == "todo" ==> o.response == Failure(DukeException(TodoEmpty)))
      && (line == "deadline" ==> o.response == Failure(DukeException(DeadlineEmpty)))
      && (line == "event" ==> o.response == Failure(DukeException(EventEmpty)))
  {
    assert ' ' !in line;
    OneWord(line, tasks);
  }

  // ---------------------------------------------------------------------
  // The add path

  /** "todo " followed by any text, even none, appends exactly one todo
      with that text, returns its display string and saves that string
      once. */
  lemma TodoAppends(description: string, tasks: seq<Task>)
    ensures var t := CreateTodo(description);
      Interpret("todo " + description, tasks)
        == Outcome(Success(Display(t)), tasks + [t], [Saved(Display(t))])
  {
    var line := "todo " + description;
    assert line == "todo" + " " + description;
    LeadingWord("todo", description);
    assert Route(line) == Success(AddTask);
    assert NewTask(line) == Success(CreateTodo(description));
    InterpretAdd(line, tasks);
  }

  /** "deadline " + rest: without "/by" the date part is missing and the
      line fails with ArrayIndexOutOfBounds; otherwise the text after the
      first "/by", trimmed, must be a date, or the line fails with the
      "Please input YYYY-MM-DD" message; a date appends a deadline whose
      description is the text before "/by", untrimmed, and whose due date
      is written exactly as the trimmed text. Nothing changes on failure. */
  lemma DeadlineCases(rest: string, tasks: seq<Task>)
    ensures var line := "deadline " + rest;
      var r := NewTask(line);
      && Interpret(line, tasks) == Added(r, tasks)
      && (!Contains(rest, "/by") ==> r == Failure(ArrayIndexOutOfBounds))
      && (Contains(rest, "/by") ==>
            var parts := SplitOnce(rest, "/by");
            && rest == parts[0] + "/by" + parts[1]
            && (ParseDate(Trim(parts[1])).None? ==> r == Failure(DukeException(NotADate)))
            && (ParseDate(Trim(parts[1])).Some? ==>
                  && r.Success? && r.value.kind == DeadlineKind && !r.value.done
                  && r.value.description == parts[0] && r.value.context == Trim(parts[1])))
  {
    var line := "deadline " + rest;
    assert line == "deadline" + " " + rest;
    LeadingWord("deadline", rest);
    assert Route(line) == Success(AddTask);
    InterpretAdd(line, tasks);
    assert SplitOnce(line, " ")[0] != "todo";
    if Contains(rest, "/by") {
      var parts := SplitOnce(rest, "/by");
      if ParseDate(Trim(parts[1])).Some? {
        ParseFormatDate(Trim(parts[1]));
      }
    }
  }

  /** "event " + rest: without "/at" the line fails with
      ArrayIndexOutOfBounds and nothing changes; otherwise it appends an
      event whose description is the text before the first "/at" and whose
      marker is all the text after it, neither parsed nor trimmed. */
  lemma EventCases(rest: string, tasks: seq<Task>)
    ensures var o := Interpret("event " + rest, tasks);
      && (!Contains(rest, "/at") ==>
            o == Outcome(Failure(ArrayIndexOutOfBounds), tasks, []))
      && (Contains(rest, "/at") ==>
            var parts := SplitOnce(rest, "/at");
            var t := NewEvent(parts[0], parts[1]);
            && rest == parts[0] + "/at" + parts[1]
            && t.description == parts[0] && GetEvent(t) == parts[1]
            && o == Outcome(Success(Display(t)), tasks + [t], [Saved(Display(t))]))
  {
    var line := "event " + rest;
    assert line == "event" + " " + rest;
    LeadingWord("event", rest);
    assert Route(line) == Success(AddTask);
    assert SplitOnce(line, " ")[0] != "todo" && SplitOnce(line, " ")[0] != "deadline";
    if Contains(rest, "/at") {
      var parts := SplitOnce(rest, "/at");
      assert NewTask(line) == Success(NewEvent(parts[0], parts[1]));
      InterpretAdd(line, tasks);
    } else {
      assert NewTask(line) == Failure(ArrayIndexOutOfBounds);
      InterpretAdd(line, tasks);
    }
  }

  // ---------------------------------------------------------------------
  // done and delete

  /** done: the second word must parse as an int n with 1 <= n <= size;
      then the task at 1-based n (0-based n - 1) is marked done, nothing
      else changes, its new display string is returned and handed to
      updateRecord with n. Otherwise the fault says which check failed and
      neither the list nor storage is touched. */
  lemma DoneCases(line: string, tasks: seq<Task>)
    requires |Split(line, ' ')| > 0 && Split(line, ' ')[0] == "done"
    ensures var words := Split(line, ' ');
      var o := Interpret(line, tasks);
      && (|words| < 2 ==> o == Outcome(Failure(ArrayIndexOutOfBounds), tasks, []))
      && (|words| >= 2 && ParseInt(words[1]).None? ==>
            o == Outcome(Failure(NumberFormat), tasks, []))
      && (|words| >= 2 && ParseInt(words[1]).Some? ==>
            var n := ParseInt(words[1]).value;
            && (!(1 <= n <= |tasks|) ==> o == Outcome(Failure(IndexOutOfBounds), tasks, []))
            && (1 <= n <= |tasks| ==>
                  && |o.tasks| == |tasks|
                  && o.tasks[n - 1] == SetDone(tasks[n - 1]) && o.tasks[n - 1].done
                  && (forall k :: 0 <= k < |tasks| && k != n - 1 ==> o.tasks[k] == tasks[k])
                  && o.response == Success(Display(o.tasks[n - 1]))
                  && o.calls == [Updated(Display(o.tasks[n - 1]), n)]))
  {
  }

  /** delete: with n as for done, the task at 1-based n is removed, the
      tasks after it move down one place with no gap, its display string is
      returned and deleteRecord(n) is called; otherwise nothing changes. */
  lemma DeleteCases(line: string, tasks: seq<Task>)
    requires |Split(line, ' ')| > 0 && Split(line, ' ')[0] == "delete"
    ensures var words := Split(line, ' ');
      var o := Interpret(line, tasks);
      && (|words| < 2 ==> o == Outcome(Failure(ArrayIndexOutOfBounds), tasks, []))
      && (|words| >= 2 && ParseInt(words[1]).None? ==>
            o == Outcome(Failure(NumberFormat), tasks, []))
      && (|words| >= 2 && ParseInt(words[1]).Some? ==>
            var n := ParseInt(words[1]).value;
            && (!(1 <= n <= |tasks|) ==> o == Outcome(Failure(IndexOutOfBounds), tasks, []))
            && (1 <= n <= |tasks| ==>
                  && |o.tasks| == |tasks| - 1
                  && (forall k :: 0 <= k < n - 1 ==> o.tasks[k] == tasks[k])
                  && (forall k :: n - 1 <= k < |o.tasks| ==> o.tasks[k] == tasks[k + 1])
                  && o.response == Success(Display(tasks[n - 1]))
                  && o.calls == [Deleted(n)]))
  {
  }

  /** Marking the same position done again changes no task and returns
      the same display string (it is still reported to storage). */
  lemma DoneTwice(line: string, tasks: seq<Task>)
    requires |Split(line, ' ')| > 0 && Split(line, ' ')[0] == "done"
    requires Interpret(line, tasks).response.Success?
    ensures var o := Interpret(line, tasks);
      Interpret(line, o.tasks) == o
  {
    var o := Interpret(line, tasks);
    var n := ParseInt(Split(line, ' ')[1]).value;
    assert o.tasks[n - 1 := SetDone(o.tasks[n - 1])] == o.tasks;
  }

  // ---------------------------------------------------------------------
  // list and find

  /** Concatenation of lines, in order. */
  function Concat(lines: seq<string>): string
  {
    if lines == [] then "" else Concat(lines[..|lines| - 1]) + lines[|lines| - 1]
  }

  /** "list" (with anything after it) prints, for i = 1..n in list order,
      i, ".", the display string of the task at 0-based i - 1 and a newline,
      and changes nothing. */
  lemma ListPrintsEveryTask(line: string, tasks: seq<Task>)
    requires |Split(line, ' ')| > 0 && Split(line, ' ')[0] == "list"
    ensures Interpret(line, tasks) == Outcome(Success(ListBody(tasks)), tasks, [])
    ensures ListBody(tasks)
         == Concat(seq(|tasks|, i requires 0 <= i < |tasks| => NumberedLine(i + 1, tasks[i])))
  {
    ListBodyLines(tasks);
  }

  lemma {:induction false} ListBodyLines(tasks: seq<Task>)
    ensures ListBody(tasks)
         == Concat(seq(|tasks|, i requires 0 <= i < |tasks| => NumberedLine(i + 1, tasks[i])))
  {
    if tasks != [] {
      var n := |tasks|;
      var front := tasks[..n - 1];
      ListBodyLines(front);
      var lines := seq(n, i requires 0 <= i < n => NumberedLine(i + 1, tasks[i]));
      assert lines[..n - 1] == seq(n - 1, i requires 0 <= i < n - 1 => NumberedLine(i + 1, front[i]));
    }
  }

  /** The 0-based positions of the tasks whose description contains `key`,
      in increasing order. */
  ghost function MatchPositions(tasks: seq<Task>, key: string): (ps: seq<nat>)
    ensures forall j :: 0 <= j < |ps| ==> ps[j] < |tasks| && Contains(tasks[ps[j]].description, key)
    ensures forall j, k :: 0 <= j < k < |ps| ==> ps[j] < ps[k]
    ensures forall i :: 0 <= i < |tasks| && Contains(tasks[i].description, key) ==> i in ps
  {
    if tasks == [] then []
    else
      var front := tasks[..|tasks| - 1];
      MatchPositions(front, key)
        + (if Contains(tasks[|tasks| - 1].description, key) then [|tasks| - 1] else [])
  }

  /** find selects exactly the tasks whose description contains the key
      (case-sensitive, as String.contains), in list order: the j-th match is
      the task at the j-th matching position. */
  lemma {:induction false} MatchesAtPositions(tasks: seq<Task>, key: string)
    ensures var ps := MatchPositions(tasks, key);
      && |Matches(tasks, key)| == |ps|
      && forall j :: 0 <= j < |ps| ==> Matches(tasks, key)[j] == tasks[ps[j]]
  {
    if tasks != [] {
      var front := tasks[..|tasks| - 1];
      MatchesAtPositions(front, key);
    }
  }

  /** "find" with a second word prints the matches numbered 1..k as list
      would print them, and changes nothing; "find" alone fails with
      ArrayIndexOutOfBounds. The key is the second word only. */
  lemma FindCases(line: string, tasks: seq<Task>)
    requires |Split(line, ' ')| > 0 && Split(line, ' ')[0] == "find"
    ensures var words := Split(line, ' ');
      && (|words| < 2 ==> Interpret(line, tasks) == Outcome(Failure(ArrayIndexOutOfBounds), tasks, []))
      && (|words| >= 2 ==>
            Interpret(line, tasks) == Outcome(Success(ListBody(Matches(tasks, words[1]))), tasks, []))
  {
    var words := Split(line, ' ');
    assert words[0] != "list" && words[0] != "done" && words[0] != "delete";
    if |words| >= 2 {
      assert Route(line) == Success(FindTasks(words[1]));
      InterpretFind(line, tasks, words[1]);
    }
  }

  // ---------------------------------------------------------------------
  // Scenarios

  /** A command word, a space and one digit: the line splits into those
      two words and the digit reads as its value. */
  lemma WordAndDigit(w: string, d: char)
    requires w != [] && ' ' !in w && IsDigit(d)
    ensures Split(w + " " + [d], ' ') == [w, [d]]
    ensures ParseInt([d]) == Some(DigitValue(d))
  {
    TwoWords(w, [d]);
    assert [d][..0] == [];
  }

  /** delete 5 with two tasks: IndexOutOfBounds, list unchanged, no
      storage call. */
  lemma DeleteBeyondEnd(a: Task, b: Task)
    ensures Interpret("delete " + ['5'], [a, b]) == Outcome(Failure(IndexOutOfBounds), [a, b], [])
  {
    WordAndDigit("delete", '5');
    assert "delete " + ['5'] == "delete" + " " + ['5'];
    DeleteCases("delete " + ['5'], [a, b]);
  }

  /** "done 1" marks the first task done and leaves the others alone. */
  lemma DoneFirst(tasks: seq<Task>)
    requires |tasks| >= 1
    ensures Interpret("done " + ['1'], tasks).tasks == tasks[0 := SetDone(tasks[0])]
  {
    WordAndDigit("done", '1');
    assert "done " + ['1'] == "done" + " " + ['1'];
    DoneCases("done " + ['1'], tasks);
  }

  /** todo A, todo B, done 1: both tasks stay in their order and only the
      first is done. */
  lemma TwoTodosFirstDone(x: string, y: string)
    ensures var o1 := Interpret("todo " + x, []);
      var o2 := Interpret("todo " + y, o1.tasks);
      var o3 := Interpret("done " + ['1'], o2.tasks);
      o3.tasks == [SetDone(CreateTodo(x)), CreateTodo(y)]
  {
    var a := CreateTodo(x);
    var b := CreateTodo(y);
    TodoAppends(x, []);
    TodoAppends(y, [a]);
    var o1 := Interpret("todo " + x, []);
    assert o1.tasks == [a];
    var o2 := Interpret("todo " + y, o1.tasks);
    assert o2.tasks == [a, b];
    DoneFirst([a, b]);
    assert [a, b][0 := SetDone(a)] == [SetDone(a), b];
  }
}
