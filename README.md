# Duke task tracker: the command interpreter, the task list and events

This project models the core of the Duke task tracker, a Java command-line
program. Each line the user types goes to `Parser.process`. That method
routes the line on its first space-separated word:

- `list` prints every task, numbered.
- `done n` marks task n done and `delete n` removes it; positions are
  1-based.
- `find key` prints the tasks whose description contains the key.
- Any other first word goes to `processorAdd`. It creates a todo, a deadline
  (with a `/by` date) or an event (with an `/at` time marker). It rejects
  everything else.

The tasks live in a `TaskList`, an ordered list that these commands change
in place. Every successful change is reported to a storage collaborator.
An event is displayed as `[E][O] description(at:marker)`, with `X` in place
of `O` while it is not done.

The model is organised as follows:

- `Results`: the `Option` and `Result` wrappers. A `Fault` tags each way a
  line can fail: a `DukeException` with its message, or an uncaught
  `ArrayIndexOutOfBoundsException`, `IndexOutOfBoundsException` or
  `NumberFormatException`.
- `JavaStrings`: the Java library behaviour the interpreter depends on.
  - `String.split(" ")` keeps interior empty strings and drops trailing
    ones. It returns the whole string when the separator is absent, even
    when the string is empty.
  - `split(sep, 2)` splits at the first occurrence only.
  - `indexOf`/`contains`, `trim` (which cuts chars up to U+0020),
    `Integer.parseInt` (32-bit range) and the decimal form of an int.
- `Dates`: `LocalDate.parse` and `LocalDate.toString` on strict
  `YYYY-MM-DD` text (the `full-date` of section 5.6 of RFC 3339), with the
  Gregorian leap-year rule.
- `Tasks`, `Events`, `Rendering`: tasks as values, the `Event` class, and
  the display string of each kind.
- `TaskLists`: the `TaskList` class. Its `tasks` field is a sequence that
  its methods replace. It also has the `taskPriority` field that no method
  uses.
- `Persistence`: the storage collaborator, reduced to a ghost log of its
  calls.
- `Parser`: the interpreter.
  - `Route` is the dispatch of `process` as a pure function.
  - `NewTask` is `processorAdd` without its effect.
  - `Interpret` states everything a line does: the response or fault, the
    tasks afterwards, and the storage calls, in order.
  - `Execute` applies a routed command.
  - `Added` applies the result of the add path.
  - `ProcessorList`, `ProcessorFind`, `ProcessorAdd` and `Process` are the
    imperative methods. They work on a `TaskList` and a `Storage` object,
    and each is proved to do what the pure functions say.
- `ParserProperties`: what each command does, stated over `Interpret`.

## Model

| member | source | states |
|---|---|---|
| JavaStrings.IndexOfFrom | src/main/java/duke/command/Parser.java:68 | the result is the first position at or after `from` where the pattern occurs; there is no occurrence before it, and none at all when it is None |
| JavaStrings.IndexOf | src/main/java/duke/command/Parser.java:68 | the first occurrence of the pattern, or None exactly when it occurs nowhere |
| JavaStrings.Contains | src/main/java/duke/command/Parser.java:68 | `String.contains`; ContainsOccurs states it holds exactly when the key occurs somewhere |
| JavaStrings.ContainsOccurs | src/main/java/duke/command/Parser.java:68 | `contains(key)` holds exactly when the key occurs at some position |
| JavaStrings.ContainsChar | src/main/java/duke/command/Parser.java:68 | a one-char string is contained exactly when that char is in the string |
| JavaStrings.SplitOnce | src/main/java/duke/command/Parser.java:91 | `split(sep, 2)` gives one or two parts; two exactly when `sep` occurs; one part is the whole string; two parts joined around `sep` rebuild the string, and the split is at the first occurrence of `sep` (the first part is as long as `indexOf(sep)`) |
| JavaStrings.Pieces | src/main/java/duke/command/Parser.java:36 | the pieces `split` finds between separators; PiecesShape and PiecesJoin determine them |
| JavaStrings.Split | src/main/java/duke/command/Parser.java:36 | `split(" ")`: the pieces with trailing empty ones dropped; stated by PiecesShape, PiecesJoin, DropTrailingEmptyShape and SplitEmpty |
| JavaStrings.PiecesShape | src/main/java/duke/command/Parser.java:36 | no piece holds the separator; there is more than one piece exactly when it occurs; the first piece is the text before the first separator |
| JavaStrings.DropTrailingEmptyShape | src/main/java/duke/command/Parser.java:36 | the result is a prefix that is empty or ends in a non-empty string, and every dropped element is empty |
| JavaStrings.PiecesJoin | src/main/java/duke/command/Parser.java:36 | joining the pieces with the separator gives back the string |
| JavaStrings.SplitOnceFirstWord | src/main/java/duke/command/Parser.java:91 | the first part of `split(" ", 2)` is a space-free prefix that is the whole line or is followed by a space |
| JavaStrings.SplitFirstWord | src/main/java/duke/command/Parser.java:36 | the word `process` routes on is the word the add path sees first |
| JavaStrings.PiecesAfterWord | src/main/java/duke/command/Parser.java:36 | a separator-free word before a separator is the first piece, and the rest splits on its own |
| JavaStrings.PiecesOfWord | src/main/java/duke/command/Parser.java:36 | a string free of the separator is a single piece |
| JavaStrings.SplitEmpty | src/main/java/duke/command/Parser.java:36 | `split(" ")` returns no element exactly for a non-empty string of separators only |
| JavaStrings.Trim | src/main/java/duke/command/Parser.java:108 | `String.trim`; TrimLayout states it is the middle slice without chars up to U+0020 at either end, TrimIdempotent that it is idempotent |
| JavaStrings.TrimStartShape | src/main/java/duke/command/Parser.java:108 | leading trimming keeps a suffix, removes only chars up to U+0020, and stops at a char above it |
| JavaStrings.TrimEndShape | src/main/java/duke/command/Parser.java:108 | trailing trimming keeps a prefix and removes only chars up to U+0020 |
| JavaStrings.TrimLayout | src/main/java/duke/command/Parser.java:108 | `trim` gives a middle slice that neither starts nor ends with a char up to U+0020; everything cut off is such a char |
| JavaStrings.TrimFixed | src/main/java/duke/command/Parser.java:108 | a string with no such char at either end is its own trim |
| JavaStrings.TrimIdempotent | src/main/java/duke/command/Parser.java:108 | trimming twice is trimming once |
| JavaStrings.DigitChar | src/main/java/duke/command/Parser.java:83 | the digit char for d < 10 is a digit whose value is d |
| JavaStrings.DigitsValue | src/main/java/duke/command/Parser.java:42 | a run of k digits denotes a value below 10^k |
| JavaStrings.PadDigits | src/main/java/duke/command/Parser.java:108 | zero-padding n to a width gives exactly that many digits, denoting n |
| JavaStrings.PadDigitsOfValue | src/main/java/duke/command/Parser.java:108 | reading a digit run and padding its value to the same width gives the run back |
| JavaStrings.DecimalStringDigits | src/main/java/duke/command/Parser.java:83 | the decimal form of n is a non-empty digit run denoting n, with no leading zero unless n is 0 |
| JavaStrings.IntString | src/main/java/duke/command/Parser.java:69-83 | the decimal form of an int as `counter + "."` writes it; ParseIntString states it parses back to the int, DecimalStringDigits its digits |
| JavaStrings.ParseInt | src/main/java/duke/command/Parser.java:42 | a parsed value lies in the 32-bit int range; the text is an optional '+' or '-' followed by a non-empty run of digits, and the value is that run's value, negated after '-' |
| JavaStrings.ParseIntSigned | src/main/java/duke/command/Parser.java:42 | every optional sign followed by a non-empty run of digits is accepted with its signed value when that fits an int, and rejected otherwise; with ParseInt's contract this is exactly the accepted set |
| JavaStrings.ParseIntLenient | src/main/java/duke/command/Parser.java:42-47 | "+5" reads as 5, "007" as 7 and "-0" as 0; a bare sign is rejected |

| JavaStrings.ParseIntString | src/main/java/duke/command/Parser.java:42 | every int written out in decimal parses back to itself |
| Dates.DaysInMonth | src/main/java/duke/command/Parser.java:108 | months have 28 to 31 days, and 29 exactly for February of a leap year |
| Dates.ValidDate | src/main/java/duke/command/Parser.java:108 | the dates `LocalDate.parse` resolves, limited to four-digit years; DaysInMonth and LeapDay state the month lengths |
| Dates.FormatDate | src/main/java/duke/command/Parser.java:109 | `LocalDate.toString`; FormatDateLayout states its layout, FormatParseDate and ParseFormatDate the round trips with ParseDate |
| Dates.FormatDateLayout | src/main/java/duke/command/Parser.java:109 | a written date is four year digits, '-', two month digits, '-', two day digits, each run denoting its field |
| Dates.ParseDate | src/main/java/duke/command/Parser.java:108 | only real calendar dates are accepted |
| Dates.ParseFormatDate | src/main/java/duke/command/Parser.java:108-109 | a date that was read is written back as the exact text it was read from |
| Dates.FormatParseDate | src/main/java/duke/command/Parser.java:108-109 | every valid date written out parses back to itself |
| Dates.LeapDay | src/main/java/duke/command/Parser.java:108 | February 29 is accepted exactly in leap years |
| Tasks.CreateTodo | src/main/java/duke/command/Parser.java:97 | a pending todo with the given text; TodoAppends states what the todo path appends |
| Tasks.CreateDeadline | src/main/java/duke/command/Parser.java:109 | a pending deadline due on the given date; DeadlineCases states what the deadline path appends |
| Tasks.SetDone | src/main/java/duke/task/TaskList.java:50 | the task marked done; TaskList.UpdateTask and DisplaySetDoneIdempotent state its effect |
| Events.NewEvent | src/main/java/Event.java:5-12 | the constructor makes a pending event that keeps the task text, and `getEvent` returns the marker unchanged |
| Events.GetEvent | src/main/java/Event.java:10-12 | returns the time marker; NewEvent states that it is the text the event was made with |
| Events.EventString | src/main/java/Event.java:15-18 | `toString` of an event; its layout is stated by EventStringLayout |
| Events.EventStringLayout | src/main/java/Event.java:15-18 | `toString` is "[E][", then "O" exactly when done and "X" exactly when not, then "] ", the description verbatim, "(at:", the marker verbatim, ")"; its length is 12 + both text lengths |
| Rendering.Display | src/main/java/Event.java:15-18 | the display string of any task; its opening "[kind][mark] " and mark are stated by DisplayLayout, the event case by EventStringLayout |
| Rendering.DisplayLayout | src/main/java/Event.java:15-18 | every display string opens with "[kind][mark] ", and the mark is "O" exactly when the task is done |
| Rendering.DisplaySetDoneIdempotent | src/main/java/duke/task/TaskList.java:50-51 | marking a task done twice displays as marking it once, with mark "O" |
| TaskLists.TaskList.constructor | src/main/java/duke/task/TaskList.java:15-18 | a new list has no tasks and an empty priority queue |
| TaskLists.TaskList.CreateTaskList | src/main/java/duke/task/TaskList.java:83-85 | returns a new, empty list |
| TaskLists.TaskList.AddTask | src/main/java/duke/task/TaskList.java:25-28 | appends the task at the end, size up by one, earlier tasks unchanged; returns its display string |
| TaskLists.TaskList.DeleteTask | src/main/java/duke/task/TaskList.java:35-40 | for 1 <= n <= size: removes the task at n - 1, later tasks move down by one, returns the removed task's display string; otherwise IndexOutOfBounds and no change |
| TaskLists.TaskList.UpdateTask | src/main/java/duke/task/TaskList.java:47-52 | for 1 <= n <= size: the task at n - 1 is marked done, every other task, the size and the order stay; returns the new display string; otherwise IndexOutOfBounds and no change |
| TaskLists.TaskList.RefreshTasklist | src/main/java/duke/task/TaskList.java:58-60 | the list becomes empty |
| TaskLists.TaskList.GetListSize | src/main/java/duke/task/TaskList.java:66-68 | the size is the number of stored tasks |
| TaskLists.TaskList.GetTask | src/main/java/duke/task/TaskList.java:75-77 | the task at 0-based index, or IndexOutOfBounds outside 0..size-1 |
| TaskLists.UpdateThenGet | src/main/java/duke/task/TaskList.java:47-77 | after `updateTask(n)`, `getTask(n - 1)` reads the task that was marked done |
| TaskLists.PriorityQueueUnused | src/main/java/duke/task/TaskList.java:13-17 | the priority queue is still empty after creation, add, delete, update and refresh |
| Persistence.Storage.SaveRecord | src/main/java/duke/command/Parser.java:57 | one `saveRecord(record)` call is appended to the log |
| Persistence.Storage.UpdateRecord | src/main/java/duke/command/Parser.java:44 | one `updateRecord(record, index)` call is appended to the log |
| Persistence.Storage.DeleteRecord | src/main/java/duke/command/Parser.java:49 | one `deleteRecord(index)` call is appended to the log |
| Parser.Route | src/main/java/duke/command/Parser.java:36-55 | the dispatch of `process` on the first word; BlankLineFails, DoneCases, DeleteCases, FindCases, OneWord and UnknownWordFails state its cases |
| Parser.NewTask | src/main/java/duke/command/Parser.java:90-131 | `processorAdd` without its effect; TodoAppends, DeadlineCases, EventCases, EmptyDescriptionFails and UnknownWordFails state its cases |
| Parser.ListBody | src/main/java/duke/command/Parser.java:81-85 | the numbered lines of a listing; ListBodySnoc and ListBodyLines state them |
| Parser.Matches | src/main/java/duke/command/Parser.java:67-72 | the tasks a find selects; MatchPositions and MatchesAtPositions state them |
| Parser.Interpret | src/main/java/duke/command/Parser.java:35-61 | everything one line does, as a value; AllOrNothing and the per-command lemmas state it |
| Parser.Execute | src/main/java/duke/command/Parser.java:38-59 | what a routed command does; ExecuteAllOrNothing states it |
| Parser.Added | src/main/java/duke/command/Parser.java:56-57 | the add path once the task or fault is known; InterpretAdd and AllOrNothing state it |
| Parser.ListBodySnoc | src/main/java/duke/command/Parser.java:81-85 | listing one more task appends exactly its numbered line |
| Parser.ListStep | src/main/java/duke/command/Parser.java:81-85 | one loop step of `processorList` adds the line for position i + 1 |
| Parser.FindStep | src/main/java/duke/command/Parser.java:67-72 | one loop step of `processorFind` adds the task and its line, numbered after the earlier matches, exactly when its description contains the key |
| Parser.InterpretRouted | src/main/java/duke/command/Parser.java:35-59 | a line routed to a command does what that command does |
| Parser.ProcessorList | src/main/java/duke/command/Parser.java:78-88 | the loop builds the numbered lines of all tasks in order |
| Parser.ProcessorFind | src/main/java/duke/command/Parser.java:63-76 | the loop builds the numbered lines of the matching tasks, counted from 1 |
| Parser.ProcessorAdd | src/main/java/duke/command/Parser.java:90-131 | on success the new task is appended and its display string returned; on failure the fault is returned and the list is unchanged |
| Parser.Process | src/main/java/duke/command/Parser.java:35-61 | the response, the new tasks and the storage calls are exactly those of `Interpret`; the priority queue is untouched |
| Parser.Dispatch | src/main/java/duke/command/Parser.java:38-59 | each branch of `process` gives the response, tasks and storage calls of `Execute` for its command; storage is called only after a successful list operation |
| ParserProperties.LeadingWord | src/main/java/duke/command/Parser.java:36 | after a space-free word and a space, that word is what both splits see first, and the limit-2 split's second part is the rest |
| ParserProperties.TwoWords | src/main/java/duke/command/Parser.java:36 | two space-free words with one space between them split into exactly those words |
| ParserProperties.InterpretAdd | src/main/java/duke/command/Parser.java:55-58 | a line routed to the add path does what `processorAdd` decides |
| ParserProperties.InterpretFind | src/main/java/duke/command/Parser.java:51-54 | a find prints the numbered matches and changes nothing |
| ParserProperties.AllOrNothing | src/main/java/duke/command/Parser.java:35-61 | a failing line changes no task and calls no storage; at most one storage call is made, exactly when a changing command succeeded, and it carries the response |
| ParserProperties.ExecuteAllOrNothing | src/main/java/duke/command/Parser.java:38-59 | the same for each routed command |
| ParserProperties.BlankLineFails | src/main/java/duke/command/Parser.java:36-38 | a line of spaces has no first word and fails with ArrayIndexOutOfBounds |
| ParserProperties.UnknownWordFails | src/main/java/duke/command/Parser.java:127-129 | a first word that is none of the seven commands fails with the "OOPS!!!" message and adds nothing |
| ParserProperties.OneWord | src/main/java/duke/command/Parser.java:55-56 | a one-word line that `process` does not handle goes to the add path, which sees that word alone |
| ParserProperties.EmptyDescriptionFails | src/main/java/duke/command/Parser.java:92-120 | todo, deadline or event alone fail with the message for that kind, and the list is unchanged |
| ParserProperties.TodoAppends | src/main/java/duke/command/Parser.java:92-99 | "todo " + text, even empty text, appends one todo with that text, returns its display string and saves that string once |
| ParserProperties.DeadlineCases | src/main/java/duke/command/Parser.java:101-116 | no "/by" gives ArrayIndexOutOfBounds; text after the first "/by" that is not a date when trimmed gives the date message; a date appends a deadline with the untrimmed text before "/by" and the date written as the trimmed text; nothing changes on failure |
| ParserProperties.EventCases | src/main/java/duke/command/Parser.java:117-126 | no "/at" gives ArrayIndexOutOfBounds and no change; otherwise one event is appended, with the text before the first "/at" and the whole text after it, untrimmed |
| ParserProperties.DoneCases | src/main/java/duke/command/Parser.java:41-45 | a missing second word, a non-number and a position outside 1..size each fail with their own fault and no change; otherwise only the task at n - 1 is marked done and `updateRecord(display, n)` is the one storage call |
| ParserProperties.DeleteCases | src/main/java/duke/command/Parser.java:46-50 | the same failures; otherwise the task at n - 1 is removed, later tasks move down, its display string is returned and `deleteRecord(n)` is the one storage call |
| ParserProperties.DoneTwice | src/main/java/duke/command/Parser.java:41-45 | repeating a successful done changes nothing more and gives the same response |
| ParserProperties.ListPrintsEveryTask | src/main/java/duke/command/Parser.java:38-40 | list prints, for i = 1..n in order, i, ".", the display string of task i - 1 and a newline, and changes nothing |
| ParserProperties.ListBodyLines | src/main/java/duke/command/Parser.java:81-85 | the listing is the concatenation of the numbered lines |
| ParserProperties.MatchPositions | src/main/java/duke/command/Parser.java:67-68 | the positions of the tasks whose description contains the key, increasing, and all of them |
| ParserProperties.MatchesAtPositions | src/main/java/duke/command/Parser.java:67-72 | find selects exactly the matching tasks, in list order |
| ParserProperties.FindCases | src/main/java/duke/command/Parser.java:51-54 | "find" alone fails with ArrayIndexOutOfBounds; otherwise the key is the second word only, the matches are printed numbered from 1, and nothing changes |
| ParserProperties.WordAndDigit | src/main/java/duke/command/Parser.java:36-42 | a command word, a space and a digit split into those two words, and the digit parses to its value |
| ParserProperties.DeleteBeyondEnd | src/main/java/duke/command/Parser.java:46-48 | "delete 5" on two tasks fails with IndexOutOfBounds and no storage call |
| ParserProperties.DoneFirst | src/main/java/duke/command/Parser.java:41-45 | "done 1" marks the first task and leaves the others |
| ParserProperties.TwoTodosFirstDone | src/main/java/duke/command/Parser.java:41-99 | todo A, todo B, done 1 leave A done and B pending, in that order |

## Left out

- The `Ui` decoration is not modelled: `Ui.showResponse` around every
  response, and the header and closing line `Ui.showCommandMessage` and
  `Ui.showLine` put around the list and find output. `Ui` is not part of
  this model, so responses are the bodies that go into those calls.
- Parser.ProcessorList: states the numbered lines only, without the `Ui`
  header and closing line.
- Parser.ProcessorFind: states the numbered lines only, without the `Ui`
  header and closing line.
- Storage is a ghost log of calls. The file I/O behind `saveRecord`,
  `updateRecord` and `deleteRecord` is not part of this model.
- The Todo and Deadline classes, the Task base class and duke.task.Event
  are not part of this model. `CreateTodo`, `CreateDeadline` and `SetDone`
  fix only the fields the interpreter relies on. The display strings of
  todos and deadlines are stand-ins: `[T][mark] description` with no
  parenthesised part, and `[D][mark] description(by:date)`. Only the
  event string follows a real `toString` (the default-package Event.java).
- Parser.NewTask: builds an event through the default-package `Event`
  constructor, where the Java code calls `duke.task.Event.createEvent`.
  That class is not part of this model.
- Task objects are values. `updateTask` mutates a shared Task object;
  aliases of that object outside the list are not modelled.
- Dates.ParseDate accepts only four-digit years 0000-9999. It does not
  model the signed or longer years that `LocalDate.parse` accepts, or any
  other `java.time` detail.
- JavaStrings.ParseInt reads only ASCII digits. It does not model the
  other Unicode digits that `Integer.parseInt` accepts.
- `taskNumber - 1` and the loop counters are Java ints. Every position
  comes from `Integer.parseInt`, so it lies in the int range. For
  `Integer.MIN_VALUE`, `taskNumber - 1` wraps to `Integer.MAX_VALUE`,
  which is out of range just like the unwrapped value. So the wrap-around
  changes no outcome and is not written out.
- `TaskComparator` and the ordering of the `PriorityQueue` are not modelled.
  The queue is never used, so `taskPriority` is an unused sequence.
- Java exception classes appear only as the distinct `Fault` tags.
- Where the code differs from its documented behaviour, the model
  follows the code:
  - The done mark is "O" for done and "X" for not done.
  - A deadline without "/by" or an event without "/at" escapes as an
    uncaught ArrayIndexOutOfBoundsException, not a date error.
  - `refreshTasklist` empties only the list.
  - "todo " with nothing after the space is accepted and adds a todo with
    an empty description: `split(" ", 2)` gives two parts there, the
    second one empty. Only "todo" alone is rejected.
  - A position after done or delete that is not a number escapes as an
    uncaught NumberFormatException; it is not reported as a task-number
    error.
