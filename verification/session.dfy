/** The interactive loop of `main`, with standard input given as the
    sequence of lines the user types (each as `read_line` returns it,
    newline included) and standard output as a sequence of replies. */
module Session {
  import opened Wrappers
  import opened Text
  import opened Tasks
  import opened Store
  import opened Actions
  import opened Views

  /** The largest value of Rust's `usize` on a 64-bit target. */
  const UsizeMax: nat := 0xFFFF_FFFF_FFFF_FFFF

  predicate IsDigit(c: char) {
    '0' <= c <= '9'
  }

  predicate AllDigits(s: string) {
    forall k :: 0 <= k < |s| ==> IsDigit(s[k])
  }

  /** The number a run of decimal digits denotes, most significant first. */
  function DigitsValue(s: string): nat
    requires AllDigits(s)
    decreases |s|
  {
    if |s| == 0 then 0
    else DigitsValue(s[..|s| - 1]) * 10 + (s[|s| - 1] as int - '0' as int)
  }

  /** `str::parse::<usize>`: an optional '+' and then at least one ASCII
      digit; a '-' sign, any other character, or a value beyond `usize`
      fails. */
  function ParseUsize(s: string): Option<nat> {
    var digits := if |s| > 0 && s[0] == '+' then s[1..] else s;
    if |digits| == 0 || !AllDigits(digits) then None
    else
      var v := DigitsValue(digits);
      if v > UsizeMax then None else Some(v)
  }

  /** What a successful parse guarantees: a value that fits in `usize`,
      read from text holding at least one digit; a '-' anywhere, the empty
      text and a lone '+' are rejected. */
  lemma ParseUsizeSpec(s: string)
    ensures ParseUsize(s).Some? ==> ParseUsize(s).value <= UsizeMax
    ensures ParseUsize(s).Some? ==> exists k :: 0 <= k < |s| && IsDigit(s[k])
    ensures '-' in s || s == "" || s == "+" ==> ParseUsize(s).None?
  {
    var digits := if |s| > 0 && s[0] == '+' then s[1..] else s;
    if |digits| > 0 && AllDigits(digits) {
      assert IsDigit(s[|s| - 1]) by { assert s[|s| - 1] == digits[|digits| - 1]; }
      forall k | 0 <= k < |s| ensures s[k] != '-' {
        if s[0] == '+' {
          if k > 0 { assert s[k] == digits[k - 1]; }
        } else {
          assert s[k] == digits[k];
        }
      }
    }
  }

  /** The decimal numeral of `n`, as `{}` prints a position. */
  function Decimal(n: nat): (r: string)
    ensures |r| > 0 && AllDigits(r)
    decreases n
  {
    var last := [(n % 10 + '0' as int) as char];
    if n < 10 then last else Decimal(n / 10) + last
  }

  /** The numeral of a number reads back as that number. */
  lemma {:induction false} DecimalValue(n: nat)
    ensures DigitsValue(Decimal(n)) == n
    decreases n
  {
    if n >= 10 {
      DecimalValue(n / 10);
      var d := Decimal(n);
      assert d[..|d| - 1] == Decimal(n / 10);
    }
  }

  /** A printed position typed back in parses to the same position. */
  lemma ParseDecimal(n: nat)
    requires n <= UsizeMax
    ensures ParseUsize(Decimal(n)) == Some(n)
  {
    DecimalValue(n);
  }

  /** The task number read after a listing: the trimmed line, parsed. */
  function ParseIndex(line: string): Option<nat> {
    ParseUsize(Trim(line))
  }

  /** A printed position, typed back as a line with its newline, reads as
      that position. */
  lemma ParseIndexTyped(n: nat)
    requires n <= UsizeMax
    ensures ParseIndex(Decimal(n) + "\n") == Some(n)
  {
    var d := Decimal(n);
    assert IsDigit(d[0]) && IsDigit(d[|d| - 1]);
    TrimReadLine(d);
    ParseDecimal(n);
  }

  /** The nine menu entries. */
  datatype Command =
    | AddTask | ListAll | ListPending | ListCompleted | MarkTask
    | SearchTask | DeleteTask | ClearTasks | Quit

  /** The menu number of each entry. */
  function Key(c: Command): string {
    match c
    case AddTask => "1"
    case ListAll => "2"
    case ListPending => "3"
    case ListCompleted => "4"
    case MarkTask => "5"
    case SearchTask => "6"
    case DeleteTask => "7"
    case ClearTasks => "8"
    case Quit => "9"
  }

  /** The arms of `match choice.trim()` in `main`: the entry numbered
      `key`, or None for "Invalid choice.". */
  function ChoiceOf(key: string): (r: Option<Command>)
    ensures r.Some? ==> Key(r.value) == key
    ensures r.None? ==> forall c: Command :: Key(c) != key
  {
    if |key| != 1 then None
    else
      assert key == [key[0]];
      match key[0]
      case '1' => Some(AddTask)
      case '2' => Some(ListAll)
      case '3' => Some(ListPending)
      case '4' => Some(ListCompleted)
      case '5' => Some(MarkTask)
      case '6' => Some(SearchTask)
      case '7' => Some(DeleteTask)
      case '8' => Some(ClearTasks)
      case '9' => Some(Quit)
      case _ => None
  }

  /** The menu line, trimmed, picks the entry. */
  function ParseChoice(line: string): Option<Command> {
    ChoiceOf(Trim(line))
  }

  /** A line selects an entry exactly when it trims to that entry's number;
      in particular each number, bare or with surrounding whitespace, selects
      its entry. */
  lemma ChoiceRoundTrip(line: string, c: Command)
    ensures ParseChoice(line) == Some(c) <==> Trim(line) == Key(c)
    ensures ParseChoice(Key(c)) == Some(c)
  {
    ChoiceOfKey(c);
    TrimmedIsFixpoint(Key(c));
  }

  /** Each entry's number maps back to the entry. */
  lemma ChoiceOfKey(c: Command)
    ensures ChoiceOf(Key(c)) == Some(c)
  {
    match c
    case AddTask =>
    case ListAll =>
    case ListPending =>
    case ListCompleted =>
    case MarkTask =>
    case SearchTask =>
    case DeleteTask =>
    case ClearTasks =>
    case Quit =>
  }

  /** Whether an entry reads a second line (description, number or query). */
  predicate Prompts(c: Command) {
    c == AddTask || c == MarkTask || c == SearchTask || c == DeleteTask
  }

  /** Whether an entry can change the collection. */
  predicate Mutates(c: Command) {
    c == AddTask || c == MarkTask || c == DeleteTask || c == ClearTasks
  }

  /** What the program prints, one reply per message or listing. A listing
      or a search result records the collection it was taken from; its
      lines are `Printed` of the reply. */
  datatype Reply =
    | TaskAdded
    | Listing(show: string, of: seq<Task>)
    | TaskMarkedCompleted
    | TaskDeleted
    | InvalidTaskNumber
    | SearchResults(of: seq<Task>, query: string)
    | CompletedRemoved
    | SavingTasks
    | Goodbye
    | InvalidChoice

  /** The numbered task lines a reply prints: a listing shows the filter's
      entries, a search its matches (none means "No matching tasks found."),
      every other reply is a fixed message. */
  function Printed(r: Reply): seq<Entry> {
    match r
    case Listing(show, of) => Filter(of, show)
    case SearchResults(of, query) => Search(of, query)
    case _ => []
  }

  /** The result of one menu round: the collection afterwards, what was
      printed, and the collection written to the file if the round saved. */
  datatype Effect = Effect(tasks: seq<Task>, replies: seq<Reply>, saved: Option<seq<Task>>)

  /** The content of the file after a round or a run: nothing if it did not
      save. */
  function Written(e: Effect): Option<string> {
    match e.saved
    case None => None
    case Some(tasks) => Some(Save(tasks))
  }

  /** `mark_completed` as a round: the Pending listing, then the change or
      "Invalid task number.". */
  function MarkRound(tasks: seq<Task>, input: string): (e: Effect)
    ensures e.tasks == MarkCompleted(tasks, ParseIndex(input))
  {
    var index := ParseIndex(input);
    var shown := Listing("Pending", tasks);
    if ValidPosition(tasks, index) then Effect(MarkCompleted(tasks, index), [shown, TaskMarkedCompleted], None)
    else Effect(tasks, [shown, InvalidTaskNumber], None)
  }

  /** `delete_task` as a round: the full listing, then the removal or
      "Invalid task number.". */
  function DeleteRound(tasks: seq<Task>, input: string): (e: Effect)
    ensures e.tasks == Delete(tasks, ParseIndex(input))
  {
    var index := ParseIndex(input);
    var shown := Listing("All", tasks);
    if ValidPosition(tasks, index) then Effect(Delete(tasks, index), [shown, TaskDeleted], None)
    else Effect(tasks, [shown, InvalidTaskNumber], None)
  }

  /** A mark-completed round confirms exactly when the number is a valid
      position, and otherwise answers "Invalid task number." and keeps the
      collection. */
  lemma MarkRoundReplies(tasks: seq<Task>, input: string)
    ensures MarkRound(tasks, input).saved.None? && |MarkRound(tasks, input).replies| == 2
    ensures MarkRound(tasks, input).replies[1] == TaskMarkedCompleted
            <==> ValidPosition(tasks, ParseIndex(input))
    ensures MarkRound(tasks, input).replies[1] == InvalidTaskNumber
            <==> !ValidPosition(tasks, ParseIndex(input))
    ensures MarkRound(tasks, input).replies[1] == InvalidTaskNumber
            ==> MarkRound(tasks, input).tasks == tasks
  {
  }

  /** A delete round confirms exactly when the number is a valid position,
      and then the collection is one shorter; otherwise it answers "Invalid
      task number." and keeps the collection. */
  lemma DeleteRoundReplies(tasks: seq<Task>, input: string)
    ensures DeleteRound(tasks, input).saved.None? && |DeleteRound(tasks, input).replies| == 2
    ensures DeleteRound(tasks, input).replies[1] == TaskDeleted
            <==> ValidPosition(tasks, ParseIndex(input))
    ensures DeleteRound(tasks, input).replies[1] == InvalidTaskNumber
            <==> !ValidPosition(tasks, ParseIndex(input))
    ensures DeleteRound(tasks, input).replies[1] == InvalidTaskNumber
            ==> DeleteRound(tasks, input).tasks == tasks
    ensures DeleteRound(tasks, input).replies[1] == TaskDeleted
            ==> |DeleteRound(tasks, input).tasks| == |tasks| - 1
  {
  }

  /** One round of the loop of `main`: run the chosen entry on the
      collection, with `input` the line its prompt reads. */
  function Execute(tasks: seq<Task>, choice: Option<Command>, input: string): (e: Effect)
    ensures e.saved.Some? <==> choice == Some(Quit)
    ensures e.saved.Some? ==> e.saved == Some(tasks) && e.tasks == tasks
    ensures choice.None? ==> e == Effect(tasks, [InvalidChoice], None)
    ensures choice.Some? && !Mutates(choice.value) ==> e.tasks == tasks
    ensures choice == Some(MarkTask) ==> e.tasks == MarkCompleted(tasks, ParseIndex(input))
  {
    match choice
    case None => Effect(tasks, [InvalidChoice], None)
    case Some(AddTask) => Effect(Add(tasks, input), [TaskAdded], None)
    case Some(ListAll) => Effect(tasks, [Listing("All", tasks)], None)
    case Some(ListPending) => Effect(tasks, [Listing("Pending", tasks)], None)
    case Some(ListCompleted) => Effect(tasks, [Listing("Completed", tasks)], None)
    case Some(MarkTask) => MarkRound(tasks, input)
    case Some(SearchTask) => Effect(tasks, [SearchResults(tasks, input)], None)
    case Some(DeleteTask) => DeleteRound(tasks, input)
    case Some(ClearTasks) => Effect(ClearCompleted(tasks), [CompletedRemoved], None)
    case Some(Quit) => Effect(tasks, [SavingTasks, Goodbye], Some(tasks))
  }

  /** The loop of `main` over the lines typed: each round reads a choice
      and, for an entry that prompts, one more line (an empty one once
      input has run out, as `read_line` gives at end of input). The loop
      ends only at Quit, whose save writes the final collection. */
  function Run(tasks: seq<Task>, lines: seq<string>): (e: Effect)
    ensures e.saved.Some? ==> e.saved == Some(e.tasks)
    decreases |lines|
  {
    if |lines| == 0 then Effect(tasks, [], None)
    else
      var choice := ParseChoice(lines[0]);
      var prompts := choice.Some? && Prompts(choice.value);
      var input := if prompts && |lines| > 1 then lines[1] else "";
      var rest := if prompts && |lines| > 1 then lines[2..] else lines[1..];
      var step := Execute(tasks, choice, input);
      if step.saved.Some? then step
      else
        var later := Run(step.tasks, rest);
        Effect(later.tasks, step.replies + later.replies, later.saved)
  }

  /** One prompting round followed by the rest of the run. */
  lemma RunPrompting(tasks: seq<Task>, lines: seq<string>, c: Command)
    requires |lines| >= 2 && ParseChoice(lines[0]) == Some(c) && Prompts(c)
    ensures Run(tasks, lines)
            == (var step := Execute(tasks, Some(c), lines[1]);
                var later := Run(step.tasks, lines[2..]);
                Effect(later.tasks, step.replies + later.replies, later.saved))
  {
  }

  /** Adding to an empty store gives the one trimmed, Pending task. */
  lemma AddRound(description: string)
    ensures Execute([], Some(AddTask), description)
            == Effect([Task(Trim(description), Pending, Today)], [TaskAdded], None)
  {
  }

  /** Marking task 1 of a one-task store completes it. */
  lemma MarkOnlyTask(t: Task, index: string)
    requires ParseIndex(index) == Some(1)
    ensures MarkCompleted([t], ParseIndex(index)) == [t.(status := Completed)]
  {
    MarkSingle(t);
  }

  /** The mark-completed entry is the mark-completed round. */
  lemma ExecuteMark(tasks: seq<Task>, input: string)
    ensures Execute(tasks, Some(MarkTask), input).tasks == MarkCompleted(tasks, ParseIndex(input))
  {
  }

  /** The add entry appends the typed task and confirms it. */
  lemma ExecuteAdd(tasks: seq<Task>, input: string)
    ensures Execute(tasks, Some(AddTask), input).tasks == Add(tasks, input)
    ensures Execute(tasks, Some(AddTask), input).replies == [TaskAdded]
  {
  }

  /** The delete entry is the delete round. */
  lemma ExecuteDelete(tasks: seq<Task>, input: string)
    ensures Execute(tasks, Some(DeleteTask), input) == DeleteRound(tasks, input)
    ensures Execute(tasks, Some(DeleteTask), input).tasks == Delete(tasks, ParseIndex(input))
  {
  }

  /** The clear entry drops the Completed tasks and says so. */
  lemma ExecuteClear(tasks: seq<Task>, input: string)
    ensures Execute(tasks, Some(ClearTasks), input).tasks == ClearCompleted(tasks)
    ensures Execute(tasks, Some(ClearTasks), input).replies == [CompletedRemoved]
  {
  }

  /** Entries 2, 3 and 4 print the All, Pending and Completed listings of
      the collection, and entry 6 prints the search for the typed line. */
  lemma ExecuteListings(tasks: seq<Task>, input: string)
    ensures Execute(tasks, Some(ListAll), input).replies == [Listing("All", tasks)]
    ensures Execute(tasks, Some(ListPending), input).replies == [Listing("Pending", tasks)]
    ensures Execute(tasks, Some(ListCompleted), input).replies == [Listing("Completed", tasks)]
    ensures Execute(tasks, Some(SearchTask), input).replies == [SearchResults(tasks, input)]
  {
  }

  /** The mark-completed round first prints the Pending listing, and a
      position read off it, typed back, completes the task shown there. */
  lemma MarkRoundShownEntry(tasks: seq<Task>, input: string, e: Entry)
    requires e in Printed(MarkRound(tasks, input).replies[0])
    requires ParseIndex(input) == Some(e.position)
    ensures Printed(MarkRound(tasks, input).replies[0]) == Filter(tasks, "Pending")
    ensures MarkRound(tasks, input).replies[1] == TaskMarkedCompleted
    ensures 1 <= e.position <= |MarkRound(tasks, input).tasks|
    ensures MarkRound(tasks, input).tasks[e.position - 1] == e.task.(status := Completed)
  {
    MarkShownPosition(tasks, ByStatus(FilterOf("Pending")), e);
  }

  /** The delete round first prints the All listing, and a position read off
      it, typed back, removes the task shown there and nothing else. */
  lemma DeleteRoundShownEntry(tasks: seq<Task>, input: string, e: Entry)
    requires e in Printed(DeleteRound(tasks, input).replies[0])
    requires ParseIndex(input) == Some(e.position)
    ensures Printed(DeleteRound(tasks, input).replies[0]) == Filter(tasks, "All")
    ensures DeleteRound(tasks, input).replies[1] == TaskDeleted
    ensures multiset(DeleteRound(tasks, input).tasks) + multiset{e.task} == multiset(tasks)
  {
    ShownPosition(tasks, ByStatus(FilterOf("All")), e);
    DeleteShownPosition(tasks, ByStatus(FilterOf("All")), e);
  }

  /** A quit line saves the collection as it stands. */
  lemma QuitRound(tasks: seq<Task>, quit: string)
    requires ParseChoice(quit) == Some(Quit)
    ensures Run(tasks, [quit]).saved == Some(tasks)
  {
  }

  /** The file written by the add, mark, quit run. */
  lemma AddMarkQuitSaves(add: string, description: string, mark: string, index: string, quit: string)
    requires ParseChoice(add) == Some(AddTask)
    requires ParseChoice(mark) == Some(MarkTask)
    requires ParseChoice(quit) == Some(Quit)
    requires ParseIndex(index) == Some(1)
    ensures Run([], [add, description, mark, index, quit]).saved
            == Some([Task(Trim(description), Completed, Today)])
  {
    var added := Task(Trim(description), Pending, Today);
    FiveLines(add, description, mark, index, quit);
    AddFirst(add, description, [mark, index] + [quit]);
    MarkFirst(added, mark, index, [quit]);
    QuitRound([added.(status := Completed)], quit);
  }

  /** Five lines are two prompted rounds and a last line. */
  lemma FiveLines(a: string, b: string, c: string, d: string, e: string)
    ensures [a, b, c, d, e] == [a, b] + ([c, d] + [e])
  {
  }

  /** An add round on an empty store hands the new task to the rest of the run. */
  lemma AddFirst(add: string, description: string, rest: seq<string>)
    requires ParseChoice(add) == Some(AddTask)
    ensures Run([], [add, description] + rest).saved
            == Run([Task(Trim(description), Pending, Today)], rest).saved
  {
    var lines := [add, description] + rest;
    assert lines[2..] == rest;
    RunPromptingSaved([], lines, AddTask);
    AddRound(description);
  }

  /** Marking task 1 of a one-task store hands the completed task to the rest
      of the run. */
  lemma MarkFirst(t: Task, mark: string, index: string, rest: seq<string>)
    requires ParseChoice(mark) == Some(MarkTask)
    requires ParseIndex(index) == Some(1)
    ensures Run([t], [mark, index] + rest).saved == Run([t.(status := Completed)], rest).saved
  {
    var lines := [mark, index] + rest;
    assert lines[2..] == rest;
    RunPromptingSaved([t], lines, MarkTask);
    ExecuteMark([t], index);
    MarkOnlyTask(t, index);
  }

  /** What a prompting round leaves for the rest of the run to save. */
  lemma RunPromptingSaved(tasks: seq<Task>, lines: seq<string>, c: Command)
    requires |lines| >= 2 && ParseChoice(lines[0]) == Some(c) && Prompts(c)
    ensures Run(tasks, lines).saved == Run(Execute(tasks, Some(c), lines[1]).tasks, lines[2..]).saved
  {
    RunPrompting(tasks, lines, c);
  }

  /** Starting from an empty store, adding a task, marking task 1 completed
      and quitting saves a file that loads back as that one task, completed.
      The lines may be typed with any surrounding whitespace. */
  lemma AddMarkQuit(add: string, description: string, mark: string, index: string, quit: string)
    requires ParseChoice(add) == Some(AddTask)
    requires ParseChoice(mark) == Some(MarkTask)
    requires ParseChoice(quit) == Some(Quit)
    requires ParseIndex(index) == Some(1)
    requires Storable(Task(Trim(description), Pending, Today))
    ensures Written(Run([], [add, description, mark, index, quit])).Some?
    ensures Load(Written(Run([], [add, description, mark, index, quit])))
            == [Task(Trim(description), Completed, Today)]
  {
    AddMarkQuitSaves(add, description, mark, index, quit);
    WrittenLoads(Run([], [add, description, mark, index, quit]), Task(Trim(description), Completed, Today));
  }

  /** A run that saved one storable task wrote a file that loads as it. */
  lemma WrittenLoads(e: Effect, t: Task)
    requires e.saved == Some([t]) && Storable(t)
    ensures Written(e).Some? && Load(Written(e)) == [t]
  {
    assert AllStorable([t]);
    SaveLoadRoundTrip([t]);
  }

  /** The lines of the scenario below trim to what the user meant. */
  lemma ScenarioTrims()
    ensures Trim("1\n") == "1" && Trim("5\n") == "5" && Trim("9\n") == "9"
    ensures Trim("Buy milk\n") == "Buy milk"
  {
    TrimDigitLine('1');
    TrimDigitLine('5');
    TrimDigitLine('9');
    MilkLineTrims();
  }

  /** The scenario's description line trims to the description. */
  lemma MilkLineTrims()
    ensures Trim("Buy milk\n") == "Buy milk"
  {
    assert !IsWhitespace('B') && !IsWhitespace('k');
    assert "Buy milk" + "\n" == "Buy milk\n";
    TrimReadLine("Buy milk");
  }

  /** A one-digit line with its newline trims to the digit. */
  lemma TrimDigitLine(c: char)
    requires IsDigit(c)
    ensures Trim([c, '\n']) == [c]
  {
    assert [c] + "\n" == [c, '\n'];
    TrimReadLine([c]);
  }

  /** The scenario's menu lines select add, mark-completed and quit. */
  lemma ScenarioChoices()
    ensures ParseChoice("1\n") == Some(AddTask)
    ensures ParseChoice("5\n") == Some(MarkTask)
    ensures ParseChoice("9\n") == Some(Quit)
  {
    ScenarioTrims();
    assert Key(AddTask) == "1" && Key(MarkTask) == "5" && Key(Quit) == "9";
  }

  /** The scenario's task number parses as 1. */
  lemma ScenarioIndex()
    ensures ParseIndex("1\n") == Some(1)
  {
    ScenarioTrims();
    ParseDecimal(1);
    assert Decimal(1) == "1";
  }

  /** The scenario's task can be stored. */
  lemma MilkStorable()
    ensures Storable(Task("Buy milk", Pending, Today))
  {
    var d := "Buy milk";
    assert forall k :: 0 <= k < |d| ==> d[k] != '|' && d[k] != '\n';
    assert forall k :: 0 <= k < |Today| ==> Today[k] != '|' && Today[k] != '\n';
  }

  /** Adding "Buy milk" to an empty store, marking task 1 completed and
      quitting saves a file that loads back as that one completed task. */
  lemma BuyMilkScenario()
    ensures Written(Run([], ["1\n", "Buy milk\n", "5\n", "1\n", "9\n"])).Some?
    ensures Load(Written(Run([], ["1\n", "Buy milk\n", "5\n", "1\n", "9\n"])))
            == [Task("Buy milk", Completed, Today)]
  {
    ScenarioTrims();
    ScenarioChoices();
    ScenarioIndex();
    MilkStorable();
    AddMarkQuit("1\n", "Buy milk\n", "5\n", "1\n", "9\n");
  }
}
