/** The command parser (parser/Parser.java): one line of user input becomes
    a Command, a rejection the user is told about (a DukeException), or a
    runtime exception the parser does not catch. */
module Parser {
  import opened Results
  import opened JavaString
  import opened JavaInt
  import opened Splitting

  /** What a line asks for. Indices are zero-based: the number the user
      typed, minus one, in Java `int` arithmetic and without a bounds check. */
  datatype Command =
    | Exit
    | ListAll
    | Mark(index: int)
    | Unmark(index: int)
    | AddTodo(description: string)
    | AddDeadline(description: string, due: string)
    | AddEvent(description: string, from: string, to: string)
    | Delete(index: int)
    | Find(keyword: string)

  /** The reasons a line is rejected with a DukeException. */
  datatype Reason =
    | EmptyDeadline
    | EmptyEvent
    | EmptyTodo
    | EmptyFind
    | InvalidCommand
    | MissingBy
    | MissingToOrFrom
    | BlankDeadline
    | BlankEvent
    | BlankTodo

  datatype ParseError =
    | Rejected(reason: Reason)  // a DukeException: reported, the session goes on
    | Crash(fault: Fault)       // a runtime exception nobody catches

  /** The `type` a Parser is built with before convertTaskInput:
      "E", "D", "T" or "P". */
  datatype TaskKind = EventKind | DeadlineKind | TodoKind | FindKind

  /** How many texts convertTaskInput hands back for each kind. */
  function Arity(kind: TaskKind): nat {
    match kind
    case EventKind => 3
    case DeadlineKind => 2
    case TodoKind => 1
    case FindKind => 1
  }

  function Lift<T>(r: Result<T, Fault>): Result<T, ParseError> {
    match r
    case Ok(v) => Ok(v)
    case Err(f) => Err(Crash(f))
  }

  // ---------------------------------------------------------------------
  // The keyword table: the order in which getCommand tries the keywords

  datatype Keyword =
    | ByeKw | ListKw | UnmarkKw | MarkKw | DeadlineKw | EventKw | TodoKw | DeleteKw | FindKw
    | NoKeyword

  /** A keyword, and whether the whole line must equal it (`exact`) or
      merely contain it. */
  datatype Rule = Rule(spelling: string, exact: bool, keyword: Keyword)

  const Rules: seq<Rule> := [
    Rule("bye", true, ByeKw),
    Rule("list", true, ListKw),
    Rule("unmark", false, UnmarkKw),
    Rule("mark", false, MarkKw),
    Rule("deadline", false, DeadlineKw),
    Rule("event", false, EventKw),
    Rule("todo", false, TodoKw),
    Rule("delete", false, DeleteKw),
    Rule("find", false, FindKw)
  ]

  predicate Recognises(rule: Rule, input: string) {
    if rule.exact then input == rule.spelling else Contains(input, rule.spelling)
  }

  function RouteFrom(input: string, i: nat): Keyword
    requires i <= |Rules|
    decreases |Rules| - i
  {
    if i == |Rules| then NoKeyword
    else if Recognises(Rules[i], input) then Rules[i].keyword
    else RouteFrom(input, i + 1)
  }

  /** The keyword of the first rule in the table that recognises the line. */
  function Route(input: string): Keyword {
    RouteFrom(input, 0)
  }

  function KeywordOf(c: Command): Keyword {
    match c
    case Exit => ByeKw
    case ListAll => ListKw
    case Unmark(_) => UnmarkKw
    case Mark(_) => MarkKw
    case AddDeadline(_, _) => DeadlineKw
    case AddEvent(_, _, _) => EventKw
    case AddTodo(_) => TodoKw
    case Delete(_) => DeleteKw
    case Find(_) => FindKw
  }

  /** The table read as a chain of tests in its order. */
  lemma RouteChain(input: string)
    ensures Route(input) ==
      if input == "bye" then ByeKw
      else if input == "list" then ListKw
      else if Contains(input, "unmark") then UnmarkKw
      else if Contains(input, "mark") then MarkKw
      else if Contains(input, "deadline") then DeadlineKw
      else if Contains(input, "event") then EventKw
      else if Contains(input, "todo") then TodoKw
      else if Contains(input, "delete") then DeleteKw
      else if Contains(input, "find") then FindKw
      else NoKeyword
  {
    assert RouteFrom(input, 9) == NoKeyword;
    assert RouteFrom(input, 8) == if Contains(input, "find") then FindKw else NoKeyword;
    assert RouteFrom(input, 7) == if Contains(input, "delete") then DeleteKw else RouteFrom(input, 8);
    assert RouteFrom(input, 6) == if Contains(input, "todo") then TodoKw else RouteFrom(input, 7);
    assert RouteFrom(input, 5) == if Contains(input, "event") then EventKw else RouteFrom(input, 6);
    assert RouteFrom(input, 4) == if Contains(input, "deadline") then DeadlineKw else RouteFrom(input, 5);
    assert RouteFrom(input, 3) == if Contains(input, "mark") then MarkKw else RouteFrom(input, 4);
    assert RouteFrom(input, 2) == if Contains(input, "unmark") then UnmarkKw else RouteFrom(input, 3);
    assert RouteFrom(input, 1) == if input == "list" then ListKw else RouteFrom(input, 2);
  }

  // ---------------------------------------------------------------------
  // Parser.convertTaskInput and Parser.getCommand

  /** `Integer.parseInt(input.substring(start)) - 1`. */
  function ParseIndex(input: string, start: int): (r: Result<int, ParseError>)
    ensures r.Ok? <==> 0 <= start <= |input| && ParseInt(input[start..]).Ok?
    ensures r.Ok? ==> r.value == Wrap32(ParseInt(input[start..]).value - 1)
    ensures r.Err? ==> r.error == Crash(StringIndexOutOfBounds) || r.error == Crash(NumberFormat)
  {
    var rest :- Lift(SubstringFrom(input, start));
    var n :- Lift(ParseInt(rest));
    Ok(Wrap32(n - 1))
  }

  /** parseInt of the text from `start` throws once a character after the
      first one read is not a digit. */
  lemma NonDigitStopsIndex(input: string, start: int, i: int)
    requires 0 <= start < i < |input| && !IsDigit(input[i])
    ensures ParseIndex(input, start) == Err(Crash(NumberFormat))
  {
    assert input[start..][i - start] == input[i];
  }

  /** The unmark, mark and delete branches of getCommand: the one-based
      number read from index `start` on, minus one, as the command's index. */
  function ParseNumbered(input: string, start: int, keyword: Keyword): (r: Result<Command, ParseError>)
    requires keyword in {UnmarkKw, MarkKw, DeleteKw}
    ensures r.Ok? <==> ParseIndex(input, start).Ok?
    ensures r.Ok? ==> KeywordOf(r.value) == keyword && r.value.index == ParseIndex(input, start).value
    ensures r.Err? ==> r.error == ParseIndex(input, start).error
  {
    var n :- ParseIndex(input, start);
    match keyword
    case UnmarkKw => Ok(Unmark(n))
    case MarkKw => Ok(Mark(n))
    case DeleteKw => Ok(Delete(n))
  }

  /** Parser.convertTaskInput: slices the fields of a task line out of the
      input by fixed offsets and marker positions. A success always carries
      exactly the texts the kind needs, so never an empty list. */
  function ConvertTaskInput(kind: TaskKind, input: string): (r: Result<seq<string>, ParseError>)
    ensures r.Ok? ==> |r.value| == Arity(kind) && |r.value| > 0
    ensures r.Ok? && kind != FindKind ==> !IsBlank(r.value[0])
    ensures r.Err? && kind == EventKind ==>
      r.error == Rejected(BlankEvent) || r.error == Crash(StringIndexOutOfBounds)
    ensures r.Err? && kind == DeadlineKind ==>
      r.error == Rejected(BlankDeadline) || r.error == Crash(StringIndexOutOfBounds)
    ensures r.Err? && kind == TodoKind ==>
      r.error == Rejected(BlankTodo) || r.error == Crash(StringIndexOutOfBounds)
    ensures kind == FindKind ==> (r.Ok? <==> Contains(input, " "))
    ensures r.Err? && kind == FindKind ==> r.error == Crash(IndexOutOfBounds)
  {
    match kind
    case EventKind =>
      var f := IndexOf(input, "/from");
      if f - 1 < 6 then Err(Rejected(BlankEvent))
      else
        // the marker was found, so it ends inside the input
        var desc := input[6..f - 1];
        if IsBlank(desc) then Err(Rejected(BlankEvent))
        else
          var t := IndexOf(input, "/to");
          var from :- Lift(Substring(input, f + 6, t - 1));
          var to :- Lift(SubstringFrom(input, t + 4));
          Ok([desc, from, to])
    case DeadlineKind =>
      var b := IndexOf(input, "/by");
      if b - 1 < 9 then Err(Rejected(BlankDeadline))
      else
        var desc := input[9..b - 1];
        if IsBlank(desc) then Err(Rejected(BlankDeadline))
        else
          var due :- Lift(SubstringFrom(input, b + 4));
          Ok([desc, due])
    case TodoKind =>
      var desc :- Lift(SubstringFrom(input, IndexOf(input, "todo") + 5));
      if IsBlank(desc) then Err(Rejected(BlankTodo))
      else Ok([desc])
    case FindKind =>
      var parts := Splitter(input, " ");
      if |parts| < 2 then Err(Crash(IndexOutOfBounds))
      else Ok([parts[1]])
  }

  /** A line that contains a keyword but is not exactly that keyword is
      longer than it, so the character right after the keyword's length
      (charAt(8) for deadline, charAt(5) for event, charAt(4) for todo and
      find) is inside the line. */
  lemma KeywordOffsetInBounds(input: string, keyword: string)
    requires Contains(input, keyword) && input != keyword
    ensures |input| > |keyword|
  {
  }

  /** The deadline branch of getCommand, reached when the line contains
      `deadline`: the exact keyword is an empty deadline, charAt(8) must be a
      space, `/by` must be present; the description lies between index 9 and
      the character before `/by`, the due text starts four characters after
      `/by` (past "/by "). */
  function ParseDeadline(input: string): (r: Result<Command, ParseError>)
    requires Contains(input, "deadline")
    ensures r.Ok? ==> r.value.AddDeadline?
    ensures r == Err(Rejected(EmptyDeadline)) <==> input == "deadline"
    ensures input != "deadline" ==> |input| > 8
    ensures r == Err(Rejected(InvalidCommand)) <==> input != "deadline" && input[8] != ' '
    ensures r == Err(Rejected(MissingBy)) <==>
      input != "deadline" && input[8] == ' ' && !Contains(input, "/by")
    ensures r.Ok? ==>
      var b := IndexOf(input, "/by");
      && 9 <= b - 1 && b + 4 <= |input|
      && !IsBlank(input[9..b - 1])
      && r.value == AddDeadline(input[9..b - 1], input[b + 4..])
    ensures r == Err(Rejected(BlankDeadline)) <==>
      && input != "deadline" && input[8] == ' ' && Contains(input, "/by")
      && var b := IndexOf(input, "/by");
         b - 1 < 9 || IsBlank(input[9..b - 1])
    ensures r.Err? && r.error.Crash? ==>
      r.error == Crash(StringIndexOutOfBounds) && IndexOf(input, "/by") + 4 > |input|
    ensures r.Ok? <==>
      && input != "deadline" && input[8] == ' ' && Contains(input, "/by")
      && var b := IndexOf(input, "/by");
         9 <= b - 1 && !IsBlank(input[9..b - 1]) && b + 4 <= |input|
  {
    if input == "deadline" then Err(Rejected(EmptyDeadline))
    else
      KeywordOffsetInBounds(input, "deadline");
      if input[8] != ' ' then Err(Rejected(InvalidCommand))
      else if !Contains(input, "/by") then Err(Rejected(MissingBy))
      else
        var texts :- ConvertTaskInput(DeadlineKind, input);
        Ok(AddDeadline(texts[0], texts[1]))
  }

  /** The event branch of getCommand, reached when the line contains
      `event`: the exact keyword is an empty event, charAt(5) must be a
      space, and the line must contain `to` and `from` (anywhere, not
      necessarily as markers); the description lies between index 6 and the
      character before `/from`, the start text between six characters after
      `/from` and the character before `/to`, the end text from four
      characters after `/to`. */
  function ParseEvent(input: string): (r: Result<Command, ParseError>)
    requires Contains(input, "event")
    ensures r.Ok? ==> r.value.AddEvent?
    ensures r == Err(Rejected(EmptyEvent)) <==> input == "event"
    ensures input != "event" ==> |input| > 5
    ensures r == Err(Rejected(InvalidCommand)) <==> input != "event" && input[5] != ' '
    ensures r == Err(Rejected(MissingToOrFrom)) <==>
      input != "event" && input[5] == ' ' && (!Contains(input, "to") || !Contains(input, "from"))
    ensures r.Ok? ==>
      var f, t := IndexOf(input, "/from"), IndexOf(input, "/to");
      && 6 <= f - 1 && f + 6 <= t - 1 && t + 4 <= |input|
      && !IsBlank(input[6..f - 1])
      && r.value == AddEvent(input[6..f - 1], input[f + 6..t - 1], input[t + 4..])
    ensures r == Err(Rejected(BlankEvent)) <==>
      && input != "event" && input[5] == ' ' && Contains(input, "to") && Contains(input, "from")
      && var f := IndexOf(input, "/from");
         f - 1 < 6 || IsBlank(input[6..f - 1])
    ensures r.Err? && r.error.Crash? ==>
      && r.error == Crash(StringIndexOutOfBounds)
      && var f, t := IndexOf(input, "/from"), IndexOf(input, "/to");
         t - 1 < f + 6 || t + 4 > |input|
    ensures r.Ok? <==>
      && input != "event" && input[5] == ' ' && Contains(input, "to") && Contains(input, "from")
      && var f, t := IndexOf(input, "/from"), IndexOf(input, "/to");
         && 6 <= f - 1 && !IsBlank(input[6..f - 1])
         && f + 6 <= t - 1 && t + 4 <= |input|
  {
    if input == "event" then Err(Rejected(EmptyEvent))
    else
      KeywordOffsetInBounds(input, "event");
      if input[5] != ' ' then Err(Rejected(InvalidCommand))
      else if !Contains(input, "to") || !Contains(input, "from") then Err(Rejected(MissingToOrFrom))
      else
        var texts :- ConvertTaskInput(EventKind, input);
        Ok(AddEvent(texts[0], texts[1], texts[2]))
  }

  /** The todo branch of getCommand, reached when the line contains `todo`:
      the exact keyword is an empty todo, charAt(4) must be a space, and the
      description is everything five characters after the first `todo`,
      which must not be blank. */
  function ParseTodo(input: string): (r: Result<Command, ParseError>)
    requires Contains(input, "todo")
    ensures r.Ok? ==> r.value.AddTodo?
    ensures r == Err(Rejected(EmptyTodo)) <==> input == "todo"
    ensures input != "todo" ==> |input| > 4
    ensures r == Err(Rejected(InvalidCommand)) <==> input != "todo" && input[4] != ' '
    ensures r.Ok? ==>
      var d := IndexOf(input, "todo") + 5;
      d <= |input| && !IsBlank(input[d..]) && r.value == AddTodo(input[d..])
    ensures r == Err(Rejected(BlankTodo)) <==>
      && input != "todo" && input[4] == ' '
      && var d := IndexOf(input, "todo") + 5;
         d <= |input| && IsBlank(input[d..])
    ensures r.Err? && r.error.Crash? ==>
      r.error == Crash(StringIndexOutOfBounds) && IndexOf(input, "todo") + 5 > |input|
    ensures r.Ok? <==>
      && input != "todo" && input[4] == ' '
      && var d := IndexOf(input, "todo") + 5;
         d <= |input| && !IsBlank(input[d..])
  {
    if input == "todo" then Err(Rejected(EmptyTodo))
    else
      KeywordOffsetInBounds(input, "todo");
      if input[4] != ' ' then Err(Rejected(InvalidCommand))
      else
        var texts :- ConvertTaskInput(TodoKind, input);
        Ok(AddTodo(texts[0]))
  }

  /** The find branch of getCommand, reached when the line contains `find`:
      the exact keyword is an empty search, charAt(4) must be a space, and
      the keyword is the second space-separated fragment of the line. Since
      the line then holds a space, that fragment always exists. */
  function ParseFind(input: string): (r: Result<Command, ParseError>)
    requires Contains(input, "find")
    ensures r == Err(Rejected(EmptyFind)) <==> input == "find"
    ensures input != "find" ==> |input| > 4
    ensures r == Err(Rejected(InvalidCommand)) <==> input != "find" && input[4] != ' '
    ensures r.Ok? <==> input != "find" && input[4] == ' '
    ensures r.Ok? ==> |Splitter(input, " ")| >= 2 && r.value == Find(Splitter(input, " ")[1])
  {
    if input == "find" then Err(Rejected(EmptyFind))
    else
      KeywordOffsetInBounds(input, "find");
      if input[4] != ' ' then Err(Rejected(InvalidCommand))
      else
        assert Occurs(input, " ", 4) by {
          assert input[4..5] == [input[4]];
        }
        var texts := ConvertTaskInput(FindKind, input);
        assert texts.Ok?;
        Ok(Find(texts.value[0]))
  }

  /** Parser.getCommand: `bye` and `list` must be the whole line; every
      other keyword is found anywhere in the line, in the order of the
      keyword table. A success is always a command of the keyword the table
      routes the line to (GetCommandKeyword), and a line no rule recognises
      is an invalid command. */
  function GetCommand(input: string): (r: Result<Command, ParseError>)
    ensures Route(input) == NoKeyword ==> r == Err(Rejected(InvalidCommand))
    ensures Route(input) == ByeKw ==> r == Ok(Exit)
    ensures Route(input) == ListKw ==> r == Ok(ListAll)
  {
    RouteChain(input);
    if input == "bye" then Ok(Exit)
    else if input == "list" then Ok(ListAll)
    else if Contains(input, "unmark") then ParseNumbered(input, 7, UnmarkKw)
    else if Contains(input, "mark") then ParseNumbered(input, 5, MarkKw)
    else if Contains(input, "deadline") then ParseDeadline(input)
    else if Contains(input, "event") then ParseEvent(input)
    else if Contains(input, "todo") then ParseTodo(input)
    else if Contains(input, "delete") then ParseNumbered(input, IndexOf(input, "delete") + 7, DeleteKw)
    else if Contains(input, "find") then ParseFind(input)
    else Err(Rejected(InvalidCommand))
  }

  /** Each keyword's line is handled by its own branch. */
  lemma GetCommandBranches(input: string)
    ensures Route(input) == UnmarkKw ==> GetCommand(input) == ParseNumbered(input, 7, UnmarkKw)
    ensures Route(input) == MarkKw ==> GetCommand(input) == ParseNumbered(input, 5, MarkKw)
    ensures Route(input) == DeadlineKw ==>
      Contains(input, "deadline") && GetCommand(input) == ParseDeadline(input)
    ensures Route(input) == EventKw ==>
      Contains(input, "event") && GetCommand(input) == ParseEvent(input)
    ensures Route(input) == TodoKw ==>
      Contains(input, "todo") && GetCommand(input) == ParseTodo(input)
    ensures Route(input) == DeleteKw ==>
      GetCommand(input) == ParseNumbered(input, IndexOf(input, "delete") + 7, DeleteKw)
    ensures Route(input) == FindKw ==>
      Contains(input, "find") && GetCommand(input) == ParseFind(input)
  {
    RouteChain(input);
  }

  /** A success is always a command of the keyword the table routes the
      line to. */
  lemma GetCommandKeyword(input: string)
    ensures GetCommand(input).Ok? ==> KeywordOf(GetCommand(input).value) == Route(input)
  {
    if Route(input) in {UnmarkKw, MarkKw, DeleteKw} {
      NumberedKeyword(input);
    } else if Route(input) == DeadlineKw {
      DeadlineKeyword(input);
    } else if Route(input) == EventKw {
      EventKeyword(input);
    } else {
      PlainKeyword(input);
    }
  }

  lemma NumberedKeyword(input: string)
    requires Route(input) in {UnmarkKw, MarkKw, DeleteKw}
    ensures GetCommand(input).Ok? ==> KeywordOf(GetCommand(input).value) == Route(input)
  {
    GetCommandBranches(input);
  }

  lemma DeadlineKeyword(input: string)
    requires Route(input) == DeadlineKw
    ensures GetCommand(input).Ok? ==> KeywordOf(GetCommand(input).value) == Route(input)
  {
    GetCommandBranches(input);
  }

  lemma EventKeyword(input: string)
    requires Route(input) == EventKw
    ensures GetCommand(input).Ok? ==> KeywordOf(GetCommand(input).value) == Route(input)
  {
    GetCommandBranches(input);
  }

  lemma PlainKeyword(input: string)
    requires Route(input) !in {UnmarkKw, MarkKw, DeleteKw, DeadlineKw, EventKw}
    ensures GetCommand(input).Ok? ==> KeywordOf(GetCommand(input).value) == Route(input)
  {
    GetCommandBranches(input);
  }

  /** unmark, mark and delete take the number after a fixed offset (7, 5,
      and seven past the first `delete`) and subtract one, with no check
      against the number of tasks. */
  lemma IndexCommandFields(input: string)
    ensures Route(input) == UnmarkKw ==>
      && (GetCommand(input).Ok? <==> 7 <= |input| && ParseInt(input[7..]).Ok?)
      && (GetCommand(input).Ok? ==>
            GetCommand(input).value == Unmark(Wrap32(ParseInt(input[7..]).value - 1)))
    ensures Route(input) == MarkKw ==>
      && (GetCommand(input).Ok? <==> 5 <= |input| && ParseInt(input[5..]).Ok?)
      && (GetCommand(input).Ok? ==>
            GetCommand(input).value == Mark(Wrap32(ParseInt(input[5..]).value - 1)))
    ensures Route(input) == DeleteKw ==>
      var d := IndexOf(input, "delete") + 7;
      && (GetCommand(input).Ok? <==> d <= |input| && ParseInt(input[d..]).Ok?)
      && (GetCommand(input).Ok? ==>
            GetCommand(input).value == Delete(Wrap32(ParseInt(input[d..]).value - 1)))
  {
    RouteChain(input);
  }

  /** A line that contains `unmark` also contains `mark`, which is why the
      table must try `unmark` first. */
  lemma UnmarkHoldsMark(input: string)
    requires Contains(input, "unmark")
    ensures Contains(input, "mark")
  {
    var k := IndexOf(input, "unmark");
    assert input[k + 2..k + 6] == input[k..k + 6][2..6] == "mark";
    assert Occurs(input, "mark", k + 2);
  }

  /** A line that contains `unmark` is never read as a mark command. */
  lemma UnmarkNeverMark(input: string)
    requires Contains(input, "unmark")
    ensures !(GetCommand(input).Ok? && GetCommand(input).value.Mark?)
  {
    RouteChain(input);
  }
}
