/** The command line a user types for each command, and the proof that
    getCommand reads that line back as the command: the parser's grammar
    stated as a round trip. A line is rendered with single spaces between
    its words; the texts a user supplies must keep clear of the keywords
    and markers that getCommand looks for earlier in its order. */
module CommandText {
  import opened Results
  import opened JavaString
  import opened JavaInt
  import opened Splitting
  import opened Parser

  /** Two words with one space between them. */
  function Spaced(a: string, b: string): string {
    a + [' '] + b
  }

  /** The line that asks for `c`; indices are typed one-based. */
  function Render(c: Command): string
    requires c.Mark? || c.Unmark? || c.Delete? ==> 0 <= c.index < MaxInt
  {
    match c
    case Exit => "bye"
    case ListAll => "list"
    case Mark(i) => Spaced("mark", NatDigits(i + 1))
    case Unmark(i) => Spaced("unmark", NatDigits(i + 1))
    case Delete(i) => Spaced("delete", NatDigits(i + 1))
    case AddTodo(d) => Spaced("todo", d)
    case AddDeadline(d, due) => Spaced(Spaced(Spaced("deadline", d), "/by"), due)
    case AddEvent(d, f, t) => Spaced(Spaced(Spaced(Spaced(Spaced("event", d), "/from"), f), "/to"), t)
    case Find(k) => Spaced("find", k)
  }

  /** The commands whose rendered line getCommand reads back: an index the
      user can type as a positive `int`, a non-blank description, and user
      texts free of the keywords tried before theirs (`mark` also rules out
      `unmark`) and of the markers that end them. */
  predicate Renderable(c: Command) {
    match c
    case Exit => true
    case ListAll => true
    case Mark(i) => 0 <= i < MaxInt
    case Unmark(i) => 0 <= i < MaxInt
    case Delete(i) => 0 <= i < MaxInt
    case AddTodo(d) => !IsBlank(d) && !Contains(d, "mark") && !Contains(d, "deadline") && !Contains(d, "event")
    case AddDeadline(d, due) =>
      !IsBlank(d) && !Contains(d, "mark") && !Contains(d, "/by") && !Contains(due, "mark")
    case AddEvent(d, f, t) =>
      && !IsBlank(d) && !Contains(d, "mark") && !Contains(d, "deadline") && !Contains(d, "/from") && !Contains(d, "/to")
      && !Contains(f, "mark") && !Contains(f, "deadline") && !Contains(f, "/to") && !Contains(t, "mark") && !Contains(t, "deadline")
    case Find(k) => ' ' !in k && !Contains(k, "mark") && !Contains(k, "deadline") && !Contains(k, "event") && !Contains(k, "todo") && !Contains(k, "delete")
  }

  // ---------------------------------------------------------------------
  // Small facts about rendered lines

  lemma OccursAtStart(a: string, b: string)
    ensures Occurs(Spaced(a, b), a, 0) && Contains(Spaced(a, b), a)
  {
    assert Spaced(a, b)[0..|a|] == a;
  }

  /** A word without spaces that is in neither half is not in the spaced
      pair. */
  lemma SpacedAvoids(a: string, b: string, w: string)
    requires ' ' !in w && !Contains(a, w) && !Contains(b, w)
    ensures !Contains(Spaced(a, b), w)
  {
    NotContainedAroundSeparator(a, ' ', b, w);
  }

  /** `p` right after the space that follows a `p`-free text is found
      there. */
  lemma FirstAfterSpace(a: string, p: string, rest: string)
    requires ' ' !in p && !Contains(a, p)
    ensures IndexOf(Spaced(Spaced(a, p), rest), p) == |a| + 1
  {
    assert Spaced(Spaced(a, p), rest) == a + [' '] + p + ([' '] + rest);
    FirstOccurrenceAfterSeparator(a, ' ', p, [' '] + rest);
  }

  lemma NumberedParses(word: string, i: int)
    requires 0 <= i < MaxInt
    ensures Spaced(word, NatDigits(i + 1))[|word| + 1..] == NatDigits(i + 1)
    ensures ParseInt(NatDigits(i + 1)) == Ok(i + 1)
    ensures Wrap32(ParseInt(NatDigits(i + 1)).value - 1) == i
  {
    ParseIntToString(i + 1);
  }

  /** A letter outside `word` is nowhere in its numbered line. */
  lemma NumberedLetters(word: string, i: int, ch: char)
    requires 0 <= i < MaxInt && !IsDigit(ch) && ch != ' ' && ch !in word
    ensures ch !in Spaced(word, NatDigits(i + 1))
  {
    var ds := NatDigits(i + 1);
    var line := Spaced(word, ds);
    forall j | 0 <= j < |line|
      ensures line[j] != ch
    {
      if j < |word| {
        assert line[j] == word[j];
      } else if j > |word| {
        assert line[j] == ds[j - |word| - 1];
      }
    }
  }

  // ---------------------------------------------------------------------
  // One round trip per command

  lemma MarkRoundTrip(i: int)
    requires 0 <= i < MaxInt
    ensures GetCommand(Render(Mark(i))) == Ok(Mark(i))
  {
    var line := Render(Mark(i));
    NumberedParses("mark", i);
    NumberedLetters("mark", i, 'u');
    MissingCharNotContained(line, "unmark", 0);
    OccursAtStart("mark", NatDigits(i + 1));
    RouteChain(line);
    GetCommandBranches(line);
  }

  lemma UnmarkRoundTrip(i: int)
    requires 0 <= i < MaxInt
    ensures GetCommand(Render(Unmark(i))) == Ok(Unmark(i))
  {
    var line := Render(Unmark(i));
    NumberedParses("unmark", i);
    OccursAtStart("unmark", NatDigits(i + 1));
    RouteChain(line);
    GetCommandBranches(line);
  }

  lemma DeleteRoundTrip(i: int)
    requires 0 <= i < MaxInt
    ensures GetCommand(Render(Delete(i))) == Ok(Delete(i))
  {
    var line := Render(Delete(i));
    DeleteRoute(i);
    NumberedParses("delete", i);
    OccursAtStart("delete", NatDigits(i + 1));
    assert IndexOf(line, "delete") == 0;
    GetCommandBranches(line);
  }

  /** A delete line is routed to the delete branch. */
  lemma DeleteRoute(i: int)
    requires 0 <= i < MaxInt
    ensures Route(Render(Delete(i))) == DeleteKw
  {
    var line := Render(Delete(i));
    NumberedLetters("delete", i, 'u');
    NumberedLetters("delete", i, 'm');
    NumberedLetters("delete", i, 'a');
    NumberedLetters("delete", i, 'v');
    NumberedLetters("delete", i, 'o');
    MissingCharNotContained(line, "unmark", 0);
    MissingCharNotContained(line, "mark", 0);
    MissingCharNotContained(line, "deadline", 2);
    MissingCharNotContained(line, "event", 1);
    MissingCharNotContained(line, "todo", 1);
    OccursAtStart("delete", NatDigits(i + 1));
    RouteChain(line);
  }

  lemma TodoLineParses(d: string)
    requires !IsBlank(d) && !Contains(d, "mark") && !Contains(d, "deadline") && !Contains(d, "event")
    ensures GetCommand(Render(AddTodo(d))) == Ok(AddTodo(d))
  {
    var line := Render(AddTodo(d));
    MissingCharNotContained("todo", "mark", 0);
    MissingCharNotContained("todo", "deadline", 1);
    MissingCharNotContained("todo", "event", 0);
    SpacedAvoids("todo", d, "mark");
    SpacedAvoids("todo", d, "deadline");
    SpacedAvoids("todo", d, "event");
    UnmarkNeverMarkText(line);
    OccursAtStart("todo", d);
    assert IndexOf(line, "todo") == 0;
    assert line[5..] == d;
    RouteChain(line);
    GetCommandBranches(line);
  }

  /** A todo whose text holds `mark` goes to the mark or unmark branch,
      which reads the text after its offset as the number; the `k` of
      `mark` stops that read, so the line throws NumberFormatException. */
  lemma MarkedTodoCrashes(d: string)
    requires Contains(d, "mark")
    ensures GetCommand(Render(AddTodo(d))) == Err(Crash(NumberFormat))
  {
    var line := Render(AddTodo(d));
    var k :| Occurs(d, "mark", k);
    assert line[k + 5..k + 9] == d[k..k + 4];
    assert Occurs(line, "mark", k + 5);
    assert line[k + 8] == 'k' && line[0] == 't';
    RouteChain(line);
    GetCommandBranches(line);
    if Contains(line, "unmark") {
      assert Route(line) == UnmarkKw;
      NonDigitStopsIndex(line, 7, k + 8);
    } else {
      assert Route(line) == MarkKw;
      NonDigitStopsIndex(line, 5, k + 8);
    }
  }

  /** A text without `mark` has no `unmark` either. */
  lemma UnmarkNeverMarkText(s: string)
    requires !Contains(s, "mark")
    ensures !Contains(s, "unmark")
  {
    if Contains(s, "unmark") {
      UnmarkHoldsMark(s);
    }
  }

  lemma DeadlineLineParses(d: string, due: string)
    requires !IsBlank(d) && !Contains(d, "mark") && !Contains(d, "/by") && !Contains(due, "mark")
    ensures GetCommand(Render(AddDeadline(d, due))) == Ok(AddDeadline(d, due))
  {
    var line := Render(AddDeadline(d, due));
    DeadlineRoute(d, due);
    DeadlineLineFields(d, due);
    GetCommandBranches(line);
  }

  /** A deadline line is routed to the deadline branch. */
  lemma DeadlineRoute(d: string, due: string)
    requires !Contains(d, "mark") && !Contains(due, "mark")
    ensures Route(Render(AddDeadline(d, due))) == DeadlineKw
  {
    var line := Render(AddDeadline(d, due));
    DeadlineLacksMark(d, due);
    UnmarkNeverMarkText(line);
    DeadlineStart(d, due);
    RouteChain(line);
  }

  lemma DeadlineLacksMark(d: string, due: string)
    requires !Contains(d, "mark") && !Contains(due, "mark")
    ensures !Contains(Render(AddDeadline(d, due)), "mark")
  {
    var head := Spaced("deadline", d);
    MissingCharNotContained("deadline", "mark", 0);
    MissingCharNotContained("/by", "mark", 0);
    SpacedAvoids("deadline", d, "mark");
    SpacedAvoids(head, "/by", "mark");
    SpacedAvoids(Spaced(head, "/by"), due, "mark");
  }

  /** A deadline line starts with `deadline` and a space, and holds its
      `/by` marker right after the description and a space. */
  lemma DeadlineStart(d: string, due: string)
    ensures Occurs(Render(AddDeadline(d, due)), "deadline", 0)
    ensures Contains(Render(AddDeadline(d, due)), "deadline")
    ensures Render(AddDeadline(d, due))[8] == ' '
  {
    var line := Render(AddDeadline(d, due));
    assert line == Spaced("deadline", Spaced(d, "/by") + [' '] + due);
    OccursAtStart("deadline", Spaced(d, "/by") + [' '] + due);
  }

  lemma DeadlineMarker(d: string, due: string)
    requires !Contains(d, "/by")
    ensures IndexOf(Render(AddDeadline(d, due)), "/by") == |d| + 10
  {
    MissingCharNotContained("deadline", "/by", 0);
    SpacedAvoids("deadline", d, "/by");
    FirstAfterSpace(Spaced("deadline", d), "/by", due);
  }

  /** The deadline branch slices the description and the due text back out
      of a deadline line. */
  lemma DeadlineLineFields(d: string, due: string)
    requires !IsBlank(d) && !Contains(d, "/by")
    ensures Contains(Render(AddDeadline(d, due)), "deadline")
    ensures ParseDeadline(Render(AddDeadline(d, due))) == Ok(AddDeadline(d, due))
  {
    var line := Render(AddDeadline(d, due));
    DeadlineStart(d, due);
    DeadlineMarker(d, due);
    var b := |d| + 10;
    assert line[b..b + 3] == "/by";
    assert line[9..b - 1] == d;
    assert line[b + 4..] == due;
  }

  lemma EventLineParses(d: string, f: string, t: string)
    requires !IsBlank(d) && !Contains(d, "mark") && !Contains(d, "deadline") && !Contains(d, "/from") && !Contains(d, "/to")
    requires !Contains(f, "mark") && !Contains(f, "deadline") && !Contains(f, "/to") && !Contains(t, "mark") && !Contains(t, "deadline")
    ensures GetCommand(Render(AddEvent(d, f, t))) == Ok(AddEvent(d, f, t))
  {
    var line := Render(AddEvent(d, f, t));
    EventRoute(d, f, t);
    EventLineFields(d, f, t);
    GetCommandBranches(line);
  }

  /** An event line is routed to the event branch. */
  lemma EventRoute(d: string, f: string, t: string)
    requires !Contains(d, "mark") && !Contains(d, "deadline")
    requires !Contains(f, "mark") && !Contains(f, "deadline") && !Contains(t, "mark") && !Contains(t, "deadline")
    ensures Route(Render(AddEvent(d, f, t))) == EventKw
  {
    var line := Render(AddEvent(d, f, t));
    EventAvoids(d, f, t, "mark");
    EventAvoids(d, f, t, "deadline");
    UnmarkNeverMarkText(line);
    assert line == Spaced("event", line[6..]);
    OccursAtStart("event", line[6..]);
    RouteChain(line);
  }

  /** The markers of an event line: `/from` right after the description,
      `/to` right after the start text. */
  lemma EventMarkers(d: string, f: string, t: string)
    requires !Contains(d, "/from") && !Contains(d, "/to") && !Contains(f, "/to")
    ensures IndexOf(Render(AddEvent(d, f, t)), "/from") == |d| + 7
    ensures IndexOf(Render(AddEvent(d, f, t)), "/to") == |d| + |f| + 14
  {
    var h1 := Spaced("event", d);
    var h2 := Spaced(h1, "/from");
    var h3 := Spaced(h2, f);
    var line := Render(AddEvent(d, f, t));
    MissingCharNotContained("event", "/from", 0);
    SpacedAvoids("event", d, "/from");
    FirstAfterSpace(h1, "/from", Spaced(Spaced(f, "/to"), t));
    assert line == Spaced(Spaced(h1, "/from"), Spaced(Spaced(f, "/to"), t));
    MissingCharNotContained("event", "/to", 0);
    MissingCharNotContained("/from", "/to", 1);
    SpacedAvoids("event", d, "/to");
    SpacedAvoids(h1, "/from", "/to");
    SpacedAvoids(h2, f, "/to");
    FirstAfterSpace(h3, "/to", t);
  }

  /** An event line starts with `event` and a space. */
  lemma EventStart(d: string, f: string, t: string)
    ensures Occurs(Render(AddEvent(d, f, t)), "event", 0)
    ensures Contains(Render(AddEvent(d, f, t)), "event")
    ensures Render(AddEvent(d, f, t))[5] == ' '
  {
    var line := Render(AddEvent(d, f, t));
    assert line == Spaced("event", line[6..]);
    OccursAtStart("event", line[6..]);
  }

  /** The words the event guard looks for are inside the markers. */
  lemma EventGuardWords(d: string, f: string, t: string)
    ensures Contains(Render(AddEvent(d, f, t)), "to")
    ensures Contains(Render(AddEvent(d, f, t)), "from")
  {
    var line := Render(AddEvent(d, f, t));
    var fi, ti := |d| + 7, |d| + |f| + 14;
    assert line[fi + 1..fi + 5] == "from";
    assert Occurs(line, "from", fi + 1);
    assert line[ti + 1..ti + 3] == "to";
    assert Occurs(line, "to", ti + 1);
  }

  /** The event branch slices the description, start and end texts back
      out of an event line. */
  lemma EventLineFields(d: string, f: string, t: string)
    requires !IsBlank(d) && !Contains(d, "/from") && !Contains(d, "/to") && !Contains(f, "/to")
    ensures Contains(Render(AddEvent(d, f, t)), "event")
    ensures ParseEvent(Render(AddEvent(d, f, t))) == Ok(AddEvent(d, f, t))
  {
    var line := Render(AddEvent(d, f, t));
    EventStart(d, f, t);
    EventGuardWords(d, f, t);
    EventMarkers(d, f, t);
    EventSlices(d, f, t);
  }

  lemma EventSlices(d: string, f: string, t: string)
    ensures var line, fi, ti := Render(AddEvent(d, f, t)), |d| + 7, |d| + |f| + 14;
      && ti + 4 <= |line|
      && line[6..fi - 1] == d && line[fi + 6..ti - 1] == f && line[ti + 4..] == t
  {
    var line := Render(AddEvent(d, f, t));
    var head := "event " + d + " /from ";
    assert line == head + f + " /to " + t;
    assert line[6..|d| + 6] == d by { assert line[..|head|] == head; }
  }

  /** A word without spaces that none of the event's texts holds, and that
      none of its fixed words holds, is not in its line. */
  lemma EventAvoids(d: string, f: string, t: string, w: string)
    requires w == "mark" || w == "deadline"
    requires !Contains(d, w) && !Contains(f, w) && !Contains(t, w)
    ensures !Contains(Render(AddEvent(d, f, t)), w)
  {
    var a := if w == "mark" then 1 else 2;  // the index of 'a' in `w`
    MissingCharNotContained("event", w, a);
    MissingCharNotContained("/from", w, a);
    MissingCharNotContained("/to", w, a);
    var h1 := Spaced("event", d);
    var h2 := Spaced(h1, "/from");
    var h3 := Spaced(h2, f);
    var h4 := Spaced(h3, "/to");
    SpacedAvoids("event", d, w);
    SpacedAvoids(h1, "/from", w);
    SpacedAvoids(h2, f, w);
    SpacedAvoids(h3, "/to", w);
    SpacedAvoids(h4, t, w);
  }

  lemma FindRoundTrip(k: string)
    requires ' ' !in k && !Contains(k, "mark") && !Contains(k, "deadline") && !Contains(k, "event") && !Contains(k, "todo") && !Contains(k, "delete")
    ensures GetCommand(Render(Find(k))) == Ok(Find(k))
  {
    var line := Render(Find(k));
    FindRoute(k);
    FindFields(k);
    GetCommandBranches(line);
  }

  /** A search line is routed to the find branch. */
  lemma FindRoute(k: string)
    requires !Contains(k, "mark") && !Contains(k, "deadline") && !Contains(k, "event") && !Contains(k, "todo") && !Contains(k, "delete")
    ensures Route(Render(Find(k))) == FindKw
  {
    var line := Render(Find(k));
    MissingCharNotContained("find", "mark", 0);
    MissingCharNotContained("find", "deadline", 1);
    MissingCharNotContained("find", "event", 0);
    MissingCharNotContained("find", "todo", 0);
    MissingCharNotContained("find", "delete", 1);
    SpacedAvoids("find", k, "mark");
    SpacedAvoids("find", k, "deadline");
    SpacedAvoids("find", k, "event");
    SpacedAvoids("find", k, "todo");
    SpacedAvoids("find", k, "delete");
    UnmarkNeverMarkText(line);
    OccursAtStart("find", k);
    RouteChain(line);
  }

  /** The find branch reads the keyword back as the second fragment. */
  lemma FindFields(k: string)
    requires ' ' !in k
    ensures Contains(Render(Find(k)), "find") && ParseFind(Render(Find(k))) == Ok(Find(k))
  {
    OccursAtStart("find", k);
    SplitterAtFirst("find", ' ', k);
    SplitterWithout(k, ' ');
  }

  /** getCommand reads every renderable command back from its line. */
  lemma ParseRender(c: Command)
    requires Renderable(c)
    ensures GetCommand(Render(c)) == Ok(c)
  {
    match c
    case Exit => RouteChain("bye");
    case ListAll => RouteChain("list");
    case Mark(i) => MarkRoundTrip(i);
    case Unmark(i) => UnmarkRoundTrip(i);
    case Delete(i) => DeleteRoundTrip(i);
    case AddTodo(d) => TodoLineParses(d);
    case AddDeadline(d, due) => DeadlineLineParses(d, due);
    case AddEvent(d, f, t) => EventLineParses(d, f, t);
    case Find(k) => FindRoundTrip(k);
  }
}
