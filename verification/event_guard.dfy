/** The marker guard of the event command. getCommand checks that the line
    contains `to` and `from` anywhere, while convertTaskInput then slices at
    the markers `/to` and `/from`; a line with `to` but no `/to` passes the
    guard and crashes in substring. The check on the markers themselves is
    the evidently intended one. */
module EventGuard {
  import opened Results
  import opened JavaString
  import opened Parser

  /** A line with `to` and `from` in its text but no `/to` marker. */
  const NoToMarker: string := "event a /from b to c"

  /** Where the words and markers of that line lie. */
  lemma NoToMarkerLayout()
    ensures Contains(NoToMarker, "to") && Contains(NoToMarker, "from")
    ensures !Contains(NoToMarker, "/to")
    ensures IndexOf(NoToMarker, "/from") == 8
    ensures |NoToMarker| == 20 && NoToMarker[5] == ' ' && !IsBlank(NoToMarker[6..7])
  {
    var s := NoToMarker;
    assert s[6..7][0] == 'a';
    assert Occurs(s, "from", 9) && Occurs(s, "to", 16);
    NoToMarkerLacksTo();
    NoToMarkerFrom();
  }

  /** The only `/` of the line starts `/from`. */
  lemma NoToMarkerLacksTo()
    ensures !Contains(NoToMarker, "/to")
  {
    assert NoToMarker == "event a " + "/" + "from b to c";
    SlashMarkerAbsent("event a ", "from b to c", "/to");
  }

  /** A marker starting with `/` is absent from a text with a single `/`
      that is not followed by the marker's second character. */
  lemma SlashMarkerAbsent(head: string, tail: string, marker: string)
    requires '/' !in head && '/' !in tail
    requires |marker| >= 2 && marker[0] == '/' && |tail| > 0 && tail[0] != marker[1]
    ensures !Contains(head + "/" + tail, marker)
  {
    var s := head + "/" + tail;
    forall k | Occurs(s, marker, k)
      ensures false
    {
      OccursChars(s, marker, k);
    }
  }

  /** `/from` first occurs at index 8. */
  lemma NoToMarkerFrom()
    ensures IndexOf(NoToMarker, "/from") == 8
  {
    var s := NoToMarker;
    assert Occurs(s, "/from", 8);
    forall k | 0 <= k < 8
      ensures !Occurs(s, "/from", k)
    {
      assert s[k..k + 5][0] == s[k];
    }
  }

  /** The line is routed to the event branch. */
  lemma NoToMarkerRoute()
    ensures Contains(NoToMarker, "event") && GetCommand(NoToMarker) == ParseEvent(NoToMarker)
  {
    NoToMarkerKeyword();
    GetCommandBranches(NoToMarker);
  }

  /** The first keyword of the routing table the line holds is `event`. */
  lemma NoToMarkerKeyword()
    ensures Route(NoToMarker) == EventKw
  {
    NoToMarkerLetters();
    EventFirstKeyword(NoToMarker);
  }

  /** The line starts with `event` and has neither a `k` nor a `d`. */
  lemma NoToMarkerLetters()
    ensures Occurs(NoToMarker, "event", 0) && 'k' !in NoToMarker && 'd' !in NoToMarker
  {
    assert NoToMarker[0..5] == "event";
  }

  /** A line that starts with `event` and lacks the letters `k` and `d`
      holds none of unmark, mark and deadline, so it is routed to event. */
  lemma EventFirstKeyword(s: string)
    requires Occurs(s, "event", 0) && 'k' !in s && 'd' !in s
    ensures Route(s) == EventKw
  {
    MissingCharNotContained(s, "unmark", 5);
    MissingCharNotContained(s, "mark", 3);
    MissingCharNotContained(s, "deadline", 0);
    RouteChain(s);
  }

  /** The characters of an occurrence are those of the pattern. */
  lemma OccursChars(s: string, p: string, k: int)
    requires Occurs(s, p, k)
    ensures forall j :: 0 <= j < |p| ==> s[k + j] == p[j]
  {
    forall j | 0 <= j < |p|
      ensures s[k + j] == p[j]
    {
      assert s[k..k + |p|][j] == s[k + j];
    }
  }

  /** The event branch as written crashes on every line that passes its
      guard with `to` and `from` in the text, a non-blank description
      before `/from`, and no `/to`. */
  lemma {:induction false} EventCrashesWithoutTo(input: string)
    requires Contains(input, "event") && input != "event" && |input| > 5 && input[5] == ' '
    requires Contains(input, "to") && Contains(input, "from") && !Contains(input, "/to")
    requires var f := IndexOf(input, "/from"); 6 <= f - 1 && !IsBlank(input[6..f - 1])
    ensures ParseEvent(input) == Err(Crash(StringIndexOutOfBounds))
  {
    var f := IndexOf(input, "/from");
    assert ConvertTaskInput(EventKind, input) == Err(Crash(StringIndexOutOfBounds)) by {
      assert IndexOf(input, "/to") == -1;
      assert Substring(input, f + 6, -2).Err?;
    }
  }

  /** The event branch as written lets that line through its guard and
      crashes slicing up to the missing `/to`. */
  lemma MissingToMarkerCrashes()
    ensures Contains(NoToMarker, "to") && Contains(NoToMarker, "from")
    ensures !Contains(NoToMarker, "/to")
    ensures GetCommand(NoToMarker) == Err(Crash(StringIndexOutOfBounds))
  {
    NoToMarkerLayout();
    NoToMarkerRoute();
    EventCrashesWithoutTo(NoToMarker);
  }

  /** The event branch with the guard on the markers it slices at: a line
      without `/to` or without `/from` is rejected as missing them. */
  function ParseEventMarked(input: string): (r: Result<Command, ParseError>)
    requires Contains(input, "event")
    ensures r == Err(Rejected(MissingToOrFrom)) <==>
      input != "event" && input[5] == ' ' && (!Contains(input, "/to") || !Contains(input, "/from"))
    ensures r.Err? && r.error.Crash? ==>
      && Contains(input, "/to") && Contains(input, "/from")
      && var f, t := IndexOf(input, "/from"), IndexOf(input, "/to");
         t - 1 < f + 6 || t + 4 > |input|
  {
    if input == "event" then Err(Rejected(EmptyEvent))
    else
      KeywordOffsetInBounds(input, "event");
      if input[5] != ' ' then Err(Rejected(InvalidCommand))
      else if !Contains(input, "/to") || !Contains(input, "/from") then Err(Rejected(MissingToOrFrom))
      else
        MarkerHoldsWord(input, "/to", "to");
        MarkerHoldsWord(input, "/from", "from");
        ParseEvent(input)
  }

  /** `/to` holds `to` and `/from` holds `from`. */
  lemma MarkerHoldsWord(s: string, marker: string, word: string)
    requires marker == "/" + word && Contains(s, marker)
    ensures Contains(s, word)
  {
    var k := IndexOf(s, marker);
    assert s[k + 1..k + |marker|] == s[k..k + |marker|][1..];
    assert Occurs(s, word, k + 1);
  }

  /** Where both markers are present the corrected guard and the written
      one take the same path; only lines lacking a marker differ, and those
      are now rejected instead of crashing. */
  lemma {:induction false} MarkedGuardAgrees(input: string)
    requires Contains(input, "event")
    ensures Contains(input, "/to") && Contains(input, "/from") ==>
      ParseEventMarked(input) == ParseEvent(input)
    ensures ParseEventMarked(input).Err? && ParseEventMarked(input).error.Crash? ==>
      ParseEvent(input) == ParseEventMarked(input)
  {
    if Contains(input, "/to") && Contains(input, "/from") {
      MarkerHoldsWord(input, "/to", "to");
      MarkerHoldsWord(input, "/from", "from");
    }
  }

  /** The corrected guard turns the crashing line into a rejection. */
  lemma MarkedGuardRejects()
    ensures ParseEventMarked(NoToMarker) == Err(Rejected(MissingToOrFrom))
  {
    NoToMarkerLayout();
    assert NoToMarker[5] == ' ';
  }
}
