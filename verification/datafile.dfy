/** The task file (storage/DataFile.java) with the file as its sequence of
    lines: one encoded task per line, fields joined by the three-character
    separator `*|,`, the completion flag `0`/`1` last. */
module DataFile {
  import opened Results
  import opened JavaString

  /** A stored task. Timestamps are kept as the ISO 8601 text that
      LocalDateTime writes and reads back. */
  datatype Task =
    | Todo(description: string, done: bool)
    | Deadline(description: string, due: string, done: bool)
    | Event(description: string, from: string, to: string, done: bool)

  /** The field separator of a stored line. */
  const Sep: string := "*|,"

  /** The completion flag: `1` for a task whose status is "X", else `0`. */
  function Flag(done: bool): char {
    if done then '1' else '0'
  }

  // ---------------------------------------------------------------------
  // DataFile.writeToFile

  /** The stored line of a task. */
  function EncodeLine(t: Task): (line: string)
    ensures |line| >= 5 && line[|line| - 1] == Flag(t.done)
    ensures line[0] == (match t case Todo(_, _) => 'T' case Deadline(_, _, _) => 'D' case Event(_, _, _, _) => 'E')
    ensures line[1..4] == Sep
  {
    match t
    case Todo(d, done) => "T" + Sep + d + Sep + [Flag(done)]
    case Deadline(d, due, done) => "D" + Sep + d + Sep + due + Sep + [Flag(done)]
    case Event(d, f, to, done) => "E" + Sep + d + Sep + f + Sep + to + Sep + [Flag(done)]
  }

  /** writeToFile appends the task's line to the file. */
  function WriteToFile(lines: seq<string>, t: Task): (r: seq<string>)
    ensures |r| == |lines| + 1 && r[..|lines|] == lines && r[|lines|] == EncodeLine(t)
  {
    lines + [EncodeLine(t)]
  }

  /** The file that holds `tasks`, in order. */
  function EncodeAll(tasks: seq<Task>): (lines: seq<string>)
    ensures |lines| == |tasks|
    ensures forall i :: 0 <= i < |tasks| ==> lines[i] == EncodeLine(tasks[i])
  {
    seq(|tasks|, i requires 0 <= i < |tasks| => EncodeLine(tasks[i]))
  }

  // ---------------------------------------------------------------------
  // DataFile.fileToObjects

  /** The fields of a todo line: everything between the first separator
      and the last one. */
  function DecodeTodo(line: string): (r: Result<Task, Fault>)
    ensures r.Ok? <==> LastIndexOf(line, Sep) >= |Sep| + 1
    ensures r.Ok? ==> r.value == Todo(line[|Sep| + 1..LastIndexOf(line, Sep)], false)
    ensures r.Err? ==> r.error == StringIndexOutOfBounds
  {
    var desc :- Substring(line, |Sep| + 1, LastIndexOf(line, Sep));
    Ok(Todo(desc, false))
  }

  /** The text from `start` up to the next separator at or after it:
      `sub.substring(start, sub.indexOf(div, start))`. */
  function FieldFrom(sub: string, start: int): (r: Result<string, Fault>)
    ensures r.Ok? <==> 0 <= start && IndexOfFrom(sub, Sep, start) >= 0
    ensures r.Ok? ==> r.value == sub[start..IndexOfFrom(sub, Sep, start)]
    ensures r.Err? ==> r.error == StringIndexOutOfBounds
  {
    Substring(sub, start, IndexOfFrom(sub, Sep, start))
  }

  /** The text before the first separator: `sub.substring(0, sub.indexOf(div))`. */
  function HeadField(sub: string): (r: Result<string, Fault>)
    ensures r.Ok? <==> IndexOf(sub, Sep) >= 0
    ensures r.Ok? ==> r.value == sub[..IndexOf(sub, Sep)]
    ensures r.Err? ==> r.error == StringIndexOutOfBounds
  {
    Substring(sub, 0, IndexOf(sub, Sep))
  }

  /** A field read up to the next separator holds no separator. */
  lemma FieldLacksSep(sub: string, start: int)
    ensures FieldFrom(sub, start).Ok? ==> !Contains(FieldFrom(sub, start).value, Sep)
    ensures HeadField(sub).Ok? ==> !Contains(HeadField(sub).value, Sep)
  {
    var e := IndexOfFrom(sub, Sep, start);
    if 0 <= start && e >= 0 {
      SliceWithout(sub, Sep, start, e);
    }
    if IndexOf(sub, Sep) >= 0 {
      PrefixBeforeFirstOccurrence(sub, Sep, IndexOf(sub, Sep));
    }
  }

  /** How the text after a deadline line's tag reads: the description ends
      at the first separator and the due text at the next one after it;
      the read succeeds exactly when both separators are there. */
  predicate DeadlineFieldsRead(sub: string, r: Result<Task, Fault>) {
    var a := IndexOf(sub, Sep);
    var b := IndexOfFrom(sub, Sep, a + |Sep|);
    && (r.Ok? <==> a >= 0 && b >= 0)
    && (r.Ok? ==> r.value == Deadline(sub[..a], sub[a + |Sep|..b], false))
  }

  /** How the text after an event line's tag reads: the description, the
      start and the end each run up to the next separator after the
      previous one; the read succeeds exactly when all three are there. */
  predicate EventFieldsRead(sub: string, r: Result<Task, Fault>) {
    var a := IndexOf(sub, Sep);
    var b := IndexOfFrom(sub, Sep, a + |Sep|);
    var c := IndexOfFrom(sub, Sep, b + |Sep|);
    && (r.Ok? <==> a >= 0 && b >= 0 && c >= 0)
    && (r.Ok? ==> r.value == Event(sub[..a], sub[a + |Sep|..b], sub[b + |Sep|..c], false))
  }

  /** The fields of a deadline line: after the tag and first separator,
      the text up to the next separator, then up to the one after it. */
  function DecodeDeadline(line: string): (r: Result<Task, Fault>)
    ensures |line| < |Sep| + 1 ==> r == Err(StringIndexOutOfBounds)
    ensures |line| >= |Sep| + 1 ==> DeadlineFieldsRead(line[|Sep| + 1..], r)
    ensures r.Err? ==> r.error == StringIndexOutOfBounds
  {
    var sub :- SubstringFrom(line, |Sep| + 1);
    var desc :- HeadField(sub);
    var first := IndexOf(sub, Sep) + |Sep|;
    var due :- FieldFrom(sub, first);
    Ok(Deadline(desc, due, false))
  }

  /** The fields of an event line: three texts, each ended by the next
      separator. */
  function DecodeEvent(line: string): (r: Result<Task, Fault>)
    ensures |line| < |Sep| + 1 ==> r == Err(StringIndexOutOfBounds)
    ensures |line| >= |Sep| + 1 ==> EventFieldsRead(line[|Sep| + 1..], r)
    ensures r.Err? ==> r.error == StringIndexOutOfBounds
  {
    var sub :- SubstringFrom(line, |Sep| + 1);
    assert sub == line[|Sep| + 1..];
    EventOf(sub)
  }

  /** The three fields of the text after an event line's tag. */
  function EventOf(sub: string): (r: Result<Task, Fault>)
    ensures EventFieldsRead(sub, r)
    ensures r.Err? ==> r.error == StringIndexOutOfBounds
  {
    var desc :- HeadField(sub);
    var first := IndexOf(sub, Sep) + |Sep|;
    var from :- FieldFrom(sub, first);
    var second := IndexOfFrom(sub, Sep, first) + |Sep|;
    var to :- FieldFrom(sub, second);
    Ok(Event(desc, from, to, false))
  }

  /** One line of fileToObjects: the tag picks the fields, an unknown tag
      fails the `assert false`, and the task is completed exactly when the
      line ends in `1`. */
  function DecodeLine(line: string): (r: Result<Task, Fault>)
    ensures r.Ok? ==> |line| > 0 && (r.value.done <==> line[|line| - 1] == '1')
    ensures r.Ok? ==> line[0] == (match r.value case Todo(_, _) => 'T' case Deadline(_, _, _) => 'D' case Event(_, _, _, _) => 'E')
    ensures |line| > 0 && line[0] !in "TDE" ==> r == Err(AssertionFailed)
    ensures |line| == 0 ==> r == Err(StringIndexOutOfBounds)
  {
    var tag :- CharAt(line, 0);
    var fields :-
      if tag == 'T' then DecodeTodo(line)
      else if tag == 'D' then DecodeDeadline(line)
      else if tag == 'E' then DecodeEvent(line)
      else Err(AssertionFailed);
    Ok(fields.(done := line[|line| - 1] == '1'))
  }

  /** fileToObjects: one task per line in file order, or the failure of the
      first line that cannot be read. */
  function FileToObjects(lines: seq<string>): (r: Result<seq<Task>, Fault>)
    ensures r.Ok? <==> forall i :: 0 <= i < |lines| ==> DecodeLine(lines[i]).Ok?
    ensures r.Ok? ==> |r.value| == |lines|
    ensures r.Ok? ==> forall i :: 0 <= i < |lines| ==> DecodeLine(lines[i]) == Ok(r.value[i])
    ensures r.Err? ==> exists i :: && 0 <= i < |lines| && DecodeLine(lines[i]) == Err(r.error)
                                   && forall j :: 0 <= j < i ==> DecodeLine(lines[j]).Ok?
    decreases |lines|
  {
    if |lines| == 0 then Ok([])
    else
      var first :- DecodeLine(lines[0]);
      var rest :- FileToObjects(lines[1..]);
      Ok([first] + rest)
  }

  // ---------------------------------------------------------------------
  // DataFile.editFileAtLineN and DataFile.deleteTaskFromFile

  /** StringBuilder.setCharAt(length - 1, c): replace the last character. */
  function SetLastChar(line: string, c: char): (r: Result<string, Fault>)
    ensures r.Ok? <==> |line| > 0
    ensures r.Ok? ==>
      |r.value| == |line| && r.value[..|line| - 1] == line[..|line| - 1] && r.value[|line| - 1] == c
    ensures r.Err? ==> r.error == StringIndexOutOfBounds
  {
    if |line| == 0 then Err(StringIndexOutOfBounds) else Ok(line[..|line| - 1] + [c])
  }

  /** The file editFileAtLineN(n, c) leaves: line `n` with its last
      character replaced. An empty line `n` throws before anything is
      written; an empty file fails the closing `assert` (which runs after
      the empty file has been written back unchanged). */
  function EditedLines(lines: seq<string>, n: int, c: char): (r: Result<seq<string>, Fault>)
    ensures r.Ok? <==> |lines| > 0 && !(0 <= n < |lines| && lines[n] == "")
    ensures r.Err? ==> (r.error == AssertionFailed <==> |lines| == 0)
    ensures r.Err? && r.error != AssertionFailed ==> r.error == StringIndexOutOfBounds
    ensures r.Ok? ==> |r.value| == |lines|
    ensures r.Ok? ==> forall i :: 0 <= i < |lines| && i != n ==> r.value[i] == lines[i]
    ensures r.Ok? && 0 <= n < |lines| ==>
      && |r.value[n]| == |lines[n]|
      && r.value[n][..|lines[n]| - 1] == lines[n][..|lines[n]| - 1]
      && r.value[n][|lines[n]| - 1] == c
    ensures r.Ok? && !(0 <= n < |lines|) ==> r.value == lines
  {
    if 0 <= n < |lines| then
      var edited :- SetLastChar(lines[n], c);
      Ok(lines[n := edited])
    else if |lines| == 0 then Err(AssertionFailed)
    else Ok(lines)
  }

  /** editFileAtLineN line by line, as editFileAtLineN does it: the lines
      are copied one at a time, line `n` edited on the way. */
  method EditFileAtLineN(lines: seq<string>, n: int, c: char) returns (r: Result<seq<string>, Fault>)
    ensures r == EditedLines(lines, n, c)
  {
    var content: seq<string> := [];
    var i := 0;
    while i < |lines|
      invariant 0 <= i <= |lines|
      invariant |content| == i
      invariant forall j :: 0 <= j < i && j != n ==> content[j] == lines[j]
      invariant 0 <= n < i ==> SetLastChar(lines[n], c).Ok? && content[n] == SetLastChar(lines[n], c).value
    {
      var line := lines[i];
      if i == n {
        var edited := SetLastChar(line, c);
        if edited.Err? {
          return Err(edited.error);
        }
        line := edited.value;
      }
      content := content + [line];
      i := i + 1;
    }
    if |content| == 0 {
      return Err(AssertionFailed);
    }
    if 0 <= n < |lines| {
      assert content == lines[n := SetLastChar(lines[n], c).value];
    } else {
      assert content == lines;
    }
    return Ok(content);
  }

  /** The file deleteTaskFromFile(n) leaves: line `n` dropped, the others
      kept in order; an `n` outside the file changes nothing. */
  function DeletedLines(lines: seq<string>, n: int): (r: seq<string>)
    ensures 0 <= n < |lines| ==>
      && |r| == |lines| - 1
      && (forall i :: 0 <= i < n ==> r[i] == lines[i])
      && (forall i :: n <= i < |r| ==> r[i] == lines[i + 1])
    ensures !(0 <= n < |lines|) ==> r == lines
  {
    if 0 <= n < |lines| then lines[..n] + lines[n + 1..] else lines
  }

  /** deleteTaskFromFile line by line, as deleteTaskFromFile does it: every
      line but line `n` is copied, one at a time. */
  method DeleteTaskFromFile(lines: seq<string>, n: int) returns (r: seq<string>)
    ensures r == DeletedLines(lines, n)
  {
    r := [];
    var i := 0;
    while i < |lines|
      invariant 0 <= i <= |lines|
      invariant r == if 0 <= n < i then lines[..n] + lines[n + 1..i] else lines[..i]
    {
      if i != n {
        r := r + [lines[i]];
      }
      i := i + 1;
    }
    assert lines[..|lines|] == lines;
  }

  // ---------------------------------------------------------------------
  // Where the separator is found

  /** The separator starts with the only `*` it holds, so it cannot begin
      inside a separator-free text and run into the separator that follows
      it: searching from the start of that text finds the separator right
      after it. */
  lemma SepFoundAfter(pre: string, a: string, rest: string)
    requires !Contains(a, Sep)
    ensures IndexOfFrom(pre + a + Sep + rest, Sep, |pre|) == |pre| + |a|
  {
    var s := pre + a + Sep + rest;
    var m := |pre| + |a|;
    assert s[m..m + 3] == Sep;
    assert Occurs(s, Sep, m);
    forall k | |pre| <= k < m
      ensures !Occurs(s, Sep, k)
    {
      if k + 3 <= m {
        assert s[k..k + 3] == a[k - |pre|..k - |pre| + 3];
        assert !Occurs(a, Sep, k - |pre|);
      } else {
        assert s[m] == '*' && Sep[m - k] != '*';
        assert s[k..k + 3][m - k] == s[m];
      }
    }
    var r := IndexOfFrom(s, Sep, |pre|);
    assert r != -1;
    assert r >= |pre|;
    assert !(r < m);
  }

  lemma IndexOfFromStart(s: string, p: string)
    ensures IndexOf(s, p) == IndexOfFrom(s, p, 0)
  {
  }

  /** A separator-free field followed by a separator reads back whole. */
  lemma FieldAt(pre: string, a: string, rest: string)
    requires !Contains(a, Sep)
    ensures FieldFrom(pre + a + Sep + rest, |pre|) == Ok(a)
  {
    var s := pre + a + Sep + rest;
    SepFoundAfter(pre, a, rest);
    assert s[|pre|..|pre| + |a|] == a;
  }

  // ---------------------------------------------------------------------
  // Round trips

  /** The tasks whose line reads back as themselves: a deadline's or an
      event's texts must not hold the separator (an ISO timestamp never
      does); a todo's description may. */
  predicate Storable(t: Task) {
    match t
    case Todo(_, _) => true
    case Deadline(d, due, _) => !Contains(d, Sep) && !Contains(due, Sep)
    case Event(d, f, to, _) => !Contains(d, Sep) && !Contains(f, Sep) && !Contains(to, Sep)
  }

  /** A todo line reads back whatever its description holds: the last
      separator is always the one before the flag. */
  lemma {:induction false} TodoRoundTrip(d: string, done: bool)
    ensures DecodeLine(EncodeLine(Todo(d, done))) == Ok(Todo(d, done))
  {
    var line := EncodeLine(Todo(d, done));
    var e := |d| + 4;
    assert |line| == e + 4;
    assert line[e..e + 3] == Sep;
    assert Occurs(line, Sep, e);
    assert !Occurs(line, Sep, e + 1) by {
      assert line[e + 1..e + 4][0] == line[e + 1] == '|';
    }
    var r := LastIndexOf(line, Sep);
    assert r == e;
    assert line[4..e] == d;
  }

  /** The fields of a deadline line come back from the decoder. */
  lemma DeadlineFields(d: string, due: string, done: bool)
    requires !Contains(d, Sep) && !Contains(due, Sep)
    ensures DecodeDeadline(EncodeLine(Deadline(d, due, done))) == Ok(Deadline(d, due, false))
  {
    var sub := EncodeLine(Deadline(d, due, done))[4..];
    DeadlineBody(d, due, done);
    SepFoundAfter("", d, due + Sep + [Flag(done)]);
    IndexOfFromStart(sub, Sep);
    assert IndexOf(sub, Sep) + 3 == |d + Sep|;
    FieldAt(d + Sep, due, [Flag(done)]);
  }

  lemma DeadlineBody(d: string, due: string, done: bool)
    ensures var sub := EncodeLine(Deadline(d, due, done))[4..];
      && sub == "" + d + Sep + (due + Sep + [Flag(done)])
      && sub == (d + Sep) + due + Sep + [Flag(done)]
      && sub[..|d|] == d
  {
    var tail := due + Sep + [Flag(done)];
    var line := EncodeLine(Deadline(d, due, done));
    assert line == "D" + Sep + (d + Sep + tail);
    var sub := line[4..];
    assert sub == d + Sep + tail;
  }

  lemma {:induction false} DeadlineRoundTrip(d: string, due: string, done: bool)
    requires !Contains(d, Sep) && !Contains(due, Sep)
    ensures DecodeLine(EncodeLine(Deadline(d, due, done))) == Ok(Deadline(d, due, done))
  {
    DeadlineFields(d, due, done);
  }

  /** The fields of an event line come back from the decoder. */
  lemma EventFields(d: string, f: string, to: string, done: bool)
    requires !Contains(d, Sep) && !Contains(f, Sep) && !Contains(to, Sep)
    ensures DecodeEvent(EncodeLine(Event(d, f, to, done))) == Ok(Event(d, f, to, false))
  {
    var line := EncodeLine(Event(d, f, to, done));
    var sub := line[4..];
    EventBody(d, f, to, done);
    EventSubFields(sub, d, f, to, [Flag(done)]);
  }

  /** The text after an event's tag yields its three separator-free fields. */
  lemma EventSubFields(sub: string, d: string, f: string, to: string, rest: string)
    requires !Contains(d, Sep) && !Contains(f, Sep) && !Contains(to, Sep)
    requires sub == d + Sep + f + Sep + (to + Sep + rest)
    requires sub == (d + Sep + f + Sep) + to + Sep + rest
    ensures EventOf(sub) == Ok(Event(d, f, to, false))
  {
    EventSeparators(sub, d, f, to, rest);
    EventOfLocated(sub, d, f, to);
  }

  /** Where the separators of an event's text lie. */
  lemma EventSeparators(sub: string, d: string, f: string, to: string, rest: string)
    requires !Contains(d, Sep) && !Contains(f, Sep) && !Contains(to, Sep)
    requires sub == d + Sep + f + Sep + (to + Sep + rest)
    requires sub == (d + Sep + f + Sep) + to + Sep + rest
    ensures IndexOf(sub, Sep) == |d| && |d| <= |sub| && sub[..|d|] == d
    ensures FieldFrom(sub, |d| + 3) == Ok(f)
    ensures IndexOfFrom(sub, Sep, |d| + 3) == |d| + 3 + |f|
    ensures FieldFrom(sub, |d| + |f| + 6) == Ok(to)
  {
    LeadingFields(sub, d, f, to + Sep + rest);
    LastField(sub, d, f, to, rest);
  }

  /** EventOf reads `d`, `f` and `to` once the separators are located. */
  lemma EventOfLocated(sub: string, d: string, f: string, to: string)
    requires IndexOf(sub, Sep) == |d| && |d| <= |sub| && sub[..|d|] == d
    requires FieldFrom(sub, |d| + 3) == Ok(f)
    requires IndexOfFrom(sub, Sep, |d| + 3) == |d| + 3 + |f|
    requires FieldFrom(sub, |d| + |f| + 6) == Ok(to)
    ensures EventOf(sub) == Ok(Event(d, f, to, false))
  {
    var b := |d| + 3 + |f|;
    var c := IndexOfFrom(sub, Sep, b + |Sep|);
    assert sub[|d| + |Sep|..b] == f;
    assert c >= 0 && sub[b + |Sep|..c] == to;
    EventOfAt(sub, |d|, b, c, d, f, to);
  }

  /** EventOf reads the texts between the separators it finds. */
  lemma EventOfAt(sub: string, a: int, b: int, c: int, d: string, f: string, to: string)
    requires IndexOf(sub, Sep) == a >= 0
    requires IndexOfFrom(sub, Sep, a + |Sep|) == b >= 0
    requires IndexOfFrom(sub, Sep, b + |Sep|) == c >= 0
    requires a + |Sep| <= b && b + |Sep| <= c <= |sub|
    requires sub[..a] == d && sub[a + |Sep|..b] == f && sub[b + |Sep|..c] == to
    ensures EventOf(sub) == Ok(Event(d, f, to, false))
  {
    assert EventFieldsRead(sub, EventOf(sub));
  }

  /** The first two separator-ended fields of a text. */
  lemma LeadingFields(sub: string, d: string, f: string, rest: string)
    requires !Contains(d, Sep) && !Contains(f, Sep)
    requires sub == d + Sep + f + Sep + rest
    ensures IndexOf(sub, Sep) == |d| && |d| <= |sub| && sub[..|d|] == d
    ensures FieldFrom(sub, |d| + 3) == Ok(f)
    ensures IndexOfFrom(sub, Sep, |d| + 3) == |d| + 3 + |f|
  {
    assert sub == d + Sep + (f + Sep + rest);
    FirstField(sub, d, f + Sep + rest);
    SecondField(sub, d, f, rest);
  }

  /** The first separator-ended field of a text. */
  lemma FirstField(sub: string, d: string, rest: string)
    requires !Contains(d, Sep)
    requires sub == d + Sep + rest
    ensures IndexOf(sub, Sep) == |d| && |d| <= |sub| && sub[..|d|] == d
  {
    assert sub == "" + d + Sep + rest;
    SepFoundAfter("", d, rest);
    IndexOfFromStart(sub, Sep);
  }

  /** The second separator-ended field of a text. */
  lemma SecondField(sub: string, d: string, f: string, rest: string)
    requires !Contains(f, Sep)
    requires sub == d + Sep + f + Sep + rest
    ensures FieldFrom(sub, |d| + 3) == Ok(f)
    ensures IndexOfFrom(sub, Sep, |d| + 3) == |d| + 3 + |f|
  {
    FieldAt(d + Sep, f, rest);
    SepFoundAfter(d + Sep, f, rest);
  }

  /** The third separator-ended field of a text. */
  lemma LastField(sub: string, d: string, f: string, to: string, rest: string)
    requires !Contains(to, Sep)
    requires sub == (d + Sep + f + Sep) + to + Sep + rest
    ensures FieldFrom(sub, |d| + |f| + 6) == Ok(to)
  {
    FieldAt(d + Sep + f + Sep, to, rest);
  }

  lemma EventBody(d: string, f: string, to: string, done: bool)
    ensures var sub := EncodeLine(Event(d, f, to, done))[4..];
      && sub == d + Sep + f + Sep + (to + Sep + [Flag(done)])
      && sub == (d + Sep + f + Sep) + to + Sep + [Flag(done)]
  {
    var tail := to + Sep + [Flag(done)];
    var mid := f + Sep + tail;
    var line := EncodeLine(Event(d, f, to, done));
    assert line == "E" + Sep + (d + Sep + mid);
    var sub := line[4..];
    assert sub == d + Sep + mid;
    assert sub == (d + Sep + f + Sep) + tail;
  }

  lemma {:induction false} EventRoundTrip(d: string, f: string, to: string, done: bool)
    requires !Contains(d, Sep) && !Contains(f, Sep) && !Contains(to, Sep)
    ensures DecodeLine(EncodeLine(Event(d, f, to, done))) == Ok(Event(d, f, to, done))
  {
    EventFields(d, f, to, done);
  }

  /** Every task read from a line is storable: each field was read up to a
      separator, so none holds one. */
  lemma ReadTaskStorable(line: string)
    ensures DecodeLine(line).Ok? ==> Storable(DecodeLine(line).value)
  {
    if |line| > 0 && line[0] == 'D' {
      DeadlineReadStorable(line);
    } else if |line| >= |Sep| + 1 && line[0] == 'E' {
      EventReadStorable(line[|Sep| + 1..]);
    }
  }

  /** The two fields of a read deadline hold no separator. */
  lemma DeadlineReadStorable(line: string)
    ensures DecodeDeadline(line).Ok? ==> Storable(DecodeDeadline(line).value)
  {
    if DecodeDeadline(line).Ok? {
      var sub := line[|Sep| + 1..];
      var first := IndexOf(sub, Sep) + |Sep|;
      var t := DecodeDeadline(line).value;
      assert t == Deadline(HeadField(sub).value, FieldFrom(sub, first).value, false);
      FieldLacksSep(sub, first);
    }
  }

  /** The three fields of a read event hold no separator. */
  lemma EventReadStorable(sub: string)
    ensures EventOf(sub).Ok? ==> Storable(EventOf(sub).value)
  {
    if EventOf(sub).Ok? {
      var first := IndexOf(sub, Sep) + |Sep|;
      var second := IndexOfFrom(sub, Sep, first) + |Sep|;
      var t := EventOf(sub).value;
      assert t == Event(HeadField(sub).value, FieldFrom(sub, first).value, FieldFrom(sub, second).value, false);
      FieldLacksSep(sub, first);
      FieldLacksSep(sub, second);
    }
  }

  /** Reading a stored line gives back the task that was written. */
  lemma LineRoundTrip(t: Task)
    requires Storable(t)
    ensures DecodeLine(EncodeLine(t)) == Ok(t)
  {
    match t
    case Todo(d, done) => TodoRoundTrip(d, done);
    case Deadline(d, due, done) => DeadlineRoundTrip(d, due, done);
    case Event(d, f, to, done) => EventRoundTrip(d, f, to, done);
  }

  /** Loading a saved list gives back the list, in order. */
  lemma LoadAfterSave(tasks: seq<Task>)
    requires forall i :: 0 <= i < |tasks| ==> Storable(tasks[i])
    ensures FileToObjects(EncodeAll(tasks)) == Ok(tasks)
  {
    var lines := EncodeAll(tasks);
    forall i | 0 <= i < |lines|
      ensures DecodeLine(lines[i]) == Ok(tasks[i])
    {
      LineRoundTrip(tasks[i]);
    }
    LoadEveryLine(lines, tasks);
  }

  /** A file whose every line reads back as the task at its position loads as those tasks. */
  lemma {:induction false} LoadEveryLine(lines: seq<string>, tasks: seq<Task>)
    requires |lines| == |tasks|
    requires forall i :: 0 <= i < |lines| ==> DecodeLine(lines[i]) == Ok(tasks[i])
    ensures FileToObjects(lines) == Ok(tasks)
    decreases |lines|
  {
    if |lines| > 0 {
      assert DecodeLine(lines[0]) == Ok(tasks[0]);
      LoadEveryLine(lines[1..], tasks[1..]);
      assert [tasks[0]] + tasks[1..] == tasks;
    }
  }

  // ---------------------------------------------------------------------
  // The file follows the task list

  /** The task with its completion set to `done`. */
  function WithDone(t: Task, done: bool): (r: Task)
    ensures r.done == done
  {
    t.(done := done)
  }

  /** Replacing the flag of a stored line stores the task with the new
      completion. */
  lemma SetFlag(t: Task, done: bool)
    ensures SetLastChar(EncodeLine(t), Flag(done)) == Ok(EncodeLine(WithDone(t, done)))
  {
    var line, line' := EncodeLine(t), EncodeLine(WithDone(t, done));
    assert line[..|line| - 1] == line'[..|line'| - 1];
    assert line' == line'[..|line'| - 1] + [Flag(done)];
  }

  /** Adding a task appends its line. */
  lemma AppendPersists(tasks: seq<Task>, t: Task)
    ensures WriteToFile(EncodeAll(tasks), t) == EncodeAll(tasks + [t])
  {
  }

  /** Marking or unmarking task `n` by rewriting the flag of line `n` stores
      the list with that task's completion changed and nothing else. */
  lemma MarkPersists(tasks: seq<Task>, n: int, done: bool)
    requires 0 <= n < |tasks|
    ensures EditedLines(EncodeAll(tasks), n, Flag(done)) == Ok(EncodeAll(tasks[n := WithDone(tasks[n], done)]))
  {
    SetFlag(tasks[n], done);
    var lines := EncodeAll(tasks);
    var changed := tasks[n := WithDone(tasks[n], done)];
    assert lines[n] == EncodeLine(tasks[n]);
    assert lines[n := EncodeLine(changed[n])] == EncodeAll(changed);
  }

  /** Deleting line `n` stores the list without task `n`. */
  lemma DeletePersists(tasks: seq<Task>, n: int)
    requires 0 <= n < |tasks|
    ensures DeletedLines(EncodeAll(tasks), n) == EncodeAll(tasks[..n] + tasks[n + 1..])
  {
    var lines, rest := EncodeAll(tasks), tasks[..n] + tasks[n + 1..];
    var r := DeletedLines(lines, n);
    assert |r| == |rest|;
    forall i | 0 <= i < |rest|
      ensures r[i] == EncodeLine(rest[i])
    {
      if i < n {
        assert rest[i] == tasks[i];
      } else {
        assert rest[i] == tasks[i + 1];
      }
    }
  }

  /** After a mark the file loads as the changed list. */
  lemma LoadAfterMark(tasks: seq<Task>, n: int, done: bool)
    requires forall i :: 0 <= i < |tasks| ==> Storable(tasks[i])
    requires 0 <= n < |tasks|
    ensures EditedLines(EncodeAll(tasks), n, Flag(done)).Ok?
    ensures FileToObjects(EditedLines(EncodeAll(tasks), n, Flag(done)).value)
         == Ok(tasks[n := WithDone(tasks[n], done)])
  {
    MarkPersists(tasks, n, done);
    var changed := tasks[n := WithDone(tasks[n], done)];
    assert forall i :: 0 <= i < |changed| ==> Storable(changed[i]);
    LoadAfterSave(changed);
  }

  /** After a delete the file loads as the list without task `n`. */
  lemma LoadAfterDelete(tasks: seq<Task>, n: int)
    requires forall i :: 0 <= i < |tasks| ==> Storable(tasks[i])
    requires 0 <= n < |tasks|
    ensures FileToObjects(DeletedLines(EncodeAll(tasks), n)) == Ok(tasks[..n] + tasks[n + 1..])
  {
    DeletePersists(tasks, n);
    var rest := tasks[..n] + tasks[n + 1..];
    assert forall i :: 0 <= i < |rest| ==> Storable(rest[i]);
    LoadAfterSave(rest);
  }
}
