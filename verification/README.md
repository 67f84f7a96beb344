# Duke task tracker: command parser, task file and date reader

Duke is a command-line task tracker. The user types one line per command
(`todo read book`, `deadline return book /by 2/12/2019 1800`,
`event meeting /from … /to …`, `mark 2`, `unmark 2`, `delete 3`,
`find book`, `list`, `bye`). The tracker keeps its tasks in a text file, one
line per task. This project models three parts of it in Dafny and proves
properties of the model:

- **The parser.** `getCommand` routes a line by the first rule of its
  chain of tests that matches, in source order. `bye` and `list` must be
  the whole line; the other keywords match anywhere in it. `convertTaskInput` slices out the description, the
  due text and the event bounds. `splitter` cuts a text at a divider.
- **The task file.** `writeToFile` appends one task line, with fields
  separated by `*|,` and a final `1` or `0` for done. `fileToObjects`
  reads the lines back. `editFileAtLineN` rewrites the done flag of one
  line. `deleteTaskFromFile` drops one line. The file is a sequence of
  lines.
- **The date reader.** `strToDateTime` turns `d/m/yyyy hhmm` into the ISO
  text `yyyy-mm-ddThh:mm` that `LocalDateTime.parse` receives. It uses
  `addZeroFront` and `formatTime`.

Java's behaviour at the edges is modelled explicitly:

- `indexOf` returns -1 when the text is absent.
- `substring` and `charAt` out of range throw.
- `Integer.parseInt` rejects anything but an optional sign and digits within 32 bits.
- `- 1` on an `int` wraps.

Every uncaught runtime exception becomes a `Fault` value
(`StringIndexOutOfBounds`, `NumberFormat`, `IndexOutOfBounds`,
`AssertionFailed`). Every `DukeException` becomes `Rejected(reason)`. A
`Crash(fault)` is kept apart from a rejection. The main loop
(src/main/java/duke/Duke.java:45) catches only `DukeException` and shows its
message; any other exception leaves the loop and ends the session.

Modules:

- `Results` is the result type.
- `JavaString` and `JavaInt` hold the Java library primitives.
- `Splitting` is `splitter` and a conventional split.
- `Parser` is `getCommand` and `convertTaskInput`.
- `CommandText` renders commands back to text and proves the parser reads them.
- `DataFile` is the task file.
- `CustomDate` is the date reader.
- `EventGuard` holds the event-marker finding below.

## Model

| member | source | states |
|---|---|---|
| Splitting.Splitter | src/main/java/parser/Parser.java:208-218 | Cutting yields at least one fragment, and exactly one exactly when the divider does not occur in the text |
| Splitting.SplitterFragmentsLackCutOff | src/main/java/parser/Parser.java:211-216 | No fragment contains the divider: the loop only stops once the remainder lacks it |
| Splitting.SplitterAgreesOnOneChar | src/main/java/parser/Parser.java:208-218 | For a one-character divider (the only kind the program passes) splitter equals the conventional split, which joins back to the text |
| Splitting.Split | src/main/java/parser/Parser.java:208-218 | The conventional split: fragments lack the divider and joining them with it gives back the text |
| Splitting.SplitterOneCharJoin | src/main/java/parser/Parser.java:208-218 | With a one-character divider, joining the fragments with it reconstructs the input |
| Splitting.SplitterOneCharCount | src/main/java/parser/Parser.java:211-216 | With a one-character divider there is one fragment more than the divider has occurrences |
| Splitting.SplitterAtFirst | src/main/java/parser/Parser.java:212-214 | The first fragment is the text before the first divider, and the rest is split on |
| Splitting.SplitterOneCharAppend | src/main/java/parser/Parser.java:208-218 | Splitting `a + c + b` gives the fragments of `a` followed by those of `b` |
| Splitting.SplitterKeepsSeparatorTail | src/main/java/parser/Parser.java:214 | With the three-character file divider, the remainder keeps its last two characters, so the fragments no longer join back |
| JavaInt.ParseInt | src/main/java/parser/Parser.java:77 | A parse succeeds only on an optionally signed run of digits, gives a 32-bit value, is non-negative without a minus, and fails with NumberFormat |
| JavaInt.ParseIntDigits | src/main/java/parser/Parser.java:77 | A run of digits, bare or after `+` or `-`, parses exactly when its signed decimal value is a 32-bit number, and then to that value |
| JavaInt.ParseIntToString | src/main/java/parser/Parser.java:77 | parseInt reads back every 32-bit number from its decimal spelling |
| JavaInt.Wrap32 | src/main/java/parser/Parser.java:77 | `int` subtraction lands in the 32-bit range, agrees with the exact result modulo 2^32, and is exact when that is in range |
| JavaString.IndexOf | src/main/java/parser/Parser.java:124 | The result is -1 or the position of an occurrence, and no occurrence lies before it |
| JavaString.IndexOfFrom | src/main/java/storage/DataFile.java:141 | The search from a position finds an occurrence at or after it (a negative start counts as 0), none before, or -1 |
| JavaString.LastIndexOf | src/main/java/storage/DataFile.java:134 | The result is -1 or the position of an occurrence, and no occurrence lies after it |
| JavaString.WhitespaceSet | src/main/java/parser/Parser.java:157 | isBlank counts space, tab, line breaks and the Unicode space separators as whitespace, but not the no-break spaces, the ASCII letters or the digits |
| JavaString.BlankConcat | src/main/java/parser/Parser.java:157 | The empty text is blank; a joined text is blank exactly when both parts are; one non-whitespace character makes a text non-blank |
| JavaString.Contains | src/main/java/parser/Parser.java:76-127 | A text contains a pattern exactly when the pattern occurs in it at some position |
| JavaString.SubstringFrom | src/main/java/parser/Parser.java:77 | The tail from a position succeeds exactly when the position is within the text, and is the characters from there on |
| JavaString.CharAt | src/main/java/storage/DataFile.java:133 | Reading a character succeeds exactly at an index inside the text, giving the character there |
| JavaString.Substring | src/main/java/parser/Parser.java:156 | Succeeds exactly for `0 <= begin <= end <= length`, yielding those characters; otherwise StringIndexOutOfBounds |
| Parser.RouteChain | src/main/java/parser/Parser.java:69-140 | The keyword tests are tried in source order (bye, list, unmark, mark, deadline, event, todo, delete, find) and the first that holds decides |
| Parser.ParseIndex | src/main/java/parser/Parser.java:77 | The index succeeds exactly when the offset is inside the line and the rest parses; it is the number minus one, wrapped; failures are StringIndexOutOfBounds or NumberFormat |
| Parser.NonDigitStopsIndex | src/main/java/parser/Parser.java:77 | A non-digit after the first character of the number text makes the index read throw NumberFormatException |
| Parser.ParseNumbered | src/main/java/parser/Parser.java:76-82 | A numbered command succeeds exactly when its index parses, carries the requested keyword and that index, and otherwise passes the index error on |
| Parser.ConvertTaskInput | src/main/java/parser/Parser.java:149-199 | A result has one, two or three fields by task kind, with a non-blank description; a failure of event, deadline or todo is the kind's blank-name rejection or a substring crash; find succeeds exactly when the line holds a space, and otherwise fails with IndexOutOfBounds from the list read |
| Parser.KeywordOffsetInBounds | src/main/java/parser/Parser.java:88 | A line that contains a keyword and is not exactly it is longer than the keyword, so the character read right after the keyword's length exists |
| Parser.ParseDeadline | src/main/java/parser/Parser.java:84-96 | Each rejection (empty, no space at 8, no `/by`, blank description) holds exactly under its condition; it succeeds exactly when every guard passes, the description before `/by` is non-blank and text follows `/by`, giving the texts before and after it; a crash means nothing follows `/by` |
| Parser.ParseEvent | src/main/java/parser/Parser.java:98-110 | Each rejection (empty, no space at 5, no `to` or `from` word, blank description) holds exactly under its condition; it succeeds exactly when every guard passes, the description before `/from` is non-blank and the `/from` and `/to` slices are in range, giving the three slices; a crash means the `/to` slice is out of range |
| Parser.ParseTodo | src/main/java/parser/Parser.java:112-121 | Each rejection holds exactly under its condition; it succeeds exactly when the line is not bare `todo`, has a space at 4 and the text after `todo ` is non-blank, and then gives that text |
| Parser.ParseFind | src/main/java/parser/Parser.java:127-137 | Each rejection holds exactly under its condition; otherwise it succeeds with the second space-separated fragment |
| Parser.GetCommand | src/main/java/parser/Parser.java:69-141 | A line with no keyword is rejected as invalid; `bye` and `list` give exit and list |
| Parser.GetCommandBranches | src/main/java/parser/Parser.java:76-137 | Each routed keyword delegates to its branch, with the fixed offsets 7 and 5 and the offset seven past `delete` |
| Parser.GetCommandKeyword | src/main/java/parser/Parser.java:69-141 | A successful command always belongs to the keyword the line was routed by |
| Parser.IndexCommandFields | src/main/java/parser/Parser.java:76-125 | unmark, mark and delete succeed exactly when the text after their offset parses, and the index is that number minus one with no bound against the task list |
| Parser.UnmarkNeverMark | src/main/java/parser/Parser.java:76-82 | A line holding `unmark` is never read as mark, although it also holds `mark` |
| CommandText.MarkRoundTrip | src/main/java/parser/Parser.java:80-82 | `mark n+1` parses back to the command for index n |
| CommandText.UnmarkRoundTrip | src/main/java/parser/Parser.java:76-78 | `unmark n+1` parses back to the command for index n |
| CommandText.DeleteRoundTrip | src/main/java/parser/Parser.java:123-125 | `delete n+1` parses back to the command for index n |
| CommandText.TodoLineParses | src/main/java/parser/Parser.java:112-121 | `todo d` parses back to the todo when d is non-blank and holds no earlier keyword |
| CommandText.DeadlineLineParses | src/main/java/parser/Parser.java:84-96 | `deadline d /by t` parses back to the deadline when d is non-blank and avoids `/by`, and neither holds `mark` |
| CommandText.DeadlineLineFields | src/main/java/parser/Parser.java:167-179 | The deadline slices recover the description and the due text |
| CommandText.EventLineParses | src/main/java/parser/Parser.java:98-110 | `event d /from f /to t` parses back to the event when the parts avoid the markers and earlier keywords |
| CommandText.EventLineFields | src/main/java/parser/Parser.java:152-166 | The event slices recover the description, the start and the end |
| CommandText.MarkedTodoCrashes | src/main/java/parser/Parser.java:76-82 | `todo d` with `mark` anywhere in d goes to the unmark or mark branch, whose number read meets a letter and throws NumberFormatException |
| CommandText.FindRoundTrip | src/main/java/parser/Parser.java:127-137 | `find k` parses back to the search for a one-word k with no earlier keyword |
| CommandText.FindFields | src/main/java/parser/Parser.java:188-192 | The second space-separated fragment of `find k` is k |
| CommandText.ParseRender | src/main/java/parser/Parser.java:69-141 | Every renderable command parses back to itself |
| DataFile.EncodeLine | src/main/java/storage/DataFile.java:43-65 | A task line starts with its kind letter and the divider and ends with its done flag |
| DataFile.WriteToFile | src/main/java/storage/DataFile.java:43-68 | Saving appends exactly the task's line and keeps every earlier line |
| DataFile.DecodeTodo | src/main/java/storage/DataFile.java:133-135 | A todo line reads exactly when its last divider lies past the tag and divider, and the description is the text between them; otherwise StringIndexOutOfBounds |
| DataFile.FieldFrom | src/main/java/storage/DataFile.java:141 | A field read from a position succeeds exactly when the position is non-negative and a divider follows it, giving the text up to that divider; otherwise StringIndexOutOfBounds |
| DataFile.HeadField | src/main/java/storage/DataFile.java:139 | The description succeeds exactly when the text holds a divider, giving the text before the first one; otherwise StringIndexOutOfBounds |
| DataFile.FieldLacksSep | src/main/java/storage/DataFile.java:139-150 | A field read up to a divider holds no divider |
| DataFile.DecodeDeadline | src/main/java/storage/DataFile.java:137-142 | A line shorter than tag and divider throws; otherwise, in the text after them, the line reads exactly when a first divider and a later one after it exist, and the description is the text before the first, the due text the text between the two, not yet done; the only failure is StringIndexOutOfBounds |
| DataFile.DecodeEvent | src/main/java/storage/DataFile.java:144-151 | A line shorter than tag and divider throws; otherwise, in the text after them, the line reads exactly when three successive dividers exist, and the description, start and end are the texts before the first, between the first and second and between the second and third, not yet done; the only failure is StringIndexOutOfBounds |
| DataFile.EventOf | src/main/java/storage/DataFile.java:146-150 | The text after an event's tag reads exactly when three successive dividers exist, giving the texts they end as description, start and end |
| DataFile.ReadTaskStorable | src/main/java/storage/DataFile.java:125-165 | Every task read from a line is storable: none of a deadline's or event's fields holds the divider, so saving it again reads back the same |
| DataFile.DecodeLine | src/main/java/storage/DataFile.java:132-160 | A read task has the kind of the line's first letter and is done exactly when the last character is `1`; another first letter fails the assertion; an empty line throws |
| DataFile.FileToObjects | src/main/java/storage/DataFile.java:125-165 | Loading succeeds exactly when every line decodes, giving one task per line in order; a failure is the error of the first line that fails |
| DataFile.TodoRoundTrip | src/main/java/storage/DataFile.java:133-135 | Every todo line reads back as the same todo, whatever its description |
| DataFile.DeadlineRoundTrip | src/main/java/storage/DataFile.java:137-142 | A deadline line reads back as the same deadline when its texts avoid the divider |
| DataFile.EventRoundTrip | src/main/java/storage/DataFile.java:144-151 | An event line reads back as the same event when its texts avoid the divider |
| DataFile.LineRoundTrip | src/main/java/storage/DataFile.java:125-165 | Decoding inverts encoding for every storable task |
| DataFile.LoadAfterSave | src/main/java/storage/DataFile.java:125-165 | Loading the lines saved for a task list gives back that list |
| DataFile.LoadEveryLine | src/main/java/storage/DataFile.java:125-165 | A file whose every line reads as the task at its position loads as exactly those tasks |
| DataFile.AppendPersists | src/main/java/storage/DataFile.java:43-68 | Appending a task's line to a saved list gives the file of the longer list |
| DataFile.EditedLines | src/main/java/storage/DataFile.java:76-96 | Editing succeeds exactly when the file is non-empty and the target line is not empty; only the last character of line n changes; an index outside the file changes nothing; an empty file fails the assertion |
| DataFile.SetLastChar | src/main/java/storage/DataFile.java:85 | Replacing the last character succeeds exactly on a non-empty line, keeps its length and every other character, and puts the new one last |
| DataFile.EditFileAtLineN | src/main/java/storage/DataFile.java:76-96 | The line-by-line loop computes the edit above |
| DataFile.SetFlag | src/main/java/storage/DataFile.java:83-87 | Overwriting the last character of a task line with a flag gives the line of the task with that done state |
| DataFile.MarkPersists | src/main/java/storage/DataFile.java:76-96 | Editing line n of a saved list gives the file of the list with task n marked or unmarked |
| DataFile.LoadAfterMark | src/main/java/storage/DataFile.java:76-96 | Loading after the edit gives the list with only task n's done state changed |
| DataFile.DeletedLines | src/main/java/storage/DataFile.java:103-118 | Deleting an index inside the file removes that line and shifts the later ones; any other index changes nothing |
| DataFile.DeleteTaskFromFile | src/main/java/storage/DataFile.java:103-118 | The line-by-line loop computes the deletion above |
| DataFile.DeletePersists | src/main/java/storage/DataFile.java:103-118 | Deleting line n of a saved list gives the file of the list without task n |
| DataFile.LoadAfterDelete | src/main/java/storage/DataFile.java:103-118 | Loading after the deletion gives the list without task n |
| CustomDate.AddZeroFront | src/main/java/CustomDate.java:20-22 | A one-character text gains a leading `0`; any other text is unchanged |
| CustomDate.FormatTime | src/main/java/CustomDate.java:24-26 | Succeeds exactly on four or more characters, giving five characters with `:` in the middle and the first four around it; otherwise StringIndexOutOfBounds |
| CustomDate.StrToDateTimeText | src/main/java/CustomDate.java:8-16 | A text with fewer than two `/` fails with IndexOutOfBounds; the only failures are the two index exceptions; a result ends in a `T`, two characters, `:` and two characters |
| CustomDate.FromFragments | src/main/java/CustomDate.java:11-16 | No space after the year fails with IndexOutOfBounds, a time of under four characters with StringIndexOutOfBounds, and anything else gives a text ending in `T`, the hour, `:` and the minute |
| CustomDate.IsoJoinTime | src/main/java/CustomDate.java:16 | Joining date parts with a formatted time puts `T` six characters and `:` three characters before the end |
| CustomDate.ReadUserText | src/main/java/CustomDate.java:8-16 | `d/m/y t` reads as padded year, month and day joined by `-`, then `T` and the formatted time |
| CustomDate.ReadDigitsShape | src/main/java/CustomDate.java:8-16 | A digit date with a one- or two-digit day and month, a four-digit year and a four-digit time reads as text of the ISO shape, with each part in its place |
| CustomDate.IsoTextFields | src/main/java/CustomDate.java:16 | The ISO text of a valid timestamp has the ISO shape and its fields read back as the same timestamp |
| CustomDate.ReadStamp | src/main/java/CustomDate.java:8-18 | What a user types for a timestamp reads as that timestamp's ISO text |
| CustomDate.IsoTextStorable | src/main/java/storage/DataFile.java:137-151 | ISO timestamp text never holds the file divider, so stored deadlines and events with such times read back |
| EventGuard.MissingToMarkerCrashes | src/main/java/parser/Parser.java:105-110 | The line `event a /from b to c` passes the guard and crashes with StringIndexOutOfBounds |
| EventGuard.EventCrashesWithoutTo | src/main/java/parser/Parser.java:161 | Every event line with the words `to` and `from`, a description before `/from` and no `/to` crashes |
| EventGuard.ParseEventMarked | src/main/java/parser/Parser.java:98-110 | With the guard on `/to` and `/from`, lacking a marker is exactly the missing-marker rejection, and a crash needs both markers present |
| EventGuard.MarkedGuardAgrees | src/main/java/parser/Parser.java:98-110 | Where both markers are present the corrected guard behaves as written, and every crash it leaves is a crash of the written guard |
| EventGuard.MarkedGuardRejects | src/main/java/parser/Parser.java:105-107 | The corrected guard rejects the crashing line as missing its markers |

## Left out

- File I/O is not modelled: `FileWriter`, `BufferedReader`, the data
  directory and its creation. The file is a sequence of lines. So are
  `System.lineSeparator()` and a description that itself holds a line break.
- `LocalDateTime.parse` and `LocalDateTime.toString` are left out. Timestamps
  are their ISO text. Calendar validity (month 13, 31 February) is not
  checked, and a `DateTimeParseException` is not modelled.
- The command objects (`ByeCommand`, `MarkCommand`, …) and what they do to
  the task list are left out. `Command` only records what was parsed.
- The `Parser` that `CustomDate` creates is declared in a file that is not
  part of this model. It is taken to behave as `splitter` at
  src/main/java/parser/Parser.java:208-218.
- Splitting.Splitter requires a non-empty divider. With an empty divider
  the Java loop takes one character at a time and throws at the end of the
  text. Every call passes a one-character divider: `" "` at
  src/main/java/parser/Parser.java:189, and `"/"` and `" "` at
  src/main/java/CustomDate.java:10-11.
- The `assert false` in `fileToObjects` is modelled as if assertions are
  enabled (`AssertionFailed`). With assertions off, Java would add the
  previous task object again.
- DataFile.EditedLines: the assertion at the end of `editFileAtLineN` is
  modelled as enabled, so editing an empty file fails with
  `AssertionFailed`. With Java's default of assertions off, an empty file is
  rewritten as empty without failing.
- The `assert false` at the end of `writeToFile`, and the default branch
  of `convertTaskInput`, cannot be reached: `Task` and `TaskKind` have
  exactly the cases listed.
- JavaInt.ParseInt accepts ASCII digits only. Java also accepts other
  Unicode decimal digits.
- Strings are sequences of characters, not UTF-16 code units. Text
  outside the Basic Multilingual Plane is indexed differently.
- Parser.GetCommand states only the routing outcomes in its own contract.
  The branch results are stated by GetCommandBranches, GetCommandKeyword
  and IndexCommandFields.
- CommandText.ParseRender covers commands whose texts avoid the keywords
  that route earlier. A todo holding `mark`, for example, goes to the mark
  or unmark branch, whose number read throws NumberFormatException on the
  letters (CommandText.MarkedTodoCrashes); that exception is not caught, so
  the round trip does not hold there and the session ends.
- DataFile.DecodeLine states the kind, the done flag and the failures, not
  the field contents. Field contents are stated by DecodeTodo,
  DecodeDeadline and DecodeEvent, and by the round-trip lemmas for texts
  that avoid the divider.

## Findings

| source | as written | input that shows it | evidently intended | confidence | as-written member | corrected member |
|---|---|---|---|---|---|---|
| src/main/java/parser/Parser.java:214 | After cutting a fragment, the remainder starts one character past the divider, whatever the divider's length | splitting `a`, divider, `b` on the file divider gives `a` and the divider's last two characters followed by `b` | Skip the whole divider, giving `["a", "b"]` | not executed; latent, since every call in the program passes a one-character divider | Splitting.SplitterKeepsSeparatorTail | Splitting.Split |
| src/main/java/parser/Parser.java:105 | The event guard checks for the words `to` and `from`, but the slicing looks for the markers `/to` and `/from` | `event a /from b to c` passes the guard and throws StringIndexOutOfBoundsException | Check for `/to` and `/from` and reject with "Event does not contain to or from" | not executed | EventGuard.MissingToMarkerCrashes | EventGuard.ParseEventMarked |
