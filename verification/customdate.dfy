/** The date reader (CustomDate.java): a user's `d/M/yyyy HHmm` text is
    rearranged into the ISO 8601 text `yyyy-MM-ddTHH:mm` that
    LocalDateTime.parse reads. The model stops at that text; the parse
    itself is a library call outside the model. */
module CustomDate {
  import opened Results
  import opened JavaString
  import opened JavaInt
  import opened Splitting
  import DataFile

  /** addZeroFront: a one-character text gains a leading `0` (Java's
      `0 + text` is string concatenation); any other text is unchanged. */
  function AddZeroFront(text: string): (r: string)
    ensures |text| == 1 ==> |r| == 2 && r[0] == '0' && r[1..] == text
    ensures |text| != 1 ==> r == text
  {
    if |text| == 1 then "0" + text else text
  }

  /** formatTime: the four characters `HHmm` become `HH:mm`; a text shorter
      than four characters makes one of the two substrings throw. Any
      characters after the fourth are dropped. */
  function FormatTime(str: string): (r: Result<string, Fault>)
    ensures r.Ok? <==> |str| >= 4
    ensures r.Err? ==> r.error == StringIndexOutOfBounds
    ensures r.Ok? ==> |r.value| == 5 && r.value[2] == ':'
    ensures r.Ok? ==> r.value[..2] + r.value[3..] == str[..4]
  {
    var hours :- Substring(str, 0, 2);
    var minutes :- Substring(str, 2, 4);
    Ok(hours + ":" + minutes)
  }

  /** `a`, then the character `c`, then `b`. */
  function Glue(a: string, c: char, b: string): string {
    a + [c] + b
  }

  /** Where the three parts of a glued text lie. */
  lemma GlueParts(a: string, c: char, b: string)
    ensures var g := Glue(a, c, b);
      |g| == |a| + 1 + |b| && g[..|a|] == a && g[|a|] == c && g[|a| + 1..] == b
  {
  }

  /** The ISO text of a year, month, day and formatted time: Java's
      `year + "-" + mon + "-" + day + "T" + time`. */
  function IsoJoin(year: string, mon: string, day: string, time: string): string {
    Glue(year, '-', Glue(mon, '-', Glue(day, 'T', time)))
  }

  /** A reader's text ends in `T`, two characters, `:` and two characters,
      after at least the two `-` of the date. */
  predicate EndsWithTime(r: string) {
    |r| >= 8 && r[|r| - 6] == 'T' && r[|r| - 3] == ':'
  }

  /** strToDateTime up to the text it hands to LocalDateTime.parse: the
      day, month and year-and-time fragments on `/`, fragments beyond the
      third ignored, and ArrayList.get failing when one is missing. A text
      with fewer than two `/` always fails that way, the only failures are
      the two index exceptions, and a result always ends with the time. */
  function StrToDateTimeText(text: string): (r: Result<string, Fault>)
    ensures multiset(text)['/'] < 2 ==> r == Err(IndexOutOfBounds)
    ensures r.Err? ==> r.error == IndexOutOfBounds || r.error == StringIndexOutOfBounds
    ensures r.Ok? ==> multiset(text)['/'] >= 2 && EndsWithTime(r.value)
  {
    var texts := Splitter(text, "/");
    SplitterOneCharCount(text, '/');
    if |texts| < 3 then Err(IndexOutOfBounds)
    else FromFragments(texts[0], texts[1], texts[2])
  }

  /** The rest of strToDateTime once the day, month and year-and-time
      fragments are known: year and time split on a space, each of year,
      month and day padded, the time given its colon. */
  function FromFragments(day: string, mon: string, yearAndTime: string): (r: Result<string, Fault>)
    ensures var yt := Splitter(yearAndTime, " ");
      if |yt| < 2 then r == Err(IndexOutOfBounds)
      else if |yt[1]| < 4 then r == Err(StringIndexOutOfBounds)
      else r.Ok? && EndsWithTime(r.value)
  {
    var yearNTime := Splitter(yearAndTime, " ");
    var year := AddZeroFront(yearNTime[0]);
    var mon := AddZeroFront(mon);
    var day := AddZeroFront(day);
    if |yearNTime| < 2 then Err(IndexOutOfBounds)
    else
      var time :- FormatTime(yearNTime[1]);
      IsoJoinTime(year, mon, day, time);
      Ok(IsoJoin(year, mon, day, time))
  }

  /** Joining the date parts in front of a formatted time leaves the time,
      after its `T`, at the end. */
  lemma IsoJoinTime(year: string, mon: string, day: string, time: string)
    requires |time| == 5 && time[2] == ':'
    ensures EndsWithTime(IsoJoin(year, mon, day, time))
  {
    var r := IsoJoin(year, mon, day, time);
    var tail := Glue(day, 'T', time);
    assert r == year + ['-'] + (mon + ['-'] + tail);
    assert r[|r| - 6..] == tail[|tail| - 6..] == ['T'] + time;
  }

  /** The year and time come back out of the space split when neither holds
      a space; the reader then yields the padded parts around a `-`, `-`
      and `T`. */
  lemma {:induction false} ReadFragments(d: string, m: string, y: string, t: string)
    requires ' ' !in y && ' ' !in t && |t| >= 4
    ensures FromFragments(d, m, y + " " + t)
         == Ok(IsoJoin(AddZeroFront(y), AddZeroFront(m), AddZeroFront(d), FormatTime(t).value))
  {
    SpaceFragments(y, t);
    SplitFragments(d, m, y + " " + t, y, t);
  }

  /** The year and time come back out of the space split. */
  lemma SpaceFragments(y: string, t: string)
    requires ' ' !in y && ' ' !in t
    ensures Splitter(y + " " + t, " ") == [y, t]
  {
    assert y + " " + t == y + [' '] + t;
    SplitterAtFirst(y, ' ', t);
    SplitterWithout(t, ' ');
  }

  /** The reader's text once the space split has given the year and time. */
  lemma SplitFragments(d: string, m: string, yt: string, y: string, t: string)
    requires Splitter(yt, " ") == [y, t] && |t| >= 4
    ensures FromFragments(d, m, yt)
         == Ok(IsoJoin(AddZeroFront(y), AddZeroFront(m), AddZeroFront(d), FormatTime(t).value))
  {
  }

  /** The day, month and year-and-time come back out of the `/` split when
      none of them holds a `/`. */
  lemma SlashFragments(d: string, m: string, yt: string)
    requires '/' !in d && '/' !in m && '/' !in yt
    ensures Splitter(d + "/" + m + "/" + yt, "/") == [d, m, yt]
  {
    assert d + "/" + m + "/" + yt == d + ['/'] + (m + ['/'] + yt);
    SplitterAtFirst(d, '/', m + ['/'] + yt);
    SplitterAtFirst(m, '/', yt);
    SplitterWithout(yt, '/');
  }

  /** The reader applied to `d/m/y t` yields the ISO text of those parts. */
  lemma {:induction false} ReadUserText(d: string, m: string, y: string, t: string)
    requires '/' !in d && '/' !in m && '/' !in y && '/' !in t
    requires ' ' !in y && ' ' !in t && |t| >= 4
    ensures StrToDateTimeText(d + "/" + m + "/" + y + " " + t)
         == Ok(IsoJoin(AddZeroFront(y), AddZeroFront(m), AddZeroFront(d), FormatTime(t).value))
  {
    var yt := y + " " + t;
    assert '/' !in yt;
    assert d + "/" + m + "/" + y + " " + t == d + "/" + m + "/" + yt;
    SlashFragments(d, m, yt);
    ReadFragments(d, m, y, t);
  }

  // ---------------------------------------------------------------------
  // Dates and times

  /** A minute-precision timestamp. */
  datatype Stamp = Stamp(year: nat, month: nat, day: nat, hour: nat, minute: nat)

  /** The ranges the input format can express: a four-digit year, one- or
      two-digit day and month, two-digit hour and minute. Calendar validity
      (30 February) is LocalDateTime's concern, outside the model. */
  predicate InRange(s: Stamp) {
    1000 <= s.year <= 9999 && 1 <= s.month <= 12 && 1 <= s.day <= 31 && s.hour < 24 && s.minute < 60
  }

  /** A number below 100 as exactly two digits. */
  function TwoDigits(n: nat): (r: string)
    requires n < 100
    ensures |r| == 2 && AllDigits(r) && DigitsValue(r) == n
  {
    var r := AddZeroFront(NatDigits(n));
    if n < 10 then
      assert r == "0" + [DigitChar(n)];
      assert r[..1] == "0";
      r
    else
      assert NatDigits(n) == NatDigits(n / 10) + [DigitChar(n % 10)];
      r
  }

  /** What the user types for a timestamp: `d/M/yyyy HHmm`, day and month
      without leading zeros. */
  function UserText(s: Stamp): (r: string)
    requires InRange(s)
  {
    NatDigits(s.day) + "/" + NatDigits(s.month) + "/" + NatDigits(s.year) + " "
      + (TwoDigits(s.hour) + TwoDigits(s.minute))
  }

  /** The ISO 8601 text of a timestamp, `yyyy-MM-ddTHH:mm`, which is also
      what LocalDateTime prints when the seconds are zero. */
  function IsoText(s: Stamp): (r: string)
    requires InRange(s)
  {
    IsoJoin(NatDigits(s.year), TwoDigits(s.month), TwoDigits(s.day),
            Glue(TwoDigits(s.hour), ':', TwoDigits(s.minute)))
  }

  /** The positions of the `-`, `-`, `T` and `:` of an ISO text. */
  predicate IsPunctuation(i: int) {
    i == 4 || i == 7 || i == 10 || i == 13
  }

  /** The shape of ISO_LOCAL_DATE_TIME without seconds: sixteen characters,
      digits everywhere but the `-`, `-`, `T` and `:` at 4, 7, 10 and 13. */
  predicate IsoShape(r: string) {
    && |r| == 16
    && r[4] == '-' && r[7] == '-' && r[10] == 'T' && r[13] == ':'
    && forall i :: 0 <= i < 16 && !IsPunctuation(i) ==> IsDigit(r[i])
  }

  /** The year, month, day, hour and minute read off an ISO text. */
  function IsoFields(r: string): (s: Stamp)
    requires IsoShape(r)
  {
    Stamp(DigitsValue(r[0..4]), DigitsValue(r[5..7]), DigitsValue(r[8..10]),
          DigitsValue(r[11..13]), DigitsValue(r[14..16]))
  }

  lemma FourDigitYear(y: nat)
    requires 1000 <= y <= 9999
    ensures |NatDigits(y)| == 4
  {
    var a := y / 10;
    var b := a / 10;
    assert 100 <= a && 10 <= b < 100;
    MoreDigits(y);
    MoreDigits(a);
    MoreDigits(b);
  }

  /** A number of at least two digits has one digit more than its tenth. */
  lemma MoreDigits(n: nat)
    requires n >= 10
    ensures |NatDigits(n)| == |NatDigits(n / 10)| + 1
  {
  }

  /** A text of `n` digits followed by `c` and the rest: its first `n`
      characters are digits and read as the part's value. */
  lemma GluedDigits(a: string, c: char, b: string)
    requires AllDigits(a)
    ensures var g := Glue(a, c, b);
      && g[..|a|] == a && g[|a|] == c && g[|a| + 1..] == b
      && forall i :: 0 <= i < |a| ==> IsDigit(g[i])
  {
    GlueParts(a, c, b);
    var g := Glue(a, c, b);
    forall i | 0 <= i < |a|
      ensures IsDigit(g[i])
    {
      assert g[i] == a[i];
    }
  }

  /** Where a four-character year and two-character month, day, hour and
      minute lie in their ISO text. */
  lemma IsoJoinLayout(y: string, mo: string, d: string, h: string, mi: string)
    requires |y| == 4 && |mo| == 2 && |d| == 2 && |h| == 2 && |mi| == 2
    ensures var r := IsoJoin(y, mo, d, Glue(h, ':', mi));
      && |r| == 16
      && r[4] == '-' && r[7] == '-' && r[10] == 'T' && r[13] == ':'
      && r[0..4] == y && r[5..7] == mo && r[8..10] == d && r[11..13] == h && r[14..16] == mi
  {
    var r4 := Glue(h, ':', mi);
    var r3 := Glue(d, 'T', r4);
    var r2 := Glue(mo, '-', r3);
    var r := Glue(y, '-', r2);
    GlueParts(h, ':', mi);
    GlueParts(d, 'T', r4);
    GlueParts(mo, '-', r3);
    GlueParts(y, '-', r2);
    assert r[5..7] == r2[..2];
    assert r[8..10] == r3[..2];
    assert r[11..13] == r4[..2];
  }

  /** The ISO text of a timestamp: its year, month, day, hour and minute
      are glued around `-`, `-`, `T` and `:`. */
  lemma IsoTextLayout(s: Stamp)
    requires InRange(s)
    ensures var r := IsoText(s);
      && |r| == 16
      && r[4] == '-' && r[7] == '-' && r[10] == 'T' && r[13] == ':'
      && r[0..4] == NatDigits(s.year) && r[5..7] == TwoDigits(s.month) && r[8..10] == TwoDigits(s.day)
      && r[11..13] == TwoDigits(s.hour) && r[14..16] == TwoDigits(s.minute)
  {
    FourDigitYear(s.year);
    IsoJoinLayout(NatDigits(s.year), TwoDigits(s.month), TwoDigits(s.day), TwoDigits(s.hour), TwoDigits(s.minute));
  }

  /** The characters of a slice are digits when the slice is. */
  lemma SliceDigits(r: string, lo: int, hi: int)
    requires 0 <= lo <= hi <= |r| && AllDigits(r[lo..hi])
    ensures forall i :: lo <= i < hi ==> IsDigit(r[i])
  {
    forall i | lo <= i < hi
      ensures IsDigit(r[i])
    {
      assert r[i] == r[lo..hi][i - lo];
    }
  }

  /** Digit parts of the right lengths glue into a text of the ISO shape
      that holds them in their places. */
  lemma IsoJoinShape(y: string, mo: string, d: string, h: string, mi: string)
    requires |y| == 4 && |mo| == 2 && |d| == 2 && |h| == 2 && |mi| == 2
    requires AllDigits(y) && AllDigits(mo) && AllDigits(d) && AllDigits(h) && AllDigits(mi)
    ensures var r := IsoJoin(y, mo, d, Glue(h, ':', mi));
      && IsoShape(r)
      && r[0..4] == y && r[5..7] == mo && r[8..10] == d && r[11..13] == h && r[14..16] == mi
  {
    var r := IsoJoin(y, mo, d, Glue(h, ':', mi));
    IsoJoinLayout(y, mo, d, h, mi);
    SliceDigits(r, 0, 4);
    SliceDigits(r, 5, 7);
    SliceDigits(r, 8, 10);
    SliceDigits(r, 11, 13);
    SliceDigits(r, 14, 16);
  }

  /** The ISO text of a timestamp has the ISO shape and reads back as the
      same timestamp. */
  lemma {:induction false} IsoTextFields(s: Stamp)
    requires InRange(s)
    ensures IsoShape(IsoText(s))
    ensures IsoFields(IsoText(s)) == s
  {
    FourDigitYear(s.year);
    IsoJoinShape(NatDigits(s.year), TwoDigits(s.month), TwoDigits(s.day), TwoDigits(s.hour), TwoDigits(s.minute));
  }

  /** The parts of a user's text hold neither `/` nor a space. */
  lemma DigitsLackSeparators(s: string)
    requires AllDigits(s)
    ensures '/' !in s && ' ' !in s
  {
  }

  /** Reading digit parts `d/m/y hhmm` with a four-digit year yields the
      year, the padded month and day, and `hh:mm`. */
  lemma {:induction false} ReadDigitParts(d: string, m: string, y: string, h: string, mi: string)
    requires AllDigits(d) && AllDigits(m) && AllDigits(y) && AllDigits(h + mi)
    requires |y| == 4 && |h| == 2 && |mi| == 2
    ensures StrToDateTimeText(d + "/" + m + "/" + y + " " + (h + mi))
         == Ok(IsoJoin(y, AddZeroFront(m), AddZeroFront(d), Glue(h, ':', mi)))
  {
    var t := h + mi;
    ReadDigitsText(d, m, y, t);
    assert t[..2] == h && t[2..4] == mi;
  }

  /** For one- or two-digit day and month, a four-digit year and a
      four-digit time, the reader's text has the ISO shape and carries the
      year, the padded month and day, the hour and the minute in their
      places. */
  lemma {:induction false} ReadDigitsShape(d: string, m: string, y: string, t: string)
    requires AllDigits(d) && AllDigits(m) && AllDigits(y) && AllDigits(t)
    requires 1 <= |d| <= 2 && 1 <= |m| <= 2 && |y| == 4 && |t| == 4
    ensures StrToDateTimeText(d + "/" + m + "/" + y + " " + t).Ok?
    ensures var r := StrToDateTimeText(d + "/" + m + "/" + y + " " + t).value;
      && IsoShape(r)
      && r[0..4] == y && r[5..7] == AddZeroFront(m) && r[8..10] == AddZeroFront(d)
      && r[11..13] == t[..2] && r[14..16] == t[2..4]
  {
    var mo, da, h, mi := AddZeroFront(m), AddZeroFront(d), t[..2], t[2..4];
    PaddedDigits(m);
    PaddedDigits(d);
    TimeDigits(t);
    IsoJoinShape(y, mo, da, h, mi);
    ReadDigitsText(d, m, y, t);
  }

  /** The reader's text for digit parts with a four-digit year. */
  lemma ReadDigitsText(d: string, m: string, y: string, t: string)
    requires AllDigits(d) && AllDigits(m) && AllDigits(y) && AllDigits(t)
    requires |y| == 4 && |t| == 4
    ensures StrToDateTimeText(d + "/" + m + "/" + y + " " + t)
         == Ok(IsoJoin(y, AddZeroFront(m), AddZeroFront(d), Glue(t[..2], ':', t[2..4])))
  {
    DigitsLackSeparators(d);
    DigitsLackSeparators(m);
    DigitsLackSeparators(y);
    DigitsLackSeparators(t);
    ReadUserText(d, m, y, t);
  }

  /** The halves of a four-digit time are digits. */
  lemma TimeDigits(t: string)
    requires AllDigits(t) && |t| == 4
    ensures AllDigits(t[..2]) && AllDigits(t[2..4])
  {
    assert forall i :: 0 <= i < 2 ==> t[2..4][i] == t[i + 2];
  }

  /** Padding one or two digits gives two digits. */
  lemma PaddedDigits(s: string)
    requires AllDigits(s) && 1 <= |s| <= 2
    ensures |AddZeroFront(s)| == 2 && AllDigits(AddZeroFront(s))
  {
  }

  /** Reading what the user types for a timestamp yields its ISO text. */
  lemma {:induction false} ReadStamp(s: Stamp)
    requires InRange(s)
    ensures StrToDateTimeText(UserText(s)) == Ok(IsoText(s))
  {
    var h, mi := TwoDigits(s.hour), TwoDigits(s.minute);
    assert AllDigits(h + mi) by {
      forall i | 0 <= i < |h + mi|
        ensures IsDigit((h + mi)[i])
      {
        if i >= 2 { assert (h + mi)[i] == mi[i - 2]; }
      }
    }
    FourDigitYear(s.year);
    ReadDigitParts(NatDigits(s.day), NatDigits(s.month), NatDigits(s.year), h, mi);
  }

  /** An ISO text never holds the data file's separator, so deadlines and
      events stored with such timestamps read back whole. */
  lemma {:induction false} IsoTextStorable(s: Stamp)
    requires InRange(s)
    ensures !Contains(IsoText(s), DataFile.Sep)
  {
    IsoTextFields(s);
    ShapeLacksStar(IsoText(s));
    MissingCharNotContained(IsoText(s), DataFile.Sep, 0);
  }

  /** Digits and ISO punctuation exclude the separator's first character. */
  lemma ShapeLacksStar(r: string)
    requires IsoShape(r)
    ensures '*' !in r
  {
    forall i | 0 <= i < |r|
      ensures r[i] != '*'
    {
      if !IsPunctuation(i) {
        assert IsDigit(r[i]);
      }
    }
  }
}
