/** The fragment splitter of the command parser (Parser.splitter), and the
    conventional split it was meant to be. */
module Splitting {
  import opened JavaString

  /** Parser.splitter exactly as written: emit the text before the first
      occurrence of `cutOff`, continue one character past the start of that
      occurrence, and finally emit whatever remains. For a one-character
      `cutOff` this skips exactly the separator; for a longer one it leaves
      the separator's tail at the front of the next fragment. */
  function Splitter(text: string, cutOff: string): (r: seq<string>)
    requires |cutOff| > 0
    ensures |r| >= 1
    ensures |r| == 1 <==> !Contains(text, cutOff)
    decreases |text|
  {
    if !Contains(text, cutOff) then [text]
    else
      var i := IndexOf(text, cutOff);
      [text[..i]] + Splitter(text[i + 1..], cutOff)
  }

  /** No fragment contains the separator, whatever its length. */
  lemma {:induction false} SplitterFragmentsLackCutOff(text: string, cutOff: string)
    requires |cutOff| > 0
    ensures forall i :: 0 <= i < |Splitter(text, cutOff)| ==> !Contains(Splitter(text, cutOff)[i], cutOff)
    decreases |text|
  {
    if Contains(text, cutOff) {
      var i := IndexOf(text, cutOff);
      PrefixBeforeFirstOccurrence(text, cutOff, i);
      SplitterFragmentsLackCutOff(text[i + 1..], cutOff);
    }
  }

  /** The fragments glued back together with `sep` between neighbours. */
  function Join(frags: seq<string>, sep: string): string
    decreases |frags|
  {
    if |frags| == 0 then ""
    else if |frags| == 1 then frags[0]
    else frags[0] + sep + Join(frags[1..], sep)
  }

  /** The conventional split on a separator: continue past the whole
      separator. Gluing the fragments back with the separator restores the
      text, and no fragment holds the separator. */
  function Split(text: string, sep: string): (r: seq<string>)
    requires |sep| > 0
    ensures |r| >= 1
    ensures forall i :: 0 <= i < |r| ==> !Contains(r[i], sep)
    ensures Join(r, sep) == text
    decreases |text|
  {
    if !Contains(text, sep) then [text]
    else
      var i := IndexOf(text, sep);
      PrefixBeforeFirstOccurrence(text, sep, i);
      assert text == text[..i] + sep + text[i + |sep|..] by {
        assert text[i..i + |sep|] == sep;
      }
      [text[..i]] + Split(text[i + |sep|..], sep)
  }

  /** For a one-character separator, the splitter as written is the
      conventional split. */
  lemma {:induction false} SplitterAgreesOnOneChar(text: string, c: char)
    ensures Splitter(text, [c]) == Split(text, [c])
    decreases |text|
  {
    if Contains(text, [c]) {
      var i := IndexOf(text, [c]);
      SplitterAgreesOnOneChar(text[i + 1..], c);
    }
  }

  /** For a one-character separator, the fragments glued back with it give
      the original text. */
  lemma SplitterOneCharJoin(text: string, c: char)
    ensures Join(Splitter(text, [c]), [c]) == text
  {
    SplitterAgreesOnOneChar(text, c);
  }

  /** For a one-character separator, there is one fragment more than there
      are separators in the text. */
  lemma {:induction false} SplitterOneCharCount(text: string, c: char)
    ensures |Splitter(text, [c])| == multiset(text)[c] + 1
    decreases |text|
  {
    SingleCharContains(text, c);
    if Contains(text, [c]) {
      var i := IndexOf(text, [c]);
      assert text == text[..i] + [c] + text[i + 1..] by {
        assert text[i..i + 1] == [c];
      }
      PrefixBeforeFirstOccurrence(text, [c], i);
      SingleCharContains(text[..i], c);
      assert multiset(text[..i])[c] == 0;
      SplitterOneCharCount(text[i + 1..], c);
    }
  }

  /** Splitting `a + c + b` where `a` lacks `c` yields `a` and then the
      fragments of `b`. */
  lemma SplitterAtFirst(a: string, c: char, b: string)
    requires c !in a
    ensures Splitter(a + [c] + b, [c]) == [a] + Splitter(b, [c])
  {
    var text := a + [c] + b;
    assert text[|a|..|a| + 1] == [c];
    assert Occurs(text, [c], |a|);
    forall j | 0 <= j < |a|
      ensures !Occurs(text, [c], j)
    {
      assert text[j] == a[j];
    }
    var i := IndexOf(text, [c]);
    assert i == |a|;
    assert text[..i] == a && text[i + 1..] == b;
  }

  /** For a one-character separator, the fragments of `a + c + b` are the
      fragments of `a` followed by those of `b`. In particular the trailing
      fragment is always emitted, even when it is empty:
      Splitter(a + c, c) == Splitter(a, c) + [""]. */
  lemma {:induction false} SplitterOneCharAppend(a: string, c: char, b: string)
    ensures Splitter(a + [c] + b, [c]) == Splitter(a, [c]) + Splitter(b, [c])
    decreases |a|
  {
    if c !in a {
      SplitterAppendWithout(a, c, b);
    } else {
      var a1, a2 := FirstSeparator(a, c);
      SplitterAppendStep(a, a1, a2, c, b);
      SplitterOneCharAppend(a2, c, b);
      AppendAssociates([a1], Splitter(a2, [c]), Splitter(b, [c]));
    }
  }

  lemma AppendAssociates<T>(x: seq<T>, y: seq<T>, z: seq<T>)
    ensures x + (y + z) == (x + y) + z
  {
  }

  /** The base case: a `c`-free `a` is a single fragment, and the first
      fragment of `a + c + b`. */
  lemma SplitterAppendWithout(a: string, c: char, b: string)
    requires c !in a
    ensures Splitter(a + [c] + b, [c]) == Splitter(a, [c]) + Splitter(b, [c])
  {
    SplitterAtFirst(a, c, b);
    SplitterWithout(a, c);
  }

  /** A text holding `c` is the `c`-free text before its first `c`, the
      `c`, and the rest. */
  lemma FirstSeparator(a: string, c: char) returns (a1: string, a2: string)
    requires c in a
    ensures c !in a1 && a == a1 + [c] + a2
  {
    SingleCharContains(a, c);
    var j := IndexOf(a, [c]);
    assert a[j..j + 1] == [c];
    a1, a2 := a[..j], a[j + 1..];
    PrefixBeforeFirstOccurrence(a, [c], j);
    SingleCharContains(a1, c);
    assert a == a1 + [c] + a2;
  }

  /** Both `a` and `a + c + b` lose the same first fragment `a1`. */
  lemma SplitterAppendStep(a: string, a1: string, a2: string, c: char, b: string)
    requires c !in a1 && a == a1 + [c] + a2
    ensures Splitter(a + [c] + b, [c]) == [a1] + Splitter(a2 + [c] + b, [c])
    ensures Splitter(a, [c]) == [a1] + Splitter(a2, [c])
  {
    assert a + [c] + b == a1 + [c] + (a2 + [c] + b);
    SplitterAtFirst(a1, c, a2);
    SplitterAtFirst(a1, c, a2 + [c] + b);
  }

  /** A text without `c` is a single fragment. */
  lemma SplitterWithout(b: string, c: char)
    requires c !in b
    ensures Splitter(b, [c]) == [b]
  {
    SingleCharContains(b, c);
  }

  /** With the three-character field separator of the data file, the
      splitter as written does not restore the text: "a*|,b" splits into
      "a" and "|,b". */
  lemma SplitterKeepsSeparatorTail()
    ensures Splitter("a*|,b", "*|,") == ["a", "|,b"]
    ensures Join(Splitter("a*|,b", "*|,"), "*|,") != "a*|,b"
    ensures Split("a*|,b", "*|,") == ["a", "b"]
  {
    var text := "a*|,b";
    assert text == "a" + ['*'] + "|,b";
    assert !Contains("a", "*|,");
    FirstOccurrenceAfterSeparator("", 'a', "*|,", "b");
    assert "" + ['a'] + "*|," + "b" == text;
    MissingCharNotContained("|,b", "*|,", 0);
    MissingCharNotContained("b", "*|,", 0);
    assert text[..1] == "a" && text[2..] == "|,b" && text[4..] == "b";
  }
}
