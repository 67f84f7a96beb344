/** The parts of java.lang.String the task tracker relies on, with Java's
    index conventions: `indexOf` answers -1 when the text is absent, and
    `substring`/`charAt` throw on an out-of-range index, which here is an
    explicit `Err(StringIndexOutOfBounds)`. */
module JavaString {
  import opened Results

  /** The Java runtime exceptions the modelled code can raise without
      catching them. */
  datatype Fault =
    | StringIndexOutOfBounds  // String.substring, String.charAt, StringBuilder.setCharAt
    | NumberFormat            // Integer.parseInt
    | IndexOutOfBounds        // ArrayList.get
    | AssertionFailed         // `assert false` with assertions enabled

  /** `p` occurs in `s` starting at index `k`. */
  predicate Occurs(s: string, p: string, k: int) {
    0 <= k && k + |p| <= |s| && s[k..k + |p|] == p
  }

  /** The first occurrence of `p` in `s` at or after `k`, or -1. */
  function SearchFrom(s: string, p: string, k: nat): (r: int)
    requires k <= |s|
    ensures r == -1 || (k <= r && Occurs(s, p, r))
    ensures forall j :: k <= j && (r == -1 || j < r) ==> !Occurs(s, p, j)
    decreases |s| - k
  {
    if k + |p| > |s| then -1
    else if s[k..k + |p|] == p then k
    else SearchFrom(s, p, k + 1)
  }

  /** String.indexOf(p): the first index at which `p` occurs, or -1. */
  function IndexOf(s: string, p: string): (r: int)
    ensures -1 <= r
    ensures r >= 0 ==> Occurs(s, p, r)
    ensures forall j :: (r < 0 || j < r) ==> !Occurs(s, p, j)
  {
    SearchFrom(s, p, 0)
  }

  /** String.indexOf(p, from): a negative `from` counts as 0 and one past the
      end as the end. */
  function IndexOfFrom(s: string, p: string, from: int): (r: int)
    ensures r == -1 || (Occurs(s, p, r) && (from <= r || r == |s|))
    ensures forall j :: from <= j && (r == -1 || j < r) ==> !Occurs(s, p, j)
  {
    SearchFrom(s, p, if from < 0 then 0 else if from > |s| then |s| else from)
  }

  /** The last occurrence of `p` in `s` at or before `k`, or -1. */
  function SearchBack(s: string, p: string, k: int): (r: int)
    ensures r == -1 || (r <= k && Occurs(s, p, r))
    ensures forall j :: j <= k && r < j ==> !Occurs(s, p, j)
    decreases k + 1
  {
    if k < 0 then -1
    else if Occurs(s, p, k) then k
    else SearchBack(s, p, k - 1)
  }

  /** String.lastIndexOf(p): the last index at which `p` occurs, or -1. */
  function LastIndexOf(s: string, p: string): (r: int)
    ensures -1 <= r
    ensures r >= 0 ==> Occurs(s, p, r)
    ensures forall j :: r < j ==> !Occurs(s, p, j)
  {
    SearchBack(s, p, |s| - |p|)
  }

  /** String.contains(p), which Java defines as indexOf(p) >= 0. */
  predicate Contains(s: string, p: string)
    ensures Contains(s, p) <==> exists k :: Occurs(s, p, k)
  {
    IndexOf(s, p) >= 0
  }

  /** String.substring(b, e). */
  function Substring(s: string, b: int, e: int): (r: Result<string, Fault>)
    ensures r.Ok? <==> 0 <= b <= e <= |s|
    ensures r.Ok? ==> |r.value| == e - b && forall i :: 0 <= i < e - b ==> r.value[i] == s[b + i]
    ensures r.Err? ==> r.error == StringIndexOutOfBounds
  {
    if 0 <= b <= e <= |s| then Ok(s[b..e]) else Err(StringIndexOutOfBounds)
  }

  /** String.substring(b): everything from index `b` on. */
  function SubstringFrom(s: string, b: int): (r: Result<string, Fault>)
    ensures r.Ok? <==> 0 <= b <= |s|
    ensures r.Ok? ==> r.value == s[b..]
  {
    Substring(s, b, |s|)
  }

  /** String.charAt(i). */
  function CharAt(s: string, i: int): (r: Result<char, Fault>)
    ensures r.Ok? <==> 0 <= i < |s|
    ensures r.Ok? ==> r.value == s[i]
  {
    if 0 <= i < |s| then Ok(s[i]) else Err(StringIndexOutOfBounds)
  }

  /** Character.isWhitespace: the Unicode space, line and paragraph
      separators other than the no-break spaces, and the ASCII controls
      tab, line feed, vertical tab, form feed, carriage return and the four
      information separators. */
  predicate IsWhitespace(c: char) {
    || c == ' ' || '\t' <= c <= '\r' || '\U{1C}' <= c <= '\U{1F}'
    || c == '\U{1680}' || '\U{2000}' <= c <= '\U{2006}' || '\U{2008}' <= c <= '\U{200A}'
    || c == '\U{2028}' || c == '\U{2029}' || c == '\U{205F}' || c == '\U{3000}'
  }

  /** String.isBlank: empty, or whitespace only. */
  predicate IsBlank(s: string) {
    forall i :: 0 <= i < |s| ==> IsWhitespace(s[i])
  }

  // ---------------------------------------------------------------------
  // Facts about occurrences in assembled text

  /** A pattern with a character that the text lacks does not occur in it. */
  lemma {:induction false} MissingCharNotContained(s: string, p: string, i: int)
    requires 0 <= i < |p| && p[i] !in s
    ensures !Contains(s, p)
  {
    forall k | Occurs(s, p, k)
      ensures false
    {
    }
  }

  /** An occurrence inside a part is an occurrence inside the whole. */
  lemma OccursInConcat(a: string, b: string, p: string, k: int)
    ensures Occurs(a, p, k) ==> Occurs(a + b, p, k)
    ensures Occurs(b, p, k) ==> Occurs(a + b, p, |a| + k)
  {
    if Occurs(a, p, k) {
      assert (a + b)[k..k + |p|] == a[k..k + |p|];
    }
    if Occurs(b, p, k) {
      assert (a + b)[|a| + k..|a| + k + |p|] == b[k..k + |p|];
    }
  }

  /** An occurrence that straddles the character `c` placed between two
      texts has `c` inside the pattern. */
  lemma StraddlingOccurrenceHoldsSeparator(a: string, c: char, b: string, p: string, k: int)
    requires Occurs(a + [c] + b, p, k)
    requires k <= |a| < k + |p|
    ensures c in p
  {
    assert p[|a| - k] == (a + [c] + b)[k..k + |p|][|a| - k];
  }

  /** A pattern free of the character `c` cannot straddle a `c` placed
      between two texts: each occurrence lies inside one of them. */
  lemma {:induction false} OccursAroundSeparator(a: string, c: char, b: string, p: string, k: int)
    requires c !in p
    requires Occurs(a + [c] + b, p, k)
    ensures Occurs(a, p, k) || Occurs(b, p, k - |a| - 1)
  {
    var s := a + [c] + b;
    if k + |p| <= |a| {
      assert s[k..k + |p|] == a[k..k + |p|];
    } else if k >= |a| + 1 {
      assert s[k..k + |p|] == b[k - |a| - 1..k - |a| - 1 + |p|];
    } else {
      StraddlingOccurrenceHoldsSeparator(a, c, b, p, k);
      assert false;
    }
  }

  /** Joining two texts that lack `p` with a character that `p` lacks
      yields a text that lacks `p`. */
  lemma {:induction false} NotContainedAroundSeparator(a: string, c: char, b: string, p: string)
    requires c !in p
    requires !Contains(a, p) && !Contains(b, p)
    ensures !Contains(a + [c] + b, p)
  {
    forall k | Occurs(a + [c] + b, p, k)
      ensures false
    {
      OccursAroundSeparator(a, c, b, p, k);
    }
  }

  /** `p` placed right after a `c` that follows a `p`-free text is the first
      occurrence of `p`. */
  lemma {:induction false} FirstOccurrenceAfterSeparator(a: string, c: char, p: string, rest: string)
    requires c !in p
    requires !Contains(a, p)
    ensures IndexOf(a + [c] + p + rest, p) == |a| + 1
  {
    var s := a + [c] + p + rest;
    assert s == a + [c] + (p + rest);
    assert s[|a| + 1..|a| + 1 + |p|] == p;
    assert Occurs(s, p, |a| + 1);
    forall k | 0 <= k < |a| + 1 && Occurs(s, p, k)
      ensures false
    {
      OccursAroundSeparator(a, c, p + rest, p, k);
    }
    var r := IndexOf(s, p);
    assert r >= 0;
    assert !(r < |a| + 1);
  }

  /** The text before the first occurrence of `p` does not contain `p`. */
  lemma PrefixBeforeFirstOccurrence(s: string, p: string, i: int)
    requires |p| > 0 && 0 <= i <= |s|
    requires forall j :: j < i ==> !Occurs(s, p, j)
    ensures !Contains(s[..i], p)
  {
    forall k | Occurs(s[..i], p, k)
      ensures Occurs(s, p, k)
    {
      assert s[..i][k..k + |p|] == s[k..k + |p|];
    }
  }

  /** A slice in which no occurrence of `p` starts does not contain `p`. */
  lemma SliceWithout(s: string, p: string, lo: int, hi: int)
    requires |p| > 0 && 0 <= lo <= hi <= |s|
    requires forall j :: lo <= j < hi ==> !Occurs(s, p, j)
    ensures !Contains(s[lo..hi], p)
  {
    forall k | Occurs(s[lo..hi], p, k)
      ensures Occurs(s, p, lo + k)
    {
      forall i | 0 <= i < |p|
        ensures s[lo + k + i] == p[i]
      {
        assert s[lo..hi][k..k + |p|][i] == p[i];
      }
      assert s[lo + k..lo + k + |p|] == p;
    }
  }

  /** Character.isWhitespace: the ASCII controls tab to carriage return and
      the four information separators count, and so do the Unicode space,
      line and paragraph separators except the three no-break spaces. */
  lemma WhitespaceSet()
    ensures IsWhitespace(' ') && IsWhitespace('\t') && IsWhitespace('\n') && IsWhitespace('\r')
    ensures IsWhitespace('\U{3000}') && IsWhitespace('\U{2028}')
    ensures !IsWhitespace('\U{A0}') && !IsWhitespace('\U{2007}') && !IsWhitespace('\U{202F}')
    ensures forall c :: 'a' <= c <= 'z' || 'A' <= c <= 'Z' || '0' <= c <= '9' ==> !IsWhitespace(c)
  {
  }

  /** A text is blank exactly when both its parts are; the empty text is
      blank, and a text with any non-whitespace character is not. */
  lemma BlankConcat(a: string, b: string)
    ensures IsBlank([])
    ensures IsBlank(a + b) <==> IsBlank(a) && IsBlank(b)
    ensures forall i :: 0 <= i < |a| && !IsWhitespace(a[i]) ==> !IsBlank(a)
  {
    if IsBlank(a) && IsBlank(b) {
      forall i | 0 <= i < |a + b|
        ensures IsWhitespace((a + b)[i])
      {
        if i >= |a| {
          assert (a + b)[i] == b[i - |a|];
        }
      }
    }
    if IsBlank(a + b) {
      forall i | 0 <= i < |a|
        ensures IsWhitespace(a[i])
      {
        assert a[i] == (a + b)[i];
      }
      forall i | 0 <= i < |b|
        ensures IsWhitespace(b[i])
      {
        assert b[i] == (a + b)[|a| + i];
      }
    }
  }

  /** A one-character pattern occurs exactly where that character does. */
  lemma SingleCharContains(s: string, c: char)
    ensures Contains(s, [c]) <==> c in s
  {
    if c in s {
      var k :| 0 <= k < |s| && s[k] == c;
      assert s[k..k + 1] == [c];
      assert Occurs(s, [c], k);
    }
    if Contains(s, [c]) {
      var k :| Occurs(s, [c], k);
      assert s[k..k + 1][0] == s[k];
    }
  }
}
