/** Java `int` behaviour the command parser depends on: Integer.parseInt
    and the 32-bit two's-complement wrap-around of `int` subtraction. */
module JavaInt {
  import opened Results
  import opened JavaString

  const MinInt: int := -0x8000_0000
  const MaxInt: int := 0x7FFF_FFFF

  predicate InIntRange(x: int) {
    MinInt <= x <= MaxInt
  }

  /** The value a Java `int` holds after an arithmetic result `x` wraps
      around modulo 2^32. */
  function Wrap32(x: int): (r: int)
    ensures InIntRange(r)
    ensures (x - r) % 0x1_0000_0000 == 0
    ensures InIntRange(x) ==> r == x
  {
    (x - MinInt) % 0x1_0000_0000 + MinInt
  }

  predicate IsDigit(c: char) {
    '0' <= c <= '9'
  }

  predicate AllDigits(s: string) {
    forall i :: 0 <= i < |s| ==> IsDigit(s[i])
  }

  /** The decimal value of a run of digits, most significant first. */
  function DigitsValue(ds: string): nat
    requires AllDigits(ds)
    decreases |ds|
  {
    if |ds| == 0 then 0
    else 10 * DigitsValue(ds[..|ds| - 1]) + (ds[|ds| - 1] as int - '0' as int)
  }

  /** Integer.parseInt(s) in base 10: an optional leading '-' or '+', then
      at least one digit, and a value that fits an `int`; anything else
      throws NumberFormatException. */
  function ParseInt(s: string): (r: Result<int, Fault>)
    ensures r.Err? ==> r.error == NumberFormat
    ensures r.Ok? ==> InIntRange(r.value)
    ensures r.Ok? ==> |s| > 0 && forall i :: 0 < i < |s| ==> IsDigit(s[i])
    ensures r.Ok? && !IsDigit(s[0]) ==> |s| > 1 && (s[0] == '-' || s[0] == '+')
    ensures r.Ok? && s[0] != '-' ==> r.value >= 0
  {
    var signed := |s| > 0 && (s[0] == '-' || s[0] == '+');
    var digits := if signed then s[1..] else s;
    if |digits| == 0 || !AllDigits(digits) then Err(NumberFormat)
    else
      var magnitude: int := DigitsValue(digits);
      var v: int := if |s| > 0 && s[0] == '-' then -magnitude else magnitude;
      if InIntRange(v) then Ok(v) else Err(NumberFormat)
  }

  /** parseInt reads every run of digits, bare or after `+` or `-`, as its
      decimal value with that sign exactly when the value fits an `int`,
      and throws otherwise; leading zeros are allowed. */
  lemma ParseIntDigits(ds: string)
    requires |ds| > 0 && AllDigits(ds)
    ensures var v: int := DigitsValue(ds);
      && ParseInt(ds) == (if InIntRange(v) then Ok(v) else Err(NumberFormat))
      && ParseInt("+" + ds) == (if InIntRange(v) then Ok(v) else Err(NumberFormat))
      && ParseInt("-" + ds) == (if InIntRange(-v) then Ok(-v) else Err(NumberFormat))
  {
    ParseIntBare(ds);
    ParseIntSigned(ds, '+');
    ParseIntSigned(ds, '-');
  }

  /** A bare run of digits carries no sign. */
  lemma ParseIntBare(ds: string)
    requires |ds| > 0 && AllDigits(ds)
    ensures var v: int := DigitsValue(ds);
      ParseInt(ds) == (if InIntRange(v) then Ok(v) else Err(NumberFormat))
  {
    assert IsDigit(ds[0]);
  }

  /** A sign character followed by a run of digits. */
  lemma ParseIntSigned(ds: string, sign: char)
    requires |ds| > 0 && AllDigits(ds) && (sign == '+' || sign == '-')
    ensures var m: int := DigitsValue(ds); var v := if sign == '-' then -m else m;
      ParseInt([sign] + ds) == (if InIntRange(v) then Ok(v) else Err(NumberFormat))
  {
    assert ([sign] + ds)[1..] == ds;
  }

  function DigitChar(d: int): (c: char)
    requires 0 <= d < 10
  {
    ('0' as int + d) as char
  }

  /** The decimal spelling of a natural number, without leading zeros. */
  function NatDigits(n: nat): (r: string)
    ensures |r| > 0 && AllDigits(r)
    ensures DigitsValue(r) == n
    ensures r[0] == '0' ==> n == 0
    decreases n
  {
    if n < 10 then [DigitChar(n)]
    else
      var front := NatDigits(n / 10);
      var r := front + [DigitChar(n % 10)];
      assert r[..|r| - 1] == front;
      r
  }

  /** Integer.toString(n): the spelling of an `int` that parseInt reads back. */
  function IntToString(n: int): (r: string)
  {
    if n < 0 then "-" + NatDigits(-n) else NatDigits(n)
  }

  /** parseInt undoes toString on every `int`. */
  lemma ParseIntToString(n: int)
    requires InIntRange(n)
    ensures ParseInt(IntToString(n)) == Ok(n)
  {
    var s := IntToString(n);
    if n < 0 {
      assert s[1..] == NatDigits(-n);
    }
  }
}
