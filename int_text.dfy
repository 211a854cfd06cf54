/** Decimal text of a 32-bit integer, as `int.ToString()` writes it and
    `int.Parse` reads it back (invariant culture, default number style). */
module IntText {
  import opened Base

  predicate IsDigit(c: char) { '0' <= c <= '9' }

  predicate AllDigits(s: string) { forall i :: 0 <= i < |s| ==> IsDigit(s[i]) }

  function DigitChar(d: nat): (c: char)
    requires d < 10
    ensures IsDigit(c)
  {
    ('0' as int + d) as char
  }

  function DigitValue(c: char): (d: nat)
    requires IsDigit(c)
    ensures d < 10
  {
    c as int - '0' as int
  }

  /** The decimal digits of `n`, most significant first, with no leading zero. */
  function NatToDigits(n: nat): (s: string)
    ensures |s| >= 1 && AllDigits(s)
    ensures s[0] == '0' ==> n == 0
    decreases n
  {
    if n < 10 then [DigitChar(n)] else NatToDigits(n / 10) + [DigitChar(n % 10)]
  }

  /** The number a string of digits denotes, read most significant first. */
  function DigitsValue(s: string): nat
    requires AllDigits(s)
    decreases |s|
  {
    if s == [] then 0 else DigitsValue(s[..|s| - 1]) * 10 + DigitValue(s[|s| - 1])
  }

  /** Reading back the digits of `n` gives `n`. */
  lemma {:induction false} DigitsValueOfDigits(n: nat)
    ensures DigitsValue(NatToDigits(n)) == n
  {
    if n >= 10 {
      var s := NatToDigits(n);
      assert s[..|s| - 1] == NatToDigits(n / 10);
      DigitsValueOfDigits(n / 10);
    }
  }

  /** `int.ToString()`: a minus sign for negative values, then the digits of the magnitude. */
  function Int32ToString(n: int32): (s: string)
    ensures |s| >= 1 && (s[0] == '-' <==> n < 0)
    ensures AllDigits(if n < 0 then s[1..] else s)
    ensures |s| >= 2 && s[0] == '-' ==> s[1] != '0'
  {
    if n < 0 then "-" + NatToDigits(-(n as int)) else NatToDigits(n as int)
  }

  /** The white space that the default integer style skips at either end. */
  predicate IsWhite(c: char) { c == ' ' || '\t' <= c <= '\r' }

  /** `s` without its leading white space. */
  function TrimStart(s: string): (r: string)
    ensures |r| <= |s| && r == s[|s| - |r|..]
    ensures r == [] || !IsWhite(r[0])
    ensures forall i :: 0 <= i < |s| - |r| ==> IsWhite(s[i])
    decreases |s|
  {
    if s != [] && IsWhite(s[0]) then TrimStart(s[1..]) else s
  }

  /** `s` without its trailing white space. */
  function TrimEnd(s: string): (r: string)
    ensures |r| <= |s| && r == s[..|r|]
    ensures r == [] || !IsWhite(r[|r| - 1])
    ensures forall i :: |r| <= i < |s| ==> IsWhite(s[i])
    decreases |s|
  {
    if s != [] && IsWhite(s[|s| - 1]) then TrimEnd(s[..|s| - 1]) else s
  }

  /** `int.Parse(s)`: surrounding white space, one optional sign, then at least one
      digit, and a value in the 32-bit range. `None` stands for the FormatException
      or OverflowException the parser throws otherwise. */
  function ParseInt32(s: string): (r: Option<int32>)
  {
    var t := TrimEnd(TrimStart(s));
    var negative := t != [] && t[0] == '-';
    var body := if t != [] && (t[0] == '-' || t[0] == '+') then t[1..] else t;
    if body == [] || !AllDigits(body) then None
    else
      var v: int := if negative then -(DigitsValue(body) as int) else DigitsValue(body);
      if Int32Min <= v <= Int32Max then Some(v as int32) else None
  }

  /** `int.Parse(n.ToString()) == n` for every 32-bit `n`. */
  lemma ParseOfToString(n: int32)
    ensures ParseInt32(Int32ToString(n)) == Some(n)
  {
    var s := Int32ToString(n);
    var m := if n < 0 then -(n as int) else n as int;
    var d := NatToDigits(m);
    DigitsValueOfDigits(m);
    assert TrimStart(s) == s;
    assert TrimEnd(s) == s;
    if n < 0 {
      assert s[1..] == d;
    }
  }

  /** A plain string of digits parses exactly when its value fits in 32 bits, and then
      to that value. */
  lemma ParseOfDigits(s: string)
    requires s != [] && AllDigits(s)
    ensures ParseInt32(s).Some? <==> DigitsValue(s) <= Int32Max
    ensures ParseInt32(s).Some? ==> ParseInt32(s).value as int == DigitsValue(s)
  {
    assert TrimStart(s) == s;
    assert TrimEnd(s) == s;
  }

  /** A string with no digit in it never parses. */
  lemma ParseNeedsADigit(s: string)
    requires forall i :: 0 <= i < |s| ==> !IsDigit(s[i])
    ensures ParseInt32(s) == None
  {
    var t := TrimEnd(TrimStart(s));
    var u := TrimStart(s);
    if t != [] {
      assert t[0] == u[0] == s[|s| - |u|];
      if |t| > 1 {
        assert t[1] == u[1] == s[|s| - |u| + 1];
      }
    }
  }
}
