/** toBengaliNumber: the decimal text of an integer with every ASCII digit
    replaced by the Bengali digit of the same value (U+09E6 to U+09EF) and
    every other character, such as the minus sign, left as it is. */
module Numerals {

  predicate IsAsciiDigit(c: char) {
    '0' <= c <= '9'
  }

  predicate IsBengaliDigit(c: char) {
    '\U{09E6}' <= c <= '\U{09EF}'
  }

  /** The ASCII digit of a value 0..9. */
  function AsciiDigit(v: int): (c: char)
    requires 0 <= v < 10
    ensures IsAsciiDigit(c) && c as int - '0' as int == v
  {
    ('0' as int + v) as char
  }

  /** One character through the digit table: a digit indexes the table, and
      anything else (the table lookup gives undefined) stays as it is. */
  function ToBengaliChar(c: char): (b: char)
    ensures IsAsciiDigit(c) ==> IsBengaliDigit(b) && b as int - 0x09E6 == c as int - '0' as int
    ensures !IsAsciiDigit(c) ==> b == c
  {
    if IsAsciiDigit(c) then (c as int - '0' as int + 0x09E6) as char else c
  }

  /** The reverse table: a Bengali digit back to its ASCII digit. */
  function FromBengaliChar(c: char): (a: char)
    ensures IsBengaliDigit(c) ==> IsAsciiDigit(a) && a as int - '0' as int == c as int - 0x09E6
    ensures !IsBengaliDigit(c) ==> a == c
  {
    if IsBengaliDigit(c) then (c as int - 0x09E6 + '0' as int) as char else c
  }

  /** The split / map / join over the characters of a string. */
  function ToBengaliDigits(s: string): (r: string)
    ensures |r| == |s|
    ensures forall i :: 0 <= i < |s| ==> r[i] == ToBengaliChar(s[i])
  {
    if s == [] then [] else ToBengaliDigits(s[..|s| - 1]) + [ToBengaliChar(s[|s| - 1])]
  }

  function FromBengaliDigits(s: string): (r: string)
    ensures |r| == |s|
    ensures forall i :: 0 <= i < |s| ==> r[i] == FromBengaliChar(s[i])
  {
    if s == [] then [] else FromBengaliDigits(s[..|s| - 1]) + [FromBengaliChar(s[|s| - 1])]
  }

  /** A character that is not a Bengali digit survives the replacement and
      its reverse. */
  lemma BengaliCharRoundTrip(c: char)
    requires !IsBengaliDigit(c)
    ensures FromBengaliChar(ToBengaliChar(c)) == c
  {
    if IsAsciiDigit(c) {
      var b := ToBengaliChar(c);
      assert FromBengaliChar(b) as int == c as int;
    }
  }

  /** A string with no Bengali digit in it comes back unchanged from the
      digit replacement and its reverse. */
  lemma BengaliDigitsRoundTrip(s: string)
    requires forall i :: 0 <= i < |s| ==> !IsBengaliDigit(s[i])
    ensures FromBengaliDigits(ToBengaliDigits(s)) == s
  {
    var t := ToBengaliDigits(s);
    var r := FromBengaliDigits(t);
    forall i | 0 <= i < |s|
      ensures r[i] == s[i]
    {
      BengaliCharRoundTrip(s[i]);
    }
    assert |r| == |s|;
  }

  /** Decimal digits of a natural number, most significant first, with no
      leading zero: what String gives for a non-negative integer below
      10^21. */
  function Digits(n: nat): (s: string)
    ensures |s| >= 1
    ensures forall i :: 0 <= i < |s| ==> IsAsciiDigit(s[i])
    ensures n > 0 ==> s[0] != '0'
    decreases n
  {
    if n < 10 then [AsciiDigit(n)] else Digits(n / 10) + [AsciiDigit(n % 10)]
  }

  /** String(num) for an integer num: a minus sign before the digits of a
      negative number. */
  function DecimalString(n: int): (s: string)
    ensures n < 0 ==> s == ['-'] + Digits(-n)
    ensures n >= 0 ==> s == Digits(n)
    ensures forall i :: 0 <= i < |s| ==> s[i] == '-' || IsAsciiDigit(s[i])
  {
    if n < 0 then ['-'] + Digits(-n) else Digits(n)
  }

  /** The value of a string of ASCII digits, most significant first. */
  function DigitsValue(s: string): (v: int)
    requires forall i :: 0 <= i < |s| ==> IsAsciiDigit(s[i])
    ensures v >= 0
  {
    if s == [] then 0
    else
      assert IsAsciiDigit(s[|s| - 1]);
      DigitsValue(s[..|s| - 1]) * 10 + (s[|s| - 1] as int - '0' as int)
  }

  /** Reading an integer's decimal text: an optional minus sign, then digits. */
  function ParseDecimal(s: string): (n: int)
    requires |s| >= 1
    requires s[0] == '-' ==> forall i :: 1 <= i < |s| ==> IsAsciiDigit(s[i])
    requires s[0] != '-' ==> forall i :: 0 <= i < |s| ==> IsAsciiDigit(s[i])
  {
    if s[0] == '-' then -DigitsValue(s[1..]) else DigitsValue(s)
  }

  /** The digits of n read back as n. */
  lemma {:induction false} DigitsValueOfDigits(n: nat)
    ensures DigitsValue(Digits(n)) == n
    decreases n
  {
    var s := Digits(n);
    if n >= 10 {
      assert s[..|s| - 1] == Digits(n / 10);
      DigitsValueOfDigits(n / 10);
    }
  }

  /** The decimal text of n is read back as n. */
  lemma DecimalRoundTrip(n: int)
    ensures ParseDecimal(DecimalString(n)) == n
  {
    var s := DecimalString(n);
    if n < 0 {
      assert s[1..] == Digits(-n);
      DigitsValueOfDigits(-n);
    } else {
      DigitsValueOfDigits(n);
    }
  }

  /** toBengaliNumber on an integer. */
  function ToBengaliNumber(n: int): (r: string)
    ensures |r| == |DecimalString(n)|
    ensures r[0] == '-' <==> n < 0
    ensures forall i :: (if n < 0 then 1 else 0) <= i < |r| ==> IsBengaliDigit(r[i])
  {
    ToBengaliDigits(DecimalString(n))
  }

  /** The Bengali text gives the number back: the minus sign is kept and
      each Bengali digit stands for the ASCII digit of the same value. */
  lemma ToBengaliNumberRoundTrip(n: int)
    ensures FromBengaliDigits(ToBengaliNumber(n)) == DecimalString(n)
    ensures ParseDecimal(FromBengaliDigits(ToBengaliNumber(n))) == n
  {
    BengaliDigitsRoundTrip(DecimalString(n));
    DecimalRoundTrip(n);
  }

  /** Different numbers are written differently. */
  lemma ToBengaliNumberInjective(a: int, b: int)
    requires ToBengaliNumber(a) == ToBengaliNumber(b)
    ensures a == b
  {
    ToBengaliNumberRoundTrip(a);
    ToBengaliNumberRoundTrip(b);
  }

  /** The year 1431 is written with the Bengali digits one, four, three and
      one. */
  lemma ToBengaliNumberExample()
    ensures ToBengaliNumber(1431) == "\U{09E7}\U{09EA}\U{09E9}\U{09E7}"
  {
    var s := DecimalString(1431);
    assert s == "1431";
    var r := ToBengaliDigits(s);
    assert r[0] == ToBengaliChar('1') && r[1] == ToBengaliChar('4');
    assert r[2] == ToBengaliChar('3') && r[3] == ToBengaliChar('1');
  }

  /** The minus sign is kept: -7 is written minus, Bengali seven. */
  lemma ToBengaliNumberNegativeExample()
    ensures ToBengaliNumber(-7) == "-\U{09ED}"
  {
    assert DecimalString(-7) == "-7";
  }
}
