/** `increaseVersionNumber` (src/UpdatePage.ts:151-153):
    `(parseInt(versionNumber, 10) + 1).toString()` on decimal strings. */
module VersionNumbers {
  import opened Wrappers
  import opened JsStrings

  predicate IsDigit(c: char) {
    '0' <= c <= '9'
  }

  predicate AllDigits(s: string) {
    forall i :: 0 <= i < |s| ==> IsDigit(s[i])
  }

  function DigitValue(c: char): nat
    requires IsDigit(c)
  {
    c as int - '0' as int
  }

  function DigitChar(d: nat): (c: char)
    requires d < 10
    ensures IsDigit(c) && DigitValue(c) == d
  {
    ('0' as int + d) as char
  }

  /** The decimal representation of a natural number, as `toString` writes it. */
  function Decimal(n: nat): (s: string)
    ensures |s| > 0 && IsDigit(s[0])
    decreases n
  {
    if n < 10 then [DigitChar(n)] else Decimal(n / 10) + [DigitChar(n % 10)]
  }

  lemma {:induction false} DecimalIsDigits(n: nat)
    ensures AllDigits(Decimal(n))
    decreases n
  {
    if n >= 10 {
      DecimalIsDigits(n / 10);
    }
  }

  /** `Number.prototype.toString()` of an integer. */
  function IntToString(n: int): string {
    if n < 0 then "-" + Decimal(-n) else Decimal(n)
  }

  /** The value of a run of decimal digits. */
  function DigitsValue(s: string): nat
    requires AllDigits(s)
  {
    if |s| == 0 then 0 else DigitsValue(s[..|s| - 1]) * 10 + DigitValue(s[|s| - 1])
  }

  /** The length of the leading run of decimal digits. */
  function DigitRun(s: string): (k: nat)
    ensures k <= |s| && AllDigits(s[..k])
    ensures k == |s| || !IsDigit(s[k])
    decreases |s|
  {
    if |s| > 0 && IsDigit(s[0]) then
      var k := 1 + DigitRun(s[1..]);
      assert s[..k] == [s[0]] + s[1..][..k - 1];
      k
    else 0
  }

  /** The number an unsigned run of leading digits spells, if there is one. */
  function ReadDigits(u: string): Option<nat> {
    var k := DigitRun(u);
    if k == 0 then None else Some(DigitsValue(u[..k]))
  }

  /** `parseInt(s, 10)`: leading whitespace is skipped, one sign is accepted,
      then the longest run of digits is read; `None` is `NaN`. */
  function ParseInt(s: string): Option<int> {
    var t := s[LeadingSpace(s)..];
    var signed := |t| > 0 && (t[0] == '-' || t[0] == '+');
    var m := ReadDigits(if signed then t[1..] else t);
    if m.None? then None
    else if signed && t[0] == '-' then Some(-(m.value as int))
    else Some(m.value as int)
  }

  /** `increaseVersionNumber(v)`: the string of one more than `v`'s value, or
      `"NaN"` when `v` does not start with a number. */
  function IncreaseVersionNumber(v: string): (r: string)
    ensures ParseInt(v).None? ==> r == "NaN"
    ensures ParseInt(v).Some? ==> ParseInt(r) == Some(ParseInt(v).value + 1)
  {
    match ParseInt(v)
    case None => "NaN"
    case Some(n) =>
      ParseIntString(n + 1);
      IntToString(n + 1)
  }

  lemma {:induction false} DigitsValueOfDecimal(n: nat)
    ensures AllDigits(Decimal(n)) && DigitsValue(Decimal(n)) == n
    decreases n
  {
    DecimalIsDigits(n);
    if n >= 10 {
      DigitsValueOfDecimal(n / 10);
      var s := Decimal(n);
      assert s[..|s| - 1] == Decimal(n / 10);
    }
  }

  lemma DigitRunOfDigits(s: string)
    requires AllDigits(s)
    ensures DigitRun(s) == |s|
  {
  }

  /** Reading back a written number gives the number. */
  lemma ParseIntString(n: int)
    ensures ParseInt(IntToString(n)) == Some(n)
  {
    if n < 0 {
      var d := Decimal(-n);
      assert ReadDigits(d) == Some(-n) by {
        DigitsValueOfDecimal(-n);
        ReadAllDigits(d);
      }
      ParseMinus(d);
    } else {
      DigitsValueOfDecimal(n);
      ParseDigits(Decimal(n));
    }
  }

  lemma ReadAllDigits(d: string)
    requires |d| > 0 && AllDigits(d)
    ensures ReadDigits(d) == Some(DigitsValue(d))
  {
    DigitRunOfDigits(d);
    assert d[..|d|] == d;
  }

  /** Text that starts with neither whitespace nor a sign is read as it is. */
  lemma ParseUnsigned(s: string)
    requires |s| > 0 && !IsJsSpace(s[0]) && s[0] != '-' && s[0] != '+'
    ensures ParseInt(s) == ReadDigits(s)
  {
    assert LeadingSpace(s) == 0;
    assert s[0..] == s;
  }

  lemma ParseDigits(d: string)
    requires |d| > 0 && AllDigits(d)
    ensures ParseInt(d) == Some(DigitsValue(d))
  {
    ParseUnsigned(d);
    ReadAllDigits(d);
  }

  /** A minus sign negates what the digits after it spell. */
  lemma ParseMinus(d: string)
    ensures ReadDigits(d).None? ==> ParseInt("-" + d).None?
    ensures ReadDigits(d).Some? ==> ParseInt("-" + d) == Some(-(ReadDigits(d).value as int))
  {
    var s := "-" + d;
    assert s[0] == '-' && !IsJsSpace(s[0]);
    assert LeadingSpace(s) == 0;
    assert s[0..] == s;
    assert s[1..] == d;
  }

  /** The version bump maps the decimal string of `n` to that of `n + 1`. */
  lemma IncreaseDecimal(n: nat)
    ensures IncreaseVersionNumber(Decimal(n)) == Decimal(n + 1)
  {
    ParseIntString(n);
  }

  /** A version string that does not start with a number becomes "NaN". */
  lemma IncreaseNonNumber(v: string)
    requires |v| > 0 && !IsJsSpace(v[0]) && !IsDigit(v[0]) && v[0] != '-' && v[0] != '+'
    ensures IncreaseVersionNumber(v) == "NaN"
  {
  }
}
