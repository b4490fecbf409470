/** Integers to decimal text and back, as std::to_string, std::stoll and std::stoi do it: rows of the
  * database hold numbers as text. Exceptions of the parsers are `None`. */
module Decimal {
  import opened Wrappers

  predicate IsDigit(ch: char) {
    '0' <= ch <= '9'
  }

  predicate IsSpace(ch: char) {
    ch == ' ' || '\t' <= ch <= '\r'
  }

  function DigitValue(ch: char): nat
    requires IsDigit(ch)
  {
    ch as int - '0' as int
  }

  function Digit(d: nat): char
    requires d < 10
  {
    ('0' as int + d) as char
  }

  function Digits(n: nat): (s: string)
    ensures |s| > 0
    ensures forall i | 0 <= i < |s| :: IsDigit(s[i])
  {
    (if n < 10 then "" else Digits(n / 10)) + [Digit(n % 10)]
  }

  function ToString(n: int): string {
    if n < 0 then "-" + Digits(-n) else Digits(n)
  }

  /** The number of digits in front of the first other character. */
  function LeadingDigits(s: string): (n: nat)
    ensures n <= |s|
    ensures forall i | 0 <= i < n :: IsDigit(s[i])
  {
    if |s| == 0 || !IsDigit(s[0]) then 0 else 1 + LeadingDigits(s[1..])
  }

  function Value(s: string): nat
    requires forall i | 0 <= i < |s| :: IsDigit(s[i])
  {
    if |s| == 0 then 0 else Value(s[..|s| - 1]) * 10 + DigitValue(s[|s| - 1])
  }

  function SkipSpaces(s: string): string {
    if |s| > 0 && IsSpace(s[0]) then SkipSpaces(s[1..]) else s
  }

  /** Leading spaces, an optional sign, then as many digits as there are; what follows is ignored. */
  function Parse(s: string): Option<int> {
    var text := SkipSpaces(s);
    var signed := |text| > 0 && (text[0] == '-' || text[0] == '+');
    var rest := if signed then text[1..] else text;
    var n := LeadingDigits(rest);
    if n == 0 then None
    else
      var magnitude: int := Value(rest[..n]);
      Some(if signed && text[0] == '-' then -magnitude else magnitude)
  }

  predicate FitsInt64(n: int) {
    -0x8000_0000_0000_0000 <= n < 0x8000_0000_0000_0000
  }

  predicate FitsInt32(n: int) {
    -0x8000_0000 <= n < 0x8000_0000
  }

  function Stoll(s: string): Option<int> {
    match Parse(s)
    case None => None
    case Some(n) => if FitsInt64(n) then Some(n) else None
  }

  function Stoi(s: string): Option<int> {
    match Parse(s)
    case None => None
    case Some(n) => if FitsInt32(n) then Some(n) else None
  }

  lemma {:induction false} AllDigitsLead(s: string)
    requires forall i | 0 <= i < |s| :: IsDigit(s[i])
    ensures LeadingDigits(s) == |s|
  {
    if |s| > 0 {
      AllDigitsLead(s[1..]);
    }
  }

  lemma ValueOfOneMore(front: string, d: nat)
    requires d < 10 && forall i | 0 <= i < |front| :: IsDigit(front[i])
    ensures Value(front + [Digit(d)]) == Value(front) * 10 + d
  {
    var s := front + [Digit(d)];
    assert s[..|s| - 1] == front;
  }

  lemma {:induction false} DigitsHaveTheirValue(n: nat)
    ensures Value(Digits(n)) == n
  {
    hide Digit, Value;
    if n < 10 {
      ValueOfOneMore("", n);
      NoDigitsNoValue();
    } else {
      ValueOfOneMore(Digits(n / 10), n % 10);
      DigitsHaveTheirValue(n / 10);
    }
  }

  lemma NoDigitsNoValue()
    ensures Value("") == 0
  {
  }

  /** Printing a number and parsing the text gives it back, whatever its size and sign. */
  lemma ParseAfterToString(n: int)
    ensures Parse(ToString(n)) == Some(n)
  {
    var digits := Digits(if n < 0 then -n else n);
    AllDigitsLead(digits);
    DigitsHaveTheirValue(if n < 0 then -n else n);
    hide Digits, LeadingDigits, Value;
    assert digits[..|digits|] == digits;
    assert IsDigit(digits[0]) && digits[0] != '-' && digits[0] != '+';
    var text := ToString(n);
    assert !IsSpace(text[0]) && SkipSpaces(text) == text;
    if n < 0 {
      assert text[1..] == digits;
    }
  }

  /** The parsers of the standard library give a number back exactly when it fits their type. */
  lemma RoundTrip(n: int)
    ensures Stoll(ToString(n)) == if FitsInt64(n) then Some(n) else None
    ensures Stoi(ToString(n)) == if FitsInt32(n) then Some(n) else None
  {
    ParseAfterToString(n);
  }

  lemma ToStringIsInjective(m: int, n: int)
    requires ToString(m) == ToString(n)
    ensures m == n
  {
    ParseAfterToString(m);
    ParseAfterToString(n);
  }

  /** Printed numbers are over the ten digits in their order, with no zero in front of another digit. */
  lemma DigitsAreDecimal(d: nat, n: nat)
    requires d < 10
    ensures Digit(d) == "0123456789"[d]
    ensures |Digits(n)| > 1 ==> Digits(n)[0] != '0'
  {
    assert "0123456789"[d] as int == '0' as int + d;
    FirstDigit(n);
  }

  lemma {:induction false} FirstDigit(n: nat)
    ensures n > 0 ==> Digits(n)[0] != '0'
    ensures n < 10 ==> |Digits(n)| == 1
  {
    if n >= 10 {
      FirstDigit(n / 10);
    }
  }

  lemma {:induction false} LeadsUpTo(digits: string, rest: string)
    requires forall i | 0 <= i < |digits| :: IsDigit(digits[i])
    requires rest != "" ==> !('0' <= rest[0] <= '9')
    ensures LeadingDigits(digits + rest) == |digits|
  {
    if |digits| == 0 {
      assert digits + rest == rest;
    } else {
      assert (digits + rest)[1..] == digits[1..] + rest;
      LeadsUpTo(digits[1..], rest);
    }
  }

  lemma {:induction false} SkipsUpTo(spaces: string, rest: string)
    requires IsBlank(spaces)
    requires rest != "" ==> !IsSpace(rest[0])
    ensures SkipSpaces(spaces + rest) == rest
  {
    if |spaces| == 0 {
      assert spaces + rest == rest;
    } else {
      assert (spaces + rest)[1..] == spaces[1..] + rest;
      SkipsUpTo(spaces[1..], rest);
    }
  }

  lemma ParseSkips(spaces: string, text: string)
    requires IsBlank(spaces) && (text != "" ==> !IsSpace(text[0]))
    ensures Parse(spaces + text) == Parse(text)
  {
    hide LeadingDigits, Value;
    SkipsUpTo(spaces, text);
  }

  /** Where the digits stand in the text. */
  lemma CutNumber(sign: char, digits: string, rest: string)
    ensures ([sign] + (digits + rest))[1..] == digits + rest
    ensures (digits + rest)[..|digits|] == digits
  {
  }

  lemma NothingToSkip(text: string)
    requires text != "" ==> !IsSpace(text[0])
    ensures SkipSpaces(text) == text
  {
  }

  lemma ParseUnsigned(digits: string, rest: string)
    requires |digits| > 0 && forall i | 0 <= i < |digits| :: IsDigit(digits[i])
    requires rest != "" ==> !('0' <= rest[0] <= '9')
    ensures Parse(digits + rest) == Some(Value(digits))
  {
    hide LeadingDigits, Value, SkipSpaces;
    var text := digits + rest;
    LeadsUpTo(digits, rest);
    CutNumber('+', digits, rest);
    assert IsDigit(digits[0]) && text[0] == digits[0];
    NothingToSkip(text);
  }

  lemma ParseSigned(sign: char, digits: string, rest: string)
    requires (sign == '+' || sign == '-') && |digits| > 0 && forall i | 0 <= i < |digits| :: IsDigit(digits[i])
    requires rest != "" ==> !('0' <= rest[0] <= '9')
    ensures Parse([sign] + (digits + rest)) == Some(if sign == '-' then -(Value(digits) as int) else Value(digits))
  {
    hide LeadingDigits, Value, SkipSpaces;
    var text := [sign] + (digits + rest);
    LeadsUpTo(digits, rest);
    CutNumber(sign, digits, rest);
    assert text[0] == sign && !IsSpace(sign);
    NothingToSkip(text);
  }

  /** Blanks, tabs and the other characters that end lines and pages. */
  ghost predicate IsBlank(s: string) {
    forall i | 0 <= i < |s| :: s[i] in " \t\n\r" || s[i] as int == 11 || s[i] as int == 12
  }

  /** A number is read behind white space and up to the first character that is no digit; a plus sign in
    * front of it changes nothing, a minus sign negates it. */
  lemma ParseStopsAtTheRest(spaces: string, sign: string, n: nat, rest: string)
    requires IsBlank(spaces) && (sign == "" || sign == "+" || sign == "-")
    requires rest != "" ==> !('0' <= rest[0] <= '9')
    ensures Parse(spaces + sign + Digits(n) + rest) == Some(if sign == "-" then -(n as int) else n)
  {
    hide Digits, Parse, Value;
    var digits := Digits(n);
    DigitsHaveTheirValue(n);
    ParseUnsigned(digits, rest);
    assert IsDigit(digits[0]) && spaces + sign + digits + rest == spaces + (sign + (digits + rest));
    ParseSkips(spaces, sign + (digits + rest));
    if sign == "" {
      assert sign + (digits + rest) == digits + rest;
    } else {
      ParseSigned(sign[0], digits, rest);
    }
  }

  /** Without a digit there, behind at most one sign, nothing is read. */
  lemma NoDigitNoNumber(spaces: string, sign: string, rest: string)
    requires IsBlank(spaces)
    requires sign == "" || sign == "+" || sign == "-"
    requires rest != "" ==> !('0' <= rest[0] <= '9')
    requires rest != "" && sign == "" ==> !IsSpace(rest[0]) && rest[0] != '+' && rest[0] != '-'
    ensures Parse(spaces + sign + rest) == None
  {
    hide Value, SkipSpaces;
    assert spaces + sign + rest == spaces + (sign + rest);
    assert sign + rest == "" || sign + rest == rest || (sign + rest)[1..] == rest;
    SkipsUpTo(spaces, sign + rest);
  }
}
