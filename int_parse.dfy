/** Python's `int(text)` on base-10 text, and `str(n)` as its inverse.
    Only ASCII digits with an optional leading sign are modelled; digit
    group underscores and non-ASCII decimal digits are not. */
module IntParse {
  import opened Wrappers
  import opened Strings

  predicate IsDigit(c: char) {
    '0' <= c <= '9'
  }

  /** A non-empty run of ASCII digits. */
  predicate IsDigits(s: string) {
    |s| > 0 && forall i :: 0 <= i < |s| ==> IsDigit(s[i])
  }

  function DigitValue(c: char): (d: nat)
    requires IsDigit(c)
    ensures d < 10
  {
    (c - '0') as nat
  }

  function DigitChar(d: nat): (c: char)
    requires d < 10
    ensures IsDigit(c) && DigitValue(c) == d
  {
    ('0' as int + d) as char
  }

  /** The number a run of decimal digits denotes, most significant first
      (leading zeros allowed, as `int("007") == 7`). */
  function DigitsValue(s: string): nat
    requires forall i :: 0 <= i < |s| ==> IsDigit(s[i])
  {
    if |s| == 0 then 0 else DigitsValue(s[..|s| - 1]) * 10 + DigitValue(s[|s| - 1])
  }

  /** `int(s)` on text without surrounding whitespace: it succeeds exactly
      on an optional `+` or `-` followed by at least one digit, and only a
      `-` makes the result negative; anything else is the ValueError the
      source catches, here `None`. */
  function ParseInt(s: string): (r: Option<int>)
    ensures r.Some? <==> IsDigits(s) || (|s| > 0 && s[0] in "+-" && IsDigits(s[1..]))
    ensures r.Some? && r.value < 0 ==> s[0] == '-'
  {
    if |s| > 0 && (s[0] == '+' || s[0] == '-') then
      if IsDigits(s[1..]) then
        var n: int := DigitsValue(s[1..]);
        Some(if s[0] == '-' then -n else n)
      else None
    else if IsDigits(s) then Some(DigitsValue(s))
    else None
  }

  /** `str(n)` for a natural number: its shortest decimal digits. */
  function FormatNat(n: nat): (s: string)
    ensures IsDigits(s)
    ensures s[0] == '0' ==> n == 0
  {
    if n < 10 then [DigitChar(n)] else FormatNat(n / 10) + [DigitChar(n % 10)]
  }

  /** `str(n)`: a `-` in front of the digits of a negative number. */
  function FormatInt(n: int): (s: string)
    ensures |s| > 0 && (n < 0 <==> s[0] == '-')
    ensures forall i :: 0 <= i < |s| ==> IsDigit(s[i]) || s[i] == '-'
    ensures n < 0 ==> IsDigits(s[1..])
    ensures n >= 0 ==> IsDigits(s)
  {
    if n < 0 then "-" + FormatNat(-n) else FormatNat(n)
  }

  lemma {:induction false} FormatNatValue(n: nat)
    ensures DigitsValue(FormatNat(n)) == n
  {
    if n >= 10 {
      var s := FormatNat(n);
      FormatNatValue(n / 10);
      assert s[..|s| - 1] == FormatNat(n / 10);
    }
  }

  /** `int(str(n)) == n` for every integer `n` (here without a limit on the
      number of digits). */
  lemma ParseFormat(n: int)
    ensures ParseInt(FormatInt(n)) == Some(n)
  {
    var s := FormatInt(n);
    if n < 0 {
      var digits := FormatNat(-n);
      FormatNatValue(-n);
      assert s == "-" + digits && s[1..] == digits;
      assert IsDigits(s[1..]);
    } else {
      FormatNatValue(n);
      assert IsDigits(s) && !IsDigit('-') && !IsDigit('+');
    }
  }

  /** Neither a digit nor a minus sign is whitespace. */
  lemma DigitNotSpace(c: char)
    requires IsDigit(c) || c == '-'
    ensures !IsSpace(c)
  {
  }

  /** `str(n)` has no surrounding whitespace, so stripping it changes
      nothing. */
  lemma FormatIntStripped(n: int)
    ensures Strip(FormatInt(n)) == FormatInt(n)
  {
    var digits := FormatInt(n);
    DigitNotSpace(digits[0]);
    DigitNotSpace(digits[|digits| - 1]);
    StripUnchanged(digits);
  }
}
