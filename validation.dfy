/**
  `validate_input` (backend/main.py:92-121): both form fields must be present,
  non-empty, decimal integers, `max_size` in 1..2048 and `quality` in 1..100.
  Python's `int(str)` is modelled for an optional sign followed by one or more
  ASCII digits.
*/
module Validation {
  import opened Wrappers

  /** The bounds `validate_input` enforces. */
  const MaxSizeLimit := 2048
  const QualityLimit := 100

  predicate IsDigit(c: char)
  {
    '0' <= c <= '9'
  }

  /** A non-empty run of ASCII digits. */
  predicate IsDigits(s: string)
  {
    |s| > 0 && forall i :: 0 <= i < |s| ==> IsDigit(s[i])
  }

  /** The strings `int()` accepts in this model: an optional '+' or '-', then digits. */
  predicate IsIntLiteral(s: string)
  {
    IsDigits(s) || (|s| > 0 && (s[0] == '+' || s[0] == '-') && IsDigits(s[1..]))
  }

  function DigitValue(c: char): nat
    requires IsDigit(c)
  {
    c as int - '0' as int
  }

  /** The decimal value of a run of digits, most significant first. */
  function DigitsValue(s: string): nat
    requires forall i :: 0 <= i < |s| ==> IsDigit(s[i])
  {
    if s == [] then 0
    else 10 * DigitsValue(s[..|s| - 1]) + DigitValue(s[|s| - 1])
  }

  /** `int(s)`: `None` stands for the `ValueError` it raises. */
  function ParseInt(s: string): (r: Option<int>)
    ensures r.Some? <==> IsIntLiteral(s)
    ensures r.Some? && r.value < 0 ==> s[0] == '-'
    ensures r.Some? && s[0] == '-' ==> r.value <= 0
  {
    if IsDigits(s) then Some(DigitsValue(s))
    else if |s| > 0 && s[0] == '+' && IsDigits(s[1..]) then Some(DigitsValue(s[1..]))
    else if |s| > 0 && s[0] == '-' && IsDigits(s[1..]) then Some(0 - DigitsValue(s[1..]) as int)
    else None
  }

  /** The shortest decimal rendering of a natural number (what Python's `str(n)` gives, without its digit-count limit). */
  function ShowNat(n: nat): string
  {
    if n < 10 then [('0' as int + n) as char]
    else ShowNat(n / 10) + [('0' as int + n % 10) as char]
  }

  /** The decimal rendering of any integer, with a leading '-' when negative. */
  function ShowInt(n: int): string
  {
    if n < 0 then "-" + ShowNat(-n) else ShowNat(n)
  }

  lemma {:induction false} ShowNatDigits(n: nat)
    ensures IsDigits(ShowNat(n)) && DigitsValue(ShowNat(n)) == n
  {
    if n >= 10 {
      ShowNatDigits(n / 10);
      var s := ShowNat(n);
      assert s[..|s| - 1] == ShowNat(n / 10);
    }
  }

  /** Parsing inverts decimal rendering, for numerals of any length (Python itself refuses numerals over 4300 digits). */
  lemma ParseShowInt(n: int)
    ensures ParseInt(ShowInt(n)) == Some(n)
  {
    if n < 0 {
      ShowNatDigits(-n);
      assert ShowInt(n)[1..] == ShowNat(-n);
    } else {
      ShowNatDigits(n);
    }
  }

  /** A leading '0' does not change the value of a run of digits. */
  lemma {:induction false} DigitsValueLeadingZero(s: string)
    requires forall i :: 0 <= i < |s| ==> IsDigit(s[i])
    ensures DigitsValue("0" + s) == DigitsValue(s)
  {
    if s != [] {
      var t := "0" + s;
      assert t[..|t| - 1] == "0" + s[..|s| - 1];
      DigitsValueLeadingZero(s[..|s| - 1]);
    }
  }

  /** `int()` ignores a leading '+' and leading zeros: "+0100" parses as 100. */
  lemma ParseIntPlusAndZeros(s: string)
    requires IsDigits(s)
    ensures ParseInt("+" + s) == ParseInt(s)
    ensures ParseInt("0" + s) == ParseInt(s)
  {
    assert ("+" + s)[1..] == s;
    DigitsValueLeadingZero(s);
  }

  /** `not s` in Python: the field is absent (`None`) or empty. */
  predicate Missing(s: Option<string>)
  {
    s.None? || s.value == ""
  }

  /** The field holds an integer literal whose value lies in `lo..hi`. */
  predicate InRange(s: Option<string>, lo: int, hi: int)
  {
    !Missing(s) && ParseInt(s.value).Some? && lo <= ParseInt(s.value).value <= hi
  }

  /** `validate_input(max_size_str, quality_str)`, checking in the order the source does. */
  function ValidateInput(maxSizeStr: Option<string>, qualityStr: Option<string>): (ok: bool)
    ensures ok <==> InRange(maxSizeStr, 1, MaxSizeLimit) && InRange(qualityStr, 1, QualityLimit)
  {
    if Missing(maxSizeStr) then false
    else match ParseInt(maxSizeStr.value)
      case None => false
      case Some(maxSize) =>
        if maxSize > MaxSizeLimit then false
        else if maxSize < 1 then false
        else if Missing(qualityStr) then false
        else match ParseInt(qualityStr.value)
          case None => false
          case Some(quality) =>
            if quality > QualityLimit then false
            else if quality < 1 then false
            else true
  }

  /**
    For fields written as decimal numbers, validation accepts exactly the
    pairs inside the bounds: 0 and 2049 for `max_size`, 0 and 101 for
    `quality` are refused.
  */
  lemma ValidateInputDecimal(maxSize: int, quality: int)
    ensures ValidateInput(Some(ShowInt(maxSize)), Some(ShowInt(quality)))
        <==> 1 <= maxSize <= MaxSizeLimit && 1 <= quality <= QualityLimit
  {
    ParseShowInt(maxSize);
    ParseShowInt(quality);
  }

  /** An absent or empty field fails validation whatever the other holds. */
  lemma ValidateInputRejectsMissing(maxSizeStr: Option<string>, qualityStr: Option<string>)
    requires Missing(maxSizeStr) || Missing(qualityStr)
    ensures !ValidateInput(maxSizeStr, qualityStr)
  {
  }

  /** A field that is not an integer literal fails validation. */
  lemma ValidateInputRejectsNonNumeric(maxSizeStr: Option<string>, qualityStr: Option<string>)
    requires (maxSizeStr.Some? && !IsIntLiteral(maxSizeStr.value))
          || (qualityStr.Some? && !IsIntLiteral(qualityStr.value))
    ensures !ValidateInput(maxSizeStr, qualityStr)
  {
  }
}
