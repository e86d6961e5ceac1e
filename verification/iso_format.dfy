/**
 * Calendar dates as text in the ISO 8601 extended calendar format YYYY-MM-DD
 * (ISO 8601:2004 section 4.1.2.2), the form `strftime('%Y-%m-%d')` gives a
 * loan's borrow and return dates before they are stored in TEXT columns.
 *
 * `Format` writes a date; `Parse` reads such a text back. Parsing is the
 * reference for "a well-formed date" in the loan table's invariant: the two
 * are mutual inverses on representable dates.
 */
module IsoFormat {
  import opened Wrappers
  import opened Dates

  predicate IsDigit(c: char) {
    '0' <= c <= '9'
  }

  function DigitChar(n: int): (c: char)
    requires 0 <= n <= 9
    ensures IsDigit(c)
  {
    ('0' as int + n) as char
  }

  function DigitValue(c: char): (n: int)
    requires IsDigit(c)
    ensures 0 <= n <= 9 && DigitChar(n) == c
  {
    c as int - '0' as int
  }

  /** `n` in exactly two decimal digits, zero-padded (`%m`, `%d`). */
  function Pad2(n: int): (s: string)
    requires 0 <= n <= 99
  {
    [DigitChar(n / 10), DigitChar(n % 10)]
  }

  /** `n` in exactly four decimal digits, zero-padded (`%Y`): two digit pairs. */
  function Pad4(n: int): (s: string)
    requires 0 <= n <= 9999
  {
    Pad2(n / 100) + Pad2(n % 100)
  }

  /** The shape YYYY-MM-DD: ten characters, dashes at positions 4 and 7, digits elsewhere. */
  predicate IsIsoShape(s: string) {
    |s| == 10 && s[4] == '-' && s[7] == '-'
    && forall i :: 0 <= i < 10 && i != 4 && i != 7 ==> IsDigit(s[i])
  }

  /** The date written as YYYY-MM-DD. */
  function Format(d: Date): (s: string)
    requires Representable(d)
    ensures IsIsoShape(s)
  {
    Pad4(d.year) + "-" + Pad2(d.month) + "-" + Pad2(d.day)
  }

  function TwoDigits(a: char, b: char): (n: int)
    requires IsDigit(a) && IsDigit(b)
    ensures 0 <= n <= 99 && Pad2(n) == [a, b]
  {
    10 * DigitValue(a) + DigitValue(b)
  }

  function FourDigits(a: char, b: char, c: char, d: char): (n: int)
    requires IsDigit(a) && IsDigit(b) && IsDigit(c) && IsDigit(d)
    ensures 0 <= n <= 9999 && Pad4(n) == [a, b, c, d]
  {
    var high, low := TwoDigits(a, b), TwoDigits(c, d);
    SplitHundreds(high, low);
    100 * high + low
  }

  lemma SplitHundreds(high: int, low: int)
    requires 0 <= high <= 99 && 0 <= low <= 99
    ensures (100 * high + low) / 100 == high && (100 * high + low) % 100 == low
  {
  }

  lemma DigitsOfPad2(n: int)
    requires 0 <= n <= 99
    ensures TwoDigits(Pad2(n)[0], Pad2(n)[1]) == n
  {
  }

  lemma DigitsOfPad4(n: int)
    requires 0 <= n <= 9999
    ensures FourDigits(Pad4(n)[0], Pad4(n)[1], Pad4(n)[2], Pad4(n)[3]) == n
  {
    DigitsOfPad2(n / 100);
    DigitsOfPad2(n % 100);
  }

  /**
   * Reads a YYYY-MM-DD text. Yields a date only when the text has that
   * shape and names a representable calendar day; the date it yields is
   * written back as the very same text.
   */
  function Parse(s: string): (r: Option<Date>)
    ensures r.Some? ==> Representable(r.value) && Format(r.value) == s
    ensures r.None? ==> !IsIsoShape(s) || !Valid(Date(FourDigits(s[0], s[1], s[2], s[3]),
                                                      TwoDigits(s[5], s[6]), TwoDigits(s[8], s[9])))
  {
    if !IsIsoShape(s) then None
    else
      var d := Date(FourDigits(s[0], s[1], s[2], s[3]), TwoDigits(s[5], s[6]), TwoDigits(s[8], s[9]));
      if Valid(d) then
        assert Format(d) == s;
        Some(d)
      else None
  }

  /** Writing a representable date and reading it back gives the same date. */
  lemma ParseFormat(d: Date)
    requires Representable(d)
    ensures Parse(Format(d)) == Some(d)
  {
    var s := Format(d);
    DigitsOfPad4(d.year);
    DigitsOfPad2(d.month);
    DigitsOfPad2(d.day);
    assert s[0..4] == Pad4(d.year) && s[5..7] == Pad2(d.month) && s[8..10] == Pad2(d.day);
  }

  /** Distinct representable dates are written differently. */
  lemma FormatInjective(d1: Date, d2: Date)
    requires Representable(d1) && Representable(d2)
    requires Format(d1) == Format(d2)
    ensures d1 == d2
  {
    ParseFormat(d1);
    ParseFormat(d2);
  }
}
