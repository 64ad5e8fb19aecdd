/** Dates written as `YYYY-MM-DD`, as both Customer and Booking read them: the
    regular expression \d{4}-\d{2}-\d{2} and sscanf(s, "%d-%d-%d", ...). */
module Dates {
  import opened Text

  datatype Ymd = Ymd(year: int, month: int, day: int)

  /** std::regex_match(s, std::regex(R"(\d{4}-\d{2}-\d{2})")): four digits, a dash,
      two digits, a dash, two digits, and nothing else. */
  predicate DateShape(s: string)
  {
    && |s| == 10
    && s[4] == '-' && s[7] == '-'
    && AllDigits(s[..4]) && AllDigits(s[5..7]) && AllDigits(s[8..])
  }

  /** What sscanf(s, "%d-%d-%d", &year, &month, &day) stores for a string of that shape. */
  function ScanDate(s: string): (d: Ymd)
    requires DateShape(s)
    ensures 0 <= d.year && 0 <= d.month && 0 <= d.day
  {
    DigitsValueNonNegative(s[..4]);
    DigitsValueNonNegative(s[5..7]);
    DigitsValueNonNegative(s[8..]);
    Ymd(DigitsValue(s[..4]), DigitsValue(s[5..7]), DigitsValue(s[8..]))
  }

  /** The scanned numbers, digit by digit. */
  lemma ScanDateDigits(s: string)
    requires DateShape(s)
    ensures ScanDate(s) == Ymd(
      DigitValue(s[0]) * 1000 + DigitValue(s[1]) * 100 + DigitValue(s[2]) * 10 + DigitValue(s[3]),
      DigitValue(s[5]) * 10 + DigitValue(s[6]),
      DigitValue(s[8]) * 10 + DigitValue(s[9]))
  {
    var y := s[..4];
    assert y[..3] == s[..3] && s[..3][..2] == s[..2] && s[..2][..1] == s[..1] && s[..1][..0] == [];
    assert DigitsValue(s[..1]) == DigitValue(s[0]);
    assert DigitsValue(s[..2]) == DigitValue(s[0]) * 10 + DigitValue(s[1]);
    assert DigitsValue(s[..3]) == (DigitValue(s[0]) * 10 + DigitValue(s[1])) * 10 + DigitValue(s[2]);
    var m := s[5..7];
    assert m[..1] == [s[5]] && [s[5]][..0] == [];
    assert DigitsValue([s[5]]) == DigitValue(s[5]);
    var d := s[8..];
    assert d[..1] == [s[8]] && [s[8]][..0] == [];
    assert DigitsValue([s[8]]) == DigitValue(s[8]);
  }

  /** Different well-formed date strings scan to different dates. */
  lemma ScanDateInjective(a: string, b: string)
    requires DateShape(a) && DateShape(b) && ScanDate(a) == ScanDate(b)
    ensures a == b
  {
    DigitsValueInjective(a[..4], b[..4]);
    DigitsValueInjective(a[5..7], b[5..7]);
    DigitsValueInjective(a[8..], b[8..]);
    assert a == a[..4] + [a[4]] + a[5..7] + [a[7]] + a[8..];
    assert b == b[..4] + [b[4]] + b[5..7] + [b[7]] + b[8..];
  }

  /** Lexicographic strict order on (year, month, day): the reference the date
      comparisons of Customer and Booking are checked against. */
  predicate Later(a: Ymd, b: Ymd)
  {
    a.year > b.year || (a.year == b.year && (a.month > b.month || (a.month == b.month && a.day > b.day)))
  }

  /** Later is a strict total order. */
  lemma LaterIsStrictTotalOrder(a: Ymd, b: Ymd, c: Ymd)
    ensures !Later(a, a)
    ensures Later(a, b) ==> !Later(b, a)
    ensures Later(a, b) && Later(b, c) ==> Later(a, c)
    ensures Later(a, b) || Later(b, a) || a == b
  {
  }
}
