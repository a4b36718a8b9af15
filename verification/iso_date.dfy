/** Calendar dates in the ISO 8601 extended calendar-date form `YYYY-MM-DD`
    (section 5.2.1.1 of ISO 8601): the strings the router stores as
    `start_date` and `expiration_date`, the date objects it compares in
    `create` and `update`, and the `date.isoformat()` text it compares them
    with in the active filter. */
module IsoDate {
  import opened StringOrder

  datatype Option<+T> = None | Some(value: T)

  datatype Date = Date(year: int, month: int, day: int)

  /** Chronological order: year, then month, then day. */
  predicate DateLe(x: Date, y: Date)
  {
    x.year < y.year || (x.year == y.year && (x.month < y.month || (x.month == y.month && x.day <= y.day)))
  }

  predicate IsLeapYear(y: int)
  {
    y % 4 == 0 && (y % 100 != 0 || y % 400 == 0)
  }

  function DaysInMonth(y: int, m: int): (n: int)
    requires 1 <= m <= 12
    ensures 28 <= n <= 31
    ensures n == 29 <==> m == 2 && IsLeapYear(y)
  {
    if m == 2 then (if IsLeapYear(y) then 29 else 28)
    else if m == 4 || m == 6 || m == 9 || m == 11 then 30
    else 31
  }

  /** A date of the proleptic Gregorian calendar that a Python `date` can hold. */
  predicate ValidDate(d: Date)
  {
    1 <= d.year <= 9999 && 1 <= d.month <= 12 && 1 <= d.day <= DaysInMonth(d.year, d.month)
  }

  /** Four digits, a hyphen, two digits, a hyphen, two digits. */
  predicate IsIsoShape(s: string)
  {
    |s| == 10 && IsDigits(s[..4]) && s[4] == '-' && IsDigits(s[5..7]) && s[7] == '-' && IsDigits(s[8..])
  }

  function Fields(s: string): Date
    requires IsIsoShape(s)
  {
    Date(DigitsValue(s[..4]), DigitsValue(s[5..7]), DigitsValue(s[8..]))
  }

  /** Parsing a date string: defined exactly on the `YYYY-MM-DD` strings that
      name a real calendar day. */
  function ParseDate(s: string): (r: Option<Date>)
    ensures r.Some? ==> IsIsoShape(s) && ValidDate(r.value)
    ensures IsIsoShape(s) && ValidDate(Fields(s)) ==> r == Some(Fields(s))
  {
    if IsIsoShape(s) && ValidDate(Fields(s)) then Some(Fields(s)) else None
  }

  function DigitChar(v: int): (c: char)
    requires 0 <= v <= 9
    ensures IsDigit(c) && DigitValue(c) == v
  {
    ('0' as int + v) as char
  }

  /** `n` written with exactly `width` decimal digits, zero-padded on the left. */
  function Pad(n: nat, width: nat): (s: string)
    ensures |s| == width && IsDigits(s)
  {
    if width == 0 then []
    else Pad(n / 10, width - 1) + [DigitChar(n % 10)]
  }

  function Pow10(k: nat): (p: nat)
    ensures p >= 1
  {
    if k == 0 then 1 else 10 * Pow10(k - 1)
  }

  lemma {:induction false} PadValue(n: nat, width: nat)
    requires n < Pow10(width)
    ensures DigitsValue(Pad(n, width)) == n
  {
    if width > 0 {
      var s := Pad(n, width);
      assert s[..width - 1] == Pad(n / 10, width - 1);
      PadValue(n / 10, width - 1);
    }
  }

  lemma {:induction false} PadOfValue(s: string)
    requires IsDigits(s)
    ensures Pad(DigitsValue(s), |s|) == s
  {
    if |s| > 0 {
      var n := |s| - 1;
      var v := DigitsValue(s);
      assert v / 10 == DigitsValue(s[..n]) && v % 10 == DigitValue(s[n]);
      PadOfValue(s[..n]);
      assert s == s[..n] + [s[n]];
    }
  }

  /** `date.isoformat()`: the `YYYY-MM-DD` text of a date. */
  function FormatDate(d: Date): (s: string)
    requires ValidDate(d)
    ensures IsIsoShape(s)
  {
    var s := Pad(d.year, 4) + "-" + Pad(d.month, 2) + "-" + Pad(d.day, 2);
    assert s[..4] == Pad(d.year, 4) && s[5..7] == Pad(d.month, 2) && s[8..] == Pad(d.day, 2);
    s
  }

  /** Parsing undoes formatting. */
  lemma ParseFormat(d: Date)
    requires ValidDate(d)
    ensures ParseDate(FormatDate(d)) == Some(d)
  {
    var s := FormatDate(d);
    assert s[..4] == Pad(d.year, 4) && s[5..7] == Pad(d.month, 2) && s[8..] == Pad(d.day, 2);
    PadValue(d.year, 4);
    PadValue(d.month, 2);
    PadValue(d.day, 2);
  }

  /** Every string that parses is the canonical text of its date. */
  lemma FormatParse(s: string)
    requires ParseDate(s).Some?
    ensures FormatDate(ParseDate(s).value) == s
  {
    var d := ParseDate(s).value;
    assert d == Fields(s);
    PadOfValue(s[..4]);
    PadOfValue(s[5..7]);
    PadOfValue(s[8..]);
    assert FormatDate(d) == s[..4] + "-" + s[5..7] + "-" + s[8..];
    IsoShapeSplits(s);
  }

  lemma IsoShapeSplits(s: string)
    requires IsIsoShape(s)
    ensures s == s[..4] + "-" + s[5..7] + "-" + s[8..]
  {
    var t := s[..4] + "-" + s[5..7] + "-" + s[8..];
    assert |t| == 10;
    forall i | 0 <= i < 10
      ensures t[i] == s[i]
    {
    }
  }

  /** On `YYYY-MM-DD` strings, Python's string order is chronological order:
      this is what lets the active filter compare dates as text. */
  lemma IsoOrderIsChronological(a: string, b: string)
    requires IsIsoShape(a) && IsIsoShape(b)
    ensures StrLe(a, b) <==> DateLe(Fields(a), Fields(b))
  {
    DigitsOrder(a[..4], b[..4]);
    DigitsOrder(a[5..7], b[5..7]);
    DigitsOrder(a[8..], b[8..]);
    assert a == a[..4] + (a[4..5] + (a[5..7] + (a[7..8] + a[8..])));
    assert b == b[..4] + (b[4..5] + (b[5..7] + (b[7..8] + b[8..])));
    assert a[4..5] == b[4..5] && a[7..8] == b[7..8];
    StrLeConcat(a[..4], a[4..5] + (a[5..7] + (a[7..8] + a[8..])), b[..4], b[4..5] + (b[5..7] + (b[7..8] + b[8..])));
    StrLeConcat(a[4..5], a[5..7] + (a[7..8] + a[8..]), b[4..5], b[5..7] + (b[7..8] + b[8..]));
    StrLeConcat(a[5..7], a[7..8] + a[8..], b[5..7], b[7..8] + b[8..]);
    StrLeConcat(a[7..8], a[8..], b[7..8], b[8..]);
  }

  /** The same fact stated on parsed dates. */
  lemma ParsedOrderIsStringOrder(a: string, b: string)
    requires ParseDate(a).Some? && ParseDate(b).Some?
    ensures StrLe(a, b) <==> DateLe(ParseDate(a).value, ParseDate(b).value)
  {
    IsoOrderIsChronological(a, b);
  }
}
