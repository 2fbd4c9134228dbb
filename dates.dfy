/** The default date of the front matter: `datetime.now().strftime('%Y-%m-%d')`, with the
    clock reading passed in as a calendar date. */
module Dates {
  import opened Wrappers

  datatype Date = Date(year: nat, month: nat, day: nat)

  /** A date the clock can report, with a four-digit year. */
  predicate ValidDate(d: Date) {
    1000 <= d.year <= 9999 && 1 <= d.month <= 12 && 1 <= d.day <= 31
  }

  predicate IsDigit(c: char) {
    '0' <= c <= '9'
  }

  function Digit(n: nat): (c: char)
    requires n < 10
    ensures IsDigit(c)
  {
    ('0' as int + n) as char
  }

  /** `%m` and `%d`: two digits, zero-padded. */
  function Pad2(n: nat): string
    requires n < 100
  {
    [Digit(n / 10), Digit(n % 10)]
  }

  /** `%Y` for a four-digit year: the hundreds, then the last two digits. */
  function Pad4(n: nat): string
    requires n < 10000
  {
    Pad2(n / 100) + Pad2(n % 100)
  }

  /** `strftime('%Y-%m-%d')`. */
  function FormatIso(d: Date): (s: string)
    requires ValidDate(d)
    ensures |s| == 10 && s[4] == '-' && s[7] == '-'
    ensures forall k :: 0 <= k < 10 && k != 4 && k != 7 ==> IsDigit(s[k])
  {
    Pad4(d.year) + "-" + Pad2(d.month) + "-" + Pad2(d.day)
  }

  /** The decimal value of a string of digits. */
  function Decimal(s: string): nat {
    if s == [] then 0
    else
      var last := s[|s| - 1] as int - '0' as int;
      Decimal(s[..|s| - 1]) * 10 + (if 0 <= last then last else 0)
  }

  /** Reads a `YYYY-MM-DD` string back into a date. */
  function ParseIso(s: string): Option<Date> {
    if |s| == 10 && s[4] == '-' && s[7] == '-'
       && (forall k :: 0 <= k < 10 && k != 4 && k != 7 ==> IsDigit(s[k]))
    then Some(Date(Decimal(s[..4]), Decimal(s[5..7]), Decimal(s[8..])))
    else None
  }

  /** One more digit on the right: the value times ten plus that digit. */
  lemma DecimalSnoc(s: string, n: nat)
    requires n < 10
    ensures Decimal(s + [Digit(n)]) == Decimal(s) * 10 + n
  {
    assert (s + [Digit(n)])[..|s|] == s;
  }

  lemma DecimalPad2(n: nat)
    requires n < 100
    ensures Decimal(Pad2(n)) == n
  {
    DecimalSnoc([], n / 10);
    assert [] + [Digit(n / 10)] == [Digit(n / 10)];
    DecimalSnoc([Digit(n / 10)], n % 10);
    assert Pad2(n) == [Digit(n / 10)] + [Digit(n % 10)];
  }

  lemma DecimalPad4(n: nat)
    requires n < 10000
    ensures Decimal(Pad4(n)) == n
  {
    var hi, lo := n / 100, n % 100;
    var p := Pad2(hi);
    DecimalPad2(hi);
    DecimalSnoc(p, lo / 10);
    DecimalSnoc(p + [Digit(lo / 10)], lo % 10);
    assert Pad4(n) == p + [Digit(lo / 10)] + [Digit(lo % 10)];
    assert lo == 10 * (lo / 10) + lo % 10;
    assert n == 100 * hi + lo;
  }

  /** The formatted date reads back as the date it came from. */
  lemma ParseFormatIso(d: Date)
    requires ValidDate(d)
    ensures ParseIso(FormatIso(d)) == Some(d)
  {
    var s := FormatIso(d);
    assert s[..4] == Pad4(d.year);
    assert s[5..7] == Pad2(d.month);
    assert s[8..] == Pad2(d.day);
    DecimalPad4(d.year);
    DecimalPad2(d.month);
    DecimalPad2(d.day);
  }
}
