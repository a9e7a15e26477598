/** Calendar dates and the two text forms the services put on pushes:
    `yyyyMMdd` (NEIS queries, the filter scheduler) and `yyyy-MM-dd`
    (`LocalDate.toString`, the FCM data payload). */
module Dates {
  import opened Text

  datatype Date = Date(year: int, month: int, day: int)

  /** Dates whose year has four digits, as both formats assume. */
  predicate Valid(d: Date) {
    1 <= d.year <= 9999 && 1 <= d.month <= 12 && 1 <= d.day <= 31
  }

  /** A `LocalDate` as the services obtain it from the clock. */
  type Day = d: Date | Valid(d) witness Date(2000, 1, 1)

  function Pow10(n: nat): (r: nat)
    ensures r >= 1
  {
    if n == 0 then 1 else 10 * Pow10(n - 1)
  }

  /** `n` in decimal, zero-padded on the left to `width` digits. */
  function Pad(n: nat, width: nat): (r: string)
    requires n < Pow10(width)
    ensures |r| == width
    ensures forall i :: 0 <= i < |r| ==> IsAsciiDigit(r[i])
    ensures DigitsValue(r) == n
  {
    if width == 0 then []
    else
      var r := Pad(n / 10, width - 1) + [DigitChar(n % 10)];
      assert r[..|r| - 1] == Pad(n / 10, width - 1);
      r
  }

  /** `DateTimeFormatter.ofPattern("yyyyMMdd")`. */
  function Basic(d: Date): (r: string)
    requires Valid(d)
    ensures |r| == 8 && forall i :: 0 <= i < 8 ==> IsAsciiDigit(r[i])
  {
    Pad(d.year, 4) + Pad(d.month, 2) + Pad(d.day, 2)
  }

  /** `LocalDate.toString()`, the same as the pattern `yyyy-MM-dd`. */
  function Iso(d: Date): (r: string)
    requires Valid(d)
    ensures |r| == 10 && r[4] == '-' && r[7] == '-'
    ensures forall i :: 0 <= i < 10 && i != 4 && i != 7 ==> IsAsciiDigit(r[i])
  {
    Pad(d.year, 4) + "-" + Pad(d.month, 2) + "-" + Pad(d.day, 2)
  }

  /** Reads a `yyyyMMdd` string back into a date. */
  function ParseBasic(s: string): (r: Date)
    requires |s| == 8 && forall i :: 0 <= i < 8 ==> IsAsciiDigit(s[i])
  {
    Date(DigitsValue(s[..4]), DigitsValue(s[4..6]), DigitsValue(s[6..]))
  }

  /** The compact form determines the date: parsing it gives the date back. */
  lemma ParseBasicOfBasic(d: Date)
    requires Valid(d)
    ensures ParseBasic(Basic(d)) == d
  {
    var s := Basic(d);
    assert s[..4] == Pad(d.year, 4);
    assert s[4..6] == Pad(d.month, 2);
    assert s[6..] == Pad(d.day, 2);
  }

  /** The ISO form is the compact form with two dashes inserted. */
  lemma IsoIsBasicWithDashes(d: Date)
    requires Valid(d)
    ensures Iso(d) == Basic(d)[..4] + "-" + Basic(d)[4..6] + "-" + Basic(d)[6..]
  {
    var s := Basic(d);
    assert s[..4] == Pad(d.year, 4);
    assert s[4..6] == Pad(d.month, 2);
    assert s[6..] == Pad(d.day, 2);
  }
}
