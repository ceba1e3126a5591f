/** UTC date-times as `Date.prototype.toISOString` renders them
    (`YYYY-MM-DDTHH:mm:ss.sssZ`), and their reading back by `new Date(text)`
    followed by `getTime()`. */
module IsoTime {
  import opened Wrappers

  /** A calendar date and time of day in UTC, as a `Date` object holds it. */
  datatype DateTime = DateTime(
    year: int, month: int, day: int,
    hour: int, minute: int, second: int, millisecond: int)

  predicate IsLeapYear(y: int) {
    y % 4 == 0 && (y % 100 != 0 || y % 400 == 0)
  }

  function DaysInMonth(y: int, m: int): (n: int)
    requires 1 <= m <= 12
    ensures 28 <= n <= 31
  {
    if m == 2 then (if IsLeapYear(y) then 29 else 28)
    else if m == 4 || m == 6 || m == 9 || m == 11 then 30
    else 31
  }

  /** A date-time that `toISOString` renders with a four-digit year. */
  predicate ValidDateTime(d: DateTime) {
    && 0 <= d.year <= 9999
    && 1 <= d.month <= 12
    && 1 <= d.day <= DaysInMonth(d.year, d.month)
    && 0 <= d.hour < 24 && 0 <= d.minute < 60 && 0 <= d.second < 60
    && 0 <= d.millisecond < 1000
  }

  // ---------------------------------------------------------------------
  // Fixed-width decimal fields
  // ---------------------------------------------------------------------

  function Pow10(n: nat): (p: nat)
    ensures p >= 1
  {
    if n == 0 then 1 else 10 * Pow10(n - 1)
  }

  predicate IsDigit(c: char) {
    '0' <= c <= '9'
  }

  /** `n` in decimal, left-padded with zeros to `width` digits. */
  function Digits(n: nat, width: nat): (r: string)
    requires n < Pow10(width)
    ensures |r| == width
    ensures forall i :: 0 <= i < |r| ==> IsDigit(r[i])
    decreases width
  {
    if width == 0 then ""
    else Digits(n / 10, width - 1) + [('0' as int + n % 10) as char]
  }

  /** The value of a string of decimal digits; `None` if some character is
      not a digit. */
  function ReadDigits(s: string): Option<nat>
    decreases |s|
  {
    if s == [] then Some(0)
    else
      var last := s[|s| - 1];
      match ReadDigits(s[..|s| - 1])
      case None => None
      case Some(v) =>
        if IsDigit(last) then Some(10 * v + (last as int - '0' as int)) else None
  }

  /** Reading a padded field gives back its value. */
  lemma {:induction false} ReadDigitsOfDigits(n: nat, width: nat)
    requires n < Pow10(width)
    ensures ReadDigits(Digits(n, width)) == Some(n)
    decreases width
  {
    if width > 0 {
      ReadDigitsOfDigits(n / 10, width - 1);
      var s := Digits(n, width);
      assert s[..|s| - 1] == Digits(n / 10, width - 1);
    }
  }

  // ---------------------------------------------------------------------
  // Rendering and parsing
  // ---------------------------------------------------------------------

  /** The date part `YYYY-MM-DD`. */
  function DateText(d: DateTime): (r: string)
    requires ValidDateTime(d)
    ensures |r| == 10
  {
    Digits(d.year, 4) + "-" + Digits(d.month, 2) + "-" + Digits(d.day, 2)
  }

  /** The time part `HH:mm:ss.sss`. */
  function TimeText(d: DateTime): (r: string)
    requires ValidDateTime(d)
    ensures |r| == 12
  {
    Digits(d.hour, 2) + ":" + Digits(d.minute, 2) + ":" + Digits(d.second, 2)
    + "." + Digits(d.millisecond, 3)
  }

  /** `toISOString()`: `YYYY-MM-DDTHH:mm:ss.sssZ`, 24 characters. */
  function ToIsoString(d: DateTime): (r: string)
    requires ValidDateTime(d)
    ensures |r| == 24
  {
    DateText(d) + "T" + TimeText(d) + "Z"
  }

  /** Where each field of the date part sits. */
  lemma DateTextFields(d: DateTime)
    requires ValidDateTime(d)
    ensures var t := DateText(d);
      t[0..4] == Digits(d.year, 4) && t[4] == '-' && t[5..7] == Digits(d.month, 2)
      && t[7] == '-' && t[8..10] == Digits(d.day, 2)
      && forall i :: 0 <= i < 10 ==> IsDigit(t[i]) || t[i] == '-'
  {
  }

  /** Where each field of the time part sits. */
  lemma TimeTextFields(d: DateTime)
    requires ValidDateTime(d)
    ensures var t := TimeText(d);
      t[0..2] == Digits(d.hour, 2) && t[2] == ':' && t[3..5] == Digits(d.minute, 2)
      && t[5] == ':' && t[6..8] == Digits(d.second, 2) && t[8] == '.'
      && t[9..12] == Digits(d.millisecond, 3)
      && forall i :: 0 <= i < 12 ==> IsDigit(t[i]) || t[i] in ":."
  {
  }

  /** The two parts inside the whole rendering. */
  lemma IsoStringParts(d: DateTime)
    requires ValidDateTime(d)
    ensures var s := ToIsoString(d);
      s[..10] == DateText(d) && s[10] == 'T' && s[11..23] == TimeText(d) && s[23] == 'Z'
  {
  }

  /** The rendering never contains a closing bracket: it is made of digits
      and the punctuation `-T:.Z`. */
  lemma IsoStringHasNoBracket(d: DateTime)
    requires ValidDateTime(d)
    ensures ']' !in ToIsoString(d)
  {
    var s := ToIsoString(d);
    DateTextFields(d);
    TimeTextFields(d);
    IsoStringParts(d);
    forall i | 0 <= i < 24
      ensures s[i] != ']'
    {
      if i < 10 {
        assert s[i] == s[..10][i];
      } else if 11 <= i < 23 {
        assert s[i] == s[11..23][i - 11];
      }
    }
  }

  /** `new Date(s)` for the `toISOString` form: the date-time it names, or
      `None` (an invalid date) when `s` is not in that form or names no
      calendar date. */
  function ParseIso(s: string): (r: Option<DateTime>)
    ensures r.Some? ==> ValidDateTime(r.value)
  {
    if |s| != 24 || s[4] != '-' || s[7] != '-' || s[10] != 'T' || s[13] != ':'
       || s[16] != ':' || s[19] != '.' || s[23] != 'Z'
    then None
    else
      var y, mo, d := ReadDigits(s[0..4]), ReadDigits(s[5..7]), ReadDigits(s[8..10]);
      var h, mi, se, ms := ReadDigits(s[11..13]), ReadDigits(s[14..16]), ReadDigits(s[17..19]), ReadDigits(s[20..23]);
      if y.None? || mo.None? || d.None? || h.None? || mi.None? || se.None? || ms.None? then None
      else
        var dt := DateTime(y.value, mo.value, d.value, h.value, mi.value, se.value, ms.value);
        if ValidDateTime(dt) then Some(dt) else None
  }

  /** Parsing what `toISOString` rendered gives back the same date-time. */
  lemma ParseToIso(d: DateTime)
    requires ValidDateTime(d)
    ensures ParseIso(ToIsoString(d)) == Some(d)
  {
    var s := ToIsoString(d);
    DateTextFields(d);
    TimeTextFields(d);
    IsoStringParts(d);
    var date, time := s[..10], s[11..23];
    assert s[0..4] == date[0..4] && s[5..7] == date[5..7] && s[8..10] == date[8..10];
    assert s[4] == date[4] && s[7] == date[7];
    assert s[11..13] == time[0..2] && s[14..16] == time[3..5];
    assert s[17..19] == time[6..8] && s[20..23] == time[9..12];
    assert s[13] == time[2] && s[16] == time[5] && s[19] == time[8];
    ReadDigitsOfDigits(d.year, 4);
    ReadDigitsOfDigits(d.month, 2);
    ReadDigitsOfDigits(d.day, 2);
    ReadDigitsOfDigits(d.hour, 2);
    ReadDigitsOfDigits(d.minute, 2);
    ReadDigitsOfDigits(d.second, 2);
    ReadDigitsOfDigits(d.millisecond, 3);
  }

  /** Rendering is one-to-one: distinct date-times never share a text. */
  lemma ToIsoStringInjective(d1: DateTime, d2: DateTime)
    requires ValidDateTime(d1) && ValidDateTime(d2) && ToIsoString(d1) == ToIsoString(d2)
    ensures d1 == d2
  {
    ParseToIso(d1);
    ParseToIso(d2);
  }

  // ---------------------------------------------------------------------
  // Milliseconds since the Unix epoch
  // ---------------------------------------------------------------------

  /** Days from 1970-01-01 to the given proleptic Gregorian date. */
  function DaysFromCivil(y: int, m: int, d: int): int
    requires 1 <= m <= 12
  {
    var y' := if m <= 2 then y - 1 else y;
    var era := y' / 400;          // Euclidean division: the floor for 400
    var yoe := y' - era * 400;    // year of era, 0..399
    var mp := if m > 2 then m - 3 else m + 9;
    var doy := (153 * mp + 2) / 5 + d - 1;
    var doe := yoe * 365 + yoe / 4 - yoe / 100 + doy;
    era * 146097 + doe - 719468
  }

  /** `getTime()` of a date-time. */
  function EpochMillis(d: DateTime): int
    requires ValidDateTime(d)
  {
    DaysFromCivil(d.year, d.month, d.day) * 86400000
    + d.hour * 3600000 + d.minute * 60000 + d.second * 1000 + d.millisecond
  }

  /** The next day of the same month is one day later. */
  lemma NextDayInMonth(y: int, m: int, d: int)
    requires 1 <= m <= 12
    ensures DaysFromCivil(y, m, d + 1) == DaysFromCivil(y, m, d) + 1
  {
  }

  /** Days from the start of a 400-year era to March 1 of its year `yoe`. */
  function EraDays(yoe: int): int {
    yoe * 365 + yoe / 4 - yoe / 100
  }

  /** Days from 1970-01-01 to March 1 of year `y`, the start of the year as
      `DaysFromCivil` counts it. */
  function MarchFirst(y: int): int {
    var era := y / 400;
    (era * 146097 + EraDays(y - era * 400)) - 719468
  }

  /** `DaysFromCivil` is the start of its March-based year plus the day of
      that year. */
  lemma DaysFromCivilSplit(y: int, m: int, d: int)
    requires 1 <= m <= 12
    ensures DaysFromCivil(y, m, d)
      == MarchFirst(if m <= 2 then y - 1 else y) + (153 * (if m > 2 then m - 3 else m + 9) + 2) / 5 + d - 1
  {
  }

  /** Within an era, a year gains a leap day when its number is a multiple
      of 4 but not of 100. */
  lemma EraYearStep(n: int)
    requires 1 <= n < 400
    ensures EraDays(n) == EraDays(n - 1) + 365 + (if n % 4 == 0 && n % 100 != 0 then 1 else 0)
  {
  }

  /** The remainder by 4 is the `r` of any `x == 4 * q + r` with `r` in
      range; likewise below for 100 and 400. */
  lemma RemainderBy4(x: int, q: int, r: int)
    requires x == 4 * q + r && 0 <= r < 4
    ensures x % 4 == r
  {
  }

  lemma RemainderBy100(x: int, q: int, r: int)
    requires x == 100 * q + r && 0 <= r < 100
    ensures x % 100 == r
  {
  }

  lemma RemainderBy400(x: int, q: int, r: int)
    requires x == 400 * q + r && 0 <= r < 400
    ensures x % 400 == r
  {
  }

  /** The leap-year rule for year `n` of an era. */
  lemma LeapInEra(y: int, e: int, n: int)
    requires y == 400 * e + n && 0 <= n < 400
    ensures IsLeapYear(y) <==> n % 4 == 0 && (n % 100 != 0 || n == 0)
  {
    RemainderBy400(y, e, n);
    RemainderBy4(n, n / 4, n % 4);
    RemainderBy4(y, 100 * e + n / 4, n % 4);
    RemainderBy100(n, n / 100, n % 100);
    RemainderBy100(y, 4 * e + n / 100, n % 100);
  }

  /** The March-based year that ends with February of `y` has 337 days
      up to February 1, then February: 366 days when `y` is a leap year,
      365 otherwise. */
  lemma MarchYearLength(y: int)
    ensures MarchFirst(y) == MarchFirst(y - 1) + 337 + DaysInMonth(y, 2)
  {
    var e := (y - 1) / 400;
    var o := (y - 1) - e * 400;
    if o == 399 {
      assert y / 400 == e + 1;
      LeapInEra(y, e + 1, 0);
      assert MarchFirst(y) == (e + 1) * 146097 - 719468;
    } else {
      assert y / 400 == e;
      LeapInEra(y, e, o + 1);
      EraYearStep(o + 1);
    }
  }

  /** The first of the next month follows the last day of a month. */
  lemma NextMonth(y: int, m: int)
    requires 1 <= m < 12
    ensures DaysFromCivil(y, m + 1, 1) == DaysFromCivil(y, m, DaysInMonth(y, m)) + 1
  {
    DaysFromCivilSplit(y, m + 1, 1);
    DaysFromCivilSplit(y, m, DaysInMonth(y, m));
    if m == 2 {
      MarchYearLength(y);
    } else {
      MonthStartStep(m);
    }
  }

  /** Inside the March-based year, month `m + 1` starts `DaysInMonth` days
      after month `m` (February excepted, whose length depends on the
      year). */
  lemma MonthStartStep(m: int)
    requires 1 <= m < 12 && m != 2
    ensures var mp := if m > 2 then m - 3 else m + 9;
      (153 * (mp + 1) + 2) / 5 == (153 * mp + 2) / 5 + DaysInMonth(0, m)
  {
    if m == 1 {
    } else if m == 3 {
    } else if m == 4 {
    } else if m == 5 {
    } else if m == 6 {
    } else if m == 7 {
    } else if m == 8 {
    } else if m == 9 {
    } else if m == 10 {
    } else {
      assert m == 11;
    }
  }

  /** New Year's Day follows the last day of December. */
  lemma NextYear(y: int)
    ensures DaysFromCivil(y + 1, 1, 1) == DaysFromCivil(y, 12, 31) + 1
  {
  }

  /** The milliseconds since midnight of a date-time: less than a day. */
  function TimeOfDay(d: DateTime): (t: int)
    requires ValidDateTime(d)
    ensures 0 <= t < 86400000
  {
    d.hour * 3600000 + d.minute * 60000 + d.second * 1000 + d.millisecond
  }

  /** A date-time on a later day is later, whatever the times of day. */
  lemma LaterDayIsLater(d1: DateTime, d2: DateTime)
    requires ValidDateTime(d1) && ValidDateTime(d2)
    requires DaysFromCivil(d1.year, d1.month, d1.day) < DaysFromCivil(d2.year, d2.month, d2.day)
    ensures EpochMillis(d1) < EpochMillis(d2)
  {
    assert EpochMillis(d1) == DaysFromCivil(d1.year, d1.month, d1.day) * 86400000 + TimeOfDay(d1);
    assert EpochMillis(d2) == DaysFromCivil(d2.year, d2.month, d2.day) * 86400000 + TimeOfDay(d2);
  }

  /** `new Date(s).getTime()`; `None` stands for `NaN`. */
  function GetTime(s: string): Option<int> {
    match ParseIso(s)
    case None => None
    case Some(d) => Some(EpochMillis(d))
  }

  /** Reading back a rendered date-time gives its epoch milliseconds. */
  lemma GetTimeOfIso(d: DateTime)
    requires ValidDateTime(d)
    ensures GetTime(ToIsoString(d)) == Some(EpochMillis(d))
  {
    ParseToIso(d);
  }

  /** The Unix epoch itself is at millisecond zero. */
  lemma EpochIsZero()
    ensures EpochMillis(DateTime(1970, 1, 1, 0, 0, 0, 0)) == 0
  {
  }
}
