/** The date helpers of the ComPAC plugin: `formatDuration`, `daysBetween`,
    `isWeekend` and `calculateAge`. Dates are given by their components or
    by their millisecond time values; the clock is a parameter. */
module PacDates {
  import opened JsCore

  // ---------------------------------------------------------------------
  // formatDuration
  // ---------------------------------------------------------------------

  /** `pac.formatDuration(seconds)` for a whole, non-negative number of
      seconds: `hh:mm:ss`, each field padded to two digits, the hours
      unbounded. */
  function FormatDuration(seconds: nat): string
  {
    var hrs, mins, secs := seconds / 3600, (seconds % 3600) / 60, seconds % 60;
    Two(hrs) + ":" + Two(mins) + ":" + Two(secs)
  }

  predicate AllDigits(s: string)
  {
    forall i :: 0 <= i < |s| ==> IsDigit(s[i])
  }

  /** Reads `h:mm:ss` back (hours of any width), or nothing when the text
      does not have that shape. */
  function ParseDuration(s: string): Option<nat>
  {
    if |s| >= 7 && s[|s| - 3] == ':' && s[|s| - 6] == ':' &&
       AllDigits(s[..|s| - 6]) && AllDigits(s[|s| - 5..|s| - 3]) && AllDigits(s[|s| - 2..])
    then Some(ParseDecimal(s[..|s| - 6]) * 3600 + ParseDecimal(s[|s| - 5..|s| - 3]) * 60 + ParseDecimal(s[|s| - 2..]))
    else None
  }

  /** The three fields split the seconds: minutes and seconds below 60, and
      hours, minutes and seconds adding back up to the input. */
  lemma DurationFields(seconds: nat)
    ensures (seconds % 3600) / 60 < 60 && seconds % 60 < 60
    ensures (seconds / 3600) * 3600 + ((seconds % 3600) / 60) * 60 + seconds % 60 == seconds
  {
    var r := seconds % 3600;
    assert seconds == (seconds / 3600) * 3600 + r;
    assert r == (r / 60) * 60 + r % 60;
    assert r % 60 == seconds % 60 by {
      assert seconds == ((seconds / 3600) * 60 + r / 60) * 60 + r % 60;
    }
  }

  /** Every duration reads back as the seconds it was made from. */
  lemma DurationRoundTrip(seconds: nat)
    ensures ParseDuration(FormatDuration(seconds)) == Some(seconds)
  {
    var hrs, mins, secs := seconds / 3600, (seconds % 3600) / 60, seconds % 60;
    DurationFields(seconds);
    ParsePadded(hrs);
    ParsePadded(mins);
    ParsePadded(secs);
    ParseFields(Two(hrs), Two(mins), Two(secs));
  }

  /** Three digit fields joined by colons, the last two of width two, read
      back as their weighted sum. */
  lemma ParseFields(h: string, m: string, c: string)
    requires |h| >= 1 && |m| == 2 && |c| == 2 && AllDigits(h) && AllDigits(m) && AllDigits(c)
    ensures ParseDuration(h + ":" + m + ":" + c) ==
              Some(ParseDecimal(h) * 3600 + ParseDecimal(m) * 60 + ParseDecimal(c))
  {
    var s := h + ":" + m + ":" + c;
    FieldsAt(h, m, c);
    ShapeParses(s, h, m, c);
  }

  lemma FieldsAt(h: string, m: string, c: string)
    requires |m| == 2 && |c| == 2
    ensures var s := h + ":" + m + ":" + c;
            |s| == |h| + 6 && s[|s| - 3] == ':' && s[|s| - 6] == ':' &&
            s[..|s| - 6] == h && s[|s| - 5..|s| - 3] == m && s[|s| - 2..] == c
  {
    var s := h + ":" + m + ":" + c;
    assert s == h + [':'] + m + [':'] + c;
    assert s[|h| + 1..|h| + 3] == m;
    assert s[|h| + 4..] == c;
  }

  lemma ShapeParses(s: string, h: string, m: string, c: string)
    requires |s| >= 7 && s[|s| - 3] == ':' && s[|s| - 6] == ':'
    requires s[..|s| - 6] == h && s[|s| - 5..|s| - 3] == m && s[|s| - 2..] == c
    requires AllDigits(h) && AllDigits(m) && AllDigits(c)
    ensures ParseDuration(s) == Some(ParseDecimal(h) * 3600 + ParseDecimal(m) * 60 + ParseDecimal(c))
  {
  }

  // ---------------------------------------------------------------------
  // daysBetween, isWeekend
  // ---------------------------------------------------------------------

  const DayMs: nat := 1000 * 60 * 60 * 24

  /** `pac.daysBetween(date1, date2)` on the two time values in milliseconds:
      the whole days in the absolute difference. */
  function DaysBetween(t1: int, t2: int): (r: nat)
    ensures var diff := if t1 < t2 then t2 - t1 else t1 - t2;
            r * DayMs <= diff < (r + 1) * DayMs
  {
    var diff := if t1 < t2 then t2 - t1 else t1 - t2;
    diff / DayMs
  }

  /** `pac.isWeekend(date)` on `date.getDay()` (0 is Sunday). */
  predicate IsWeekend(weekday: int)
  {
    weekday == 0 || weekday == 6
  }

  /** The weekday (0 is Sunday) `d` days after a day of weekday `k % 7`. */
  function WeekdayAfter(k: int, d: int): (r: int)
    ensures 0 <= r < 7
  {
    (k + d) % 7
  }

  /** Seven consecutive days, the first of them on weekday `k % 7`, hold
      exactly two weekend days: a Saturday and a Sunday, the Sunday coming
      one day after the Saturday (counting round the seven days). */
  lemma {:induction false} WeekendsPerWeek(k: int)
    ensures var sat, sun := (6 - k) % 7, (7 - k) % 7;
            (set d | 0 <= d < 7 && IsWeekend(WeekdayAfter(k, d))) == {sat, sun} &&
            WeekdayAfter(k, sat) == 6 && WeekdayAfter(k, sun) == 0 && (sun - sat) % 7 == 1
    ensures |set d | 0 <= d < 7 && IsWeekend(WeekdayAfter(k, d))| == 2
  {
    var r := k % 7;
    var sat, sun := (6 - k) % 7, (7 - k) % 7;
    assert k == 7 * (k / 7) + r;
    assert sat == 6 - r;
    assert sun == (if r == 0 then 0 else 7 - r);
    forall d | 0 <= d < 7
      ensures WeekdayAfter(k, d) == (r + d) % 7
    {
      assert k + d == 7 * (k / 7) + (r + d);
    }
    var week := set d | 0 <= d < 7 && IsWeekend(WeekdayAfter(k, d));
    assert week == {sat, sun};
    assert sat != sun;
  }

  // ---------------------------------------------------------------------
  // calculateAge
  // ---------------------------------------------------------------------

  /** A calendar date by its components: full year, month index, day of month. */
  datatype Ymd = Ymd(year: int, month: int, day: int)

  /** Calendar order on dates. */
  predicate NotAfter(a: Ymd, b: Ymd)
  {
    a.year < b.year ||
    (a.year == b.year && (a.month < b.month || (a.month == b.month && a.day <= b.day)))
  }

  /** The `k`-th birthday. */
  function Anniversary(birth: Ymd, k: int): Ymd
  {
    Ymd(birth.year + k, birth.month, birth.day)
  }

  /** `pac.calculateAge(birthDate)` on the day `today`: the number of
      birthdays reached, that is, the `k` with the `k`-th birthday on or
      before today and the next one after it. */
  function CalculateAge(today: Ymd, birth: Ymd): (age: int)
    ensures NotAfter(Anniversary(birth, age), today)
    ensures !NotAfter(Anniversary(birth, age + 1), today)
  {
    var age := today.year - birth.year;
    var m := today.month - birth.month;
    if m < 0 || (m == 0 && today.day < birth.day) then age - 1 else age
  }

  /** Only one count has that property, so the age is determined by it. */
  lemma AgeUnique(today: Ymd, birth: Ymd, k: int)
    requires NotAfter(Anniversary(birth, k), today) && !NotAfter(Anniversary(birth, k + 1), today)
    ensures k == CalculateAge(today, birth)
  {
  }
}
