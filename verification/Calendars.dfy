/** The proleptic Gregorian calendar over day counts from 1970-01-01 (src/temporal.rs, lines
    47-85 and 105-132), and clock times over microsecond counts (lines 189-222).

    The arithmetic comes first over all integers; then in the source's widths, where a day
    count is cut to 32 bits and `None` stands for an overflow on which the program stops. */
module Calendars {
  import opened Integers
  import opened Options

  datatype CalendarDate = CalendarDate(year: int, month: int, day: int)

  predicate IsLeapYear(year: int)
  {
    (year % 4 == 0 && year % 100 != 0) || year % 400 == 0
  }

  function DaysInMonth(year: int, month: int): nat
  {
    if month in {1, 3, 5, 7, 8, 10, 12} then 31
    else if month in {4, 6, 9, 11} then 30
    else if month == 2 then (if IsLeapYear(year) then 29 else 28)
    else 0
  }

  predicate Valid(c: CalendarDate)
  {
    1 <= c.month <= 12 && 1 <= c.day <= DaysInMonth(c.year, c.month)
  }

  /** Division truncating toward zero, as the source's. */
  function TruncDiv(x: int, n: int): int
    requires n > 0
  {
    if x >= 0 then x / n else -((-x) / n)
  }

  function TruncMod(x: int, n: int): int
    requires n > 0
  {
    x - n * TruncDiv(x, n)
  }

  // ----- the conversions -----------------------------------------------------------------

  /** The 400-year era of a March-based year. */
  function Era(y: int): int
  {
    TruncDiv(if y >= 0 then y else y - 399, 400)
  }

  function DayOfYear(month: int, day: int): int
  {
    (153 * (if month > 2 then month - 3 else month + 9) + 2) / 5 + day - 1
  }

  /** Lines 64-71. */
  function DaysFromCivil(c: CalendarDate): int
  {
    var y := if c.month <= 2 then c.year - 1 else c.year;
    var era := Era(y);
    var yoe := y - era * 400;
    era * 146097 + DayOfEra(yoe, DayOfYear(c.month, c.day)) - 719468
  }

  function DayOfEra(yoe: int, doy: int): int
  {
    yoe * 365 + yoe / 4 - yoe / 100 + doy
  }

  function EraOfDay(z: int): int
  {
    TruncDiv(if z >= 0 then z else z - 146096, 146097)
  }

  /** The year of the era that a day of the era lies in. */
  function YearOfEra(doe: int): int
  {
    (doe - doe / 1460 + doe / 36524 - doe / 146096) / 365
  }

  /** Month and day from the day of a March-based year. */
  function MonthDay(doy: int): (int, int)
  {
    var mp := (5 * doy + 2) / 153;
    (if mp < 10 then mp + 3 else mp - 9, doy - (153 * mp + 2) / 5 + 1)
  }

  /** Lines 73-85. */
  function CivilFromDays(days: int): CalendarDate
  {
    var z := days + 719468;
    var era := EraOfDay(z);
    var doe := z - era * 146097;
    var yoe := YearOfEra(doe);
    var (m, d) := MonthDay(doe - (365 * yoe + yoe / 4 - yoe / 100));
    CalendarDate(if m <= 2 then yoe + era * 400 + 1 else yoe + era * 400, m, d)
  }

  // ----- eras ----------------------------------------------------------------------------

  /** The era rounds down, for years before 0 as well. */
  lemma EraIsFloor(y: int)
    ensures 0 <= y - Era(y) * 400 < 400
  {
  }

  lemma EraOfDayIsFloor(z: int)
    ensures 0 <= z - EraOfDay(z) * 146097 < 146097
  {
  }

  lemma EraUnique(e: int, yoe: int)
    requires 0 <= yoe < 400
    ensures Era(e * 400 + yoe) == e
  {
    EraIsFloor(e * 400 + yoe);
  }

  lemma EraOfDayUnique(e: int, doe: int)
    requires 0 <= doe < 146097
    ensures EraOfDay(e * 146097 + doe) == e
  {
    EraOfDayIsFloor(e * 146097 + doe);
  }

  // ----- days of an era ----------------------------------------------------------------------

  /** The March-based year has a leap day at its end. */
  predicate LeapEnd(yoe: int)
  {
    ((yoe + 1) % 4 == 0 && (yoe + 1) % 100 != 0) || yoe == 399
  }

  function YearLength(yoe: int): int { if LeapEnd(yoe) then 366 else 365 }

  /** Where a year of the era starts, by centuries, four-year cycles and years. */
  lemma YearParts(yoe: int) returns (c: int, q: int, s: int)
    requires 0 <= yoe < 400
    ensures 0 <= c < 4 && 0 <= q < 25 && 0 <= s < 4 && yoe == 100 * c + 4 * q + s
    ensures yoe / 4 == 25 * c + q && yoe / 100 == c
    ensures LeapEnd(yoe) <==> s == 3 && (q < 24 || c == 3)
  {
    c := yoe / 100;
    var r := yoe % 100;
    q := r / 4;
    s := r % 4;
    assert yoe / 4 == 25 * c + q;
    assert (yoe + 1) % 4 == 0 <==> s == 3;
    assert (yoe + 1) % 100 == 0 <==> r == 99;
  }

  /** The year formula finds the year of every day of the era. */
  lemma YearOfDay(yoe: int, doy: int)
    requires 0 <= yoe < 400 && 0 <= doy < YearLength(yoe)
    ensures 0 <= DayOfEra(yoe, doy) < 146097 && YearOfEra(DayOfEra(yoe, doy)) == yoe
  {
    var c, q, s := YearParts(yoe);
    var doe := DayOfEra(yoe, doy);
    assert doe == 36524 * c + 1461 * q + 365 * s + doy;
    YearFormula(c, q, s, doy, doe);
  }

  /** The correction terms: one for each full four-year cycle, less one for each century,
      plus one for the last day of the era. */
  lemma YearFormula(c: int, q: int, s: int, doy: int, doe: int)
    requires 0 <= c < 4 && 0 <= q < 25 && 0 <= s < 4
    requires 0 <= doy < (if s == 3 && (q < 24 || c == 3) then 366 else 365)
    requires doe == 36524 * c + 1461 * q + 365 * s + doy
    ensures 0 <= doe < 146097
    ensures YearOfEra(doe) == 100 * c + 4 * q + s
  {
    var last := c == 3 && q == 24 && s == 3 && doy == 365;
    assert doe / 36524 == if last then 4 else c;
    assert doe / 146096 == if last then 1 else 0;
    var rest := doe - 1460 * (25 * c + q);
    assert rest == 24 * c + q + 365 * s + doy;
    assert doe / 1460 == 25 * c + q + rest / 1460;
    var n := doe - doe / 1460 + doe / 36524 - doe / 146096;
    assert n == 365 * (100 * c + 4 * q + s) + doy - rest / 1460 + (if last then 0 else 0);
    assert 0 <= doy - rest / 1460 < 365;
  }

  /** Where a year starts; the era's end after the last. */
  function YearStart(yoe: int): int
  {
    if yoe == 400 then 146097 else DayOfEra(yoe, 0)
  }

  lemma YearStep(yoe: int)
    requires 0 <= yoe < 400
    ensures YearStart(yoe + 1) == YearStart(yoe) + YearLength(yoe)
  {
    var c, q, s := YearParts(yoe);
    assert (yoe + 1) / 4 == yoe / 4 + if s == 3 then 1 else 0;
    assert (yoe + 1) / 100 == yoe / 100 + if s == 3 && q == 24 then 1 else 0;
  }

  /** Every day of the era lies in some year of it. */
  lemma {:induction false} DayHasYear(doe: int, years: nat) returns (yoe: int, doy: int)
    requires years <= 400 && 0 <= doe < YearStart(years)
    ensures 0 <= yoe < years && 0 <= doy < YearLength(yoe) && doe == DayOfEra(yoe, doy)
  {
    YearStep(years - 1);
    if doe >= YearStart(years - 1) {
      yoe, doy := years - 1, doe - YearStart(years - 1);
    } else {
      yoe, doy := DayHasYear(doe, years - 1);
    }
  }

  // ----- days of a year ------------------------------------------------------------------------

  /** Where the March-based month starts. */
  function MonthStart(mp: int): int { (153 * mp + 2) / 5 }

  function MonthLength(mp: int, leap: bool): int
  {
    if mp == 11 then (if leap then 29 else 28)
    else if mp in {1, 3, 6, 8} then 30
    else 31
  }

  lemma MonthStarts(mp: int, leap: bool)
    requires 0 <= mp < 12
    ensures MonthStart(mp + 1) >= MonthStart(mp) + MonthLength(mp, leap)
    ensures mp < 11 ==> MonthStart(mp + 1) == MonthStart(mp) + MonthLength(mp, leap)
    ensures MonthStart(0) == 0 && MonthStart(11) + MonthLength(11, leap) == if leap then 366 else 365
  {
  }

  /** The month formula finds the month of every day of the year. */
  lemma MonthOfDay(mp: int, day: int, leap: bool)
    requires 0 <= mp < 12 && 1 <= day <= MonthLength(mp, leap)
    ensures MonthDay(MonthStart(mp) + day - 1) == (if mp < 10 then mp + 3 else mp - 9, day)
  {
    var doy := MonthStart(mp) + day - 1;
    assert (5 * doy + 2) / 153 == mp;
  }

  /** Every day of the year lies in some month of it. */
  lemma {:induction false} DayHasMonth(doy: int, months: nat, leap: bool) returns (mp: int, day: int)
    requires months <= 12 && 0 <= doy < (if months == 12 then (if leap then 366 else 365) else MonthStart(months))
    ensures 0 <= mp < months && 1 <= day <= MonthLength(mp, leap) && doy == MonthStart(mp) + day - 1
  {
    MonthStarts(if months > 0 then months - 1 else 0, leap);
    if doy >= MonthStart(months - 1) {
      mp, day := months - 1, doy - MonthStart(months - 1) + 1;
    } else {
      mp, day := DayHasMonth(doy, months - 1, leap);
    }
  }

  /** A year of the era that starts in March ends in a leap February exactly when the next
      calendar year is a leap year. */
  lemma LeapEndIsLeap(era: int, yoe: int)
    requires 0 <= yoe < 400
    ensures LeapEnd(yoe) <==> IsLeapYear(era * 400 + yoe + 1)
  {
    Residue(era * 100, yoe + 1, 4);
    Residue(era * 4, yoe + 1, 100);
    Residue(era, yoe + 1, 400);
  }

  lemma Residue(k: int, x: int, n: int)
    requires n in {4, 100, 400}
    ensures (n * k + x) % n == x % n
  {
  }

  /** The calendar's months are the March-based ones. */
  lemma MonthsAgree(era: int, yoe: int, mp: int)
    requires 0 <= yoe < 400 && 0 <= mp < 12
    ensures var year, month := if mp < 10 then era * 400 + yoe else era * 400 + yoe + 1,
            if mp < 10 then mp + 3 else mp - 9;
            DaysInMonth(year, month) == MonthLength(mp, LeapEnd(yoe))
  {
    LeapEndIsLeap(era, yoe);
  }

  // ----- the inverse ------------------------------------------------------------------------------

  /** The calendar date at an era, a year of the era, and a month and day of the March-based
      year. */
  function At(era: int, yoe: int, mp: int, day: int): CalendarDate
  {
    CalendarDate(if mp < 10 then era * 400 + yoe else era * 400 + yoe + 1, if mp < 10 then mp + 3 else mp - 9, day)
  }

  predicate Proper(yoe: int, mp: int, day: int)
  {
    0 <= yoe < 400 && 0 <= mp < 12 && 1 <= day <= MonthLength(mp, LeapEnd(yoe))
  }

  lemma DaysAt(era: int, yoe: int, mp: int, day: int)
    requires Proper(yoe, mp, day)
    ensures Valid(At(era, yoe, mp, day))
    ensures DaysFromCivil(At(era, yoe, mp, day)) == era * 146097 + DayOfEra(yoe, MonthStart(mp) + day - 1) - 719468
    ensures 0 <= MonthStart(mp) + day - 1 < YearLength(yoe)
  {
    MonthsAgree(era, yoe, mp);
    EraUnique(era, yoe);
    MonthStarts(mp, LeapEnd(yoe));
    hide Era, LeapEnd, IsLeapYear;
  }

  lemma CivilParts(days: int, era: int, yoe: int, doy: int)
    requires EraOfDay(days + 719468) == era && days + 719468 - era * 146097 == DayOfEra(yoe, doy)
    requires YearOfEra(DayOfEra(yoe, doy)) == yoe
    ensures CivilFromDays(days) ==
      var (m, d) := MonthDay(doy); CalendarDate(if m <= 2 then yoe + era * 400 + 1 else yoe + era * 400, m, d)
  {
    hide EraOfDay, YearOfEra, MonthDay;
  }

  lemma CivilAt(era: int, yoe: int, mp: int, day: int)
    requires Proper(yoe, mp, day)
    ensures CivilFromDays(era * 146097 + DayOfEra(yoe, MonthStart(mp) + day - 1) - 719468) == At(era, yoe, mp, day)
  {
    hide Era, LeapEnd, IsLeapYear, YearOfEra, EraOfDay, MonthStart, MonthDay, YearLength, Valid, DayOfEra,
         CivilFromDays, DaysFromCivil;
    DaysAt(era, yoe, mp, day);
    var doy := MonthStart(mp) + day - 1;
    YearOfDay(yoe, doy);
    EraOfDayUnique(era, DayOfEra(yoe, doy));
    MonthOfDay(mp, day, LeapEnd(yoe));
    CivilParts(era * 146097 + DayOfEra(yoe, doy) - 719468, era, yoe, doy);
  }

  /** Every valid date has its place in an era. */
  lemma PlaceOf(c: CalendarDate) returns (era: int, yoe: int, mp: int)
    requires Valid(c)
    ensures Proper(yoe, mp, c.day) && c == At(era, yoe, mp, c.day)
  {
    var y := if c.month <= 2 then c.year - 1 else c.year;
    era, yoe, mp := Era(y), y - Era(y) * 400, if c.month > 2 then c.month - 3 else c.month + 9;
    EraIsFloor(y);
    MonthsAgree(era, yoe, mp);
    hide Era, LeapEnd, IsLeapYear;
  }

  /** Every day count is that of some valid date. */
  lemma DayPlace(days: int) returns (era: int, yoe: int, mp: int, day: int)
    ensures Proper(yoe, mp, day) && days == era * 146097 + DayOfEra(yoe, MonthStart(mp) + day - 1) - 719468
  {
    var z := days + 719468;
    era := EraOfDay(z);
    EraOfDayIsFloor(z);
    var doy;
    yoe, doy := DayHasYear(z - era * 146097, 400);
    mp, day := DayHasMonth(doy, 12, LeapEnd(yoe));
    hide EraOfDay, LeapEnd;
  }

  /** A valid date is got back from its day count. */
  lemma CivilInverse(c: CalendarDate)
    requires Valid(c)
    ensures CivilFromDays(DaysFromCivil(c)) == c
  {
    hide *;
    var era, yoe, mp := PlaceOf(c);
    DaysAt(era, yoe, mp, c.day);
    CivilAt(era, yoe, mp, c.day);
  }

  /** A day count is got back from its date, which is valid. */
  lemma DaysInverse(days: int)
    ensures Valid(CivilFromDays(days)) && DaysFromCivil(CivilFromDays(days)) == days
  {
    hide *;
    var era, yoe, mp, day := DayPlace(days);
    DaysAt(era, yoe, mp, day);
    CivilAt(era, yoe, mp, day);
  }

  // ----- the calendar runs day by day ---------------------------------------------------------------

  /** The next day by the rules of the calendar. */
  function NextDay(c: CalendarDate): CalendarDate
  {
    if c.day < DaysInMonth(c.year, c.month) then c.(day := c.day + 1)
    else if c.month < 12 then CalendarDate(c.year, c.month + 1, 1)
    else CalendarDate(c.year + 1, 1, 1)
  }

  /** One day later is one more day: together with the epoch this fixes the day count of
      every date. */
  lemma NextDayIsOneMore(c: CalendarDate)
    requires Valid(c)
    ensures Valid(NextDay(c)) && DaysFromCivil(NextDay(c)) == DaysFromCivil(c) + 1
  {
    hide Era, LeapEnd, IsLeapYear, NextDay, DaysFromCivil, Valid, At;
    var era, yoe, mp := PlaceOf(c);
    DaysAt(era, yoe, mp, c.day);
    MonthStarts(mp, LeapEnd(yoe));
    if c.day < MonthLength(mp, LeapEnd(yoe)) {
      DayWithinMonth(era, yoe, mp, c.day);
      DaysAt(era, yoe, mp, c.day + 1);
    } else if mp < 11 {
      LastOfMonth(era, yoe, mp);
      DaysAt(era, yoe, mp + 1, 1);
    } else {
      LastOfYear(era, yoe);
      YearStep(yoe);
      if yoe < 399 {
        DaysAt(era, yoe + 1, 0, 1);
      } else {
        DaysAt(era + 1, 0, 0, 1);
      }
    }
  }

  lemma DayWithinMonth(era: int, yoe: int, mp: int, day: int)
    requires Proper(yoe, mp, day) && day < MonthLength(mp, LeapEnd(yoe))
    ensures NextDay(At(era, yoe, mp, day)) == At(era, yoe, mp, day + 1)
  {
    MonthsAgree(era, yoe, mp);
    hide Era, LeapEnd, IsLeapYear;
  }

  lemma LastOfMonth(era: int, yoe: int, mp: int)
    requires 0 <= yoe < 400 && 0 <= mp < 11
    ensures NextDay(At(era, yoe, mp, MonthLength(mp, LeapEnd(yoe)))) == At(era, yoe, mp + 1, 1)
    ensures Proper(yoe, mp + 1, 1)
  {
    MonthsAgree(era, yoe, mp);
    NextMonth(era, yoe, mp);
    hide Era, LeapEnd, IsLeapYear;
  }

  lemma LastOfYear(era: int, yoe: int)
    requires 0 <= yoe < 400
    ensures NextDay(At(era, yoe, 11, MonthLength(11, LeapEnd(yoe))))
            == if yoe < 399 then At(era, yoe + 1, 0, 1) else At(era + 1, 0, 0, 1)
    ensures if yoe < 399 then Proper(yoe + 1, 0, 1) else Proper(0, 0, 1)
  {
    MonthsAgree(era, yoe, 11);
    hide Era, LeapEnd, IsLeapYear;
  }

  lemma NextMonth(era: int, yoe: int, mp: int)
    requires 0 <= yoe < 400 && 0 <= mp < 11
    ensures MonthLength(mp + 1, LeapEnd(yoe)) >= 1 && At(era, yoe, mp + 1, 1).month ==
            if mp == 9 then 1 else At(era, yoe, mp, 1).month + 1
  {
  }

  lemma Epoch()
    ensures DaysFromCivil(CalendarDate(1970, 1, 1)) == 0
  {
    assert Era(1969) == 4;
    assert DayOfYear(1, 1) == 306;
    assert DayOfEra(369, 306) == 369 * 365 + 92 - 3 + 306;
    hide Era, DayOfYear, DayOfEra;
  }

  /** Stepping the date steps the count, forwards from any day. */
  lemma CivilSteps(days: int)
    ensures CivilFromDays(days + 1) == NextDay(CivilFromDays(days))
  {
    hide *;
    DaysInverse(days);
    var c := CivilFromDays(days);
    NextDayIsOneMore(c);
    CivilInverse(NextDay(c));
  }

  // ----- weekdays, months, clock times -----------------------------------------------------------------

  /** Lines 112-115: 0 is Monday. */
  function Weekday(days: int): int
  {
    TruncMod(TruncMod(days, 7) + 7 + 3, 7)
  }

  /** Weekdays follow one another, before the epoch as well, and the epoch was a
      Thursday. */
  lemma WeekdaysFollow(days: int)
    ensures 0 <= Weekday(days) < 7 && Weekday(days + 1) == (Weekday(days) + 1) % 7
    ensures Weekday(0) == 3
  {
  }

  /** The date that many months away: the same day or the month's last. */
  function MonthsAway(c: CalendarDate, n: int): CalendarDate
  {
    var total := c.year * 12 + c.month - 1 + n;
    var year, month := total / 12, total % 12 + 1;
    var length := DaysInMonth(year, month);
    CalendarDate(year, month, if c.day < length then c.day else length)
  }

  /** Lines 125-132. */
  function AddMonths(days: int, n: int): int
  {
    DaysFromCivil(MonthsAway(CivilFromDays(days), n))
  }

  lemma MonthsAwayValid(c: CalendarDate, n: int)
    requires Valid(c)
    ensures Valid(MonthsAway(c, n))
    ensures var r := MonthsAway(c, n); r.year * 12 + r.month == c.year * 12 + c.month + n
  {
    var total := c.year * 12 + c.month - 1 + n;
    LongEnough(total / 12, total % 12 + 1);
    hide DaysInMonth;
  }

  /** Adding months lands in the month that many months away, on the same day or the last
      one. */
  lemma AddMonthsLands(days: int, n: int)
    ensures var c, r := CivilFromDays(days), CivilFromDays(AddMonths(days, n));
            Valid(r) && (r.year * 12 + r.month) - (c.year * 12 + c.month) == n
            && (r.day == c.day || (r.day < c.day && r.day == DaysInMonth(r.year, r.month)))
  {
    hide DaysFromCivil, CivilFromDays, DaysInMonth;
    DaysInverse(days);
    var c := CivilFromDays(days);
    MonthsAwayValid(c, n);
    CivilInverse(MonthsAway(c, n));
  }

  lemma LongEnough(year: int, month: int)
    requires 1 <= month <= 12
    ensures DaysInMonth(year, month) >= 28
  {
  }

  const MICROS_PER_SEC: int := 1_000_000
  const SECS_PER_DAY: int := 86_400

  datatype Clock = Clock(hour: int, minute: int, second: int, micro: int)

  /** Lines 190-207, with floored division. */
  function DateOf(micros: int): int { micros / MICROS_PER_SEC / SECS_PER_DAY }

  function TimeOfDay(micros: int): Clock
  {
    var sod := (micros / MICROS_PER_SEC) % SECS_PER_DAY;
    Clock(sod / 3600, sod % 3600 / 60, sod % 60, micros % MICROS_PER_SEC)
  }

  /** Lines 210-222. */
  function FromParts(days: int, t: Clock): int
  {
    (days * SECS_PER_DAY + (t.hour * 3600 + t.minute * 60 + t.second)) * MICROS_PER_SEC + t.micro
  }

  predicate ProperTime(t: Clock)
  {
    0 <= t.hour < 24 && 0 <= t.minute < 60 && 0 <= t.second < 60 && 0 <= t.micro < MICROS_PER_SEC
  }

  /** Date and time of day take a timestamp apart, and building one from parts puts it
      together, both ways. */
  lemma PartsInverse(micros: int, days: int, t: Clock)
    ensures ProperTime(TimeOfDay(micros)) && FromParts(DateOf(micros), TimeOfDay(micros)) == micros
    ensures ProperTime(t) ==> DateOf(FromParts(days, t)) == days && TimeOfDay(FromParts(days, t)) == t
  {
    MicrosBack(micros);
    if ProperTime(t) {
      PartsBack(days, t);
    }
    hide DateOf, TimeOfDay, FromParts;
  }

  lemma MicrosBack(micros: int)
    ensures ProperTime(TimeOfDay(micros)) && FromParts(DateOf(micros), TimeOfDay(micros)) == micros
  {
  }

  lemma PartsBack(days: int, t: Clock)
    requires ProperTime(t)
    ensures DateOf(FromParts(days, t)) == days && TimeOfDay(FromParts(days, t)) == t
  {
  }

  // ----- in 32 and 64 bits ---------------------------------------------------------------------

  const I32_MIN: int := -0x8000_0000
  const I32_MAX: int := 0x7FFF_FFFF

  type I32 = x: int | I32_MIN <= x <= I32_MAX

  /** `as i32`. */
  function Cut(x: int): I32
  {
    (x - I32_MIN) % 0x1_0000_0000 + I32_MIN
  }

  predicate Fits(x: int) { I32_MIN <= x <= I32_MAX }

  /** The first and the last date that has a day count. */
  const FIRST_DATE: CalendarDate := CalendarDate(-5877641, 6, 23)
  const LAST_DATE: CalendarDate := CalendarDate(5881580, 7, 11)

  predicate Before(a: CalendarDate, b: CalendarDate)
  {
    a.year < b.year || (a.year == b.year && (a.month < b.month || (a.month == b.month && a.day < b.day)))
  }

  predicate Countable(c: CalendarDate)
  {
    !Before(c, FIRST_DATE) && !Before(LAST_DATE, c)
  }

  /** Lines 64-71 in the source's widths. */
  function FromYmd(c: CalendarDate): Option<I32>
    requires Fits(c.year)
  {
    var y := if c.month <= 2 then c.year - 1 else c.year;
    if y < I32_MIN || (y < 0 && y - 399 < I32_MIN) then None else Some(Cut(DaysFromCivil(c)))
  }

  lemma Later(a: CalendarDate)
    requires Valid(a)
    ensures Before(a, NextDay(a))
  {
  }

  /** Later days have later dates. */
  lemma {:induction false} DatesAscend(i: int, j: int)
    requires i < j
    ensures Before(CivilFromDays(i), CivilFromDays(j))
    decreases j - i
  {
    hide *;
    DaysInverse(j - 1);
    CivilSteps(j - 1);
    Later(CivilFromDays(j - 1));
    if i < j - 1 {
      DatesAscend(i, j - 1);
      BeforeTrans(CivilFromDays(i), CivilFromDays(j - 1), CivilFromDays(j));
    }
  }

  lemma BeforeTrans(a: CalendarDate, b: CalendarDate, c: CalendarDate)
    requires Before(a, b) && Before(b, c)
    ensures Before(a, c)
  {
  }

  lemma BeforeNot(a: CalendarDate)
    ensures !Before(a, a)
  {
  }

  /** Dates are in the order of their day counts. */
  lemma OrderOfDays(a: CalendarDate, b: CalendarDate)
    requires Valid(a) && Valid(b)
    ensures Before(a, b) <==> DaysFromCivil(a) < DaysFromCivil(b)
  {
    hide *;
    CivilInverse(a);
    CivilInverse(b);
    var i, j := DaysFromCivil(a), DaysFromCivil(b);
    BeforeNot(a);
    if i < j {
      DatesAscend(i, j);
    } else if j < i {
      DatesAscend(j, i);
      if Before(a, b) {
        BeforeTrans(a, b, a);
      }
    }
  }

  lemma FirstDay()
    ensures Valid(FIRST_DATE) && DaysFromCivil(FIRST_DATE) == I32_MIN
  {
    assert Era(-5877641) == -14695 && DayOfYear(6, 23) == 114;
    hide Era, DayOfYear;
  }

  lemma LastDay()
    ensures Valid(LAST_DATE) && DaysFromCivil(LAST_DATE) == I32_MAX
  {
    assert Era(5881580) == 14703 && DayOfYear(7, 11) == 132;
    hide Era, DayOfYear;
  }

  /** A date's day count fits 32 bits exactly when the date lies between the extreme ones. */
  lemma CountableIffFits(c: CalendarDate)
    requires Valid(c)
    ensures Countable(c) <==> Fits(DaysFromCivil(c))
  {
    hide DaysFromCivil, Before, Valid;
    FirstDay();
    LastDay();
    OrderOfDays(c, FIRST_DATE);
    OrderOfDays(LAST_DATE, c);
  }

  lemma CutFits(x: int)
    ensures Cut(x) == x <==> Fits(x)
  {
  }

  /** A date comes back from its day count exactly when it is countable. */
  lemma CivilInverseIff(c: CalendarDate)
    requires Valid(c) && Fits(c.year)
    ensures (FromYmd(c).Some? && CivilFromDays(FromYmd(c).value) == c) <==> Countable(c)
    ensures Countable(c) ==> FromYmd(c) == Some(DaysFromCivil(c))
  {
    var d := DaysFromCivil(c);
    hide DaysFromCivil, CivilFromDays, Valid, Cut;
    CountableIffFits(c);
    CutFits(d);
    CivilInverse(c);
    DaysInverse(Cut(d));
  }

  /** The first of January of the year 6000000 comes back as a date 11.7 million years
      earlier. */
  lemma FarDateCounterexample()
    ensures var c := CalendarDate(6_000_000, 1, 1);
            Valid(c) && FromYmd(c) == Some(-2_104_231_824) && CivilFromDays(-2_104_231_824) != c
  {
    var c := CalendarDate(6_000_000, 1, 1);
    hide CivilFromDays, DaysFromCivil, Valid, Cut;
    FarDay();
    CivilInverseIff(c);
  }

  lemma FarDay()
    ensures var c := CalendarDate(6_000_000, 1, 1);
            Valid(c) && DaysFromCivil(c) == 2_190_735_472 && Cut(2_190_735_472) == -2_104_231_824
  {
  }

  /** Where both dates have a count the next one's is one more, unless the count is at its
      end, where it starts again. */
  lemma NextDayIff(c: CalendarDate)
    requires Valid(c) && Fits(c.year) && Fits(NextDay(c).year) && FromYmd(c).Some? && FromYmd(NextDay(c)).Some?
    ensures FromYmd(NextDay(c)).value == FromYmd(c).value + 1 <==> FromYmd(c).value != I32_MAX
    ensures FromYmd(c).value == I32_MAX ==> FromYmd(NextDay(c)).value == I32_MIN
  {
    NextDayIsOneMore(c);
    CutNext(DaysFromCivil(c));
    hide DaysFromCivil, NextDay, Valid, Cut;
  }

  lemma CutNext(d: int)
    ensures Cut(d + 1) == if Cut(d) == I32_MAX then I32_MIN else Cut(d) + 1
  {
  }

  /** Lines 125-132 in the source's widths. */
  function AddMonths32(days: I32, n: I32): Option<I32>
  {
    var c := CivilFromDays(days);
    var away := MonthsAway(c, n);
    if !Fits(c.year * 12 + c.month - 1 + n) || !Fits(away.year) then None else FromYmd(away)
  }

  /** Adding months lands on the date that many months away exactly when that is countable. */
  lemma AddMonthsIff(days: I32, n: I32)
    ensures var away := MonthsAway(CivilFromDays(days), n);
            && Valid(away)
            && ((AddMonths32(days, n).Some? && CivilFromDays(AddMonths32(days, n).value) == away) <==> Countable(away))
  {
    hide DaysFromCivil, CivilFromDays, FromYmd, Valid, DaysInMonth;
    DaysInverse(days);
    var c := CivilFromDays(days);
    var away := MonthsAway(c, n);
    MonthsAwayValid(c, n);
    if Countable(away) {
      MonthsFit(c, n);
    }
    if Fits(away.year) {
      CivilInverseIff(away);
    }
  }

  lemma MonthsFit(c: CalendarDate, n: int)
    requires Valid(c) && Countable(MonthsAway(c, n))
    ensures Fits(c.year * 12 + c.month - 1 + n) && Fits(MonthsAway(c, n).year)
  {
    MonthsAwayValid(c, n);
    hide MonthsAway, Valid;
  }

  /** One month after the last date there is no day count. */
  lemma LastMonthCounterexample()
    ensures MonthsAway(CivilFromDays(I32_MAX), 1) == CalendarDate(5881580, 8, 11)
    ensures AddMonths32(I32_MAX, 1).Some?
            && CivilFromDays(AddMonths32(I32_MAX, 1).value) != CalendarDate(5881580, 8, 11)
  {
    LastDay();
    CivilInverse(LAST_DATE);
    assert CivilFromDays(I32_MAX) == LAST_DATE;
    hide DaysFromCivil, CivilFromDays;
    assert MonthsAway(LAST_DATE, 1) == CalendarDate(5881580, 8, 11);
    AddMonthsIff(I32_MAX, 1);
  }

  /** Lines 210-222 in the source's widths. */
  function FromParts64(days: I32, t: Clock): Option<I64>
  {
    var seconds := days * SECS_PER_DAY + (t.hour * 3600 + t.minute * 60 + t.second);
    var whole := seconds * MICROS_PER_SEC;
    if whole < I64_MIN || whole > I64_MAX || whole + t.micro > I64_MAX
      || whole + t.micro < I64_MIN then None else Some(whole + t.micro)
  }

  /** The seconds whose first microsecond is a 64-bit count. */
  const FIRST_SECOND: int := -9_223_372_036_854
  const LAST_SECOND: int := 9_223_372_036_854

  /** Date and time of day are got back exactly when their second starts within the counts and
      they are not beyond the last count. */
  lemma PartsIff(days: I32, t: Clock)
    requires ProperTime(t)
    ensures var seconds := days * SECS_PER_DAY + (t.hour * 3600 + t.minute * 60 + t.second);
            (FromParts64(days, t).Some? && DateOf(FromParts64(days, t).value) == days
              && TimeOfDay(FromParts64(days, t).value) == t)
            <==> FIRST_SECOND <= seconds <= LAST_SECOND && (seconds == LAST_SECOND ==> t.micro <= 775_807)
  {
    PartsInverse(0, days, t);
    hide DateOf, TimeOfDay;
  }

  /** A timestamp is got back from its parts exactly when its second starts within the counts:
      the first 775808 microseconds are not. */
  lemma MicrosIff(micros: I64)
    ensures Fits(DateOf(micros)) && (FromParts64(DateOf(micros), TimeOfDay(micros)) == Some(micros) <==>
            micros >= FIRST_SECOND * MICROS_PER_SEC)
  {
    hide DateOf, TimeOfDay;
    PartsAdd(micros);
  }

  lemma PartsAdd(micros: I64)
    ensures var t := TimeOfDay(micros);
            DateOf(micros) * SECS_PER_DAY + (t.hour * 3600 + t.minute * 60 + t.second) == micros / MICROS_PER_SEC
    ensures TimeOfDay(micros).micro == micros % MICROS_PER_SEC && Fits(DateOf(micros))
  {
  }

  /** Day 106751992 is a day count, but none of its times is a timestamp; and the least
      timestamp is not got back from its parts. */
  lemma FarTimeCounterexample(t: Clock)
    requires ProperTime(t)
    ensures FromParts64(106_751_992, t) == None
    ensures FromParts64(DateOf(I64_MIN), TimeOfDay(I64_MIN)) != Some(I64_MIN)
  {
    MicrosIff(I64_MIN);
  }
}
