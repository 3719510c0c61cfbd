/** Seconds since 1970 and civil time: two directions, and the packed time stamps of the FAT file system. */
module Calendar {

  predicate IsLeapYear(year: nat) {
    if year % 100 == 0 then year % 400 == 0 else year % 4 == 0
  }

  const DAYS_OF_MONTH := [31, 28, 31, 30, 31, 30, 31, 31, 30, 31, 30, 31]

  function DaysOfMonth(month: nat, year: nat): (d: nat)
    requires month <= 11
    ensures 28 <= d <= 31
  {
    if month == 1 && IsLeapYear(year) then 29 else DAYS_OF_MONTH[month]
  }

  function DaysOfYear(year: nat): nat {
    if IsLeapYear(year) then 366 else 365
  }

  /** `month` counts from 0, `day` from 1. */
  datatype Civil = Civil(year: nat, month: nat, day: nat, hour: nat, minute: nat, second: nat)

  predicate ValidDate(day: nat, month: nat, year: nat) {
    year >= 1970 && month <= 11 && 1 <= day <= DaysOfMonth(month, year)
  }

  predicate ValidTime(hour: nat, minute: nat, second: nat) {
    hour <= 23 && minute <= 59 && second <= 59
  }

  predicate Valid(c: Civil) {
    ValidDate(c.day, c.month, c.year) && ValidTime(c.hour, c.minute, c.second)
  }

  // ---------- from civil time to seconds ----------

  /** Days from 1970 to the beginning of a year. */
  function DaysBeforeYear(year: nat): nat
    requires year >= 1970
  {
    if year == 1970 then 0 else DaysBeforeYear(year - 1) + DaysOfYear(year - 1)
  }

  /** Days from the beginning of a year to that of a month. */
  function DaysBeforeMonth(month: nat, year: nat): nat
    requires month <= 12
  {
    if month == 0 then 0 else DaysBeforeMonth(month - 1, year) + DaysOfMonth(month - 1, year)
  }

  function Days(day: nat, month: nat, year: nat): nat
    requires ValidDate(day, month, year)
  {
    DaysBeforeYear(year) + DaysBeforeMonth(month, year) + day - 1
  }

  function Seconds(c: Civil): nat
    requires Valid(c)
  {
    ((Days(c.day, c.month, c.year) * 24 + c.hour) * 60 + c.minute) * 60 + c.second
  }

  function WeekDay(days: nat): nat {
    (days + 4) % 7
  }

  // ---------- from seconds to civil time ----------

  /** The year in which a day is, counted from the beginning of `year`. */
  function YearOf(days: nat, year: nat): nat
    decreases days
  {
    if days < DaysOfYear(year) then year else YearOf(days - DaysOfYear(year), year + 1)
  }

  function DayOfYear(days: nat, year: nat): nat
    decreases days
  {
    if days < DaysOfYear(year) then days else DayOfYear(days - DaysOfYear(year), year + 1)
  }

  /** The month in which a day is, counted from the beginning of `month`; 12 if there is none. */
  function MonthOf(days: nat, month: nat, year: nat): nat
    requires month <= 12
    decreases 12 - month
  {
    if month == 12 || days < DaysOfMonth(month, year) then month else
      MonthOf(days - DaysOfMonth(month, year), month + 1, year)
  }

  function DayOfMonth(days: nat, month: nat, year: nat): nat
    requires month <= 12
    decreases 12 - month
  {
    if month == 12 || days < DaysOfMonth(month, year) then days else
      DayOfMonth(days - DaysOfMonth(month, year), month + 1, year)
  }

  /** Civil time of so many seconds since the beginning of 1970. */
  function Break(time: nat): Civil {
    var days := time / 60 / 60 / 24;
    var year, rest := YearOf(days, 1970), DayOfYear(days, 1970);
    Civil(year, MonthOf(rest, 0, year), DayOfMonth(rest, 0, year) + 1, time / 60 / 60 % 24, time / 60 % 60, time % 60)
  }

  // ---------- the calendar ----------

  /** The leap years of the Gregorian calendar. */
  predicate HasLeapDay(year: nat) {
    year % 4 == 0 && (year % 100 != 0 || year % 400 == 0)
  }

  lemma LeapYears(year: nat)
    ensures IsLeapYear(year) <==> HasLeapDay(year)
  {
    if year % 100 == 0 {
      CenturyIsFourth(year);
    }
  }

  lemma CenturyIsFourth(year: nat)
    requires year % 100 == 0
    ensures year % 4 == 0
  {
    var fourth := 25 * (year / 100);
    FourTimes(fourth);
    assert year == 4 * fourth;
  }

  lemma FourTimes(n: nat)
    ensures 4 * n % 4 == 0
  {
  }

  lemma YearHasItsMonths(year: nat)
    ensures DaysBeforeMonth(12, year) == DaysOfYear(year)
  {
    MonthTable(12, year);
  }

  const MONTH_STARTS: seq<nat> := [0, 31, 59, 90, 120, 151, 181, 212, 243, 273, 304, 334, 365]

  /** Its months: where they begin, with the leap day behind February. */
  lemma MonthTable(month: nat, year: nat)
    requires month <= 12
    ensures DaysBeforeMonth(month, year) == MONTH_STARTS[month] + if month >= 2 && HasLeapDay(year) then 1 else 0
    ensures month == 12 ==> DaysBeforeMonth(month, year) == DaysOfYear(year)
  {
    LeapYears(year);
    if month > 0 {
      MonthTable(month - 1, year);
    }
  }

  /** Its dates: 31, 30, and 28 or 29 days. */
  lemma ValidDateIff(day: nat, month: nat, year: nat)
    ensures ValidDate(day, month, year) <==>
      && year >= 1970 && day >= 1 && month <= 11
      && day <= if month == 1 then if HasLeapDay(year) then 29 else 28
                else if month == 3 || month == 5 || month == 8 || month == 10 then 30 else 31
  {
    LeapYears(year);
  }

  /** The first day of 1970 was a Thursday, and the days of the week follow each other. */
  lemma WeekDays(days: nat)
    ensures WeekDay(0) == 4 && WeekDay(days) < 7
    ensures WeekDay(days + 1) == if WeekDay(days) == 6 then 0 else WeekDay(days) + 1
  {
  }

  /** The Gregorian calendar in closed form. */
  lemma {:induction false} YearsInClosedForm(year: nat)
    requires year >= 1970
    ensures DaysBeforeYear(year) == 365 * (year - 1970) + (year - 1969) / 4 - (year - 1901) / 100 + (year - 1601) / 400
    decreases year
  {
    if year > 1970 {
      YearsInClosedForm(year - 1);
      LeapDays(year - 1);
    }
  }

  /** All in one formula. */
  lemma SecondsInClosedForm(c: Civil)
    requires Valid(c)
    ensures var y, leap := c.year, if c.month >= 2 && HasLeapDay(c.year) then 1 else 0;
      Seconds(c) == 86400 * (365 * (y - 1970) + (y - 1969) / 4 - (y - 1901) / 100 + (y - 1601) / 400
                             + MONTH_STARTS[c.month] + leap + c.day - 1)
                    + 3600 * c.hour + 60 * c.minute + c.second
  {
    YearsInClosedForm(c.year);
    MonthTable(c.month, c.year);
  }

  lemma LeapDays(year: nat)
    requires year >= 1970
    ensures (year - 1968) / 4 - (year - 1969) / 4 == if year % 4 == 0 then 1 else 0
    ensures (year - 1900) / 100 - (year - 1901) / 100 == if year % 100 == 0 then 1 else 0
    ensures (year - 1600) / 400 - (year - 1601) / 400 == if year % 400 == 0 then 1 else 0
    ensures year % 400 == 0 ==> year % 100 == 0
    ensures year % 100 == 0 ==> year % 4 == 0
  {
    Fourths(year);
    Centuries(year);
    FourCenturies(year);
  }

  lemma Fourths(year: nat)
    requires year >= 1970
    ensures (year - 1968) / 4 - (year - 1969) / 4 == if year % 4 == 0 then 1 else 0
  {
  }

  lemma Centuries(year: nat)
    requires year >= 1970
    ensures (year - 1900) / 100 - (year - 1901) / 100 == if year % 100 == 0 then 1 else 0
    ensures year % 100 == 0 ==> year % 4 == 0
  {
    if year % 100 == 0 {
      CenturyIsFourth(year);
    }
  }

  lemma FourCenturies(year: nat)
    requires year >= 1970
    ensures (year - 1600) / 400 - (year - 1601) / 400 == if year % 400 == 0 then 1 else 0
    ensures year % 400 == 0 ==> year % 100 == 0
  {
    assert year == 400 * (year / 400) + year % 400;
  }

  lemma {:induction false} YearSplits(days: nat, from: nat)
    requires from >= 1970
    ensures YearOf(days, from) >= from && DayOfYear(days, from) < DaysOfYear(YearOf(days, from))
    ensures DaysBeforeYear(YearOf(days, from)) + DayOfYear(days, from) == DaysBeforeYear(from) + days
    decreases days
  {
    if days >= DaysOfYear(from) {
      YearSplits(days - DaysOfYear(from), from + 1);
    }
  }

  lemma {:induction false} MonthSplits(days: nat, from: nat, year: nat)
    requires from <= 12 && DaysBeforeMonth(from, year) + days < DaysOfYear(year)
    ensures MonthOf(days, from, year) <= 11
    ensures DayOfMonth(days, from, year) < DaysOfMonth(MonthOf(days, from, year), year)
    ensures DaysBeforeMonth(MonthOf(days, from, year), year) + DayOfMonth(days, from, year)
            == DaysBeforeMonth(from, year) + days
    decreases 12 - from
  {
    YearHasItsMonths(year);
    if from < 12 && days >= DaysOfMonth(from, year) {
      MonthSplits(days - DaysOfMonth(from, year), from + 1, year);
    }
  }

  // ---------- the two directions are inverse ----------

  lemma TimeSplits(time: nat)
    ensures (time / 60 / 60 / 24 * 24 + time / 60 / 60 % 24) == time / 60 / 60
    ensures time / 60 / 60 * 60 + time / 60 % 60 == time / 60
    ensures time / 60 * 60 + time % 60 == time
  {
  }

  /** Breaking a time down and making it up again gives the same time. */
  lemma SecondsOfBreak(time: nat)
    ensures Valid(Break(time)) && Seconds(Break(time)) == time
    ensures Days(Break(time).day, Break(time).month, Break(time).year) == time / 60 / 60 / 24
  {
    var days := time / 60 / 60 / 24;
    TimeSplits(time);
    YearSplits(days, 1970);
    MonthSplits(DayOfYear(days, 1970), 0, YearOf(days, 1970));
  }

  predicate DateBefore(a: Civil, b: Civil) {
    a.year < b.year || (a.year == b.year && (a.month < b.month || (a.month == b.month && a.day < b.day)))
  }

  predicate SameDate(a: Civil, b: Civil) {
    a.year == b.year && a.month == b.month && a.day == b.day
  }

  predicate TimeBefore(a: Civil, b: Civil) {
    a.hour < b.hour || (a.hour == b.hour && (a.minute < b.minute || (a.minute == b.minute && a.second < b.second)))
  }

  predicate Before(a: Civil, b: Civil) {
    DateBefore(a, b) || (SameDate(a, b) && TimeBefore(a, b))
  }

  lemma {:induction false} YearsGrow(a: nat, b: nat)
    requires 1970 <= a < b
    ensures DaysBeforeYear(a) + DaysOfYear(a) <= DaysBeforeYear(b)
    decreases b
  {
    if a + 1 < b {
      YearsGrow(a, b - 1);
    }
  }

  lemma {:induction false} MonthsGrow(a: nat, b: nat, year: nat)
    requires a < b <= 12
    ensures DaysBeforeMonth(a, year) + DaysOfMonth(a, year) <= DaysBeforeMonth(b, year)
    decreases b
  {
    if a + 1 < b {
      MonthsGrow(a, b - 1, year);
    }
  }

  lemma DaysGrow(a: Civil, b: Civil)
    requires Valid(a) && Valid(b) && DateBefore(a, b)
    ensures Days(a.day, a.month, a.year) < Days(b.day, b.month, b.year)
  {
    if a.year < b.year {
      YearsGrow(a.year, b.year);
      MonthsGrow(a.month, 12, a.year);
      YearHasItsMonths(a.year);
    } else if a.month < b.month {
      MonthsGrow(a.month, b.month, a.year);
    }
  }

  /** Later civil times have more seconds. */
  lemma SecondsGrow(a: Civil, b: Civil)
    requires Valid(a) && Valid(b) && Before(a, b)
    ensures Seconds(a) < Seconds(b)
  {
    if DateBefore(a, b) {
      DaysGrow(a, b);
    }
  }

  lemma BeforeIsTotal(a: Civil, b: Civil)
    ensures Before(a, b) || Before(b, a) || a == b
  {
  }

  /** Making a time up from a valid date and time and breaking it down again gives every field back. */
  lemma BreakOfSeconds(c: Civil)
    requires Valid(c)
    ensures Break(Seconds(c)) == c
  {
    var b := Break(Seconds(c));
    SecondsOfBreak(Seconds(c));
    BeforeIsTotal(b, c);
    if Before(b, c) {
      SecondsGrow(b, c);
    } else if Before(c, b) {
      SecondsGrow(c, b);
    }
  }

  lemma BreakGrows(s: nat, t: nat)
    requires s < t
    ensures Before(Break(s), Break(t))
  {
    SecondsOfBreak(s);
    SecondsOfBreak(t);
    BeforeIsTotal(Break(s), Break(t));
    if Before(Break(t), Break(s)) {
      SecondsGrow(Break(t), Break(s));
    }
  }

  /** Both directions agree on the day of the week. */
  lemma WeekDaysAgree(c: Civil)
    requires Valid(c)
    ensures WeekDay(Seconds(c) / 60 / 60 / 24) == WeekDay(Days(c.day, c.month, c.year))
  {
    BreakOfSeconds(c);
    SecondsOfBreak(Seconds(c));
  }

  // ---------- FAT time stamps ----------

  /** get_fattime for a civil time: bit fields of 7, 4, 5, 5, 6 and 5 bits. */
  function FatTime(time: nat): nat {
    var c := Break(time);
    if time == 0 || c.year < 1980 then 0 else
      ((c.year - 1980) * 0x200 + (c.month + 1) * 0x20 + c.day) * 0x1_0000
      + (c.hour * 0x800 + c.minute * 0x20 + c.second / 2)
  }

  /** The civil time that a time stamp stands for. */
  function FromFat(word: nat): Civil
    requires word / 0x20_0000 % 0x10 >= 1
  {
    Civil(1980 + word / 0x200_0000, word / 0x20_0000 % 0x10 - 1, word / 0x1_0000 % 0x20,
          word / 0x800 % 0x20, word / 0x20 % 0x40, word % 0x20 * 2)
  }

  lemma Fields(y: nat, mo: nat, d: nat, h: nat, mi: nat, s: nat, w: nat)
    requires mo < 0x10 && d < 0x20 && h < 0x20 && mi < 0x40 && s < 0x20
    requires w == (y * 0x200 + mo * 0x20 + d) * 0x1_0000 + (h * 0x800 + mi * 0x20 + s)
    ensures w / 0x200_0000 == y && w / 0x20_0000 % 0x10 == mo && w / 0x1_0000 % 0x20 == d
    ensures w / 0x800 % 0x20 == h && w / 0x20 % 0x40 == mi && w % 0x20 == s
  {
    assert w / 0x20 == (y * 0x200 + mo * 0x20 + d) * 0x800 + h * 0x40 + mi;
    assert w / 0x800 == (y * 0x200 + mo * 0x20 + d) * 0x20 + h;
    assert w / 0x1_0000 == y * 0x200 + mo * 0x20 + d;
    assert w / 0x20_0000 == y * 0x10 + mo;
  }

  /** A time stamp from 1980 on decodes to the civil time, its seconds rounded down to an even number. */
  lemma FatTimeDecodes(time: nat)
    requires Break(time).year >= 1980
    ensures FatTime(time) / 0x20_0000 % 0x10 >= 1
    ensures FromFat(FatTime(time)) == Break(time).(second := Break(time).second / 2 * 2)
  {
    var c := Break(time);
    SecondsOfBreak(time);
    ZeroIs1970();
    Fields(c.year - 1980, c.month + 1, c.day, c.hour, c.minute, c.second / 2, FatTime(time));
  }

  lemma ZeroIs1970()
    ensures Break(0).year == 1970
  {
  }

  /** There is no time stamp exactly for times before 1980. */
  lemma NoFatTimeIff(time: nat)
    ensures FatTime(time) == 0 <==> Break(time).year < 1980
  {
  }

  /** Time stamps do not go back. */
  lemma FatTimeGrows(s: nat, t: nat)
    requires s <= t
    ensures FatTime(s) <= FatTime(t)
  {
    SecondsOfBreak(s);
    SecondsOfBreak(t);
    if s < t {
      BreakGrows(s, t);
      FatFieldsGrow(Break(s), Break(t));
    }
  }

  /** Every time of 32 bits has a time stamp of 32 bits: the last one is in 2106, and the year's field ends
      with 2107. */
  lemma FatTimeFits(time: nat)
    requires time < 0x1_0000_0000
    ensures FatTime(time) < 0x1_0000_0000
  {
    var c := Break(time);
    SecondsOfBreak(time);
    if c.year >= 2107 {
      YearsInClosedForm(2107);
      if c.year > 2107 {
        YearsGrow(2107, c.year);
      }
    }
  }

  function Packed(c: Civil): int {
    ((c.year - 1980) * 0x200 + (c.month + 1) * 0x20 + c.day) * 0x1_0000
      + (c.hour * 0x800 + c.minute * 0x20 + c.second / 2)
  }

  lemma FatFieldsGrow(a: Civil, b: Civil)
    requires Valid(a) && Valid(b) && Before(a, b)
    ensures Packed(a) <= Packed(b)
  {
  }
}
