/** CTime and get_fattime with their loops, proved against Calendar. */
module CivilTime {
  import opened Calendar

  class CTime {
    var seconds: nat
    var minutes: nat
    var hours: nat
    var monthDay: nat
    var month: nat      // 0-11
    var year: nat       // year-1900
    var weekDay: nat    // 0-6 (Sun-Sat)

    /** The time that the object holds. */
    ghost function View(): Civil
      reads this
    {
      Civil(year + 1900, month, monthDay, hours, minutes, seconds)
    }

    constructor ()
      ensures View() == Break(0) == Civil(1970, 0, 1, 0, 0, 0) && weekDay == WeekDay(0) == 4
    {
      seconds, minutes, hours, monthDay, month, year, weekDay := 0, 0, 0, 1, 0, 70, 4;
    }

    method Set(time: nat)
      modifies this
      ensures View() == Break(time) && Valid(View()) && Seconds(View()) == time
      ensures weekDay == WeekDay(Days(View().day, View().month, View().year))
    {
      SecondsOfBreak(time);
      seconds := time % 60;
      minutes := time / 60 % 60;
      hours := time / 60 / 60 % 24;
      var days := time / 60 / 60 / 24;
      weekDay := (days + 4) % 7;
      var y, rest := FindYear(days);
      year := y - 1900;
      month, rest := FindMonth(rest, y);
      monthDay := rest + 1;
    }

    method SetTime(h: nat, m: nat, s: nat) returns (ok: bool)
      modifies this
      ensures ok <==> ValidTime(h, m, s)
      ensures View() == if ok then old(View()).(hour := h, minute := m, second := s) else old(View())
      ensures weekDay == old(weekDay)
    {
      if s > 59 || m > 59 || h > 23 {
        return false;
      }
      seconds, minutes, hours := s, m, h;
      return true;
    }

    /** Here the month counts from 1. */
    method SetDate(d: nat, mo: nat, y: nat) returns (ok: bool)
      modifies this
      ensures ok <==> mo >= 1 && ValidDate(d, mo - 1, y)
      ensures !ok ==> View() == old(View()) && weekDay == old(weekDay)
      ensures ok ==> View() == old(View()).(day := d, month := mo - 1, year := y)
      ensures ok ==> weekDay == WeekDay(Days(d, mo - 1, y))
    {
      if y < 1970 || !(1 <= mo <= 12) || !(1 <= d <= DaysOfMonth(mo - 1, y)) {
        return false;
      }
      monthDay, month, year := d, mo - 1, y - 1900;

      var total: nat := d - 1;
      var m: nat := mo - 1;
      while m > 0
        invariant m <= 11 && total + DaysBeforeMonth(m, y) == DaysBeforeMonth(mo - 1, y) + d - 1
      {
        total := total + DaysOfMonth(m - 1, y);
        m := m - 1;
      }
      var x: nat := y - 1;
      while x >= 1970
        invariant 1969 <= x < y && total + DaysBeforeYear(x + 1) == Days(d, mo - 1, y)
        decreases x
      {
        total := total + if IsLeapYear(x) then 366 else 365;
        x := x - 1;
      }
      weekDay := (total + 4) % 7;
      return true;
    }

    method Get() returns (result: nat)
      requires Valid(View())
      ensures result == Seconds(View())
    {
      result := 0;
      for y := 1970 to year + 1900
        invariant result == DaysBeforeYear(y)
      {
        result := result + if IsLeapYear(y) then 366 else 365;
      }
      for m := 0 to month
        invariant result == DaysBeforeYear(year + 1900) + DaysBeforeMonth(m, year + 1900)
      {
        result := result + DaysOfMonth(m, year + 1900);
      }
      result := result + (monthDay - 1);
      result := result * 24 + hours;
      result := result * 60 + minutes;
      result := result * 60 + seconds;
    }
  }

  /** The loop over the years in Set and get_fattime. */
  method FindYear(days: nat) returns (year: nat, rest: nat)
    ensures year == YearOf(days, 1970) && rest == DayOfYear(days, 1970) && year >= 1970
  {
    year, rest := 1970, days;
    while true
      invariant year >= 1970 && YearOf(rest, year) == YearOf(days, 1970)
        && DayOfYear(rest, year) == DayOfYear(days, 1970)
      decreases rest
    {
      var daysOfYear := if IsLeapYear(year) then 366 else 365;
      if rest < daysOfYear {
        break;
      }
      rest := rest - daysOfYear;
      year := year + 1;
    }
  }

  /** The loop over the months. */
  method FindMonth(days: nat, year: nat) returns (month: nat, rest: nat)
    requires days < DaysOfYear(year)
    ensures month == MonthOf(days, 0, year) <= 11 && rest == DayOfMonth(days, 0, year)
  {
    month, rest := 0, days;
    MonthSplits(days, 0, year);
    while true
      invariant month <= 11
      invariant MonthOf(rest, month, year) == MonthOf(days, 0, year)
      invariant DayOfMonth(rest, month, year) == DayOfMonth(days, 0, year)
      decreases 12 - month
    {
      var daysOfMonth := DaysOfMonth(month, year);
      if rest < daysOfMonth {
        break;
      }
      rest := rest - daysOfMonth;
      month := month + 1;
    }
  }

  /** `localTime` is the timer's local time. */
  method GetFatTime(localTime: nat) returns (word: nat)
    ensures word == FatTime(localTime)
  {
    var time := localTime;
    if time == 0 {
      return 0;
    }
    var second := time % 60;
    time := time / 60;
    var minute := time % 60;
    time := time / 60;
    var hour := time % 24;
    time := time / 24;
    var year, rest := FindYear(time);
    if year < 1980 {
      return 0;
    }
    YearSplits(time, 1970);
    var month, day := FindMonth(rest, year);
    var monthDay := day + 1;
    var fatDate := (year - 1980) * 0x200;
    fatDate := fatDate + (month + 1) * 0x20;
    fatDate := fatDate + monthDay;
    var fatTime := hour * 0x800;
    fatTime := fatTime + minute * 0x20;
    fatTime := fatTime + second / 2;
    word := fatDate * 0x1_0000 + fatTime;
  }
}
