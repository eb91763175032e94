/** The proleptic Gregorian calendar, as a count of days. */
module Civil {

  // ── Division, as the program's machine does it ──────────────────────────────

  /** Division rounds toward zero. */
  function Quot(a: int, b: int): int
    requires b > 0
  {
    if a >= 0 then a / b else -(-a / b)
  }

  function Rem(a: int, b: int): int
    requires b > 0
  {
    a - b * Quot(a, b)
  }

  // ── The calendar ────────────────────────────────────────────────────────────

  predicate IsLeapYear(year: int) {
    (Rem(year, 4) == 0 && Rem(year, 100) != 0) || Rem(year, 400) == 0
  }

  function DaysInMonth(year: int, month: int): int {
    if month in [1, 3, 5, 7, 8, 10, 12] then 31
    else if month in [4, 6, 9, 11] then 30
    else if month == 2 then (if IsLeapYear(year) then 29 else 28)
    else 0
  }

  datatype Date = Date(year: int, month: int, day: int)

  predicate Valid(d: Date) {
    1 <= d.day <= DaysInMonth(d.year, d.month)
  }

  function DaysFromCivil(year: int, month: int, day: int): int {
    var y := if month <= 2 then year - 1 else year;
    var era := y / 400;
    var yoe := y - era * 400;
    var mp := Rem(month + 9, 12);
    var doy := Quot(153 * mp + 2, 5) + day - 1;
    var doe := yoe * 365 + yoe / 4 - yoe / 100 + doy;
    era * 146_097 + doe - 719_468
  }

  function CivilFromDays(days: int): Date {
    var z := days + 719_468;
    var era := z / 146_097;
    var doe := z - era * 146_097;
    var yoe := Quot(doe - Quot(doe, 1460) + Quot(doe, 36_524) - Quot(doe, 146_096), 365);
    var doy := doe - (365 * yoe + Quot(yoe, 4) - Quot(yoe, 100));
    var mp := Quot(5 * doy + 2, 153);
    var day := doy - Quot(153 * mp + 2, 5) + 1;
    var month := if mp < 10 then mp + 3 else mp - 9;
    var year := yoe + era * 400 + if month <= 2 then 1 else 0;
    Date(year, month, day)
  }

  // ── The year that starts in March ───────────────────────────────────────────

  /** Days before the year `yoe` of its era of 400 years. */
  function YearStart(yoe: int): int {
    yoe * 365 + yoe / 4 - yoe / 100
  }

  /** The March year `yoe` of an era ends with a leap day. */
  predicate LongYear(yoe: int) {
    yoe % 4 == 3 && (yoe % 100 != 99 || yoe == 399)
  }

  function YearOf(doe: int): int {
    (doe - doe / 1460 + doe / 36_524 - doe / 146_096) / 365
  }

  lemma YearLength(yoe: int)
    requires 0 <= yoe < 400
    ensures YearStart(yoe + 1) - YearStart(yoe) == if LongYear(yoe) && yoe < 399 then 366 else 365
    ensures YearStart(399) + 366 == 146_097 && YearStart(0) == 0
  {
  }

  lemma DivIs(a: int, b: int, q: int)
    requires b > 0 && b * q <= a < b * q + b
    ensures a / b == q
  {
    var d := a / b;
    assert a == b * d + a % b;
    if d < q {
      MulMonotone(b, d + 1, q);
    }
    if d > q {
      MulMonotone(b, q + 1, d);
    }
  }

  lemma MulMonotone(n: int, x: int, y: int)
    requires n >= 0 && x <= y
    ensures n * x <= n * y
  {
  }

  lemma ModAdd(a: int, b: int, k: int)
    requires b > 0
    ensures (a + b * k) % b == a % b
  {
    assert a == b * (a / b) + a % b;
    assert b * (a / b + k) == b * (a / b) + b * k;
    DivIs(a + b * k, b, a / b + k);
  }

  /** The year of a day of an era: what the corrections add up to is one at most, for the last
      day of a leap year and never for the first day of a year. */
  lemma YearOfDay(yoe: int, doy: int)
    requires 0 <= yoe < 400 && 0 <= doy <= 365 && (doy == 365 ==> LongYear(yoe))
    ensures 0 <= YearStart(yoe) + doy < 146_097 && YearOf(YearStart(yoe) + doy) == yoe
  {
    var c, o, a := yoe / 100, yoe % 100 / 4, yoe % 4;
    assert yoe == 100 * c + 4 * o + a && yoe / 4 == 25 * c + o;
    var doe := YearStart(yoe) + doy;
    assert doe == 36_524 * c + 1461 * o + 365 * a + doy;
    Centuries(c, o, a, doy);
    var rest := 24 * c + o + 365 * a + doy;
    var t := if rest >= 1460 then 1 else 0;
    DivIs(doe, 1460, 25 * c + o + t);
    DivIs(doe - doe / 1460 + doe / 36_524 - doe / 146_096, 365, yoe);
  }

  lemma Centuries(c: int, o: int, a: int, doy: int)
    requires 0 <= c <= 3 && 0 <= o <= 24 && 0 <= a <= 3 && 0 <= doy <= 365
    requires doy == 365 ==> a == 3 && (o == 24 ==> c == 3)
    ensures var doe := 36_524 * c + 1461 * o + 365 * a + doy; 0 <= doe < 146_097 && doe / 36_524 - doe / 146_096 == c
  {
    var doe := 36_524 * c + 1461 * o + 365 * a + doy;
    if o == 24 && a == 3 && doy == 365 {
      assert doe == 146_096;
    } else {
      DivIs(doe, 36_524, c);
      DivIs(doe, 146_096, 0);
    }
  }

  lemma DayOfYear(doe: int) returns (yoe: int, doy: int)
    requires 0 <= doe < 146_097
    ensures 0 <= yoe < 400 && 0 <= doy <= 365 && (doy == 365 ==> LongYear(yoe)) && doe == YearStart(yoe) + doy
  {
    yoe := doe / 366;
    doy := doe - YearStart(yoe);
    while doy > 365 || (doy == 365 && !LongYear(yoe))
      invariant 0 <= yoe < 400 && doy == doe - YearStart(yoe) >= 0
      decreases 400 - yoe
    {
      YearLength(yoe);
      yoe := yoe + 1;
      doy := doe - YearStart(yoe);
    }
  }

  // ── Months ──────────────────────────────────────────────────────────────────

  /** Days before the month `mp` of a March year. */
  function MonthStart(mp: int): int {
    (153 * mp + 2) / 5
  }

  /** The length of the month `mp` of the March year `yoe`. */
  function MonthLength(yoe: int, mp: int): int {
    if mp == 11 then (if LongYear(yoe) then 29 else 28) else MonthStart(mp + 1) - MonthStart(mp)
  }

  lemma MonthOfDay(mp: int, day: int)
    requires 0 <= mp <= 11 && 0 <= day && (mp < 11 ==> MonthStart(mp) + day < MonthStart(mp + 1))
    requires (mp == 11 ==> day < 29)
    ensures (5 * (MonthStart(mp) + day) + 2) / 153 == mp
  {
  }

  lemma DayOfMonth(doy: int)
    requires 0 <= doy <= 365
    ensures var mp := (5 * doy + 2) / 153;
            0 <= mp <= 11 && 0 <= doy - MonthStart(mp) && (mp < 11 ==> doy < MonthStart(mp + 1)) &&
                  (mp == 11 ==> doy - MonthStart(mp) < 29)
  {
  }

  /** The month of the calendar that is `mp` months after March. */
  function MonthOf(mp: int): int {
    if mp < 10 then mp + 3 else mp - 9
  }

  function YearIn(era: int, yoe: int, mp: int): int {
    yoe + era * 400 + if mp >= 10 then 1 else 0
  }

  lemma LeapShift(era: int, yoe: int)
    requires 0 <= yoe < 400
    ensures IsLeapYear(yoe + era * 400 + 1) <==> LongYear(yoe)
  {
    hide Rem;
    var year := yoe + era * 400 + 1;
    ModAdd(yoe + 1, 4, 100 * era);
    ModAdd(yoe + 1, 100, 4 * era);
    ModAdd(yoe + 1, 400, era);
    RemZero(year, 4);
    RemZero(year, 100);
    RemZero(year, 400);
    assert year % 4 == (yoe + 1) % 4 && year % 100 == (yoe + 1) % 100 && year % 400 == (yoe + 1) % 400;
    LongYearIs(yoe);
  }

  lemma LongYearIs(yoe: int)
    requires 0 <= yoe < 400
    ensures LongYear(yoe) <==> ((yoe + 1) % 4 == 0 && (yoe + 1) % 100 != 0) || (yoe + 1) % 400 == 0
  {
  }

  lemma RemZero(a: int, b: int)
    requires b > 0
    ensures Rem(a, b) == 0 <==> a % b == 0
  {
    assert a == b * (a / b) + a % b;
    if a < 0 {
      assert -a == b * (-a / b) + (-a) % b;
      if a % b == 0 {
        assert -a == b * (-(a / b));
        DivIs(-a, b, -(a / b));
      }
      if (-a) % b == 0 {
        assert a == b * (-(-a / b));
        DivIs(a, b, -(-a / b));
      }
    }
  }

  lemma MonthLengths(era: int, yoe: int, mp: int)
    requires 0 <= yoe < 400 && 0 <= mp <= 11
    ensures DaysInMonth(YearIn(era, yoe, mp), MonthOf(mp)) == MonthLength(yoe, mp)
  {
    LeapShift(era, yoe);
  }

  // ── Both ways ───────────────────────────────────────────────────────────────

  /** A day of the era, as the parts of a date. */
  lemma FromDayOfEra(era: int, yoe: int, mp: int, day: int)
    requires 0 <= yoe < 400 && 0 <= mp <= 11 && 0 <= day < MonthLength(yoe, mp)
    ensures var n := era * 146_097 + YearStart(yoe) + MonthStart(mp) + day - 719_468;
            CivilFromDays(n) == Date(YearIn(era, yoe, mp), MonthOf(mp), day + 1)
  {
    hide *;
    var doy := MonthStart(mp) + day;
    var doe := YearStart(yoe) + doy;
    DayBound(yoe, mp, day);
    YearOfDay(yoe, doy);
    MonthOfDay(mp, day);
    Positive(doe, yoe, doy, mp);
    Assembled(era, doe, yoe, doy, mp, day);
  }

  lemma Assembled(era: int, doe: int, yoe: int, doy: int, mp: int, day: int)
    requires 0 <= doe < 146_097 && 0 <= mp <= 11 && doe == YearStart(yoe) + doy && doy == MonthStart(mp) + day
    requires yoe == Quot(doe - Quot(doe, 1460) + Quot(doe, 36_524) - Quot(doe, 146_096), 365)
    requires Quot(yoe, 4) == yoe / 4 && Quot(yoe, 100) == yoe / 100
    requires Quot(5 * doy + 2, 153) == mp && Quot(153 * mp + 2, 5) == MonthStart(mp)
    ensures CivilFromDays(era * 146_097 + doe - 719_468) == Date(YearIn(era, yoe, mp), MonthOf(mp), day + 1)
  {
    hide Quot, MonthStart;
    var n := era * 146_097 + doe - 719_468;
    DivIs(n + 719_468, 146_097, era);
    assert n + 719_468 - era * 146_097 == doe;
  }

  lemma DayBound(yoe: int, mp: int, day: int)
    requires 0 <= yoe < 400 && 0 <= mp <= 11 && 0 <= day < MonthLength(yoe, mp)
    ensures 0 <= MonthStart(mp) + day <= 365 && (MonthStart(mp) + day == 365 ==> LongYear(yoe)) && MonthStart(mp) >= 0
    ensures (mp == 11 ==> day < 29) && (mp < 11 ==> MonthStart(mp) + day < MonthStart(mp + 1))
  {
  }

  lemma Positive(doe: int, yoe: int, doy: int, mp: int)
    requires 0 <= doe < 146_097 && 0 <= yoe && 0 <= doy && 0 <= mp
    ensures Quot(doe - Quot(doe, 1460) + Quot(doe, 36_524) - Quot(doe, 146_096), 365) == YearOf(doe)
    ensures Quot(yoe, 4) == yoe / 4 && Quot(yoe, 100) == yoe / 100
    ensures Quot(5 * doy + 2, 153) == (5 * doy + 2) / 153 && Quot(153 * mp + 2, 5) == MonthStart(mp)
  {
  }

  /** The parts of a valid date, in its March year. */
  lemma ToDayOfEra(d: Date) returns (era: int, yoe: int, mp: int)
    requires Valid(d)
    ensures 0 <= yoe < 400 && 0 <= mp <= 11 && d.year == YearIn(era, yoe, mp) && d.month == MonthOf(mp)
    ensures 0 <= d.day - 1 < MonthLength(yoe, mp)
    ensures DaysFromCivil(d.year, d.month, d.day) == era * 146_097 + YearStart(yoe) + MonthStart(mp) +
              (d.day - 1) - 719_468
  {
    var y := if d.month <= 2 then d.year - 1 else d.year;
    era, yoe, mp := y / 400, y % 400, if d.month <= 2 then d.month + 9 else d.month - 3;
    MonthLengths(era, yoe, mp);
    hide IsLeapYear;
  }

  /** Every date is found back from its count of days. */
  lemma DateRoundTrip(d: Date)
    requires Valid(d)
    ensures CivilFromDays(DaysFromCivil(d.year, d.month, d.day)) == d
  {
    hide *;
    var era, yoe, mp := ToDayOfEra(d);
    FromDayOfEra(era, yoe, mp, d.day - 1);
  }

  /** Every count of days is that of a valid date, and is found back from it. */
  lemma DaysRoundTrip(n: int)
    ensures var d := CivilFromDays(n); Valid(d) && DaysFromCivil(d.year, d.month, d.day) == n
  {
    hide IsLeapYear, DaysFromCivil, CivilFromDays, YearStart, MonthStart, MonthLength;
    var era, doe := (n + 719_468) / 146_097, (n + 719_468) % 146_097;
    var yoe, doy := DayOfYear(doe);
    var mp := (5 * doy + 2) / 153;
    DayOfMonth(doy);
    var day := doy - MonthStart(mp);
    InMonth(yoe, mp, doy);
    FromDayOfEra(era, yoe, mp, day);
    MonthLengths(era, yoe, mp);
    var d := CivilFromDays(n);
    var era2, yoe2, mp2 := ToDayOfEra(d);
    SameMarchYear(era, yoe, mp, era2, yoe2, mp2);
  }

  lemma InMonth(yoe: int, mp: int, doy: int)
    requires 0 <= doy <= 365 && (doy == 365 ==> LongYear(yoe)) && 0 <= mp <= 11
    requires 0 <= doy - MonthStart(mp) && (mp < 11 ==> doy < MonthStart(mp + 1))
    requires (mp == 11 ==> doy - MonthStart(mp) < 29)
    ensures 0 <= doy - MonthStart(mp) < MonthLength(yoe, mp)
  {
  }

  lemma SameMarchYear(era: int, yoe: int, mp: int, era2: int, yoe2: int, mp2: int)
    requires 0 <= yoe < 400 && 0 <= yoe2 < 400 && 0 <= mp <= 11 && 0 <= mp2 <= 11
    requires YearIn(era, yoe, mp) == YearIn(era2, yoe2, mp2) && MonthOf(mp) == MonthOf(mp2)
    ensures era == era2 && yoe == yoe2 && mp == mp2
  {
  }

  // ── The day after ───────────────────────────────────────────────────────────

  function NextDay(d: Date): Date {
    if d.day < DaysInMonth(d.year, d.month) then Date(d.year, d.month, d.day + 1)
    else if d.month < 12 then Date(d.year, d.month + 1, 1)
    else Date(d.year + 1, 1, 1)
  }

  /** One more day is the next date of the calendar. With the date of day 0, this says which date
      every count of days stands for. */
  lemma NextDayCounts(d: Date)
    requires Valid(d)
    ensures Valid(NextDay(d))
    ensures var next := NextDay(d);
      DaysFromCivil(next.year, next.month, next.day) == DaysFromCivil(d.year, d.month, d.day) + 1
    ensures CivilFromDays(0) == Date(1970, 1, 1)
  {
    hide IsLeapYear, DaysFromCivil, YearStart, CivilFromDays;
    var d' := NextDay(d);
    var era, yoe, mp := ToDayOfEra(d);
    var era', yoe', mp' := ToDayOfEra(d');
    MonthLengths(era, yoe, mp);
    if d.day < DaysInMonth(d.year, d.month) {
      SameMarchYear(era, yoe, mp, era', yoe', mp');
    } else if mp < 11 {
      NextMonth(era, yoe, mp, d, d');
      SameMarchYear(era, yoe, mp + 1, era', yoe', mp');
    } else if yoe < 399 {
      SameMarchYear(era, yoe + 1, 0, era', yoe', mp');
      YearLength(yoe);
    } else {
      SameMarchYear(era + 1, 0, 0, era', yoe', mp');
      YearLength(399);
    }
    Epoch();
  }

  lemma NextMonth(era: int, yoe: int, mp: int, d: Date, d': Date)
    requires 0 <= yoe < 400 && 0 <= mp < 11 && d.year == YearIn(era, yoe, mp) && d.month == MonthOf(mp)
    requires d' == if d.month < 12 then Date(d.year, d.month + 1, 1) else Date(d.year + 1, 1, 1)
    ensures d'.year == YearIn(era, yoe, mp + 1) && d'.month == MonthOf(mp + 1)
  {
  }

  lemma Epoch()
    ensures CivilFromDays(0) == Date(1970, 1, 1)
  {
  }

  // ── Timestamps ──────────────────────────────────────────────────────────────

  datatype Moment = Moment(date: Date, hour: int, minute: int, second: int)

  predicate ValidMoment(m: Moment) {
    Valid(m.date) && 0 <= m.hour < 24 && 0 <= m.minute < 60 && 0 <= m.second < 60
  }

  function PartsFromTimestamp(ts: int): Moment {
    var secs := ts % 86_400;
    Moment(CivilFromDays(ts / 86_400), secs / 3600, secs % 3600 / 60, secs % 60)
  }

  function TimestampFromParts(m: Moment): int {
    DaysFromCivil(m.date.year, m.date.month, m.date.day) * 86_400 + m.hour * 3600 + m.minute * 60 + m.second
  }

  /** Every timestamp, before 1970 too, is found back from its parts, and the parts from it. */
  lemma TimestampRoundTrip(ts: int, m: Moment)
    ensures ValidMoment(PartsFromTimestamp(ts)) && TimestampFromParts(PartsFromTimestamp(ts)) == ts
    ensures ValidMoment(m) ==> PartsFromTimestamp(TimestampFromParts(m)) == m
  {
    hide CivilFromDays, DaysFromCivil, Valid;
    DaysRoundTrip(ts / 86_400);
    if ValidMoment(m) {
      DateRoundTrip(m.date);
      var days := DaysFromCivil(m.date.year, m.date.month, m.date.day);
      var secs := m.hour * 3600 + m.minute * 60 + m.second;
      DivIs(days * 86_400 + secs, 86_400, days);
      DivIs(secs, 3600, m.hour);
      DivIs(m.minute * 60 + m.second, 60, m.minute);
    }
  }

  // ── The time of day alone ───────────────────────────────────────────────────

  datatype Clock = Clock(hour: int, minute: int, second: int)

  /** The time of day as it is taken without the date: remainders have the sign of the timestamp. */
  function TimeFromTimestamp(ts: int): Clock {
    var secs := Rem(ts, 86_400);
    Clock(Quot(secs, 3600), Quot(Rem(secs, 3600), 60), Rem(secs, 60))
  }

  lemma TruncatedBefore1970(ts: int)
    requires ts < 0
    ensures Rem(ts, 86_400) == if ts % 86_400 == 0 then 0 else ts % 86_400 - 86_400
  {
  }

  lemma PlainClock(secs: int)
    requires 0 <= secs
    ensures Quot(secs, 3600) == secs / 3600 && Quot(Rem(secs, 3600), 60) == secs % 3600 / 60
    ensures Rem(secs, 60) == secs % 60
    ensures Rem(secs, 86_400) == secs % 86_400
  {
  }

  lemma SecondBefore1970()
    ensures TimeFromTimestamp(-1) == Clock(0, 0, -1)
  {
  }

  /** It is the time of day exactly for timestamps since 1970, and for midnights. */
  lemma TimeAgrees(ts: int)
    ensures var m := PartsFromTimestamp(ts);
            TimeFromTimestamp(ts) == Clock(m.hour, m.minute, m.second) <==> ts >= 0 || ts % 86_400 == 0
    ensures TimeFromTimestamp(-1) == Clock(0, 0, -1)
  {
    hide CivilFromDays, Quot, Rem;
    var secs := ts % 86_400;
    SecondBefore1970();
    PlainClock(secs);
    if ts >= 0 {
      PlainClock(ts);
    } else {
      TruncatedBefore1970(ts);
      if secs > 0 {
        NegativeClock(secs - 86_400);
      }
    }
  }

  /** A negative number of seconds has no positive part, and some negative one. */
  lemma NegativeClock(secs: int)
    requires -86_400 < secs < 0
    ensures Quot(secs, 3600) <= 0 && Quot(Rem(secs, 3600), 60) <= 0 && Rem(secs, 60) <= 0
    ensures Quot(secs, 3600) < 0 || Quot(Rem(secs, 3600), 60) < 0 || Rem(secs, 60) < 0
  {
  }
}
