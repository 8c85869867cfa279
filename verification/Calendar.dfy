/** Calendar dates of day numbers, and the fields of a timestamp (src/util.rs). */
module Calendar {

  datatype Date = Date(year: int, month: nat, day: nat)

  // ---------------------------------------------------------------- the Gregorian calendar

  predicate IsLeap(year: int) {
    year % 4 == 0 && (year % 100 != 0 || year % 400 == 0)
  }

  function DaysInMonth(year: int, month: nat): nat {
    if month == 2 then (if IsLeap(year) then 29 else 28)
    else if month == 4 || month == 6 || month == 9 || month == 11 then 30
    else 31
  }

  predicate IsDate(date: Date) {
    1 <= date.month <= 12 && 1 <= date.day <= DaysInMonth(date.year, date.month)
  }

  /** The calendar date after a date. */
  function NextDate(date: Date): Date {
    if date.day < DaysInMonth(date.year, date.month) then date.(day := date.day + 1)
    else if date.month < 12 then Date(date.year, date.month + 1, 1)
    else Date(date.year + 1, 1, 1)
  }

  /** The days before a year, counted from the year 1: one more for every leap year. */
  function DaysBeforeYear(year: int): int {
    365 * (year - 1) + (year - 1) / 4 - (year - 1) / 100 + (year - 1) / 400
  }

  function DaysBeforeMonth(year: int, month: nat): nat {
    if month <= 1 then 0 else DaysBeforeMonth(year, month - 1) + DaysInMonth(year, month - 1)
  }

  const EPOCH: int := 719_162

  /** The day number of a date, by counting years, months and days. */
  function DayNumber(date: Date): int {
    DaysBeforeYear(date.year) + DaysBeforeMonth(date.year, date.month) + date.day - 1 - EPOCH
  }

  // ---------------------------------------------------------------- the code

  /** `civil_from_days`; divisions of what may be negative round down. */
  function CivilFromDays(days: int): Date {
    CivilOfEra((days + 719_468) / 146_097, (days + 719_468) % 146_097)
  }

  function YearOfEra(doe: int): int {
    (doe - doe / 1460 + doe / 36524 - doe / 146_096) / 365
  }

  /** How many days of an era lie before one of its years, which start in March. */
  function DaysBefore(yoe: int): int {
    365 * yoe + yoe / 4 - yoe / 100
  }

  function CivilOfEra(era: int, doe: nat): Date
    requires doe < 146_097
  {
    YearFound(doe);
    CivilOfYear(YearOfEra(doe) + era * 400, doe - DaysBefore(YearOfEra(doe)))
  }

  /** The date of day `doy` of a year that starts in March. */
  function CivilOfYear(y: int, doy: nat): Date
    requires doy < 366
  {
    var mp := (5 * doy + 2) / 153;
    var d := doy - (153 * mp + 2) / 5 + 1;
    var m := if mp < 10 then mp + 3 else mp - 9;
    Date(if m <= 2 then y + 1 else y, m, d)
  }

  // ---------------------------------------------------------------- years of an era

  /** The length of a year that starts in March: the leap day is the next calendar year's. */
  function YearLength(y: int): (n: nat)
    ensures 365 <= n <= 366
  {
    if IsLeap(y + 1) then 366 else 365
  }

  lemma CenturyPart(c: nat, q: nat, r: nat)
    requires c < 4 && q < 25 && r < 4
    ensures var yoe := 100 * c + 4 * q + r;
            && DaysBefore(yoe) == 36524 * c + 1461 * q + 365 * r
            && (YearLength(yoe) == 366 <==> r == 3 && (q < 24 || c == 3))
  {
    var yoe := 100 * c + 4 * q + r;
    assert yoe / 4 == 25 * c + q && yoe / 100 == c;
    assert (yoe + 1) % 4 == (r + 1) % 4;
    if r == 3 {
      assert (yoe + 1) % 100 == (4 * q + 4) % 100;
      assert yoe + 1 == 100 * c + 4 * q + 4;
      if q == 24 {
        assert (yoe + 1) % 400 == 100 * (c + 1) % 400;
      }
    }
  }

  /** The two large quotients count the centuries, the last day of the era included. */
  lemma CenturiesPassed(c: nat, ofCentury: nat)
    requires c < 4 && ofCentury <= 36524 && (ofCentury == 36524 ==> c == 3)
    ensures var doe := 36524 * c + ofCentury; doe / 36524 - doe / 146_096 == c
  {
    if ofCentury == 36524 {
      assert 36524 * c + ofCentury == 146_096;
    }
  }

  /** The quotient by 1460 overshoots the quarter by at most one, exactly where the year needs it. */
  lemma YearIs(c: nat, q: nat, r: nat, doy: nat)
    requires c < 4 && q < 25 && r < 4 && doy < YearLength(100 * c + 4 * q + r)
    ensures var yoe := 100 * c + 4 * q + r;
            0 <= DaysBefore(yoe) + doy < 146_097 && YearOfEra(DaysBefore(yoe) + doy) == yoe
  {
    hide DaysBefore, YearLength, YearOfEra;
    var yoe := 100 * c + 4 * q + r;
    CenturyPart(c, q, r);
    if r == 3 && q == 24 && c < 3 {
      assert doy < 365;
    }
    CenturiesPassed(c, 1461 * q + 365 * r + doy);
    var doe := 36524 * c + 1461 * q + 365 * r + doy;
    var rest := 24 * c + q + 365 * r + doy;
    var e := if rest >= 1460 then 1 else 0;
    Quotient(doe, 1460, 25 * c + q + e, rest - 1460 * e);
    assert 0 <= doy - e < 365;
    Quotient(doe - doe / 1460 + c, 365, yoe, doy - e);
    YearOfEraIs(doe);
  }

  lemma YearOfEraIs(doe: int)
    ensures YearOfEra(doe) == (doe - doe / 1460 + (doe / 36524 - doe / 146_096)) / 365
  {
  }

  lemma Quotient(n: int, d: nat, k: int, rest: nat)
    requires (d == 365 || d == 1460) && n == d * k + rest && rest < d
    ensures n / d == k
  {
  }

  lemma YearParts(yoe: nat) returns (c: nat, q: nat, r: nat)
    requires yoe < 400
    ensures c < 4 && q < 25 && r < 4 && yoe == 100 * c + 4 * q + r
  {
    c, q, r := yoe / 100, yoe % 100 / 4, yoe % 4;
    assert yoe % 4 == yoe % 100 % 4;
  }

  /** Every day of an era lies in the year found for it. */
  lemma YearFound(doe: nat)
    requires doe < 146_097
    ensures var yoe := YearOfEra(doe);
            0 <= yoe < 400 && 0 <= doe - DaysBefore(yoe) < YearLength(yoe)
  {
    hide DaysBefore, YearLength, YearOfEra;
    var c := if doe / 36524 < 4 then doe / 36524 else 3;
    var ofCentury := doe - 36524 * c;
    var q := if ofCentury / 1461 < 25 then ofCentury / 1461 else 24;
    var ofQuarter := ofCentury - 1461 * q;
    var r := if ofQuarter / 365 < 4 then ofQuarter / 365 else 3;
    var doy := ofQuarter - 365 * r;
    CenturyPart(c, q, r);
    assert doy < YearLength(100 * c + 4 * q + r);
    YearIs(c, q, r, doy);
  }

  lemma YearUnique(yoe: nat, doy: nat)
    requires yoe < 400 && doy < YearLength(yoe)
    ensures 0 <= DaysBefore(yoe) + doy < 146_097 && YearOfEra(DaysBefore(yoe) + doy) == yoe
  {
    var c, q, r := YearParts(yoe);
    YearIs(c, q, r, doy);
  }

  lemma YearAfter(yoe: nat)
    requires yoe < 400
    ensures DaysBefore(0) == 0
    ensures DaysBefore(yoe) + YearLength(yoe) == if yoe < 399 then DaysBefore(yoe + 1) else 146_097
  {
    QuotientStep(yoe + 1, 4);
    QuotientStep(yoe + 1, 100);
  }

  /** The leap rule only looks at a year's place in its era. */
  lemma LeapInEra(year: int)
    ensures IsLeap(year) == IsLeap(year % 400)
  {
    InFours(year);
    InHundreds(year);
  }

  lemma InFours(year: int)
    ensures year % 400 % 4 == year % 4
  {
    assert year == 4 * (100 * (year / 400)) + year % 400;
  }

  lemma InHundreds(year: int)
    ensures year % 400 % 100 == year % 100
  {
    assert year == 100 * (4 * (year / 400)) + year % 400;
  }

  lemma SamePlace(year: int, era: int)
    ensures (year + era * 400) % 400 == year % 400
  {
  }

  /** The leap rule repeats every era. */
  lemma LeapRepeats(yoe: nat, era: int)
    ensures YearLength(yoe + era * 400) == YearLength(yoe)
  {
    hide IsLeap;
    LeapInEra(yoe + 1 + era * 400);
    LeapInEra(yoe + 1);
    SamePlace(yoe + 1, era);
  }

  // ---------------------------------------------------------------- days of a year

  /** Within a year the code counts through the calendar, and its last day is the last of February. */
  lemma DayOfYear(y: int, doy: nat)
    requires doy < YearLength(y)
    ensures IsDate(CivilOfYear(y, doy))
    ensures NextDate(CivilOfYear(y, doy)) == if doy + 1 < YearLength(y) then CivilOfYear(y, doy + 1)
            else CivilOfYear(y + 1, 0)
  {
    hide IsLeap;
  }

  // ---------------------------------------------------------------- the theorems

  /** Every day number has a valid date, and the next day number has the next calendar date. */
  lemma NextDay(days: int)
    ensures IsDate(CivilFromDays(days))
    ensures CivilFromDays(days + 1) == NextDate(CivilFromDays(days))
  {
    hide YearOfEra, DaysBefore, YearLength, CivilOfYear, NextDate, IsDate;
    var z := days + 719_468;
    var era, doe := z / 146_097, z % 146_097;
    YearFound(doe);
    var yoe := YearOfEra(doe);
    var doy := doe - DaysBefore(yoe);
    LeapRepeats(yoe, era);
    DayOfYear(yoe + era * 400, doy);
    YearAfter(yoe);
    if doy + 1 < YearLength(yoe) {
      YearUnique(yoe, doy + 1);
      SameEra(z);
    } else if yoe < 399 {
      YearUnique(yoe + 1, 0);
      SameEra(z);
    } else {
      YearUnique(0, 0);
      NextEra(z);
    }
  }

  lemma SameEra(z: int)
    requires z % 146_097 + 1 < 146_097
    ensures (z + 1) / 146_097 == z / 146_097 && (z + 1) % 146_097 == z % 146_097 + 1
  {
  }

  lemma NextEra(z: int)
    requires z % 146_097 + 1 == 146_097
    ensures (z + 1) / 146_097 == z / 146_097 + 1 && (z + 1) % 146_097 == 0
  {
  }

  lemma YearAdds(year: int)
    ensures DaysBeforeYear(year + 1) == DaysBeforeYear(year) + if IsLeap(year) then 366 else 365
  {
    QuotientStep(year, 4);
    QuotientStep(year, 100);
    QuotientStep(year, 400);
  }

  lemma QuotientStep(year: int, d: nat)
    requires d == 4 || d == 100 || d == 400
    ensures year / d == (year - 1) / d + if year % d == 0 then 1 else 0
  {
  }

  const DECEMBER: nat := 12

  lemma MonthsAdd(year: int)
    ensures DaysBeforeMonth(year, DECEMBER) + 31 == if IsLeap(year) then 366 else 365
  {
    hide IsLeap;
    assert DaysBeforeMonth(year, 2) == 31;
    assert DaysBeforeMonth(year, 3) == 31 + DaysInMonth(year, 2);
    assert DaysBeforeMonth(year, 4) == DaysBeforeMonth(year, 3) + 31;
    assert DaysBeforeMonth(year, 6) == DaysBeforeMonth(year, 4) + 61;
    assert DaysBeforeMonth(year, 8) == DaysBeforeMonth(year, 6) + 61;
    assert DaysBeforeMonth(year, 10) == DaysBeforeMonth(year, 8) + 61;
    assert DaysBeforeMonth(year, DECEMBER) == DaysBeforeMonth(year, 10) + 61;
  }

  /** Counting goes up by one from each date to the next. */
  lemma CountsNext(date: Date)
    requires IsDate(date)
    ensures IsDate(NextDate(date)) && DayNumber(NextDate(date)) == DayNumber(date) + 1
  {
    hide IsLeap, DaysBeforeYear;
    YearAdds(date.year);
    MonthsAdd(date.year);
  }

  /** The epoch is 1970-01-01. */
  lemma EpochDate()
    ensures CivilFromDays(0) == Date(1970, 1, 1) && DayNumber(Date(1970, 1, 1)) == 0
  {
    hide YearOfEra, DaysBefore, CivilOfYear;
    var doe := 135_080;
    assert YearOfEra(doe) == 369 && DaysBefore(369) == 134_774 by { EpochYear(doe); }
    assert CivilOfYear(1969, 306) == Date(1970, 1, 1) by { FirstOfJanuary(1969); }
  }

  lemma EpochYear(doe: int)
    requires doe == 135_080
    ensures YearOfEra(doe) == 369 && DaysBefore(369) == 134_774
  {
  }

  lemma FirstOfJanuary(y: int)
    ensures CivilOfYear(y, 306) == Date(y + 1, 1, 1)
  {
  }

  /** Counting back gives every day number. */
  lemma {:induction false} DayNumberOfCivil(days: int)
    ensures DayNumber(CivilFromDays(days)) == days
    decreases if days < 0 then -days else days
  {
    hide CivilFromDays, DayNumber, IsDate, NextDate;
    if days == 0 {
      EpochDate();
    } else if days > 0 {
      DayNumberOfCivil(days - 1);
      NextDay(days - 1);
      CountsNext(CivilFromDays(days - 1));
    } else {
      DayNumberOfCivil(days + 1);
      NextDay(days);
      CountsNext(CivilFromDays(days));
    }
  }

  predicate Earlier(a: Date, b: Date) {
    a.year < b.year || (a.year == b.year && (a.month < b.month || (a.month == b.month && a.day < b.day)))
  }

  lemma {:induction false} YearsGrow(a: int, b: int)
    requires a < b
    ensures DaysBeforeYear(a + 1) <= DaysBeforeYear(b)
    decreases b - a
  {
    if a + 1 < b {
      YearsGrow(a, b - 1);
      YearAdds(b - 1);
    }
  }

  lemma {:induction false} MonthsGrow(year: int, a: nat, b: nat)
    requires 1 <= a < b
    ensures DaysBeforeMonth(year, a) + DaysInMonth(year, a) <= DaysBeforeMonth(year, b)
    decreases b - a
  {
    if a + 1 < b {
      MonthsGrow(year, a, b - 1);
    }
  }

  /** An earlier date counts less. */
  lemma CountsInOrder(a: Date, b: Date)
    requires IsDate(a) && IsDate(b) && Earlier(a, b)
    ensures DayNumber(a) < DayNumber(b)
  {
    hide IsLeap, DaysBeforeYear, DaysInMonth, DaysBeforeMonth;
    if a.year < b.year {
      YearsGrow(a.year, b.year);
      YearAdds(a.year);
      MonthsAdd(a.year);
      if a.month < DECEMBER {
        MonthsGrow(a.year, a.month, DECEMBER);
      }
      DecemberLength(a.year);
    } else if a.month < b.month {
      MonthsGrow(a.year, a.month, b.month);
    }
  }

  lemma DecemberLength(year: int)
    ensures DaysInMonth(year, DECEMBER) == 31
  {
  }

  /** Day numbers and valid dates correspond one to one: the code turns each date's count back into that date. */
  lemma CivilOfDayNumber(date: Date)
    requires IsDate(date)
    ensures CivilFromDays(DayNumber(date)) == date
  {
    hide CivilFromDays, DayNumber, IsDate;
    var found := CivilFromDays(DayNumber(date));
    NextDay(DayNumber(date));
    DayNumberOfCivil(DayNumber(date));
    if Earlier(date, found) {
      CountsInOrder(date, found);
    } else if Earlier(found, date) {
      CountsInOrder(found, date);
    }
  }

  // ---------------------------------------------------------------- timestamps

  datatype Timestamp = Timestamp(date: Date, hour: int, minute: int, second: int, millis: nat)

  /** `iso_from_unix`, before formatting. */
  function FieldsOf(secs: int, millis: nat): Timestamp {
    var rem := secs % 86_400;
    Timestamp(CivilFromDays(secs / 86_400), rem / 3600, rem % 3600 / 60, rem % 60, millis)
  }

  /** The seconds a timestamp stands for. */
  function SecondsOf(t: Timestamp): int {
    86_400 * DayNumber(t.date) + 3600 * t.hour + 60 * t.minute + t.second
  }

  /** The fields are those of a timestamp (section 5.6 of RFC 3339), and they stand for the given second. */
  lemma TimestampRoundTrip(secs: int, millis: nat)
    ensures var t := FieldsOf(secs, millis);
            && IsDate(t.date) && 0 <= t.hour < 24 && 0 <= t.minute < 60 && 0 <= t.second < 60
            && SecondsOf(t) == secs
  {
    hide CivilFromDays, DayNumber, IsDate;
    NextDay(secs / 86_400);
    DayNumberOfCivil(secs / 86_400);
    var rem := secs % 86_400;
    assert rem % 60 == rem % 3600 % 60;
  }

  /** The decimal digits of a number, at least `width` of them. */
  function Padded(n: nat, width: nat): (s: string)
    ensures |s| >= width
    decreases n, width
  {
    if n < 10 && width <= 1 then [DigitOf(n)]
    else Padded(n / 10, if width == 0 then 0 else width - 1) + [DigitOf(n % 10)]
  }

  function DigitOf(n: nat): char
    requires n < 10
  {
    ['0', '1', '2', '3', '4', '5', '6', '7', '8', '9'][n]
  }

  function ValueOf(c: char): int {
    c as int - '0' as int
  }

  function Read(s: string): int {
    if s == [] then 0 else 10 * Read(s[..|s| - 1]) + ValueOf(s[|s| - 1])
  }

  lemma DigitReads(n: nat)
    requires n < 10
    ensures ValueOf(DigitOf(n)) == n
  {
  }

  lemma {:induction false} PaddedReads(n: nat, width: nat)
    ensures Read(Padded(n, width)) == n
    decreases n, width
  {
    var s := Padded(n, width);
    DigitReads(n % 10);
    if n < 10 && width <= 1 {
      assert s[..0] == [];
    } else {
      PaddedReads(n / 10, if width == 0 then 0 else width - 1);
      assert s[..|s| - 1] == Padded(n / 10, if width == 0 then 0 else width - 1);
    }
  }

  function Power(k: nat): nat {
    if k == 0 then 1 else 10 * Power(k - 1)
  }

  lemma {:induction false} PaddedLength(n: nat, width: nat)
    requires width >= 1 && n < Power(width)
    ensures |Padded(n, width)| == width
    decreases width
  {
    if width > 1 {
      PaddedLength(n / 10, width - 1);
    }
  }

  /** The text of a timestamp with a year of at most four digits. */
  function Text(t: Timestamp): string
    requires 0 <= t.date.year && 0 <= t.hour && 0 <= t.minute && 0 <= t.second
  {
    Padded(t.date.year, 4) + "-" + Padded(t.date.month, 2) + "-" + Padded(t.date.day, 2) + "T" +
    Padded(t.hour, 2) + ":" + Padded(t.minute, 2) + ":" + Padded(t.second, 2) + "." + Padded(t.millis, 3) + "Z"
  }

  lemma FieldReads(n: nat, width: nat)
    requires (width == 2 && n < 100) || (width == 3 && n < 1000) || (width == 4 && n < 10_000)
    ensures |Padded(n, width)| == width && Read(Padded(n, width)) == n
  {
    assert Power(1) == 10 && Power(2) == 100 && Power(3) == 1000 && Power(4) == 10_000;
    PaddedLength(n, width);
    PaddedReads(n, width);
  }

  /** The text of a timestamp is 24 characters long and its fields can be read back from their places. */
  lemma TextReads(secs: int, millis: nat)
    requires 0 <= FieldsOf(secs, millis).date.year < 10_000 && millis < 1000
    ensures var t := FieldsOf(secs, millis);
            && IsDate(t.date) && 0 <= t.hour < 24 && 0 <= t.minute < 60 && 0 <= t.second < 60
            && var s := Text(t);
               && |s| == 24
               && Read(s[0..4]) == t.date.year && Read(s[5..7]) == t.date.month && Read(s[8..10]) == t.date.day
               && Read(s[11..13]) == t.hour && Read(s[14..16]) == t.minute && Read(s[17..19]) == t.second
               && Read(s[20..23]) == millis
               && s[4] == s[7] == '-' && s[10] == 'T' && s[13] == s[16] == ':' && s[19] == '.' && s[23] == 'Z'
  {
    hide Padded, Read, FieldsOf, IsDate, DaysInMonth;
    TimestampRoundTrip(secs, millis);
    var t := FieldsOf(secs, millis);
    DateFields(t.date);
    MillisKept(secs, millis);
    FieldReads(t.date.year, 4);
    FieldReads(t.date.month, 2);
    FieldReads(t.date.day, 2);
    FieldReads(t.hour, 2);
    FieldReads(t.minute, 2);
    FieldReads(t.second, 2);
    FieldReads(t.millis, 3);
    var s := Text(t);
    assert s[0..4] == Padded(t.date.year, 4);
    assert s[5..7] == Padded(t.date.month, 2) && s[8..10] == Padded(t.date.day, 2);
    assert s[11..13] == Padded(t.hour, 2) && s[14..16] == Padded(t.minute, 2) && s[17..19] == Padded(t.second, 2);
    assert s[20..23] == Padded(t.millis, 3);
  }

  lemma MillisKept(secs: int, millis: nat)
    ensures FieldsOf(secs, millis).millis == millis
  {
  }

  lemma DateFields(date: Date)
    requires IsDate(date)
    ensures date.month < 100 && date.day < 100
  {
  }
}
