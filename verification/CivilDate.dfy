/** Day counts and dates of the proleptic Gregorian calendar (src/application/mod.rs), their text form, and
    the expiry check of suppressions, which compares such texts (src/product/config.rs). */
module CivilDate {
  import opened Outcomes
  import opened Orders
  import opened Decimals

  datatype Date = Date(year: int, month: int, day: int)

  /** Rust's `/` truncates toward zero; here the divisor is always positive. */
  function Quotient(a: int, b: int): int
    requires b > 0
  {
    if a >= 0 then a / b else -(-a / b)
  }

  // ----- the calendar -----

  predicate Leap(year: int) {
    year % 4 == 0 && (year % 100 != 0 || year % 400 == 0)
  }

  function MonthLength(year: int, month: int): int {
    if month == 2 then if Leap(year) then 29 else 28
    else if month == 4 || month == 6 || month == 9 || month == 11 then 30
    else 31
  }

  predicate Valid(d: Date) {
    1 <= d.month <= 12 && 1 <= d.day <= MonthLength(d.year, d.month)
  }

  /** The next day of the proleptic Gregorian calendar. */
  function Next(d: Date): Date {
    if d.day < MonthLength(d.year, d.month) then Date(d.year, d.month, d.day + 1)
    else if d.month < 12 then Date(d.year, d.month + 1, 1)
    else Date(d.year + 1, 1, 1)
  }

  // ----- the conversion, in floored arithmetic -----

  /** Days are counted from 1 March of year 0 and split into 400-year eras. */
  function Era(days: int): int { days / 146_097 }

  function YearOfEra(dayOfEra: int): int {
    (dayOfEra - dayOfEra / 1_460 + dayOfEra / 36_524 - dayOfEra / 146_096) / 365
  }

  /** The days before the year `y` of an era, where years start on 1 March. */
  function YearStart(y: int): int { 365 * y + y / 4 - y / 100 }

  /** The days before the month `m` of a year that starts on 1 March. */
  function MonthStart(m: int): int { (153 * m + 2) / 5 }

  function FromParts(era: int, yearOfEra: int, dayOfYear: int): Date {
    var m := (5 * dayOfYear + 2) / 153;
    var month := if m < 10 then m + 3 else m - 9;
    Date(yearOfEra + era * 400 + (if month <= 2 then 1 else 0), month, dayOfYear - MonthStart(m) + 1)
  }

  function FromDays(daysSinceEpoch: int): Date {
    var days := daysSinceEpoch + 719_468;
    var dayOfEra := days % 146_097;
    var y := YearOfEra(dayOfEra);
    FromParts(Era(days), y, dayOfEra - YearStart(y))
  }

  // ----- the era arithmetic is exact -----

  /** The length of the year `y` of an era, from 1 March to the end of February. */
  function YearLength(y: int): int { if Leap(y + 1) then 366 else 365 }

  predicate InYear(y: int, dayOfEra: int) {
    0 <= y <= 399 && YearStart(y) <= dayOfEra < YearStart(y) + YearLength(y)
  }

  /** Within a century, `k` centuries into the era: day 1461 * q + s is in its year 4 * q + i. */
  lemma YearOfCentury(k: int, q: int, s: int) returns (y: int)
    requires 0 <= k <= 3 && 0 <= q <= 24 && 0 <= s < 1461 && 1461 * q + s < 36_524
    ensures y == YearOfEra(36_524 * k + 1461 * q + s)
    ensures 100 * k <= y < 100 * k + 100
    ensures 365 * (y - 100 * k) + (y - 100 * k) / 4 <= 1461 * q + s
    ensures 1461 * q + s < 365 * (y - 100 * k) + (y - 100 * k) / 4 + (if (y + 1) % 4 == 0 then 366 else 365)
  {
    var d := 36_524 * k + 1461 * q + s;
    var t := if s >= 1460 - q - 24 * k then 1 else 0;
    assert d / 1_460 == 25 * k + q + t;
    assert d / 36_524 == k;
    assert d / 146_096 == 0;
    var i := if s - t < 365 then 0 else if s - t < 730 then 1 else if s - t < 1095 then 2 else 3;
    assert d - d / 1_460 + d / 36_524 - d / 146_096 == 36_500 * k + 1460 * q + s - t;
    y := 100 * k + 4 * q + i;
    assert (36_500 * k + 1460 * q + s - t) / 365 == y;
    assert (y - 100 * k) / 4 == q;
  }

  lemma CenturyStart(k: int, c: int)
    requires 0 <= k <= 3 && 0 <= c < 100
    ensures YearStart(100 * k + c) == 36_524 * k + 365 * c + c / 4
    ensures YearLength(100 * k + c) == if (c + 1) % 4 == 0 && (c < 99 || k == 3) then 366 else 365
  {
    var y := 100 * k + c;
    assert y / 100 == k && y / 4 == 25 * k + c / 4 && (y + 1) % 4 == (c + 1) % 4;
    if c < 99 {
      assert (y + 1) % 100 == c + 1;
    } else {
      assert y + 1 == 100 * (k + 1);
      assert (k + 1) % 4 == 0 <==> k == 3;
      assert (100 * (k + 1)) % 400 == 0 <==> (k + 1) % 4 == 0;
    }
  }

  lemma LastDayOfEra()
    ensures YearOfEra(146_096) == 399 && YearStart(399) == 145_731 && YearLength(399) == 366
  {}

  lemma YearOfEraExact(dayOfEra: int)
    requires 0 <= dayOfEra < 146_097
    ensures InYear(YearOfEra(dayOfEra), dayOfEra)
  {
    hide YearStart, YearOfEra, YearLength;
    if dayOfEra < 146_096 {
      var k := dayOfEra / 36_524;
      var r := dayOfEra % 36_524;
      var y := YearOfCentury(k, r / 1461, r % 1461);
      CenturyStart(k, y - 100 * k);
      assert (y + 1) % 4 == (y - 100 * k + 1) % 4;
    } else {
      LastDayOfEra();
    }
  }

  lemma YearBounds(y: int)
    ensures 365 <= YearLength(y) <= 366
    ensures YearStart(0) == 0 && YearStart(399) + YearLength(399) == 146_097
  {}

  lemma YearStartNext(y: int)
    requires 0 <= y < 399
    ensures YearStart(y + 1) == YearStart(y) + YearLength(y)
  {
    var z := y + 1;
    assert z / 4 - y / 4 == if z % 4 == 0 then 1 else 0;
    assert z / 100 - y / 100 == if z % 100 == 0 then 1 else 0;
  }

  lemma {:induction false} YearStartMonotone(y: int, z: int)
    requires 0 <= y < z <= 399
    ensures YearStart(y) + YearLength(y) <= YearStart(z)
    decreases z - y
  {
    YearStartNext(y);
    if y + 1 < z { YearStartMonotone(y + 1, z); }
  }

  lemma InYearUnique(y: int, z: int, dayOfEra: int)
    requires InYear(y, dayOfEra) && InYear(z, dayOfEra)
    ensures y == z
  {
    if y < z { YearStartMonotone(y, z); } else if z < y { YearStartMonotone(z, y); }
  }

  lemma MonthExact(dayOfYear: int)
    requires 0 <= dayOfYear < 366
    ensures var m := (5 * dayOfYear + 2) / 153;
      0 <= m <= 11 && MonthStart(m) <= dayOfYear < MonthStart(m + 1)
  {}

  // ----- the method computes this -----

  /** The shift by 146096 turns the truncating division into the floor, for negative days too. */
  lemma QuotientFloors(days: int)
    ensures Quotient(if days >= 0 then days else days - 146_096, 146_097) == Era(days)
  {
    var q, r := days / 146_097, days % 146_097;
    if days < 0 { assert (146_096 - days) / 146_097 == -q; }
  }

  lemma QuotientYear(dayOfEra: int)
    requires dayOfEra >= 0
    ensures Quotient(
      dayOfEra - Quotient(dayOfEra, 1_460) + Quotient(dayOfEra, 36_524) - Quotient(dayOfEra, 146_096), 365)
      == YearOfEra(dayOfEra)
  {
    assert dayOfEra / 146_096 <= dayOfEra / 36_524;
    assert dayOfEra / 1_460 <= dayOfEra;
  }

  lemma DayOfEra(days: int)
    ensures days - Era(days) * 146_097 == days % 146_097
  {}

  method DateFromDays(daysSinceEpoch: int) returns (date: Date)
    ensures date == FromDays(daysSinceEpoch)
  {
    hide YearOfEra, FromParts, YearLength;
    var days := daysSinceEpoch + 719_468;
    QuotientFloors(days);
    var era := Quotient(if days >= 0 then days else days - 146_096, 146_097);
    var dayOfEra := days - era * 146_097;
    DayOfEra(days);
    QuotientYear(dayOfEra);
    YearOfEraExact(dayOfEra);
    var yearOfEra := Quotient(
      dayOfEra - Quotient(dayOfEra, 1_460) + Quotient(dayOfEra, 36_524) - Quotient(dayOfEra, 146_096), 365);
    var year := yearOfEra + era * 400;
    var dayOfYear := dayOfEra - (365 * yearOfEra + Quotient(yearOfEra, 4) - Quotient(yearOfEra, 100));
    assert dayOfYear == dayOfEra - YearStart(yearOfEra);
    date := FinishDate(year, era, yearOfEra, dayOfYear);
  }

  /** The month, the day and the conditional step of the year. */
  method FinishDate(marchYear: int, ghost era: int, ghost yearOfEra: int, dayOfYear: int) returns (date: Date)
    requires dayOfYear >= 0 && marchYear == yearOfEra + era * 400
    ensures date == FromParts(era, yearOfEra, dayOfYear)
  {
    var year := marchYear;
    var monthPrime := Quotient(5 * dayOfYear + 2, 153);
    var day := dayOfYear - Quotient(153 * monthPrime + 2, 5) + 1;
    var month := monthPrime + if monthPrime < 10 then 3 else -9;
    if month <= 2 {
      year := year + 1;
    }
    date := Date(year, month, day);
  }

  predicate InI64(n: int) { -0x8000_0000_0000_0000 <= n < 0x8000_0000_0000_0000 }

  /** The era, its first day, and the day within it. */
  predicate EraFits(days: int) {
    && (days < 0 ==> InI64(days - 146_096))
    && InI64(Era(days) * 146_097) && 0 <= days - Era(days) * 146_097 < 146_097
  }

  /** The year within the era, its number, and the day within it; all terms of these sums are small. */
  predicate YearFits(era: int, dayOfEra: int) {
    var y := YearOfEra(dayOfEra);
    && 0 <= y <= 399 && InI64(era * 400) && InI64(y + era * 400) && InI64(y + era * 400 + 1)
    && 0 <= YearStart(y) <= dayOfEra < YearStart(y) + 366
  }

  /** The month, the day and the terms from which they are computed. */
  predicate MonthFits(dayOfYear: int) {
    var m := (5 * dayOfYear + 2) / 153;
    0 <= m <= 11 && 0 <= MonthStart(m) <= dayOfYear <= MonthStart(m) + 30
  }

  /** The only sum that can leave the 64-bit range is the first one. */
  lemma NoOverflow(daysSinceEpoch: int)
    requires InI64(daysSinceEpoch) && InI64(daysSinceEpoch + 719_468)
    ensures var days := daysSinceEpoch + 719_468; var dayOfEra := days % 146_097;
      && EraFits(days) && dayOfEra == days - Era(days) * 146_097
      && YearFits(Era(days), dayOfEra) && MonthFits(dayOfEra - YearStart(YearOfEra(dayOfEra)))
      && InI64(FromDays(daysSinceEpoch).year)
  {
    var days := daysSinceEpoch + 719_468;
    YearOfEraExact(days % 146_097);
    YearBounds(YearOfEra(days % 146_097));
    DayOfEra(days);
    MonthExact(days % 146_097 - YearStart(YearOfEra(days % 146_097)));
    hide YearOfEra, YearLength;
  }

  // ----- the calendar theorems -----

  predicate Parts(y: int, dayOfYear: int) { 0 <= y <= 399 && 0 <= dayOfYear < YearLength(y) }

  function YearOf(days: int): int { YearOfEra(days % 146_097) }

  function DayOfYear(days: int): int { days % 146_097 - YearStart(YearOf(days)) }

  lemma DaysParts(days: int)
    ensures Parts(YearOf(days), DayOfYear(days))
  {
    YearOfEraExact(days % 146_097);
  }

  lemma FromDaysParts(daysSinceEpoch: int)
    ensures var days := daysSinceEpoch + 719_468;
      && FromDays(daysSinceEpoch) == FromParts(Era(days), YearOf(days), DayOfYear(days))
      && days == 146_097 * Era(days) + YearStart(YearOf(days)) + DayOfYear(days)
  {
    hide YearStart, YearOfEra;
  }

  lemma SplitDays(era: int, dayOfEra: int)
    requires 0 <= dayOfEra < 146_097
    ensures var days := 146_097 * era + dayOfEra; days / 146_097 == era && days % 146_097 == dayOfEra
  {}

  lemma PartsOfEra(dayOfEra: int, y: int, dayOfYear: int)
    requires Parts(y, dayOfYear) && dayOfEra == YearStart(y) + dayOfYear
    ensures 0 <= dayOfEra < 146_097 && YearOfEra(dayOfEra) == y
  {
    if y < 399 { YearStartMonotone(y, 399); }
    assert 0 <= dayOfEra < 146_097;
    YearOfEraExact(dayOfEra);
    InYearUnique(y, YearOfEra(dayOfEra), dayOfEra);
  }

  lemma PartsDays(days: int, era: int, y: int, dayOfYear: int)
    requires Parts(y, dayOfYear) && days + 719_468 == 146_097 * era + YearStart(y) + dayOfYear
    ensures FromDays(days) == FromParts(era, y, dayOfYear)
  {
    hide YearStart, YearOfEra;
    PartsOfEra(YearStart(y) + dayOfYear, y, dayOfYear);
    SplitDays(era, YearStart(y) + dayOfYear);
  }

  lemma FromPartsMonth(era: int, y: int, dayOfYear: int) returns (m: int)
    requires Parts(y, dayOfYear)
    ensures 0 <= m <= 11 && MonthStart(m) <= dayOfYear < MonthStart(m + 1) && m == (5 * dayOfYear + 2) / 153
    ensures var d := FromParts(era, y, dayOfYear);
      && d.year == y + 400 * era + (if m >= 10 then 1 else 0)
      && d.month == (if m < 10 then m + 3 else m - 9)
      && d.day == dayOfYear - MonthStart(m) + 1
      && MonthLength(d.year, d.month) == (if m == 11 then YearLength(y) else MonthStart(m + 1)) - MonthStart(m)
  {
    MonthExact(dayOfYear);
    m := (5 * dayOfYear + 2) / 153;
    LeapPeriod(y + 1, era);
  }

  lemma ModuloShift(year: int, era: int)
    ensures (year + 400 * era) % 400 == year % 400
    ensures (year + 400 * era) / 400 == year / 400 + era
  {
    var q, r := year / 400, year % 400;
    assert year + 400 * era == 400 * (q + era) + r;
  }

  lemma ModuloShift100(year: int, era: int)
    ensures (year + 400 * era) % 100 == year % 100
  {
    var q, r := year / 100, year % 100;
    assert year + 400 * era == 100 * (q + 4 * era) + r;
  }

  lemma ModuloShift4(year: int, era: int)
    ensures (year + 400 * era) % 4 == year % 4
  {
    var q, r := year / 4, year % 4;
    assert year + 400 * era == 4 * (q + 100 * era) + r;
  }

  lemma LeapPeriod(year: int, era: int)
    ensures Leap(year + 400 * era) == Leap(year)
  {
    ModuloShift(year, era);
    ModuloShift100(year, era);
    ModuloShift4(year, era);
  }

  lemma NextInYear(era: int, y: int, dayOfYear: int)
    requires Parts(y, dayOfYear) && dayOfYear + 1 < YearLength(y)
    ensures Next(FromParts(era, y, dayOfYear)) == FromParts(era, y, dayOfYear + 1)
  {
    hide FromParts, MonthLength, YearLength;
    var m := FromPartsMonth(era, y, dayOfYear);
    var n := FromPartsMonth(era, y, dayOfYear + 1);
    assert n == m || n == m + 1;
  }

  /** The last day of a year that starts on 1 March comes before the next 1 March. */
  lemma NextYear(era: int, y: int, nextEra: int, nextYear: int)
    requires 0 <= y <= 399 && 0 <= nextYear <= 399 && nextYear + 400 * nextEra == y + 400 * era + 1
    ensures Next(FromParts(era, y, YearLength(y) - 1)) == FromParts(nextEra, nextYear, 0)
  {
    YearBounds(y);
    YearBounds(nextYear);
    hide FromParts, MonthLength, YearLength;
    var m := FromPartsMonth(era, y, YearLength(y) - 1);
    var n := FromPartsMonth(nextEra, nextYear, 0);
    assert m == 11 && n == 0;
  }

  lemma PartsNext(era: int, y: int, dayOfYear: int)
    requires Parts(y, dayOfYear)
    ensures Valid(FromParts(era, y, dayOfYear))
    ensures Next(FromParts(era, y, dayOfYear)) ==
      if dayOfYear + 1 < YearLength(y) then FromParts(era, y, dayOfYear + 1)
      else if y < 399 then FromParts(era, y + 1, 0)
      else FromParts(era + 1, 0, 0)
  {
    hide FromParts, MonthLength, YearLength, Next;
    YearBounds(y);
    var m := FromPartsMonth(era, y, dayOfYear);
    if dayOfYear + 1 < YearLength(y) {
      NextInYear(era, y, dayOfYear);
    } else if y < 399 {
      NextYear(era, y, era, y + 1);
    } else {
      NextYear(era, y, era + 1, 0);
    }
  }

  lemma EpochDay()
    ensures FromDays(0) == Date(1970, 1, 1)
  {
    assert 719_468 / 146_097 == 4 && 719_468 % 146_097 == 135_080;
    assert YearOfEra(135_080) == 369 && YearStart(369) == 134_774;
  }

  /** Day 0 is 1970-01-01 and every following day is the calendar successor, for all integers. */
  lemma Gregorian(daysSinceEpoch: int)
    ensures FromDays(0) == Date(1970, 1, 1)
    ensures Valid(FromDays(daysSinceEpoch))
    ensures FromDays(daysSinceEpoch + 1) == Next(FromDays(daysSinceEpoch))
  {
    hide Era, YearOf, DayOfYear, YearStart, YearLength, FromParts, FromDays, Next, Valid;
    EpochDay();
    forall z { YearBounds(z); }
    var days := daysSinceEpoch + 719_468;
    var (era, y, dayOfYear) := (Era(days), YearOf(days), DayOfYear(days));
    DaysParts(days);
    FromDaysParts(daysSinceEpoch);
    PartsNext(era, y, dayOfYear);
    if dayOfYear + 1 < YearLength(y) {
      PartsDays(daysSinceEpoch + 1, era, y, dayOfYear + 1);
    } else if y < 399 {
      YearStartNext(y);
      PartsDays(daysSinceEpoch + 1, era, y + 1, 0);
    } else {
      assert y == 399;
      PartsDays(daysSinceEpoch + 1, era + 1, 0, 0);
    }
  }

  // ----- the inverse -----

  function MarchMonth(month: int): int { if month > 2 then month - 3 else month + 9 }

  function MarchYear(d: Date): int { if d.month > 2 then d.year else d.year - 1 }

  function ToDays(d: Date): int {
    var year := MarchYear(d);
    146_097 * (year / 400) + YearStart(year % 400) + MonthStart(MarchMonth(d.month)) + d.day - 1 - 719_468
  }

  lemma MonthUnique(m: int, dayOfYear: int)
    requires 0 <= m <= 11 && MonthStart(m) <= dayOfYear < MonthStart(m + 1)
    ensures (5 * dayOfYear + 2) / 153 == m
  {}

  lemma MonthLengths(d: Date)
    requires Valid(d)
    ensures var m := MarchMonth(d.month);
      && 0 <= m <= 11
      && MonthLength(d.year, d.month) ==
        if m < 11 then MonthStart(m + 1) - MonthStart(m) else if Leap(d.year) then 29 else 28
  {}

  lemma ToDaysInverse(d: Date)
    requires Valid(d)
    ensures FromDays(ToDays(d)) == d
  {
    hide YearOfEra, YearStart, FromDays;
    var m, year := MarchMonth(d.month), MarchYear(d);
    var era, y := year / 400, year % 400;
    var dayOfYear := MonthStart(m) + d.day - 1;
    MonthLengths(d);
    assert year == y + 400 * era;
    LeapPeriod(y + 1, era);
    assert m == 11 ==> MonthStart(11) == 337 && MonthStart(12) == 367;
    assert m < 11 ==> MonthStart(m + 1) <= 337;
    assert Parts(y, dayOfYear);
    PartsDays(ToDays(d), era, y, dayOfYear);
    MonthUnique(m, dayOfYear);
  }

  predicate Before(d: Date, e: Date) {
    d.year < e.year || (d.year == e.year && (d.month < e.month || (d.month == e.month && d.day < e.day)))
  }

  lemma {:induction false} LaterDayLaterDate(a: int, b: int)
    requires a < b
    ensures Before(FromDays(a), FromDays(b))
    decreases b - a
  {
    hide FromDays;
    Gregorian(b - 1);
    if a < b - 1 { LaterDayLaterDate(a, b - 1); }
  }

  lemma DateOrder(a: int, b: int)
    ensures Before(FromDays(a), FromDays(b)) <==> a < b
  {
    hide FromDays;
    if a < b { LaterDayLaterDate(a, b); } else if b < a { LaterDayLaterDate(b, a); }
  }

  lemma FromDaysInverse(daysSinceEpoch: int)
    ensures ToDays(FromDays(daysSinceEpoch)) == daysSinceEpoch
  {
    hide FromDays, ToDays;
    Gregorian(daysSinceEpoch);
    ToDaysInverse(FromDays(daysSinceEpoch));
    DateOrder(ToDays(FromDays(daysSinceEpoch)), daysSinceEpoch);
    DateOrder(daysSinceEpoch, ToDays(FromDays(daysSinceEpoch)));
  }

  // ----- the text, and its use as an expiry date (src/product/config.rs) -----

  /** `{:0width}`: zeros go between the sign and the digits. */
  function Padded(n: int, width: nat): string {
    if n < 0 then "-" + Zeros(Decimal(-n), if width == 0 then 0 else width - 1) else Zeros(Decimal(n), width)
  }

  function Zeros(digits: string, width: nat): string
    decreases width - |digits|
  {
    if |digits| >= width then digits else Zeros("0" + digits, width)
  }

  function Render(d: Date): string {
    Padded(d.year, 4) + "-" + Padded(d.month, 2) + "-" + Padded(d.day, 2)
  }

  /** Rust's `parse::<u32>` on a short text: one leading plus sign is allowed. */
  function ParseDigits(s: string): int {
    if s == [] || DigitValue(s[|s| - 1]) < 0 then -1
    else if |s| == 1 then DigitValue(s[0])
    else if ParseDigits(s[..|s| - 1]) < 0 then -1
    else 10 * ParseDigits(s[..|s| - 1]) + DigitValue(s[|s| - 1])
  }

  function ParseNumber(s: string): int {
    if |s| > 1 && s[0] == '+' then ParseDigits(s[1..]) else ParseDigits(s)
  }

  /** `valid_date`; the date it has read is returned. */
  function ReadDate(text: string): Option<Date> {
    if |text| != 10 || text[4] != '-' || text[7] != '-' then None
    else
      var d := Date(ParseNumber(text[..4]), ParseNumber(text[5..7]), ParseNumber(text[8..]));
      if d.year >= 1970 && Valid(d) then Some(d) else None
  }

  /** The check that rejects an expired suppression. */
  predicate Expired(expiry: string, today: string) {
    ReadDate(today).Some? && StringLess(expiry, today)
  }

  // ----- the text form of a date with a four-digit year -----

  function Two(n: int): string
    requires 0 <= n < 100
  {
    [Digit(n / 10), Digit(n % 10)]
  }

  predicate FourDigitYear(d: Date) { Valid(d) && 1970 <= d.year <= 9999 }

  function Fixed(d: Date): string
    requires FourDigitYear(d)
  {
    Two(d.year / 100) + (Two(d.year % 100) + ("-" + (Two(d.month) + ("-" + Two(d.day)))))
  }

  lemma DecimalTwo(n: int)
    requires 0 <= n < 100
    ensures Padded(n, 2) == Two(n)
  {
    if n < 10 {
      assert Zeros("0" + [Digit(n)], 2) == "0" + [Digit(n)];
      assert Two(n) == ['0', Digit(n)];
    } else {
      assert Decimal(n / 10) == [Digit(n / 10)];
    }
  }

  lemma DecimalFour(n: int)
    requires 1000 <= n <= 9999
    ensures Padded(n, 4) == Two(n / 100) + Two(n % 100)
  {
    var hundreds, tens := n / 100, n / 10;
    DecimalTwo(hundreds);
    assert tens / 10 == hundreds && tens % 10 == n % 100 / 10 && n % 10 == n % 100 % 10;
    assert Decimal(hundreds) == Two(hundreds);
    assert Decimal(tens) == Two(hundreds) + [Digit(n % 100 / 10)];
    assert Decimal(n) == Decimal(tens) + [Digit(n % 10)];
    assert Decimal(n) == Two(hundreds) + Two(n % 100);
  }

  lemma RenderFixed(d: Date)
    requires FourDigitYear(d)
    ensures Render(d) == Fixed(d)
  {
    DecimalFour(d.year);
    DecimalTwo(d.month);
    DecimalTwo(d.day);
  }

  lemma ParsePair(s: string)
    requires |s| == 2
    ensures ParseDigits(s[..1]) == DigitValue(s[0])
    ensures ParseDigits(s) ==
      if DigitValue(s[0]) < 0 || DigitValue(s[1]) < 0 then -1 else 10 * DigitValue(s[0]) + DigitValue(s[1])
  {
    assert s[..1] == [s[0]];
    assert ParseDigits([s[0]]) == DigitValue(s[0]);
  }

  lemma ParseTwo(a: int, b: int)
    requires 0 <= a < 10 && 0 <= b < 10
    ensures ParseNumber([Digit(a), Digit(b)]) == 10 * a + b
  {
    DigitValues(a);
    DigitValues(b);
    ParsePair([Digit(a), Digit(b)]);
  }

  lemma ParseStep(s: string, c: char)
    requires s != []
    ensures ParseDigits(s + [c]) ==
      if ParseDigits(s) < 0 || DigitValue(c) < 0 then -1 else 10 * ParseDigits(s) + DigitValue(c)
  {
    assert (s + [c])[..|s|] == s;
  }

  lemma ParseFour(s: string, t: string)
    requires |s| == 2 && |t| == 2 && s[0] != '+'
    ensures ParseNumber(s + t) >= 0 ==> ParseDigits(s) >= 0 && DigitValue(t[0]) >= 0 && DigitValue(t[1]) >= 0
    ensures ParseDigits(s) >= 0 && DigitValue(t[0]) >= 0 && DigitValue(t[1]) >= 0
      ==> ParseNumber(s + t) == 100 * ParseDigits(s) + 10 * DigitValue(t[0]) + DigitValue(t[1])
  {
    assert s + t == s + [t[0]] + [t[1]];
    ParseStep(s, t[0]);
    ParseStep(s + [t[0]], t[1]);
  }

  /** The text of a date is read back as the same date. */
  lemma ReadFixed(d: Date)
    requires FourDigitYear(d)
    ensures ReadDate(Fixed(d)) == Some(d)
  {
    hide ParseNumber, Two, Leap;
    var y, m, n := d.year, d.month, d.day;
    var text := Fixed(d);
    ParsedTwo(m);
    ParsedTwo(n);
    ParsedYear(y);
    assert text[..4] == Two(y / 100) + Two(y % 100);
    assert text[5..7] == Two(m) && text[8..] == Two(n);
  }

  lemma ParsedTwo(n: int)
    requires 0 <= n < 100
    ensures |Two(n)| == 2 && ParseNumber(Two(n)) == n
  {
    ParseTwo(n / 10, n % 10);
  }

  lemma ParsedYear(y: int)
    requires 1970 <= y <= 9999
    ensures |Two(y / 100)| == |Two(y % 100)| == 2 && ParseNumber(Two(y / 100) + Two(y % 100)) == y
  {
    var h, l := y / 100, y % 100;
    ParsedTwo(h);
    DigitValues(h / 10);
    DigitValues(l / 10);
    DigitValues(l % 10);
    ParseFour(Two(h), Two(l));
  }

  lemma {:induction false} LeadingMinus(s: string)
    requires s != [] && s[0] == '-'
    ensures ParseDigits(s) == -1
  {
    if |s| > 1 { LeadingMinus(s[..|s| - 1]); }
  }

  lemma {:induction false} ParseDecimal(n: nat)
    ensures ParseDigits(Decimal(n)) == n && Decimal(n)[0] != '+'
  {
    DigitValues(n % 10);
    if n >= 10 {
      ParseDecimal(n / 10);
      assert Decimal(n)[..|Decimal(n)| - 1] == Decimal(n / 10);
    }
  }

  lemma {:induction false} DecimalLength(n: nat, digits: nat)
    requires n >= Power10(digits)
    ensures |Decimal(n)| > digits
  {
    if digits > 0 { DecimalLength(n / 10, digits - 1); }
  }

  function Power10(n: nat): nat { if n == 0 then 1 else 10 * Power10(n - 1) }

  lemma {:induction false} ParseZeros(digits: string, width: nat)
    requires ParseDigits(digits) >= 0 && digits[0] != '+'
    ensures ParseDigits(Zeros(digits, width)) == ParseDigits(digits) && Zeros(digits, width)[0] != '+'
    ensures |Zeros(digits, width)| >= |digits|
    decreases width - |digits|
  {
    if |digits| < width {
      ParseLeadingZero(digits);
      ParseZeros("0" + digits, width);
    }
  }

  lemma {:induction false} ParseLeadingZero(digits: string)
    requires ParseDigits(digits) >= 0
    ensures ParseDigits("0" + digits) == ParseDigits(digits)
  {
    var last := |digits| - 1;
    assert ("0" + digits)[..last + 1] == "0" + digits[..last];
    if last > 0 { ParseLeadingZero(digits[..last]); } else { assert "0" + digits[..last] == "0"; }
  }

  /** The rendered text of any date is read back as that date from 1970 to 9999, and is no date otherwise. */
  lemma ReadRendered(d: Date)
    requires Valid(d)
    ensures ReadDate(Render(d)) == if 1970 <= d.year <= 9999 then Some(d) else None
  {
    if 1970 <= d.year <= 9999 {
      RenderFixed(d);
      ReadFixed(d);
    } else {
      hide Padded;
      DecimalTwo(d.month);
      DecimalTwo(d.day);
      var year := Padded(d.year, 4);
      assert |Render(d)| == |year| + 6;
      assert |year| == 4 ==> Render(d)[..4] == year;
      OtherYear(d.year);
    }
  }

  /** The text of any other year is too long or not read as a year since the epoch. */
  lemma OtherYear(n: int)
    requires !(1970 <= n <= 9999)
    ensures |Padded(n, 4)| != 4 || ParseNumber(Padded(n, 4)) < 1970
  {
    if n < 0 {
      SignFirst(n);
      LeadingMinus(Padded(n, 4));
    } else {
      ParseDecimal(n);
      ParseZeros(Decimal(n), 4);
      assert Power10(4) == 10_000;
      if n > 9999 { DecimalLength(n, 4); }
    }
  }

  lemma SignFirst(n: int)
    requires n < 0
    ensures Padded(n, 4) != [] && Padded(n, 4)[0] == '-'
  {}

  lemma TwoInverse(s: string)
    requires |s| == 2 && s[0] != '+' && ParseNumber(s) >= 0
    ensures ParseNumber(s) == ParseDigits(s) < 100 && Two(ParseNumber(s)) == s
    ensures ParseNumber(s) == 10 * DigitValue(s[0]) + DigitValue(s[1])
  {
    ParsePair(s);
    DigitInverse(s[0]);
    DigitInverse(s[1]);
    var n := 10 * DigitValue(s[0]) + DigitValue(s[1]);
    assert n / 10 == DigitValue(s[0]) && n % 10 == DigitValue(s[1]);
  }

  lemma YearPiece(s: string)
    requires |s| == 4 && ParseNumber(s) >= 1970
    ensures s[0] != '+' && ParseNumber(s) <= 9999 && s == Two(ParseNumber(s) / 100) + Two(ParseNumber(s) % 100)
  {
    if s[0] == '+' {
      ParsePair(s[1..][..2]);
    }
    var a, b := s[..2], s[2..];
    assert s == a + b;
    ParseFour(a, b);
    TwoInverse(a);
    DigitInverse(b[0]);
    DigitInverse(b[1]);
    var low := 10 * DigitValue(b[0]) + DigitValue(b[1]);
    assert low / 10 == DigitValue(b[0]) && low % 10 == DigitValue(b[1]);
    assert ParseNumber(s) / 100 == ParseNumber(a) && ParseNumber(s) % 100 == low;
  }

  /** A valid text without a plus sign is the fixed form of its date. */
  lemma ReadIsFixed(text: string)
    requires ReadDate(text).Some? && '+' !in text
    ensures FourDigitYear(ReadDate(text).value) && text == Fixed(ReadDate(text).value)
  {
    hide ParseNumber, DigitValue, Digit, Leap;
    assert text[0] in text && text[5] in text && text[8] in text;
    YearPiece(text[..4]);
    TwoInverse(text[5..7]);
    TwoInverse(text[8..]);
    var d := ReadDate(text).value;
    assert text == text[..4] + ("-" + (text[5..7] + ("-" + text[8..])));
    assert (Two(d.year / 100) + Two(d.year % 100)) + ("-" + (Two(d.month) + ("-" + Two(d.day)))) == Fixed(d);
  }

  // ----- text order is date order -----

  lemma {:induction false} StringLessAppend(a: string, b: string, x: string, y: string)
    requires |a| == |b|
    ensures StringLess(a + x, b + y) <==> StringLess(a, b) || (a == b && StringLess(x, y))
  {
    if a == [] {
      assert a + x == x && b + y == y;
    } else {
      StringLessAppend(a[1..], b[1..], x, y);
      assert (a + x)[1..] == a[1..] + x && (b + y)[1..] == b[1..] + y;
      assert a == b <==> a[0] == b[0] && a[1..] == b[1..];
    }
  }

  lemma DigitOrder(a: int, b: int)
    requires 0 <= a < 10 && 0 <= b < 10
    ensures StringLess([Digit(a)], [Digit(b)]) <==> a < b
    ensures Digit(a) == Digit(b) <==> a == b
  {
    assert Digit(a) as int - Digit(b) as int == a - b;
    assert StringLess([Digit(a)], [Digit(b)]) <==> Digit(a) < Digit(b);
  }

  lemma TwoOrder(m: int, n: int)
    requires 0 <= m < 100 && 0 <= n < 100
    ensures |Two(m)| == |Two(n)| == 2
    ensures StringLess(Two(m), Two(n)) <==> m < n
    ensures Two(m) == Two(n) <==> m == n
  {
    hide StringLess, Digit;
    DigitOrder(m / 10, n / 10);
    DigitOrder(m % 10, n % 10);
    StringLessAppend([Digit(m / 10)], [Digit(n / 10)], [Digit(m % 10)], [Digit(n % 10)]);
    assert Two(m) == [Digit(m / 10)] + [Digit(m % 10)] && Two(n) == [Digit(n / 10)] + [Digit(n % 10)];
  }

  lemma FixedOrder(d: Date, e: Date)
    requires FourDigitYear(d) && FourDigitYear(e)
    ensures StringLess(Fixed(d), Fixed(e)) <==> Before(d, e)
  {
    hide Two, StringLess;
    TwoOrder(d.year / 100, e.year / 100);
    TwoOrder(d.year % 100, e.year % 100);
    TwoOrder(d.month, e.month);
    TwoOrder(d.day, e.day);
    DashOrder(Two(d.day), Two(e.day));
    var (d2, e2) := (Two(d.month) + ("-" + Two(d.day)), Two(e.month) + ("-" + Two(e.day)));
    StringLessAppend(Two(d.month), Two(e.month), "-" + Two(d.day), "-" + Two(e.day));
    DashOrder(d2, e2);
    StringLessAppend(Two(d.year % 100), Two(e.year % 100), "-" + d2, "-" + e2);
    var (d3, e3) := (Two(d.year % 100) + ("-" + d2), Two(e.year % 100) + ("-" + e2));
    StringLessAppend(Two(d.year / 100), Two(e.year / 100), d3, e3);
  }

  lemma DashOrder(x: string, y: string)
    ensures StringLess("-" + x, "-" + y) <==> StringLess(x, y)
  {
    StringLessAppend("-", "-", x, y);
    StringIrreflexive("-");
  }

  /** The suppression counts as expired on exactly the days after its date, up to the year 9999, after
      which the text of the day is no date. */
  ghost predicate ExpiryByDate(expiry: string, date: Date) {
    forall n :: Expired(expiry, Render(FromDays(n))) <==> Before(date, FromDays(n)) && FromDays(n).year <= 9999
  }

  /** Comparing the texts decides by calendar date, on every integer day, exactly when the expiry text is
      written without a plus sign. */
  lemma ExpiryExact(expiry: string)
    requires ReadDate(expiry).Some?
    ensures ExpiryByDate(expiry, ReadDate(expiry).value) <==> '+' !in expiry
  {
    hide StringLess, FromDays, Fixed, Render, Before;
    var date := ReadDate(expiry).value;
    if '+' !in expiry {
      ReadIsFixed(expiry);
      forall n
        ensures Expired(expiry, Render(FromDays(n))) <==> Before(date, FromDays(n)) && FromDays(n).year <= 9999
      {
        Gregorian(n);
        ReadRendered(FromDays(n));
        if 1970 <= FromDays(n).year <= 9999 {
          RenderFixed(FromDays(n));
          FixedOrder(date, FromDays(n));
        } else {
          EarlierYear(FromDays(n), date);
        }
      }
    } else {
      PlusSortsFirst(expiry);
      ToDaysInverse(date);
      RenderFixed(date);
      ReadRendered(date);
      assert Expired(expiry, Render(FromDays(ToDays(date))));
      EarlierYear(date, date);
    }
  }

  lemma EarlierYear(d: Date, e: Date)
    ensures !Before(d, d) && (d.year < e.year ==> !Before(e, d))
  {}

  /** Such texts exist: `valid_date` reads this one, and on its own date it already counts as expired. */
  lemma PlusAccepted()
    ensures ReadDate("2030-+1-15") == Some(Date(2030, 1, 15))
    ensures Expired("2030-+1-15", Render(Date(2030, 1, 15)))
  {
    hide StringLess, Render, Fixed;
    var text := "2030-+1-15";
    var year, month, day := "2030", "+1", "15";
    assert text[..4] == year && text[5..7] == month && text[8..] == day;
    assert ParseDigits("20") == 20 by { ParsePair("20"); }
    ParseFour("20", "30");
    assert "20" + "30" == year;
    assert month[1..] == "1";
    ParsePair(day);
    assert ReadDate(text) == Some(Date(2030, 1, 15));
    assert text[5] == '+' && '+' in text;
    PlusSortsFirst(text);
    RenderFixed(Date(2030, 1, 15));
    ReadRendered(Date(2030, 1, 15));
  }

  /** A plus sign sorts before every digit, so such a text counts as expired on its own date. */
  lemma PlusSortsFirst(expiry: string)
    requires ReadDate(expiry).Some? && '+' in expiry
    ensures FourDigitYear(ReadDate(expiry).value) && StringLess(expiry, Fixed(ReadDate(expiry).value))
  {
    hide StringLess, ParseNumber, Digit, MonthLength;
    var d := ReadDate(expiry).value;
    var (y, m, n) := (expiry[..4], expiry[5..7], expiry[8..]);
    YearPiece(y);
    PlusPiece(m);
    PlusPiece(n);
    assert expiry == y + ("-" + (m + ("-" + n)));
    assert Fixed(d) == y + ("-" + (Two(d.month) + ("-" + Two(d.day))));
    StringLessAppend(m, Two(d.month), "-" + n, "-" + Two(d.day));
    DashOrder(n, Two(d.day));
    DashOrder(m + ("-" + n), Two(d.month) + ("-" + Two(d.day)));
    StringLessAppend(y, y, "-" + (m + ("-" + n)), "-" + (Two(d.month) + ("-" + Two(d.day))));
    assert '+' in m || '+' in n by { NoPlusInYear(y); }
  }

  lemma NoPlusInYear(s: string)
    requires |s| == 4 && ParseNumber(s) >= 1970
    ensures '+' !in s
  {
    YearPiece(s);
    var n := ParseNumber(s);
    DigitValues(n / 100 / 10);
    DigitValues(n / 100 % 10);
    DigitValues(n % 100 / 10);
    DigitValues(n % 100 % 10);
  }

  lemma PlusPiece(s: string)
    requires |s| == 2 && 0 <= ParseNumber(s)
    ensures ParseNumber(s) < 100
    ensures '+' in s ==> StringLess(s, Two(ParseNumber(s)))
    ensures '+' !in s ==> s == Two(ParseNumber(s))
  {
    if s[0] == '+' {
      assert s[1..] == [s[1]];
      DigitInverse(s[1]);
      assert Two(ParseNumber(s))[0] == '0';
    } else {
      TwoInverse(s);
      DigitValues(ParseNumber(s) / 10);
      DigitValues(ParseNumber(s) % 10);
    }
  }
}
