/** Dates of the proleptic Gregorian calendar, with the month lengths of section 5.7 of RFC 3339. */
module Gregorian {
  import opened Arithmetic

  datatype Date = Date(year: int, month: int, day: int)

  /** Appendix C of RFC 3339. */
  predicate IsLeap(year: int) {
    year % 4 == 0 && (year % 100 != 0 || year % 400 == 0)
  }

  function DaysInMonth(year: int, month: int): int
    requires 1 <= month <= 12
  {
    if month == 2 then (if IsLeap(year) then 29 else 28)
    else if month == 4 || month == 6 || month == 9 || month == 11 then 30
    else 31
  }

  predicate Valid(date: Date) {
    1 <= date.month <= 12 && 1 <= date.day <= DaysInMonth(date.year, date.month)
  }

  /** The day after. */
  function Next(date: Date): Date
    requires Valid(date)
  {
    if date.day < DaysInMonth(date.year, date.month) then date.(day := date.day + 1)
    else if date.month < 12 then Date(date.year, date.month + 1, 1)
    else Date(date.year + 1, 1, 1)
  }

  lemma NextIsValid(date: Date)
    requires Valid(date)
    ensures Valid(Next(date))
  {
  }

  function DaysAfter(date: Date, n: nat): (r: Date)
    requires Valid(date)
    ensures Valid(r)
  {
    if n == 0 then date else NextIsValid(DaysAfter(date, n - 1)); Next(DaysAfter(date, n - 1))
  }

  // ----- numbering -----------------------------------------------------------------------

  /** Years counted from March, so that the leap day comes last. */
  function MarchYear(date: Date): int {
    if date.month <= 2 then date.year - 1 else date.year
  }

  function MonthFromMarch(month: int): int {
    if month <= 2 then month + 9 else month - 3
  }

  /** Days before month mp of a year that starts in March. */
  function MonthStart(mp: int): int {
    (153 * mp + 2) / 5
  }

  /** Days before March of a year, from March of year 0. */
  function YearStart(y: int): int {
    365 * y + y / 4 - y / 100 + y / 400
  }

  const EPOCH := 719_468 // day number of 1970-01-01, from 0000-03-01

  function DayOfYear(date: Date): int {
    MonthStart(MonthFromMarch(date.month)) + date.day - 1
  }

  function DayNumber(date: Date): int {
    YearStart(MarchYear(date)) + DayOfYear(date) - EPOCH
  }

  lemma StepBy4(y: int)
    ensures (y + 1) / 4 == y / 4 + if (y + 1) % 4 == 0 then 1 else 0
  {
  }

  lemma StepBy100(y: int)
    ensures (y + 1) / 100 == y / 100 + if (y + 1) % 100 == 0 then 1 else 0
  {
  }

  lemma StepBy400(y: int)
    ensures (y + 1) / 400 == y / 400 + if (y + 1) % 400 == 0 then 1 else 0
  {
  }

  lemma Multiples(y: int)
    ensures y % 400 == 0 ==> y % 100 == 0
    ensures y % 100 == 0 ==> y % 4 == 0
  {
    if y % 400 == 0 {
      DivModUnique(y, 100, 4 * (y / 400), 0);
    }
    if y % 100 == 0 {
      DivModUnique(y, 4, 25 * (y / 100), 0);
    }
  }

  lemma YearLength(y: int)
    ensures YearStart(y + 1) - YearStart(y) == if IsLeap(y + 1) then 366 else 365
  {
    StepBy4(y);
    StepBy100(y);
    StepBy400(y);
    Multiples(y + 1);
  }

  lemma YearStartMonotone(a: int, b: int)
    requires a <= b
    ensures YearStart(a) <= YearStart(b)
  {
  }

  lemma DayOfYearBelow(date: Date)
    requires Valid(date)
    ensures 0 <= DayOfYear(date) < YearStart(MarchYear(date) + 1) - YearStart(MarchYear(date))
  {
    YearLength(MarchYear(date));
  }

  /** The next date has the next number. */
  lemma NextNumber(date: Date)
    requires Valid(date)
    ensures DayNumber(Next(date)) == DayNumber(date) + 1
  {
    if date.month == 2 {
      YearLength(date.year - 1);
    }
  }

  lemma MonthUnique(mp: int, mq: int, d: int, e: int)
    requires 0 <= mp <= 11 && 0 <= mq <= 11
    requires 0 <= d < 31 && (mp < 11 ==> d < MonthStart(mp + 1) - MonthStart(mp))
    requires 0 <= e < 31 && (mq < 11 ==> e < MonthStart(mq + 1) - MonthStart(mq))
    requires MonthStart(mp) + d == MonthStart(mq) + e
    ensures mp == mq && d == e
  {
  }

  lemma YearUnique(y: int, d: int, z: int, e: int)
    requires 0 <= d < YearStart(y + 1) - YearStart(y) && 0 <= e < YearStart(z + 1) - YearStart(z)
    requires YearStart(y) + d == YearStart(z) + e
    ensures y == z && d == e
  {
    if y < z {
      YearStartMonotone(y + 1, z);
    } else if z < y {
      YearStartMonotone(z + 1, y);
    }
  }

  lemma DayOfMonthBelow(date: Date)
    requires Valid(date)
    ensures var mp := MonthFromMarch(date.month);
            0 <= mp <= 11 && 0 <= date.day - 1 < 31 && (mp < 11 ==> date.day - 1 < MonthStart(mp + 1) - MonthStart(mp))
  {
  }

  lemma SameMonthAndYear(a: Date, b: Date)
    requires Valid(a) && Valid(b)
    requires MonthFromMarch(a.month) == MonthFromMarch(b.month) && MarchYear(a) == MarchYear(b)
    ensures a.month == b.month && a.year == b.year
  {
  }

  lemma SameYear(a: Date, b: Date)
    requires Valid(a) && Valid(b) && DayNumber(a) == DayNumber(b)
    ensures MarchYear(a) == MarchYear(b) && DayOfYear(a) == DayOfYear(b)
  {
    DayOfYearBelow(a);
    DayOfYearBelow(b);
    YearUnique(MarchYear(a), DayOfYear(a), MarchYear(b), DayOfYear(b));
  }

  lemma SameMonth(a: Date, b: Date)
    requires Valid(a) && Valid(b) && DayOfYear(a) == DayOfYear(b)
    ensures MonthFromMarch(a.month) == MonthFromMarch(b.month) && a.day == b.day
  {
    DayOfMonthBelow(a);
    DayOfMonthBelow(b);
    MonthUnique(MonthFromMarch(a.month), MonthFromMarch(b.month), a.day - 1, b.day - 1);
  }

  /** A number belongs to one date. */
  lemma NumberUnique(a: Date, b: Date)
    requires Valid(a) && Valid(b) && DayNumber(a) == DayNumber(b)
    ensures a == b
  {
    SameYear(a, b);
    SameMonth(a, b);
    SameMonthAndYear(a, b);
  }

  /** The date with the next number is the next date. */
  lemma NumberedNext(a: Date, b: Date)
    requires Valid(a) && Valid(b) && DayNumber(b) == DayNumber(a) + 1
    ensures b == Next(a)
  {
    NextIsValid(a);
    NextNumber(a);
    NumberUnique(b, Next(a));
  }

  lemma {:induction false} DaysAfterNumber(date: Date, n: nat)
    requires Valid(date)
    ensures DayNumber(DaysAfter(date, n)) == DayNumber(date) + n
  {
    if n > 0 {
      DaysAfterNumber(date, n - 1);
      NextNumber(DaysAfter(date, n - 1));
    }
  }

  lemma NumberedAfter(k: int, a: Date, n: nat, b: Date)
    requires Valid(a) && Valid(b) && DayNumber(a) == k && DayNumber(b) == k + n
    ensures b == DaysAfter(a, n)
  {
    DaysAfterNumber(a, n);
    NumberUnique(b, DaysAfter(a, n));
  }
}

/** The timestamp in the metrics output. */
module Timestamp {
  import opened Arithmetic
  import opened Gregorian
  import opened Decimal
  import opened Wrappers


  /** Division that rounds toward zero. */
  function Truncated(a: int, b: int): int
    requires b > 0
  {
    if a >= 0 then a / b else -((-a) / b)
  }

  /** The date of day doy of the year that starts in March of year y. */
  function MarchDate(y: int, doy: int): Date {
    var mp := (5 * doy + 2) / 153;
    var d := doy - (153 * mp + 2) / 5 + 1;
    var m := if mp < 10 then mp + 3 else mp - 9;
    Date(if m <= 2 then y + 1 else y, m, d)
  }

  function YearInEra(doe: int): int {
    (doe - doe / 1460 + doe / 36_524 - doe / 146_096) / 365
  }

  /** The 400-year era of a day counted from 0000-03-01. */
  function Era(z: int): int {
    Truncated(if z >= 0 then z else z - 146_096, 146_097)
  }

  /** The date of day doe of an era. */
  function DateInEra(era: int, doe: int): Date {
    var yoe := YearInEra(doe);
    MarchDate(yoe + era * 400, doe - (365 * yoe + yoe / 4 - yoe / 100))
  }

  /** The date of day z, counted from 1970-01-01. */
  function CivilFromDays(z: int): Date {
    var z := z + 719_468;
    var era := Era(z);
    DateInEra(era, z - era * 146_097)
  }

  lemma EraIsFloor(z: int)
    ensures Era(z) == z / 146_097 && 0 <= z - Era(z) * 146_097 < 146_097
  {
  }

  /** The day of an era is c centuries, q runs of four years and r days. */
  lemma SplitEra(doe: int) returns (c: int, q: int, r: int)
    requires 0 <= doe < 146_097
    ensures 0 <= c <= 3 && 0 <= q <= 24 && 0 <= r <= 1460 && doe == 36_524 * c + 1461 * q + r
    ensures q == 24 && c < 3 ==> r < 1460
  {
    c := if doe == 146_096 then 3 else doe / 36_524;
    q := (doe - 36_524 * c) / 1461;
    r := (doe - 36_524 * c) % 1461;
  }

  lemma YearOfEra(c: int, q: int, r: int, doe: int)
    requires 0 <= c <= 3 && 0 <= q <= 24 && 0 <= r <= 1460 && doe == 36_524 * c + 1461 * q + r
    requires q == 24 && c < 3 ==> r < 1460
    ensures var s := if r == 1460 then 3 else r / 365;
            YearInEra(doe) == 100 * c + 4 * q + s
  {
    assert doe / 146_096 == if doe == 146_096 then 1 else 0;
    assert doe / 36_524 == if doe == 146_096 then 4 else c;
    var e := if r >= 1460 - 24 * c - q then 1 else 0;
    assert doe / 1460 == 25 * c + q + e;
  }

  lemma MonthAndDay(doy: int)
    requires 0 <= doy <= 365
    ensures var mp := (5 * doy + 2) / 153;
            && 0 <= mp <= 11 && MonthStart(mp) <= doy
            && (mp < 11 ==> doy < MonthStart(mp + 1))
  {
  }

  /** The year of an era and the day in it. */
  lemma YearAndDay(doe: int) returns (yoe: int, doy: int)
    requires 0 <= doe < 146_097
    ensures yoe == YearInEra(doe) && doy == doe - (365 * yoe + yoe / 4 - yoe / 100)
    ensures 0 <= yoe < 400 && 0 <= doy <= (if IsLeap(yoe + 1) then 365 else 364)
  {
    var c, q, r := SplitEra(doe);
    YearOfEra(c, q, r, doe);
    var s := if r == 1460 then 3 else r / 365;
    yoe := YearInEra(doe);
    doy := doe - (365 * yoe + yoe / 4 - yoe / 100);
    DayOfYearOfEra(c, q, s, r, yoe);
    assert doy == r - 365 * s;
  }

  lemma DayOfYearOfEra(c: int, q: int, s: int, r: int, yoe: int)
    requires 0 <= c <= 3 && 0 <= q <= 24 && 0 <= s <= 3 && yoe == 100 * c + 4 * q + s
    requires 0 <= r <= 1460 && s == (if r == 1460 then 3 else r / 365) && (q == 24 && c < 3 ==> r < 1460)
    ensures yoe / 4 == 25 * c + q && yoe / 100 == c
    ensures r - 365 * s == 365 ==> IsLeap(yoe + 1)
  {
  }

  /** The same from March of year 0. */
  lemma DateOfEra(era: int, doe: int) returns (y: int, doy: int)
    requires 0 <= doe < 146_097
    ensures DateInEra(era, doe) == MarchDate(y, doy)
    ensures era * 146_097 + doe == YearStart(y) + doy && 0 <= doy <= (if IsLeap(y + 1) then 365 else 364)
  {
    var yoe;
    yoe, doy := YearAndDay(doe);
    y := yoe + era * 400;
    YearStartInEra(yoe, era);
  }

  lemma YearStartInEra(yoe: int, era: int)
    requires 0 <= yoe < 400
    ensures YearStart(yoe + era * 400) == era * 146_097 + 365 * yoe + yoe / 4 - yoe / 100
    ensures IsLeap(yoe + era * 400 + 1) <==> IsLeap(yoe + 1)
  {
    assert (yoe + era * 400) / 4 == yoe / 4 + 100 * era;
    assert (yoe + era * 400) / 100 == yoe / 100 + 4 * era;
    assert (yoe + era * 400) / 400 == era;
    Remainders(yoe + 1, era);
  }

  lemma Remainders(y: int, era: int)
    ensures (y + era * 400) % 4 == y % 4
    ensures (y + era * 400) % 100 == y % 100
    ensures (y + era * 400) % 400 == y % 400
  {
    ModAddMultiple(y, 4, 100 * era);
    ModAddMultiple(y, 100, 4 * era);
    ModAddMultiple(y, 400, era);
  }

  lemma MarchDateIsValid(y: int, doy: int)
    requires 0 <= doy <= (if IsLeap(y + 1) then 365 else 364)
    ensures Valid(MarchDate(y, doy)) && DayOfYear(MarchDate(y, doy)) == doy && MarchYear(MarchDate(y, doy)) == y
  {
    MonthAndDay(doy);
  }

  lemma DateInEraIsValid(era: int, doe: int)
    requires 0 <= doe < 146_097
    ensures Valid(DateInEra(era, doe)) && DayNumber(DateInEra(era, doe)) == era * 146_097 + doe - EPOCH
  {
    var y, doy := DateOfEra(era, doe);
    MarchDateIsValid(y, doy);
    NumberOf(MarchDate(y, doy), y, doy);
  }

  lemma NumberOf(date: Date, y: int, doy: int)
    requires MarchYear(date) == y && DayOfYear(date) == doy
    ensures DayNumber(date) == YearStart(y) + doy - EPOCH
  {
  }

  /** Every day number gives a date of the calendar, and the number of that date is the one it came from. */
  lemma CivilIsValid(z: int)
    ensures Valid(CivilFromDays(z)) && DayNumber(CivilFromDays(z)) == z
  {
    var era := Era(z + 719_468);
    EraIsFloor(z + 719_468);
    DateInEraIsValid(era, z + 719_468 - era * 146_097);
  }

  lemma DaysFromCivil(date: Date)
    requires Valid(date)
    ensures CivilFromDays(DayNumber(date)) == date
  {
    CivilIsValid(DayNumber(date));
    NumberUnique(CivilFromDays(DayNumber(date)), date);
  }

  /** Day z + 1 is the calendar successor of day z. */
  lemma CivilFollowsCalendar(z: int)
    ensures Valid(CivilFromDays(z)) && CivilFromDays(z + 1) == Next(CivilFromDays(z))
  {
    CivilIsValid(z);
    CivilIsValid(z + 1);
    NumberedNext(CivilFromDays(z), CivilFromDays(z + 1));
  }

  lemma Epoch()
    ensures CivilFromDays(0) == Date(1970, 1, 1)
  {
    var epoch := Date(1970, 1, 1);
    assert DayNumber(epoch) == 0;
    DaysFromCivil(epoch);
  }

  /** Day k + n is the date that n steps of the calendar reach from day k. */
  lemma CivilCounts(k: int, n: nat) returns (date: Date, later: Date)
    ensures date == CivilFromDays(k) && later == CivilFromDays(k + n)
    ensures Valid(date) && later == DaysAfter(date, n)
  {
    date := CivilDate(k);
    later := CivilDate(k + n);
    NumberedAfter(k, date, n, later);
  }

  lemma CivilDate(z: int) returns (date: Date)
    ensures date == CivilFromDays(z) && Valid(date) && DayNumber(date) == z
  {
    date := CivilFromDays(z);
    CivilIsValid(z);
  }

  // ----- text ----------------------------------------------------------------------------

  /** A character, then a number of at least this many digits. */
  datatype Field = Field(mark: char, width: nat)

  const AFTER_YEAR := [Field('-', 2), Field('-', 2), Field('T', 2), Field(':', 2), Field(':', 2), Field('.', 3)]

  function FormatFields(fields: seq<Field>, values: seq<nat>): string
    requires |values| == |fields|
  {
    if fields == [] then ""
    else [fields[0].mark] + Padded(values[0], fields[0].width) + FormatFields(fields[1..], values[1..])
  }

  /** `YYYY-MM-DDTHH:MM:SS.mmmZ`. */
  function FormatIso8601(millis: nat): string {
    var totalSeconds := millis / 1000;
    var second := totalSeconds % 86_400;
    FromEpoch(totalSeconds / 86_400);
    var date := CivilFromDays(totalSeconds / 86_400);
    FormatTime(date, second / 3600, second % 3600 / 60, second % 60, millis % 1000)
  }

  function FormatTime(date: Date, hour: nat, minute: nat, second: nat, millis: nat): string
    requires date.year >= 0 && date.month >= 0 && date.day >= 0
  {
    Padded(date.year, 4) + FormatFields(AFTER_YEAR, [date.month, date.day, hour, minute, second, millis]) + "Z"
  }

  lemma FromEpoch(z: nat)
    ensures var date := CivilFromDays(z); date.year >= 1970 && date.month > 0 && date.day > 0
  {
    CivilIsValid(z);
    var date := CivilFromDays(z);
    DayOfYearBelow(date);
    if date.year < 1970 {
      YearStartMonotone(MarchYear(date) + 1, 1970);
    }
  }

  /** Reads fields of exactly the given widths. */
  function ReadFields(fields: seq<Field>, s: string): Option<seq<nat>> {
    if fields == [] then (if s == "" then Some([]) else None)
    else
      var end := fields[0].width + 1;
      if end <= |s| && s[0] == fields[0].mark then
        match (Parse(s[1..end]), ReadFields(fields[1..], s[end..]))
        case (Some(v), Some(rest)) => Some([v] + rest)
        case _ => None
      else None
  }

  predicate Fit(fields: seq<Field>, values: seq<nat>) {
    |values| == |fields| && forall i :: 0 <= i < |fields| ==> fields[i].width > 0 && values[i] < Pow10(fields[i].width)
  }

  function TextLength(fields: seq<Field>): nat {
    if fields == [] then 0 else 1 + fields[0].width + TextLength(fields[1..])
  }

  lemma {:induction false} ReadFormatted(fields: seq<Field>, values: seq<nat>)
    requires Fit(fields, values)
    ensures |FormatFields(fields, values)| == TextLength(fields)
    ensures ReadFields(fields, FormatFields(fields, values)) == Some(values)
  {
    if fields != [] {
      ReadFormatted(fields[1..], values[1..]);
      var s := FormatFields(fields, values);
      var text := Padded(values[0], fields[0].width);
      PaddedLength(values[0], fields[0].width);
      ParsePadded(values[0], fields[0].width);
      assert s[1..fields[0].width + 1] == text;
      assert s[fields[0].width + 1..] == FormatFields(fields[1..], values[1..]);
      assert [values[0]] + values[1..] == values;
    }
  }

  function MillisOf(date: Date, hour: int, minute: int, second: int, millis: int): int {
    ((DayNumber(date) * 86_400) + hour * 3600 + minute * 60 + second) * 1000 + millis
  }

  const TAIL := 20 // characters after the year

  function ParseIso8601(s: string): Option<int> {
    if |s| <= TAIL || s[|s| - 1] != 'Z' then None
    else
      match (Parse(s[..|s| - TAIL]), ReadFields(AFTER_YEAR, s[|s| - TAIL..|s| - 1]))
      case (Some(year), Some(v)) =>
        if |v| == 6 && Valid(Date(year, v[0], v[1])) && v[2] < 24 && v[3] < 60 && v[4] < 60 then
          Some(MillisOf(Date(year, v[0], v[1]), v[2], v[3], v[4], v[5]))
        else None
      case _ => None
  }

  lemma TailLength()
    ensures TextLength(AFTER_YEAR) == TAIL - 1
  {
    var f := AFTER_YEAR;
    assert TextLength(f[6..]) == 0;
    assert f[5..][1..] == f[6..] && f[4..][1..] == f[5..] && f[3..][1..] == f[4..];
    assert f[2..][1..] == f[3..] && f[1..][1..] == f[2..];
  }

  lemma FieldsFit(date: Date, hour: nat, minute: nat, second: nat, millis: nat)
    requires Valid(date) && date.year >= 0 && hour < 24 && minute < 60 && second < 60 && millis < 1000
    ensures Fit(AFTER_YEAR, [date.month, date.day, hour, minute, second, millis])
  {
    assert Pow10(1) == 10 * Pow10(0);
    assert Pow10(2) == 100 && Pow10(3) == 1000;
  }

  lemma SplitText(year: string, fields: string)
    requires |fields| == TAIL - 1
    ensures var s := year + fields + "Z";
            |s| == |year| + TAIL && s[|s| - 1] == 'Z' && s[..|s| - TAIL] == year && s[|s| - TAIL..|s| - 1] == fields
  {
  }

  lemma ParseParts(year: string, fields: string, date: Date, v: seq<nat>)
    requires year != "" && |fields| == TAIL - 1 && Parse(year) == Some(date.year)
    requires |v| == 6 && ReadFields(AFTER_YEAR, fields) == Some(v)
    requires Valid(date) && date.month == v[0] && date.day == v[1] && v[2] < 24 && v[3] < 60 && v[4] < 60
    ensures ParseIso8601(year + fields + "Z") == Some(MillisOf(date, v[2], v[3], v[4], v[5]))
  {
    SplitText(year, fields);
    assert Date(date.year, v[0], v[1]) == date;
  }

  lemma ParseFormatted(date: Date, hour: nat, minute: nat, second: nat, millis: nat)
    requires Valid(date) && date.year >= 0 && hour < 24 && minute < 60 && second < 60 && millis < 1000
    ensures ParseIso8601(FormatTime(date, hour, minute, second, millis)) ==
            Some(MillisOf(date, hour, minute, second, millis))
    ensures |FormatTime(date, hour, minute, second, millis)| == |Padded(date.year, 4)| + TAIL
  {
    var values := [date.month, date.day, hour, minute, second, millis];
    var s := FormatTime(date, hour, minute, second, millis);
    FieldsFit(date, hour, minute, second, millis);
    ReadFormatted(AFTER_YEAR, values);
    TailLength();
    ParsePadded(date.year, 4);
    PaddedLength(date.year, 4);
    ParseParts(Padded(date.year, 4), FormatFields(AFTER_YEAR, values), date, values);
  }

  lemma SplitTime(millis: nat, seconds: nat, second: nat)
    requires seconds == millis / 1000 && second == seconds % 86_400
    ensures second / 3600 < 24 && second % 3600 / 60 < 60
    ensures (seconds / 86_400 * 86_400 + second / 3600 * 3600 + second % 3600 / 60 * 60 + second % 60) * 1000
            + millis % 1000 == millis
  {
    assert second % 60 == second % 3600 % 60;
  }

  /** A time of a day with this date, as text and read back. */
  lemma FormatAndParse(millis: nat, date: Date)
    requires Valid(date) && date.year >= 0 && DayNumber(date) == millis / 1000 / 86_400
    ensures var second := millis / 1000 % 86_400;
            var text := FormatTime(date, second / 3600, second % 3600 / 60, second % 60, millis % 1000);
            ParseIso8601(text) == Some(millis as int) && |text| == |Padded(date.year, 4)| + TAIL
  {
    var second := millis / 1000 % 86_400;
    var hour, minute := second / 3600, second % 3600 / 60;
    SplitTime(millis, millis / 1000, second);
    ParseFormatted(date, hour, minute, second % 60, millis % 1000);
    assert MillisOf(date, hour, minute, second % 60, millis % 1000) == millis;
  }

  /** Reading a timestamp gives back the milliseconds it was made from. */
  lemma TimestampRoundTrip(millis: nat)
    ensures ParseIso8601(FormatIso8601(millis)) == Some(millis as int)
  {
    var z := millis / 1000 / 86_400;
    CivilIsValid(z);
    FromEpoch(z);
    FormatAndParse(millis, CivilFromDays(z));
  }

  lemma YearBefore10000(date: Date)
    requires Valid(date)
    ensures date.year < 10_000 <==> DayNumber(date) < 2_932_897
  {
    DayOfYearBelow(date);
    var y := MarchYear(date);
    assert YearStart(9_999) == 3_652_059;
    if y < 9_999 {
      YearStartMonotone(y + 1, 9_999);
    } else if y > 9_999 {
      YearStartMonotone(10_000, y);
    }
  }

  /** The text has the 24 characters of the format exactly for times before the year 10000. */
  lemma TimestampLength(millis: nat)
    ensures |FormatIso8601(millis)| == 24 <==> millis < 253_402_300_800_000
  {
    var z := millis / 1000 / 86_400;
    CivilIsValid(z);
    FromEpoch(z);
    FormatAndParse(millis, CivilFromDays(z));
    PaddedLength(CivilFromDays(z).year, 4);
    FourDigits();
    YearBefore10000(CivilFromDays(z));
  }

  /** The text has this character and then this number at position p. */
  predicate HasField(s: string, p: nat, mark: char, number: string) {
    p + |number| < |s| && s[p] == mark && s[p + 1..p + 1 + |number|] == number
  }

  /** The first k fields take two digits each. */
  predicate TwoDigits(fields: seq<Field>, values: seq<nat>, k: nat)
    requires k <= |fields| == |values|
  {
    forall i :: 0 <= i < k ==> |Padded(values[i], fields[i].width)| == 2
  }

  /** After k fields of two digits, the next one starts at 3 * k. */
  lemma {:induction false} FieldAt(fields: seq<Field>, values: seq<nat>, k: nat, p: nat, f: Field, v: nat)
    requires p == 3 * k && k < |fields| == |values| && fields[k] == f && values[k] == v && TwoDigits(fields, values, k)
    ensures HasField(FormatFields(fields, values), p, f.mark, Padded(v, f.width))
    decreases k
  {
    if k > 0 {
      var rest, more := fields[1..], values[1..];
      RestOfFields(fields, values, k);
      FieldAt(rest, more, k - 1, p - 3, f, v);
      NextField(fields, values, p, f.mark, Padded(v, f.width));
    } else {
      FirstField(fields, values);
    }
  }

  lemma RestOfFields(fields: seq<Field>, values: seq<nat>, k: nat)
    requires 0 < k < |fields| == |values| && TwoDigits(fields, values, k)
    ensures TwoDigits(fields[1..], values[1..], k - 1) && |Padded(values[0], fields[0].width)| == 2
    ensures fields[1..][k - 1] == fields[k] && values[1..][k - 1] == values[k]
  {
  }

  lemma NextField(fields: seq<Field>, values: seq<nat>, p: nat, mark: char, number: string)
    requires fields != [] && |fields| == |values| && |Padded(values[0], fields[0].width)| == 2
    requires p >= 3 && HasField(FormatFields(fields[1..], values[1..]), p - 3, mark, number)
    ensures HasField(FormatFields(fields, values), p, mark, number)
  {
    var text := Padded(values[0], fields[0].width);
    AfterField(fields[0].mark, text, FormatFields(fields[1..], values[1..]), p, mark, number);
  }

  lemma FirstField(fields: seq<Field>, values: seq<nat>)
    requires fields != [] && |values| == |fields|
    ensures HasField(FormatFields(fields, values), 0, fields[0].mark, Padded(values[0], fields[0].width))
  {
    Leading(fields[0].mark, Padded(values[0], fields[0].width), FormatFields(fields[1..], values[1..]));
  }

  lemma Leading(mark: char, text: string, rest: string)
    ensures HasField([mark] + text + rest, 0, mark, text)
  {
    var s := [mark] + text + rest;
    assert s[1..1 + |text|] == text;
  }

  /** What stands in the text of the other fields stands three characters on in that of all. */
  lemma AfterField(first: char, text: string, rest: string, p: nat, mark: char, number: string)
    requires |text| == 2 && p >= 3 && HasField(rest, p - 3, mark, number)
    ensures HasField([first] + text + rest, p, mark, number)
  {
    assert ([first] + text + rest)[3..] == rest;
  }

  lemma TwoDigitsFit(fields: seq<Field>, values: seq<nat>, k: nat)
    requires Fit(fields, values) && k <= |fields| && forall i :: 0 <= i < k ==> fields[i].width == 2
    ensures TwoDigits(fields, values, k)
  {
    forall i | 0 <= i < k
      ensures |Padded(values[i], fields[i].width)| == 2
    {
      PaddedLength(values[i], 2);
    }
  }

  /** A field of the time of day or date, in the whole text. */
  lemma FieldOfTime(date: Date, v: seq<nat>, k: nat, w: nat)
    requires 0 <= date.year < 10_000 && |v| == 6 && Fit(AFTER_YEAR, v) && k < 6 && w == AFTER_YEAR[k].width
    requires date.month == v[0] && date.day == v[1]
    ensures var text := FormatTime(date, v[2], v[3], v[4], v[5]);
            && |text| == 24 && text[..4] == Padded(date.year, 4) && text[23] == 'Z' && 3 * k + 4 + w < 23
            && text[3 * k + 4] == AFTER_YEAR[k].mark && text[3 * k + 5..3 * k + 5 + w] == Padded(v[k], w)
  {
    FourDigits();
    PaddedLength(date.year, 4);
    TailLength();
    ReadFormatted(AFTER_YEAR, v);
    PaddedLength(v[k], w);
    TwoDigitsFit(AFTER_YEAR, v, k);
    FieldAt(AFTER_YEAR, v, k, 3 * k, AFTER_YEAR[k], v[k]);
    FieldInText(Padded(date.year, 4), FormatFields(AFTER_YEAR, v), 3 * k, w);
    SixValues(v);
  }

  lemma SixValues(v: seq<nat>)
    requires |v| == 6
    ensures v == [v[0], v[1], v[2], v[3], v[4], v[5]]
  {
  }

  lemma FieldInText(year: string, fields: string, p: nat, w: nat)
    requires |year| == 4 && |fields| == 19 && p + w < 19
    ensures var text := year + fields + "Z";
            && |text| == 24 && text[..4] == year && text[23] == 'Z' && text[p + 4] == fields[p]
            && text[p + 5..p + 5 + w] == fields[p + 1..p + 1 + w]
  {
  }

  /** Up to the year 9999 each number and each separator stands where the format has it. */
  lemma SeparatorPositions(date: Date, hour: nat, minute: nat, second: nat, millis: nat)
    requires Valid(date) && 0 <= date.year < 10_000 && hour < 24 && minute < 60 && second < 60 && millis < 1000
    ensures var text := FormatTime(date, hour, minute, second, millis);
            && |text| == 24
            && text[0..4] == Padded(date.year, 4) && text[4] == '-' && text[5..7] == Padded(date.month, 2)
            && text[7] == '-' && text[8..10] == Padded(date.day, 2) && text[10] == 'T'
            && text[11..13] == Padded(hour, 2) && text[13] == ':' && text[14..16] == Padded(minute, 2)
            && text[16] == ':' && text[17..19] == Padded(second, 2) && text[19] == '.'
            && text[20..23] == Padded(millis, 3) && text[23] == 'Z'
  {
    FieldsFit(date, hour, minute, second, millis);
    var v := [date.month, date.day, hour, minute, second, millis];
    FieldOfTime(date, v, 0, 2);
    FieldOfTime(date, v, 1, 2);
    FieldOfTime(date, v, 2, 2);
    FieldOfTime(date, v, 3, 2);
    FieldOfTime(date, v, 4, 2);
    FieldOfTime(date, v, 5, 3);
  }

  lemma ClockFields(millis: nat)
    ensures millis / 1000 % 86_400 / 3600 == millis / 3_600_000 % 24
    ensures millis / 1000 % 86_400 % 3600 / 60 == millis / 60_000 % 60
    ensures millis / 1000 % 86_400 % 60 == millis / 1000 % 60 && millis / 1000 / 86_400 == millis / 86_400_000
  {
    var t := millis / 1000;
    DivDiv(millis, 1000, 86_400);
    DivDiv(millis, 1000, 3600);
    DivDiv(millis, 1000, 60);
    HourOfDay(t);
    MinuteOfDay(t);
    ModOfMod(t, 60, 1440);
  }

  lemma HourOfDay(t: nat)
    ensures t % 86_400 / 3600 == t / 3600 % 24
  {
    DivModUnique(t / 3600, 24, t / 86_400, t % 86_400 / 3600);
  }

  lemma MinuteOfDay(t: nat)
    ensures t % 86_400 % 3600 / 60 == t / 60 % 60
  {
    ModOfMod(t, 3600, 24);
    DivModUnique(t / 60, 60, t / 3600, t % 3600 / 60);
  }

  /** The parts of a time before the year 10000, in the order and at the places of the format. */
  lemma TimestampFields(millis: nat, date: Date)
    requires millis < 253_402_300_800_000 && date == CivilFromDays(millis / 86_400_000)
    ensures date.year >= 1970 && date.month > 0 && date.day > 0
    ensures var text := FormatIso8601(millis);
            && |text| == 24
            && text[0..4] == Padded(date.year, 4) && text[4] == '-' && text[5..7] == Padded(date.month, 2)
            && text[7] == '-' && text[8..10] == Padded(date.day, 2) && text[10] == 'T'
            && text[11..13] == Padded(millis / 3_600_000 % 24, 2) && text[13] == ':'
            && text[14..16] == Padded(millis / 60_000 % 60, 2) && text[16] == ':'
            && text[17..19] == Padded(millis / 1000 % 60, 2) && text[19] == '.'
            && text[20..23] == Padded(millis % 1000, 3) && text[23] == 'Z'
  {
    var z, second := millis / 86_400_000, millis / 1000 % 86_400;
    ClockFields(millis);
    CivilIsValid(z);
    FromEpoch(z);
    YearBefore10000(date);
    SeparatorPositions(date, second / 3600, second % 3600 / 60, second % 60, millis % 1000);
  }

  lemma FourDigits()
    ensures Pow10(4) == 10_000
  {
    assert Pow10(1) == 10 * Pow10(0);
    assert Pow10(2) == 100 && Pow10(3) == 1000;
  }
}
