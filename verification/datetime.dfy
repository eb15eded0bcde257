/**
 The `DateTime` wrapper around a protobuf `Timestamp {seconds: i64, nanos: i32}`:
 its lexicographic order, integer seconds arithmetic, construction from a
 civil date, and rendering as an RFC 3339 (section 5.6) `date-time` and
 `full-date` through chrono.
 */
module Datetime {
  import opened Wrappers
  import Civil
  import Decimal

  type int64 = x: int | -0x8000_0000_0000_0000 <= x < 0x8000_0000_0000_0000
  type int32 = x: int | -0x8000_0000 <= x < 0x8000_0000
  type uint32 = x: int | 0 <= x < 0x1_0000_0000

  predicate FitsInt64(x: int) {
    -0x8000_0000_0000_0000 <= x < 0x8000_0000_0000_0000
  }

  predicate FitsInt32(x: int) {
    -0x8000_0000 <= x < 0x8000_0000
  }

  /** `prost_types::Timestamp`. */
  datatype Timestamp = Timestamp(seconds: int64, nanos: int32)

  datatype DateTime = DateTime(timestamp: Timestamp)

  /** `std::cmp::Ordering`. */
  datatype Ordering = Less | Equal | Greater

  datatype Error = TimestampConversionError

  const SecondsPerDay: int := 86400

  /** The years chrono's `NaiveDate` can hold. */
  const MinYear: int := -262143
  const MaxYear: int := 262142

  /** chrono's day number (0001-01-01 is day 1) of 1970-01-01. */
  const DaysFromCeToUnixEpoch: int := 719163

  // ---------------------------------------------------------------- ordering

  function CmpInt(x: int, y: int): Ordering {
    if x < y then Less else if x == y then Equal else Greater
  }

  /** A single integer whose order is the lexicographic order of (seconds, nanos). */
  function SortKey(t: DateTime): int {
    t.timestamp.seconds * 0x1_0000_0000 + (t.timestamp.nanos + 0x8000_0000)
  }

  /** `Ord::cmp`: seconds first, nanos break ties. */
  function Cmp(a: DateTime, b: DateTime): (o: Ordering)
    ensures o == Equal <==> a == b
    ensures o == Less <==> SortKey(a) < SortKey(b)
    ensures o == Greater <==> SortKey(b) < SortKey(a)
  {
    var left := a.timestamp;
    var right := b.timestamp;
    if left.seconds == right.seconds then CmpInt(left.nanos, right.nanos)
    else CmpInt(left.seconds, right.seconds)
  }

  /** `PartialOrd::partial_cmp`, written separately in the source. */
  function PartialCmp(a: DateTime, b: DateTime): (o: Option<Ordering>)
    ensures o == Some(Cmp(a, b))
  {
    var left := a.timestamp;
    var right := b.timestamp;
    if left.seconds == right.seconds then Some(CmpInt(left.nanos, right.nanos))
    else Some(CmpInt(left.seconds, right.seconds))
  }

  function Flip(o: Ordering): Ordering {
    match o
    case Less => Greater
    case Equal => Equal
    case Greater => Less
  }

  /** `cmp` is a total order: antisymmetric and transitive, with `Equal` meaning equality. */
  lemma CmpIsTotalOrder(a: DateTime, b: DateTime, c: DateTime)
    ensures Cmp(a, b) == Flip(Cmp(b, a))
    ensures Cmp(a, a) == Equal
    ensures Cmp(a, b) != Greater && Cmp(b, c) != Greater ==> Cmp(a, c) != Greater
    ensures Cmp(a, b) == Less && Cmp(b, c) != Greater ==> Cmp(a, c) == Less
  {
  }

  // ------------------------------------------------------------ construction

  /** `DateTime::from_timestamp`: wraps the timestamp as given. */
  function FromTimestamp(timestamp: Timestamp): (r: DateTime)
    ensures r.timestamp == timestamp
  {
    DateTime(timestamp)
  }

  /** `DateTime::timestamp`: the wrapped timestamp, seconds and nanos alike. */
  function GetTimestamp(t: DateTime): (ts: Timestamp)
    ensures ts.seconds == t.timestamp.seconds && ts.nanos == t.timestamp.nanos
  {
    t.timestamp
  }

  lemma TimestampRoundTrip(ts: Timestamp, t: DateTime)
    ensures GetTimestamp(FromTimestamp(ts)) == ts
    ensures FromTimestamp(GetTimestamp(t)) == t
  {
  }

  /** What `NaiveDate::from_ymd_opt` accepts. */
  predicate ValidYmd(year: int, month: int, day: int) {
    MinYear <= year <= MaxYear && Civil.IsValidDate(Civil.Date(year, month, day))
  }

  /** Seconds from the Unix epoch to midnight UTC of a valid date. */
  function MidnightSeconds(year: int, month: int, day: int): (s: int64)
    requires ValidYmd(year, month, day)
    ensures s % SecondsPerDay == 0
    ensures s / SecondsPerDay == Civil.DaysFromCivil(Civil.Date(year, month, day))
  {
    Civil.DaysBeforeYearBounds(year);
    var days := Civil.DaysFromCivil(Civil.Date(year, month, day));
    WholeDays(days);
    SecondsPerDay * days
  }

  lemma WholeDays(days: int)
    ensures (SecondsPerDay * days) % SecondsPerDay == 0
    ensures (SecondsPerDay * days) / SecondsPerDay == days
  {
  }

  /** `DateTime::from_ymd`: midnight UTC of the date, or `None` when chrono rejects it. */
  function FromYmd(year: int32, month: uint32, day: uint32): (r: Option<DateTime>)
    ensures r.Some? <==> ValidYmd(year, month, day)
    ensures r.Some? ==> r.value.timestamp.nanos == 0
    ensures r.Some? ==> r.value.timestamp.seconds % SecondsPerDay == 0
    ensures r.Some? ==> Civil.CivilFromDays(r.value.timestamp.seconds / SecondsPerDay) == Civil.Date(year, month, day)
  {
    if ValidYmd(year, month, day) then
      Civil.CivilFromDaysInverse(Civil.Date(year, month, day));
      Some(DateTime(Timestamp(MidnightSeconds(year, month, day), 0)))
    else
      None
  }

  // -------------------------------------------------------------- arithmetic

  function WithSeconds(t: DateTime, seconds: int64): DateTime {
    DateTime(t.timestamp.(seconds := seconds))
  }

  function AddSeconds(t: DateTime, seconds: int64): (r: DateTime)
    requires FitsInt64(t.timestamp.seconds + seconds)
    ensures r.timestamp.nanos == t.timestamp.nanos
    ensures SortKey(r) - SortKey(t) == seconds * 0x1_0000_0000
  {
    WithSeconds(t, t.timestamp.seconds + seconds)
  }

  function AddMinutes(t: DateTime, minutes: int64): (r: DateTime)
    requires FitsInt64(minutes * 60) && FitsInt64(t.timestamp.seconds + minutes * 60)
    ensures r.timestamp.nanos == t.timestamp.nanos
    ensures r.timestamp.seconds - t.timestamp.seconds == 60 * minutes
  {
    WithSeconds(t, t.timestamp.seconds + minutes * 60)
  }

  function AddHours(t: DateTime, hours: int64): (r: DateTime)
    requires FitsInt64(hours * 3600) && FitsInt64(t.timestamp.seconds + hours * 3600)
    ensures r.timestamp.nanos == t.timestamp.nanos
    ensures r.timestamp.seconds - t.timestamp.seconds == 3600 * hours
  {
    WithSeconds(t, t.timestamp.seconds + hours * 3600)
  }

  function AddDays(t: DateTime, days: int64): (r: DateTime)
    requires FitsInt64(days * SecondsPerDay) && FitsInt64(t.timestamp.seconds + days * SecondsPerDay)
    ensures r.timestamp.nanos == t.timestamp.nanos
    ensures r.timestamp.seconds - t.timestamp.seconds == SecondsPerDay * days
  {
    WithSeconds(t, t.timestamp.seconds + days * SecondsPerDay)
  }

  /** No intermediate of `hours * 3600 + minutes * 60 + seconds`, nor the sum, overflows i64. */
  predicate HmsFits(t: DateTime, hours: int, minutes: int, seconds: int) {
    && FitsInt64(hours * 3600)
    && FitsInt64(minutes * 60)
    && FitsInt64(hours * 3600 + minutes * 60)
    && FitsInt64(hours * 3600 + minutes * 60 + seconds)
    && FitsInt64(t.timestamp.seconds + (hours * 3600 + minutes * 60 + seconds))
  }

  function AddHms(t: DateTime, hours: int64, minutes: int64, seconds: int64): (r: DateTime)
    requires HmsFits(t, hours, minutes, seconds)
    ensures r.timestamp.nanos == t.timestamp.nanos
    ensures r.timestamp.seconds - t.timestamp.seconds == 3600 * hours + 60 * minutes + seconds
  {
    WithSeconds(t, t.timestamp.seconds + (hours * 3600 + minutes * 60 + seconds))
  }

  /** `add_ymd` adds the epoch seconds of the date's midnight; an invalid date adds nothing. */
  function AddYmd(t: DateTime, year: int32, month: uint32, day: uint32): (r: DateTime)
    requires ValidYmd(year, month, day) ==> FitsInt64(t.timestamp.seconds + MidnightSeconds(year, month, day))
    ensures FromYmd(year, month, day).None? ==> r == t
    ensures FromYmd(year, month, day).Some? ==>
              r.timestamp.seconds == t.timestamp.seconds + FromYmd(year, month, day).value.timestamp.seconds
    ensures r.timestamp.nanos == t.timestamp.nanos
  {
    if ValidYmd(year, month, day) then
      WithSeconds(t, t.timestamp.seconds + MidnightSeconds(year, month, day))
    else
      t
  }

  /**
   `add_ymd` adds the instant of the date's midnight, not a calendar duration:
   the epoch date adds nothing, the day after it adds one day, and month 0
   (rejected by chrono) leaves the value as it was.
   */
  lemma AddYmdAddsEpochInstant(t: DateTime, year: int32, day: uint32)
    requires FitsInt64(t.timestamp.seconds + SecondsPerDay)
    ensures AddYmd(t, 1970, 1, 1) == t
    ensures AddYmd(t, 1970, 1, 2) == AddDays(t, 1)
    ensures AddYmd(t, year, 0, day) == t
  {
    Civil.EpochIsYear1970();
    assert MidnightSeconds(1970, 1, 1) == 0;
    assert MidnightSeconds(1970, 1, 2) == SecondsPerDay;
  }

  /** Successive additions of seconds compose into one. */
  lemma AddSecondsCompose(t: DateTime, a: int64, b: int64)
    requires FitsInt64(t.timestamp.seconds + a) && FitsInt64(t.timestamp.seconds + a + b) && FitsInt64(a + b)
    ensures AddSeconds(AddSeconds(t, a), b) == AddSeconds(t, a + b)
  {
  }

  /** Minutes, hours and days are fixed multiples of seconds. */
  lemma AddUnitsAreSeconds(t: DateTime, k: int64)
    ensures FitsInt64(k * 60) && FitsInt64(t.timestamp.seconds + k * 60) ==> AddMinutes(t, k) == AddSeconds(t, k * 60)
    ensures FitsInt64(k * 3600) && FitsInt64(t.timestamp.seconds + k * 3600) ==> AddHours(t, k) == AddSeconds(t, k * 3600)
    ensures FitsInt64(k * SecondsPerDay) && FitsInt64(t.timestamp.seconds + k * SecondsPerDay) ==>
              AddDays(t, k) == AddSeconds(t, k * SecondsPerDay)
  {
  }

  /** `add_hms(h, m, s)` is `add_hours(h)`, then `add_minutes(m)`, then `add_seconds(s)`. */
  lemma AddHmsIsChain(t: DateTime, hours: int64, minutes: int64, seconds: int64)
    requires HmsFits(t, hours, minutes, seconds)
    requires FitsInt64(t.timestamp.seconds + hours * 3600)
    requires FitsInt64(t.timestamp.seconds + hours * 3600 + minutes * 60)
    ensures AddHms(t, hours, minutes, seconds)
            == AddSeconds(AddMinutes(AddHours(t, hours), minutes), seconds)
  {
  }

  /** One day after a date's midnight is the next date's midnight. */
  lemma AddDayIsNextMidnight(year: int32, month: uint32, day: uint32)
    requires ValidYmd(year, month, day)
    requires var next := Civil.NextDay(Civil.Date(year, month, day)); ValidYmd(next.year, next.month, next.day)
    ensures var next := Civil.NextDay(Civil.Date(year, month, day));
            AddDays(FromYmd(year, month, day).value, 1) == FromYmd(next.year as int32, next.month as uint32, next.day as uint32).value
  {
    Civil.DaysFromCivilNextDay(Civil.Date(year, month, day));
  }

  // -------------------------------------------------------------- rendering

  /** Rust's `nanos as u32`: a negative value wraps around. */
  function AsUint32(x: int32): uint32 {
    if x < 0 then x + 0x1_0000_0000 else x
  }

  /** chrono's `NaiveTime::from_num_seconds_from_midnight_opt` check; 1e9 and up marks a leap second. */
  predicate TimeOfDayValid(secondOfDay: int, nano: int) {
    nano < 2_000_000_000 && (nano < 1_000_000_000 || secondOfDay % 60 == 59)
  }

  /** Whether chrono's `DateTime::<Utc>::from_timestamp(seconds, nanos as u32)` yields a value. */
  predicate Representable(ts: Timestamp) {
    var days := ts.seconds / SecondsPerDay;
    && FitsInt32(days)
    && FitsInt32(days + DaysFromCeToUnixEpoch)
    && MinYear <= Civil.CivilFromDays(days).year <= MaxYear
    && TimeOfDayValid(ts.seconds % SecondsPerDay, AsUint32(ts.nanos))
  }

  /** Years 0..9999 as four digits; any other year signed and padded to at least four digits. */
  function FormatYear(y: int): string {
    if 0 <= y <= 9999 then Decimal.FourDigits(y)
    else if y < 0 then "-" + Decimal.PadDecimal(-y, 4)
    else "+" + Decimal.PadDecimal(y, 4)
  }

  /** `NaiveDate`'s `Display`: the `full-date` form `YYYY-MM-DD`. */
  function FormatDate(d: Civil.Date): string
    requires Civil.IsValidDate(d)
  {
    FormatYear(d.year) + "-" + Decimal.TwoDigits(d.month) + "-" + Decimal.TwoDigits(d.day)
  }

  /** chrono's automatic fraction: none, or 3, 6 or 9 digits, the fewest that are exact. */
  function FormatFraction(nano: nat): string
    requires nano < 1_000_000_000
  {
    if nano == 0 then ""
    else if nano % 1_000_000 == 0 then "." + Decimal.PadDecimal(nano / 1_000_000, 3)
    else if nano % 1_000 == 0 then "." + Decimal.PadDecimal(nano / 1_000, 6)
    else "." + Decimal.PadDecimal(nano, 9)
  }

  /** `partial-time` plus the UTC offset, a leap-second nano reading as second 60. */
  function FormatTime(secondOfDay: nat, nano: nat): string
    requires secondOfDay < SecondsPerDay && nano < 2_000_000_000
  {
    var leap := if nano >= 1_000_000_000 then 1 else 0;
    Decimal.TwoDigits(secondOfDay / 3600) + ":" + Decimal.TwoDigits(secondOfDay % 3600 / 60) + ":"
    + Decimal.TwoDigits(secondOfDay % 60 + leap) + FormatFraction(nano - leap * 1_000_000_000) + "+00:00"
  }

  /** The civil date a timestamp falls on. */
  function DateOf(ts: Timestamp): (d: Civil.Date)
    ensures Civil.IsValidDate(d)
  {
    Civil.CivilFromDays(ts.seconds / SecondsPerDay)
  }

  /** `to_utc_string`: the RFC 3339 `date-time`, or an error when chrono cannot represent the value. */
  function ToUtcString(t: DateTime): (r: Result<string, Error>)
    ensures r.Failure? <==> !Representable(t.timestamp)
    ensures r.Failure? ==> r.error == TimestampConversionError
  {
    var ts := t.timestamp;
    if Representable(ts) then
      Success(FormatDate(DateOf(ts)) + "T" + FormatTime(ts.seconds % SecondsPerDay, AsUint32(ts.nanos)))
    else
      Failure(TimestampConversionError)
  }

  /** `to_utc_date_string`: the `full-date`, or an error when chrono cannot represent the value. */
  function ToUtcDateString(t: DateTime): (r: Result<string, Error>)
    ensures r.Failure? <==> !Representable(t.timestamp)
    ensures r.Failure? ==> r.error == TimestampConversionError
  {
    if Representable(t.timestamp) then Success(FormatDate(DateOf(t.timestamp)))
    else Failure(TimestampConversionError)
  }

  // ------------------------------------------------------ reading back

  function TwoDigitValue(a: char, b: char): int {
    10 * Decimal.DigitValue(a) + Decimal.DigitValue(b)
  }

  /** Reads a four-digit-year `full-date`. */
  function ParseFullDate(s: string): Option<Civil.Date> {
    if |s| == 10 && s[4] == '-' && s[7] == '-'
       && Decimal.IsDigit(s[0]) && Decimal.IsDigit(s[1]) && Decimal.IsDigit(s[2]) && Decimal.IsDigit(s[3])
       && Decimal.IsDigit(s[5]) && Decimal.IsDigit(s[6]) && Decimal.IsDigit(s[8]) && Decimal.IsDigit(s[9])
    then
      Some(Civil.Date(100 * TwoDigitValue(s[0], s[1]) + TwoDigitValue(s[2], s[3]),
                      TwoDigitValue(s[5], s[6]), TwoDigitValue(s[8], s[9])))
    else None
  }

  /** Reads `hh:mm:ss+00:00` as seconds into the day. */
  function ParseUtcTime(s: string): Option<int> {
    if |s| == 14 && s[2] == ':' && s[5] == ':' && s[8..] == "+00:00"
       && Decimal.IsDigit(s[0]) && Decimal.IsDigit(s[1]) && Decimal.IsDigit(s[3])
       && Decimal.IsDigit(s[4]) && Decimal.IsDigit(s[6]) && Decimal.IsDigit(s[7])
    then
      Some(3600 * TwoDigitValue(s[0], s[1]) + 60 * TwoDigitValue(s[3], s[4]) + TwoDigitValue(s[6], s[7]))
    else None
  }

  /** Reads a `date-time` with a four-digit year, whole seconds and offset `+00:00`, as seconds from the epoch. */
  function ParseUtcSeconds(s: string): Option<int> {
    if |s| == 25 && s[10] == 'T' then
      match (ParseFullDate(s[..10]), ParseUtcTime(s[11..]))
      case (Some(d), Some(secondOfDay)) =>
        if Civil.IsValidDate(d) then Some(SecondsPerDay * Civil.DaysFromCivil(d) + secondOfDay) else None
      case _ => None
    else None
  }

  /** Any year reads back from its rendering: four bare digits, or a sign and at least four digits. */
  lemma FormatYearRoundTrip(y: int)
    ensures var s := FormatYear(y);
            if 0 <= y <= 9999 then s == Decimal.FourDigits(y)
            else |s| >= 5 && s[0] == (if y < 0 then '-' else '+') && Decimal.AllDigits(s[1..])
                 && (if y < 0 then -1 else 1) * Decimal.DecimalValue(s[1..]) == y
  {
    if !(0 <= y <= 9999) {
      var n: nat := if y < 0 then -y else y;
      Decimal.DecimalValueOfPad(n, 4);
      var s := FormatYear(y);
      assert s[1..] == Decimal.PadDecimal(n, 4);
    }
  }

  /**
   The `{:+05}` width: a year outside 0..9999 takes at least five characters
   with its sign, and a five-digit year one more.
   */
  lemma FormatYearLength(y: int)
    ensures -9999 <= y < 0 ==> |FormatYear(y)| == 5
    ensures 10000 <= y < 100000 || -99999 <= y <= -10000 ==> |FormatYear(y)| == 6
  {
    assert Decimal.Pow10(4) == 10000;
    assert Decimal.Pow10(5) == 100000;
    var n: nat := if y < 0 then -y else y;
    if -9999 <= y < 0 {
      Decimal.PadDecimalLength(n, 4);
    } else if 10000 <= n < 100000 {
      Decimal.PadDecimalWiden(n, 4);
      Decimal.PadDecimalLength(n, 5);
    }
  }

  lemma FormatDateParses(d: Civil.Date)
    requires Civil.IsValidDate(d) && 0 <= d.year <= 9999
    ensures |FormatDate(d)| == 10
    ensures ParseFullDate(FormatDate(d)) == Some(d)
  {
    Decimal.TwoDigitsRoundTrip(d.year / 100);
    Decimal.TwoDigitsRoundTrip(d.year % 100);
    Decimal.TwoDigitsRoundTrip(d.month);
    Decimal.TwoDigitsRoundTrip(d.day);
  }

  /** The `full-date` of a four-digit year reads back as the date the timestamp falls on. */
  lemma DateStringRoundTrip(t: DateTime)
    requires ToUtcDateString(t).Success?
    requires 0 <= DateOf(t.timestamp).year <= 9999
    ensures ParseFullDate(ToUtcDateString(t).value) == Some(DateOf(t.timestamp))
  {
    FormatDateParses(DateOf(t.timestamp));
  }

  /** The `date-time` starts with the `full-date`, then `T`; it fails exactly when the date string does. */
  lemma UtcStringExtendsDateString(t: DateTime)
    ensures ToUtcString(t).Success? <==> ToUtcDateString(t).Success?
    ensures ToUtcString(t).Success? ==>
              var date := ToUtcDateString(t).value;
              var full := ToUtcString(t).value;
              |date| < |full| && full[..|date|] == date && full[|date|] == 'T'
              && full[|full| - 6..] == "+00:00"
  {
    if ToUtcString(t).Success? {
      var date := ToUtcDateString(t).value;
      var ts := t.timestamp;
      var time := FormatTime(ts.seconds % SecondsPerDay, AsUint32(ts.nanos));
      var full := ToUtcString(t).value;
      assert full == date + "T" + time;
      assert full[..|date|] == date;
    }
  }

  lemma SplitSeconds(seconds: int)
    ensures SecondsPerDay * (seconds / SecondsPerDay) + seconds % SecondsPerDay == seconds
  {
  }

  lemma SplitSecondOfDay(secondOfDay: nat)
    ensures 3600 * (secondOfDay / 3600) + 60 * (secondOfDay % 3600 / 60) + secondOfDay % 60 == secondOfDay
  {
  }

  /** The layout `hh:mm:ss+00:00` reads back field by field. */
  lemma TimeLayoutParses(hh: nat, mm: nat, ss: nat)
    requires hh < 100 && mm < 100 && ss < 100
    ensures ParseUtcTime(Decimal.TwoDigits(hh) + ":" + Decimal.TwoDigits(mm) + ":" + Decimal.TwoDigits(ss) + "+00:00")
            == Some(3600 * hh + 60 * mm + ss)
  {
    Decimal.TwoDigitsRoundTrip(hh);
    Decimal.TwoDigitsRoundTrip(mm);
    Decimal.TwoDigitsRoundTrip(ss);
    var s := Decimal.TwoDigits(hh) + ":" + Decimal.TwoDigits(mm) + ":" + Decimal.TwoDigits(ss) + "+00:00";
    assert s[8..] == "+00:00";
  }

  /** Whole seconds render as `hh:mm:ss+00:00`, which reads back as the second of the day. */
  lemma FormatTimeParses(secondOfDay: nat)
    requires secondOfDay < SecondsPerDay
    ensures ParseUtcTime(FormatTime(secondOfDay, 0)) == Some(secondOfDay)
  {
    var hh, mm, ss := secondOfDay / 3600, secondOfDay % 3600 / 60, secondOfDay % 60;
    assert FormatTime(secondOfDay, 0)
           == Decimal.TwoDigits(hh) + ":" + Decimal.TwoDigits(mm) + ":" + Decimal.TwoDigits(ss) + "+00:00";
    TimeLayoutParses(hh, mm, ss);
    SplitSecondOfDay(secondOfDay);
  }

  /** The layout `date T time` reads back as the date's midnight plus the time of day. */
  lemma UtcLayoutParses(date: string, d: Civil.Date, time: string, secondOfDay: int)
    requires ParseFullDate(date) == Some(d) && Civil.IsValidDate(d)
    requires ParseUtcTime(time) == Some(secondOfDay)
    ensures ParseUtcSeconds(date + "T" + time) == Some(SecondsPerDay * Civil.DaysFromCivil(d) + secondOfDay)
  {
    var s := date + "T" + time;
    assert s[..10] == date;
    assert s[11..] == time;
  }

  lemma UtcStringLayout(t: DateTime)
    requires ToUtcString(t).Success?
    requires t.timestamp.nanos == 0
    ensures ToUtcString(t).value
            == FormatDate(DateOf(t.timestamp)) + "T" + FormatTime(t.timestamp.seconds % SecondsPerDay, 0)
  {
  }

  /** Midnight of the day `seconds` falls on, plus the second of that day, is `seconds` again. */
  lemma DaySplitRoundTrip(seconds: int)
    ensures SecondsPerDay * Civil.DaysFromCivil(Civil.CivilFromDays(seconds / SecondsPerDay))
            + seconds % SecondsPerDay == seconds
  {
    SplitSeconds(seconds);
  }

  /** The whole-second layout of an instant with a four-digit year reads back as that instant. */
  lemma SecondsLayoutParses(seconds: int)
    requires 0 <= Civil.CivilFromDays(seconds / SecondsPerDay).year <= 9999
    ensures var d := Civil.CivilFromDays(seconds / SecondsPerDay);
            ParseUtcSeconds(FormatDate(d) + "T" + FormatTime(seconds % SecondsPerDay, 0)) == Some(seconds)
  {
    var d := Civil.CivilFromDays(seconds / SecondsPerDay);
    var sod := seconds % SecondsPerDay;
    FormatDateParses(d);
    FormatTimeParses(sod);
    UtcLayoutParses(FormatDate(d), d, FormatTime(sod, 0), sod);
    DaySplitRoundTrip(seconds);
  }

  /** A whole-second `date-time` with a four-digit year reads back as the same instant. */
  lemma UtcStringRoundTrip(t: DateTime)
    requires ToUtcString(t).Success?
    requires t.timestamp.nanos == 0
    requires 0 <= DateOf(t.timestamp).year <= 9999
    ensures ParseUtcSeconds(ToUtcString(t).value) == Some(t.timestamp.seconds as int)
  {
    UtcStringLayout(t);
    SecondsLayoutParses(t.timestamp.seconds);
  }

  // ------------------------------------------------------- test vectors

  /** Midnight of 2022-01-01 is 1640995200, and a day later is 86400 seconds on. */
  lemma FromYmdVector()
    ensures FromYmd(2022, 1, 1) == Some(DateTime(Timestamp(1640995200, 0)))
    ensures AddDays(FromYmd(2022, 1, 1).value, 1).timestamp.seconds == 1640995200 + 86400
  {
    assert Civil.DaysFromCivil(Civil.Date(2022, 1, 1)) == 18993;
  }

  lemma NewYear2022()
    ensures Civil.CivilFromDays(18993) == Civil.Date(2022, 1, 1)
    ensures FormatDate(Civil.Date(2022, 1, 1)) == "2022-01-01"
  {
    assert Civil.DaysFromCivil(Civil.Date(2022, 1, 1)) == 18993;
    Civil.CivilFromDaysInverse(Civil.Date(2022, 1, 1));
    assert Decimal.TwoDigits(20) == "20";
    assert Decimal.TwoDigits(22) == "22";
    assert Decimal.TwoDigits(1) == "01";
  }

  lemma HalfPastFive()
    ensures FormatTime(19834, 0) == "05:30:34+00:00"
  {
    assert 19834 / 3600 == 5 && 19834 % 3600 / 60 == 30 && 19834 % 60 == 34;
    assert Decimal.TwoDigits(5) == "05";
    assert Decimal.TwoDigits(30) == "30";
    assert Decimal.TwoDigits(34) == "34";
  }

  /** 05:30:34 on 2022-01-01 renders as `2022-01-01T05:30:34+00:00`. */
  lemma UtcStringVector()
    ensures ToUtcString(AddHms(FromTimestamp(Timestamp(1640995200, 0)), 5, 30, 34))
            == Success("2022-01-01T05:30:34+00:00")
  {
    var t := AddHms(FromTimestamp(Timestamp(1640995200, 0)), 5, 30, 34);
    assert t.timestamp == Timestamp(1641015034, 0);
    assert 1641015034 / SecondsPerDay == 18993 && 1641015034 % SecondsPerDay == 19834;
    NewYear2022();
    HalfPastFive();
    assert Representable(t.timestamp);
    assert ToUtcString(t).value == FormatDate(Civil.Date(2022, 1, 1)) + "T" + FormatTime(19834, 0);
    assert "2022-01-01" + "T" + "05:30:34+00:00" == "2022-01-01T05:30:34+00:00";
  }

  /** 05:30 on 2022-01-01 has the date `2022-01-01`. */
  lemma DateStringVector()
    ensures ToUtcDateString(AddMinutes(AddHours(FromTimestamp(Timestamp(1640995200, 0)), 5), 30))
            == Success("2022-01-01")
  {
    var t := AddMinutes(AddHours(FromTimestamp(Timestamp(1640995200, 0)), 5), 30);
    assert t.timestamp == Timestamp(1641015000, 0);
    assert 1641015000 / SecondsPerDay == 18993 && 1641015000 % SecondsPerDay == 19800;
    NewYear2022();
  }
}
