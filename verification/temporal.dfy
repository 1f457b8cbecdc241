/**
 * PostgreSQL's binary send/receive formats for date, time, timetz,
 * timestamp, timestamptz and interval, as DateType, TimeOfDayType,
 * TimeTzType, TimestampType, TimestampTzType and IntervalType read and
 * write them.  Dates are day offsets from 2000-01-01, datetimes microsecond
 * offsets from 2000-01-01 00:00; Python's own range limits (years 1 to 9999,
 * |timedelta.days| <= 999999999) are kept.
 */
module Temporal {
  import opened Py
  import opened Wire
  import opened Types

  /** Sentinels PostgreSQL sends for +/-infinity dates (DATE_PINF, DATE_NINF). */
  const DatePosInf: int := 0x7FFF_FFFF
  const DateNegInf: int := -0x8000_0000

  /** `datetime.date.min` (0001-01-01) and `datetime.date.max` (9999-12-31), from 2000-01-01. */
  const MinDay: int := -730119
  const MaxDay: int := 2921939

  const SecondMicros: int := 1000000
  const DayMicros: int := 86400 * 1000000

  /** `datetime.datetime.min` and `datetime.datetime.max`, in microseconds from 2000-01-01 00:00. */
  const MinMicros: int := MinDay * DayMicros
  const MaxMicros: int := (MaxDay + 1) * DayMicros - 1

  /** `timedelta.max.days`. */
  const MaxDeltaDays: int := 999999999

  predicate ValidDate(day: int) { MinDay <= day <= MaxDay }

  predicate ValidTime(h: int, m: int, s: int, us: int) {
    0 <= h < 24 && 0 <= m < 60 && 0 <= s < 60 && 0 <= us < SecondMicros
  }

  predicate ValidDateTime(micros: int) { MinMicros <= micros <= MaxMicros }

  predicate ValidTimedelta(days: int, seconds: int, us: int) {
    -MaxDeltaDays <= days <= MaxDeltaDays && 0 <= seconds < 86400 && 0 <= us < SecondMicros
  }

  // ---------------------------------------------------------------- date

  /** `DateType.parse`: a big-endian int4 day count, with the infinity sentinels. */
  function DateParse(value: seq<byte>, size: int): (r: Result<Value>)
    ensures r.Ok? ==> r.value.DateVal? && ValidDate(r.value.day)
    ensures |Prefix(value, size)| != 4 ==> r == Err(StructError)
    ensures |Prefix(value, size)| == 4 ==>
      var v := DecodeSigned(Prefix(value, size));
      (v == DatePosInf ==> r == Ok(DateVal(MaxDay)))
      && (v == DateNegInf ==> r == Ok(DateVal(MinDay)))
      && (v != DatePosInf && v != DateNegInf ==>
            (ValidDate(v) ==> r == Ok(DateVal(v))) && (!ValidDate(v) ==> r == Err(OverflowError)))
  {
    var val :- UnpackSigned(Prefix(value, size), 4);
    if val == DatePosInf then Ok(DateVal(MaxDay))
    else if val == DateNegInf then Ok(DateVal(MinDay))
    else if ValidDate(val) then Ok(DateVal(val))
    else Err(OverflowError)
  }

  /** `DateType.format`: days since 2000-01-01 as a big-endian int4. */
  function DateFormat(day: int): (f: Formatted)
    requires ValidDate(day)
    ensures f.oid == 1082 && f.size == 4 && f.payload.Packed?
    ensures |f.payload.bytes| == 4 && DecodeSigned(f.payload.bytes) == day
  {
    Formatted(1082, Packed(EncodeSigned(day, 4)), 4)
  }

  /** Every date survives `format` then `parse`, the extreme dates included. */
  lemma DateRoundTrip(day: int)
    requires ValidDate(day)
    ensures DateParse(DateFormat(day).payload.bytes, DateFormat(day).size) == Ok(DateVal(day))
  {
  }

  // ---------------------------------------------------------------- time

  /** `TimeOfDayType.parse` / `TimeTzType.parse`: divmod of the int8 microsecond count. */
  function TimeParse(value: seq<byte>, size: int): (r: Result<Value>)
    ensures r.Ok? ==> r.value.TimeVal?
    ensures r.Ok? ==> ValidTime(r.value.hour, r.value.minute, r.value.second, r.value.micro)
    ensures r.Ok? ==> (|Prefix(value, size)| == 8
      && TimeMicros(r.value.hour, r.value.minute, r.value.second, r.value.micro) == DecodeSigned(Prefix(value, size)))
    ensures |Prefix(value, size)| == 8 ==>
      (r.Ok? <==> 0 <= DecodeSigned(Prefix(value, size)) < DayMicros)
  {
    var us :- UnpackSigned(Prefix(value, size), 8);
    var rest, micro := us / SecondMicros, us % SecondMicros;
    var rest', second := rest / 60, rest % 60;
    var hour, minute := rest' / 60, rest' % 60;
    if 0 <= hour < 24 then Ok(TimeVal(hour, minute, second, micro)) else Err(ValueError)
  }

  /** Microseconds since midnight of a time of day. */
  function TimeMicros(h: int, m: int, s: int, us: int): int {
    ((h * 60 + m) * 60 + s) * SecondMicros + us
  }

  /** `TimeOfDayType.format` / `TimeTzType.format`. */
  function TimeFormat(oid: int, h: int, m: int, s: int, us: int): (f: Formatted)
    requires ValidTime(h, m, s, us)
    ensures f.oid == oid && f.size == 8 && f.payload.Packed?
    ensures |f.payload.bytes| == 8 && DecodeSigned(f.payload.bytes) == TimeMicros(h, m, s, us)
    ensures 0 <= TimeMicros(h, m, s, us) < DayMicros
  {
    Formatted(oid, Packed(EncodeSigned(TimeMicros(h, m, s, us), 8)), 8)
  }

  /** A time of day survives `format` then `parse`. */
  lemma TimeRoundTrip(h: int, m: int, s: int, us: int)
    requires ValidTime(h, m, s, us)
    ensures TimeParse(TimeFormat(1083, h, m, s, us).payload.bytes, 8) == Ok(TimeVal(h, m, s, us))
  {
    var f := TimeFormat(1083, h, m, s, us);
    var r := TimeParse(f.payload.bytes, 8);
    assert Prefix(f.payload.bytes, 8) == f.payload.bytes;
    TimeMicrosInjective(h, m, s, us, r.value.hour, r.value.minute, r.value.second, r.value.micro);
  }

  /** Two valid times with the same microsecond count are the same time. */
  lemma TimeMicrosInjective(h: int, m: int, s: int, us: int, h': int, m': int, s': int, us': int)
    requires ValidTime(h, m, s, us) && ValidTime(h', m', s', us')
    requires TimeMicros(h, m, s, us) == TimeMicros(h', m', s', us')
    ensures h == h' && m == m' && s == s' && us == us'
  {
    var a, a' := (h * 60 + m) * 60 + s, (h' * 60 + m') * 60 + s';
    DivModUnique(a, us, a', us', SecondMicros);
    DivModUnique(h * 60 + m, s, h' * 60 + m', s', 60);
    DivModUnique(h, m, h', m', 60);
  }

  lemma DivModUnique(q: int, r: int, q': int, r': int, d: int)
    requires d > 0 && 0 <= r < d && 0 <= r' < d && q * d + r == q' * d + r'
    ensures q == q' && r == r'
  {
    var k := q - q';
    assert k * d == q * d - q' * d;
  }

  // ---------------------------------------------------------------- timestamp

  /** `datetime(2000, 1, 1) + timedelta(microseconds=us)`, OverflowError beyond Python's range. */
  function DateTimeFromMicros(us: int): (r: Result<Value>)
    ensures r.Ok? <==> ValidDateTime(us)
    ensures r.Ok? ==> r.value == DateTimeVal(us)
  {
    if ValidDateTime(us) then Ok(DateTimeVal(us)) else Err(OverflowError)
  }

  /**
   * `TimestampType.parse` as written: `None` for an empty value; the int8
   * microsecond count is compared with the 32-bit DATE_PINF / DATE_NINF.
   */
  function TimestampParse(value: seq<byte>, size: int): (r: Result<Value>)
    ensures size == 0 ==> r == Ok(NoneVal)
    ensures size != 0 && r.Ok? ==> r.value.DateTimeVal? && |Prefix(value, size)| == 8
    ensures size != 0 && |Prefix(value, size)| != 8 ==> r == Err(StructError)
    ensures size != 0 && |Prefix(value, size)| == 8 ==>
      var v := DecodeSigned(Prefix(value, size));
      (v == DatePosInf ==> r == Ok(DateTimeVal(MaxMicros)))
      && (v == DateNegInf ==> r == Ok(DateTimeVal(MinMicros)))
      && (v != DatePosInf && v != DateNegInf ==>
            (ValidDateTime(v) ==> r == Ok(DateTimeVal(v))) && (!ValidDateTime(v) ==> r == Err(OverflowError)))
  {
    if size == 0 then Ok(NoneVal) else
    var val :- UnpackSigned(Prefix(value, size), 8);
    if val == DatePosInf then Ok(DateTimeVal(MaxMicros))
    else if val == DateNegInf then Ok(DateTimeVal(MinMicros))
    else DateTimeFromMicros(val)
  }

  /** PostgreSQL's timestamp infinities: the extreme int8 values (DT_NOEND, DT_NOBEGIN). */
  const TimestampPosInf: int := 0x7FFF_FFFF_FFFF_FFFF
  const TimestampNegInf: int := -0x8000_0000_0000_0000

  /** `TimestampType.parse` with the sentinels compared at the field's own width. */
  function TimestampParseFixed(value: seq<byte>, size: int): (r: Result<Value>)
    ensures size == 0 ==> r == Ok(NoneVal)
    ensures size != 0 && r.Ok? ==> r.value.DateTimeVal? && |Prefix(value, size)| == 8
    ensures size != 0 && |Prefix(value, size)| == 8 ==>
      var v := DecodeSigned(Prefix(value, size));
      (v == TimestampPosInf ==> r == Ok(DateTimeVal(MaxMicros)))
      && (v == TimestampNegInf ==> r == Ok(DateTimeVal(MinMicros)))
      && (ValidDateTime(v) ==> r == Ok(DateTimeVal(v)))
  {
    if size == 0 then Ok(NoneVal) else
    var val :- UnpackSigned(Prefix(value, size), 8);
    if val == TimestampPosInf then Ok(DateTimeVal(MaxMicros))
    else if val == TimestampNegInf then Ok(DateTimeVal(MinMicros))
    else DateTimeFromMicros(val)
  }

  /**
   * As written, PostgreSQL's own timestamp infinities are not recognised:
   * they are taken as microsecond offsets, and adding them to 2000-01-01
   * overflows.
   */
  lemma TimestampInfinityOverflows()
    ensures TimestampParse(EncodeSigned(TimestampPosInf, 8), 8) == Err(OverflowError)
    ensures TimestampParse(EncodeSigned(TimestampNegInf, 8), 8) == Err(OverflowError)
    ensures TimestampParseFixed(EncodeSigned(TimestampPosInf, 8), 8) == Ok(DateTimeVal(MaxMicros))
    ensures TimestampParseFixed(EncodeSigned(TimestampNegInf, 8), 8) == Ok(DateTimeVal(MinMicros))
  {
    assert Prefix(EncodeSigned(TimestampPosInf, 8), 8) == EncodeSigned(TimestampPosInf, 8);
    assert Prefix(EncodeSigned(TimestampNegInf, 8), 8) == EncodeSigned(TimestampNegInf, 8);
  }

  /**
   * As written, a finite instant 2147483647 microseconds after 2000-01-01
   * (00:35:47.483647 that day) is read as `datetime.max`.
   */
  lemma TimestampSentinelMisread()
    ensures ValidDateTime(DatePosInf) && DatePosInf != MaxMicros
    ensures TimestampParse(EncodeSigned(DatePosInf, 8), 8) == Ok(DateTimeVal(MaxMicros))
  {
    assert Prefix(EncodeSigned(DatePosInf, 8), 8) == EncodeSigned(DatePosInf, 8);
  }

  /** The corrected parse reads every representable instant back as itself. */
  lemma TimestampFixedReadsEveryInstant(us: int)
    requires ValidDateTime(us)
    ensures TimestampParseFixed(EncodeSigned(us, 8), 8) == Ok(DateTimeVal(us))
  {
    assert Prefix(EncodeSigned(us, 8), 8) == EncodeSigned(us, 8);
  }

  /** `TimestampTzType.parse`: like timestamp, without sentinels; the time zone is dropped. */
  function TimestampTzParse(value: seq<byte>, size: int): (r: Result<Value>)
    ensures size == 0 ==> r == Ok(NoneVal)
    ensures size != 0 && r.Ok? ==> (r.value.DateTimeVal? && |Prefix(value, size)| == 8
      && r.value.micros == DecodeSigned(Prefix(value, size)))
  {
    if size == 0 then Ok(NoneVal) else
    var val :- UnpackSigned(Prefix(value, size), 8);
    DateTimeFromMicros(val)
  }

  /**
   * `TimestampTzType.format` for a naive datetime: microseconds since
   * 2000-01-01, taken as the exact count (the program's float product can
   * fall short of it).
   */
  function TimestampTzFormat(micros: int): (f: Formatted)
    requires ValidDateTime(micros)
    ensures f.oid == 1184 && f.size == 8 && f.payload.Packed?
    ensures |f.payload.bytes| == 8 && DecodeSigned(f.payload.bytes) == micros
  {
    Formatted(1184, Packed(EncodeSigned(micros, 8)), 8)
  }

  /** A datetime sent as its exact microsecond count reads back as itself. */
  lemma TimestampTzRoundTrip(micros: int)
    requires ValidDateTime(micros)
    ensures TimestampTzParse(TimestampTzFormat(micros).payload.bytes, 8) == Ok(DateTimeVal(micros))
  {
    assert Prefix(TimestampTzFormat(micros).payload.bytes, 8) == TimestampTzFormat(micros).payload.bytes;
  }

  // ---------------------------------------------------------------- interval

  /** Total microseconds of a timedelta. */
  function DeltaMicros(days: int, seconds: int, us: int): int {
    days * DayMicros + seconds * SecondMicros + us
  }

  /** `timedelta(microseconds=total)`, normalised; OverflowError beyond `timedelta.max`. */
  function TimedeltaFromMicros(total: int): (r: Result<Value>)
    ensures r.Ok? ==> (r.value.TimedeltaVal?
      && ValidTimedelta(r.value.days, r.value.seconds, r.value.micros)
      && DeltaMicros(r.value.days, r.value.seconds, r.value.micros) == total)
  {
    var days, rem := total / DayMicros, total % DayMicros;
    if -MaxDeltaDays <= days <= MaxDeltaDays
    then Ok(TimedeltaVal(days, rem / SecondMicros, rem % SecondMicros))
    else Err(OverflowError)
  }

  /** `IntervalType.parse`: (int8 us, int4 days, int4 months), a month counted as 30 days. */
  function IntervalParse(value: seq<byte>, size: int): (r: Result<Value>)
    ensures r.Ok? ==> |Prefix(value, size)| == 16 && r.value.TimedeltaVal?
    ensures r.Ok? ==> var p := Prefix(value, size);
      DeltaMicros(r.value.days, r.value.seconds, r.value.micros)
        == (DecodeSigned(p[8..12]) + DecodeSigned(p[12..16]) * 30) * DayMicros + DecodeSigned(p[..8])
  {
    var p := Prefix(value, size);
    if |p| != 16 then Err(StructError) else
    var us, days, months := DecodeSigned(p[..8]), DecodeSigned(p[8..12]), DecodeSigned(p[12..16]);
    TimedeltaFromMicros((days + months * 30) * DayMicros + us)
  }

  /** `IntervalType.format`: `months, days = divmod(days, 30)`, seconds folded into microseconds. */
  function IntervalFormat(days: int, seconds: int, us: int): (f: Formatted)
    requires ValidTimedelta(days, seconds, us)
    ensures f.oid == 1186 && f.size == 16 && f.payload.Packed? && |f.payload.bytes| == 16
    ensures var b := f.payload.bytes;
      DecodeSigned(b[..8]) == seconds * SecondMicros + us
      && DecodeSigned(b[8..12]) == days % 30 && DecodeSigned(b[12..16]) == days / 30
  {
    var usec := seconds * SecondMicros + us;
    var b := EncodeSigned(usec, 8) + EncodeSigned(days % 30, 4) + EncodeSigned(days / 30, 4);
    assert b[..8] == EncodeSigned(usec, 8);
    assert b[8..12] == EncodeSigned(days % 30, 4);
    assert b[12..16] == EncodeSigned(days / 30, 4);
    Formatted(1186, Packed(b), 16)
  }

  /** Normalised timedeltas are determined by their total microseconds. */
  lemma DeltaMicrosInjective(d: int, s: int, us: int, d': int, s': int, us': int)
    requires ValidTimedelta(d, s, us) && ValidTimedelta(d', s', us')
    requires DeltaMicros(d, s, us) == DeltaMicros(d', s', us')
    ensures d == d' && s == s' && us == us'
  {
    assert s * SecondMicros + us < DayMicros;
    assert s' * SecondMicros + us' < DayMicros;
    DivModUnique(d, s * SecondMicros + us, d', s' * SecondMicros + us', DayMicros);
    DivModUnique(s, us, s', us', SecondMicros);
  }

  /** A timedelta survives `format` then `parse`: 30-day months put back exactly what divmod took out. */
  lemma IntervalRoundTrip(days: int, seconds: int, us: int)
    requires ValidTimedelta(days, seconds, us)
    ensures IntervalParse(IntervalFormat(days, seconds, us).payload.bytes, 16) == Ok(TimedeltaVal(days, seconds, us))
  {
    var b := IntervalFormat(days, seconds, us).payload.bytes;
    var usec := seconds * SecondMicros + us;
    var months, rest := days / 30, days % 30;
    assert rest + months * 30 == days;
    assert (rest + months * 30) * DayMicros + usec == DeltaMicros(days, seconds, us);
    IntervalParseOf(b, usec, rest, months);
    TimedeltaOfMicros(days, seconds, us);
  }

  /** What `parse` does with sixteen bytes holding `us`, `days` and `months`. */
  lemma IntervalParseOf(b: seq<byte>, us: int, days: int, months: int)
    requires |b| == 16
    requires DecodeSigned(b[..8]) == us && DecodeSigned(b[8..12]) == days && DecodeSigned(b[12..16]) == months
    ensures IntervalParse(b, 16) == TimedeltaFromMicros((days + months * 30) * DayMicros + us)
  {
    assert Prefix(b, 16) == b;
  }

  /** A normalised timedelta is what its own total microseconds normalise to. */
  lemma TimedeltaOfMicros(days: int, seconds: int, us: int)
    requires ValidTimedelta(days, seconds, us)
    ensures TimedeltaFromMicros(DeltaMicros(days, seconds, us)) == Ok(TimedeltaVal(days, seconds, us))
  {
    var total := DeltaMicros(days, seconds, us);
    assert seconds * SecondMicros + us < DayMicros;
    DivModUnique(days, seconds * SecondMicros + us, total / DayMicros, total % DayMicros, DayMicros);
    var r := TimedeltaFromMicros(total);
    DeltaMicrosInjective(days, seconds, us, r.value.days, r.value.seconds, r.value.micros);
  }
}
