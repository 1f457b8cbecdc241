/**
 * The parameter side of the codec: `format_type` and the `format` of each
 * class that `BaseType._type` maps a Python type to.  The result is the
 * (oid, value, length, format) quadruple `Cursor.execute` hands to libpq for
 * one parameter.
 */
module Formats {
  import opened Py
  import opened Wire
  import opened Types
  import opened Temporal
  import opened Codec
  import Numeric

  /** One query parameter: the four components of `format_type(value)`. */
  datatype Param = Param(oid: int, payload: Payload, length: int, format: int)

  /**
   * The values Python can actually hold: dates, times, datetimes and
   * timedeltas within their types' ranges, a UUID of sixteen bytes, and a
   * library value only for the types the model leaves uninterpreted.
   */
  predicate WellFormed(v: Value) {
    match v
    case DateVal(day) => ValidDate(day)
    case TimeVal(h, m, s, us) => ValidTime(h, m, s, us)
    case DateTimeVal(micros) => ValidDateTime(micros)
    case TimedeltaVal(days, seconds, us) => ValidTimedelta(days, seconds, us)
    case Foreign(k, raw) =>
      k in {FloatT, UuidT, StrT, IPv4AddressT, IPv4NetworkT, IPv6AddressT, IPv6NetworkT, OtherT}
      && (k == UuidT ==> |raw| == 16)
    case _ => true
  }

  /**
   * `LongType.format`: int2 below 16 significant bits, int4 below 32, int8
   * otherwise; `struct.pack('!q', ...)` fails beyond the int8 range.
   */
  function LongFormat(v: int): (r: Result<Formatted>)
    ensures r.Ok? ==> r.value.payload.Packed? && |r.value.payload.bytes| == r.value.size
    ensures r.Ok? ==> (r.value.oid, r.value.size) in {(21, 2), (23, 4), (20, 8)}
    ensures r.Ok? ==> DecodeSigned(r.value.payload.bytes) == v
  {
    var bits := BitLength(v);
    if bits < 16 then
      var b :- PackSigned(v, 2);
      Ok(Formatted(21, Packed(b), 2))
    else if bits < 32 then
      var b :- PackSigned(v, 4);
      Ok(Formatted(23, Packed(b), 4))
    else
      var b :- PackSigned(v, 8);
      Ok(Formatted(20, Packed(b), 8))
  }

  /**
   * `LongType.format` succeeds exactly on the int8 range and picks the
   * narrowest of int2, int4 and int8 whose range holds the value, except
   * that -2^15 and -2^31 (one bit longer than their magnitude suggests)
   * go one size up.
   */
  lemma LongWidth(v: int)
    ensures LongFormat(v).Ok? <==> InSigned(v, 8)
    ensures LongFormat(v).Ok? ==>
      (LongFormat(v).value.size == 2 <==> -32768 < v < 32768)
      && (LongFormat(v).value.size == 4 <==> (v <= -32768 || 32768 <= v) && -0x8000_0000 < v < 0x8000_0000)
  {
    BitsFit(v, 2);
    BitsFit(v, 4);
    BitsFit(v, 8);
    assert Half(2) == 32768 && Half(4) == 0x8000_0000;
  }

  /** Fewer than `8 * width` significant bits is a magnitude below the signed range of `width` bytes. */
  lemma BitsFit(v: int, width: nat)
    requires width >= 1
    ensures BitLength(v) < 8 * width <==> 0 < v + Half(width) && v < Half(width)
  {
    BitLengthBound(v, 8 * width - 1);
    HalfAsPow2(width);
  }

  /** Python's `bool(value)` as `struct.pack('?', value)` writes it. */
  function BoolByte(b: bool): byte { if b then 1 else 0 }

  /**
   * `cls.format(value)` for a class whose `klass` is the value's type.  The
   * inet classes set no `fmt`, so they inherit `BaseType.format` with the
   * empty format '' and `struct.pack('', value)` raises.
   */
  function ClassFormat(c: TypeClass, v: Value): (r: Result<Formatted>)
    requires Klass(c) == Some(TypeOf(v)) && WellFormed(v)
    ensures r.Ok? ==> Oid(c) == Some(r.value.oid) || c == NoneType || c == LongType
  {
    match c
    case NoneType => Ok(Formatted(0, NullPtr, 0))
    case BoolType => Ok(Formatted(16, Packed([BoolByte(v.b)]), 1))
    case BinaryType => Ok(Formatted(17, Packed(v.bytes), |v.bytes|))
    case LongType => LongFormat(v.i)
    case DoubleType => Ok(Formatted(701, PackedFloat(v), 8))
    case DateType => Ok(DateFormat(v.day))
    case TimeOfDayType => Ok(TimeFormat(1083, v.hour, v.minute, v.second, v.micro))
    case IntervalType => Ok(IntervalFormat(v.days, v.seconds, v.micros))
    case TimestampTzType => Ok(TimestampTzFormat(v.micros))
    case NumericType => Numeric.FormatSpec(v.dec)
    case UUIDType => Ok(Formatted(2950, Packed(v.raw), 16))
    case IPv4AddressType => Err(StructError)
    case IPv4NetworkType => Err(StructError)
    case IPv6AddressType => Err(StructError)
    case IPv6NetworkType => Err(StructError)
    case IPAddressType => Err(StructError)
  }

  /** `str(value).encode('utf-8')`: a str is its own text; any other value stays symbolic. */
  function Fallback(v: Value): Payload {
    if v.TextVal? then Packed(v.utf8) else TextOf(v)
  }

  /** `format_type(value)`: the formatter's triple plus format flag 1, or text with flag 0. */
  function FormatType(v: Value): (r: Result<Param>)
    requires WellFormed(v)
    ensures r.Ok? && r.value.format == 0 ==> r.value.oid == 0 && r.value.length == 0
  {
    match FormatterClass(TypeOf(v))
    case Some(c) =>
      FormatterClaims(TypeOf(v));
      Tagged(ClassFormat(c, v))
    case None => Ok(Param(0, Fallback(v), 0, 0))
  }

  /** A formatter's triple with the binary format flag 1 appended. */
  function Tagged(f: Result<Formatted>): Result<Param> {
    var t :- f;
    Ok(Param(t.oid, t.payload, t.size, 1))
  }

  /**
   * `format_type` looks the exact type up in the dictionary the metaclass
   * filled: a registered type is formatted by the class registered last for
   * it, any other type falls back to its text with format 0.
   */
  lemma FormatTypeLookup(v: Value)
    requires WellFormed(v)
    ensures TypeOf(v) !in TypeTable(Declared) ==> FormatType(v) == Ok(Param(0, Fallback(v), 0, 0))
    ensures TypeOf(v) in TypeTable(Declared) ==>
      var c := TypeTable(Declared)[TypeOf(v)];
      Klass(c) == Some(TypeOf(v))
      && (ClassFormat(c, v).Err? ==> FormatType(v) == Err(ClassFormat(c, v).error))
      && (ClassFormat(c, v).Ok? ==>
            var f := ClassFormat(c, v).value;
            FormatType(v) == Ok(Param(f.oid, f.payload, f.size, 1)))
  {
    TypeTableLoaded(TypeOf(v));
    if FormatterClass(TypeOf(v)).Some? {
      FormatterClaims(TypeOf(v));
    }
  }

  /** The type test is exact: a bool is sent as a one-byte `bool`, never through `LongType`. */
  lemma BoolFormat(b: bool)
    ensures FormatType(BoolVal(b)) == Ok(Param(16, Packed([BoolByte(b)]), 1, 1))
    ensures FormatType(IntVal(if b then 1 else 0)) == Ok(Param(21, Packed(EncodeSigned(if b then 1 else 0, 2)), 2, 1))
  {
    var i := if b then 1 else 0;
    assert BitLength(i) < 16;
  }

  /**
   * The values whose binary form reads back through `infer_parser`: every
   * registered type but None, float and the inet types, with a decimal in
   * canonical form with no positive exponent, and an int in the int8 range.
   */
  predicate RoundTrips(v: Value) {
    match v
    case BoolVal(_) => true
    case IntVal(i) => InSigned(i, 8)
    case BytesVal(_) => true
    case DateVal(_) => true
    case TimeVal(_, _, _, _) => true
    case DateTimeVal(_) => true
    case TimedeltaVal(_, _, _) => true
    case DecimalVal(x) => WholeGroups(x) && Numeric.FormatSpec(x).Ok?
    case Foreign(k, _) => k == UuidT
    case _ => false
  }

  /**
   * `format_type(v)` succeeds with binary format 1 and a byte payload, and
   * the parser `infer_parser` gives for the OID it chose reads `v` back.
   */
  predicate ReadsBack(v: Value, depth: nat)
    requires WellFormed(v)
  {
    FormatType(v).Ok? && FormatType(v).value.format == 1 && FormatType(v).value.payload.Packed?
    && var p := FormatType(v).value;
    InferParser(p.oid).Ok? && ParseValue(InferParser(p.oid).value, p.payload.bytes, p.length, depth) == Ok(v)
  }

  /** `ReadsBack` from its two halves: what `format_type` returns and what the parser makes of it. */
  lemma ReadsBackOf(v: Value, oid: int, b: seq<byte>, n: int, c: TypeClass, depth: nat)
    requires WellFormed(v) && FormatType(v) == Ok(Param(oid, Packed(b), n, 1))
    requires InferParser(oid) == Ok(c) && ParseValue(c, b, n, depth) == Ok(v)
    ensures ReadsBack(v, depth)
  {
  }

  /** The integer comes back from the bytes `LongType.format` chose, read by the parser of the OID it chose. */
  lemma LongRoundTrip(i: int, depth: nat)
    requires InSigned(i, 8)
    ensures ReadsBack(IntVal(i), depth)
  {
    LongWidth(i);
    var f := LongFormat(i).value;
    var b := f.payload.bytes;
    LongTagged(i);
    var c := LongParser(i, depth);
    ReadsBackOf(IntVal(i), f.oid, b, f.size, c, depth);
  }

  lemma LongTagged(i: int)
    requires LongFormat(i).Ok?
    ensures var f := LongFormat(i).value; FormatType(IntVal(i)) == Ok(Param(f.oid, f.payload, f.size, 1))
  {
  }

  lemma LongParser(i: int, depth: nat) returns (c: TypeClass)
    requires LongFormat(i).Ok?
    ensures var f := LongFormat(i).value;
      InferParser(f.oid) == Ok(c) && ParseValue(c, f.payload.bytes, f.size, depth) == Ok(IntVal(i))
  {
    var f := LongFormat(i).value;
    if f.size == 2 {
      c := ShortIntType;
      IntReads(c, 21, 2, f.payload.bytes, depth);
    } else if f.size == 4 {
      c := IntType;
      IntReads(c, 23, 4, f.payload.bytes, depth);
    } else {
      c := LongType;
      IntReads(c, 20, 8, f.payload.bytes, depth);
    }
  }

  /** The parser registered for `oid` unpacks `width` big-endian bytes as a signed integer. */
  lemma IntReads(c: TypeClass, oid: int, width: nat, b: seq<byte>, depth: nat)
    requires (c, oid, width) in {(ShortIntType, 21, 2), (IntType, 23, 4), (LongType, 20, 8)} && |b| == width
    ensures InferParser(oid) == Ok(c) && ParseValue(c, b, width, depth) == Ok(IntVal(DecodeSigned(b)))
  {
    InferParserSpec(oid, c);
    assert Prefix(b, width) == b;
  }

  lemma BoolRoundTrip(b: bool, depth: nat)
    ensures ReadsBack(BoolVal(b), depth)
  {
    InferParserSpec(16, BoolType);
    assert ParseValue(BoolType, [BoolByte(b)], 1, depth) == Ok(BoolVal(b));
  }

  lemma BytesRoundTrip(bs: seq<byte>, depth: nat)
    ensures ReadsBack(BytesVal(bs), depth)
  {
    InferParserSpec(17, BinaryType);
    assert Prefix(bs, |bs|) == bs;
    assert ParseValue(BinaryType, bs, |bs|, depth) == Ok(BytesVal(bs));
  }

  lemma DateValRoundTrip(day: int, depth: nat)
    requires ValidDate(day)
    ensures ReadsBack(DateVal(day), depth)
  {
    InferParserSpec(1082, DateType);
    DateRoundTrip(day);
    var f := DateFormat(day);
    assert ParseValue(DateType, f.payload.bytes, f.size, depth) == Ok(DateVal(day));
  }

  lemma TimeValRoundTrip(h: int, m: int, s: int, us: int, depth: nat)
    requires ValidTime(h, m, s, us)
    ensures ReadsBack(TimeVal(h, m, s, us), depth)
  {
    InferParserSpec(1083, TimeOfDayType);
    TimeRoundTrip(h, m, s, us);
    var f := TimeFormat(1083, h, m, s, us);
    assert ParseValue(TimeOfDayType, f.payload.bytes, f.size, depth) == Ok(TimeVal(h, m, s, us));
  }

  lemma DateTimeValRoundTrip(micros: int, depth: nat)
    requires ValidDateTime(micros)
    ensures ReadsBack(DateTimeVal(micros), depth)
  {
    InferParserSpec(1184, TimestampTzType);
    TimestampTzRoundTrip(micros);
    var f := TimestampTzFormat(micros);
    assert ParseValue(TimestampTzType, f.payload.bytes, f.size, depth) == Ok(DateTimeVal(micros));
  }

  lemma TimedeltaValRoundTrip(days: int, seconds: int, us: int, depth: nat)
    requires ValidTimedelta(days, seconds, us)
    ensures ReadsBack(TimedeltaVal(days, seconds, us), depth)
  {
    InferParserSpec(1186, IntervalType);
    IntervalRoundTrip(days, seconds, us);
    var f := IntervalFormat(days, seconds, us);
    assert ParseValue(IntervalType, f.payload.bytes, f.size, depth) == Ok(TimedeltaVal(days, seconds, us));
  }

  lemma DecimalValRoundTrip(x: Decimal, depth: nat)
    requires WholeGroups(x) && Numeric.FormatSpec(x).Ok?
    ensures ReadsBack(DecimalVal(x), depth)
  {
    var b := DecimalBytes(x);
    DecimalTagged(x, b);
    Numeric.FormatRoundTripWholeGroups(x, b);
    NumericReads(b, x, depth);
    ReadsBackOf(DecimalVal(x), 1700, b, |b|, NumericType, depth);
  }

  /**
   * Any Decimal `format` accepts is sent as numeric and read back as the
   * Decimal `Numeric.Reread` describes, which is the value itself only in
   * the cases `WholeGroups` admits.
   */
  lemma DecimalValReread(x: Decimal, depth: nat)
    requires Numeric.FormatSpec(x).Ok?
    ensures x.Finite?
    ensures FormatType(DecimalVal(x)).Ok? && FormatType(DecimalVal(x)).value.oid == 1700
    ensures var p := FormatType(DecimalVal(x)).value;
      InferParser(p.oid) == Ok(NumericType)
      && ParseValue(NumericType, p.payload.bytes, p.length, depth) == Ok(DecimalVal(Numeric.Reread(x)))
  {
    var b := DecimalBytes(x);
    DecimalTagged(x, b);
    Numeric.FormatParseAll(x, b);
    NumericReads(b, Numeric.Reread(x), depth);
  }

  /** 0.05 is sent, but does not read back: the parser returns 5000.00. */
  lemma PureFractionNotReadBack(depth: nat)
    ensures !ReadsBack(DecimalVal(Finite(false, [5], -2)), depth)
  {
    var x := Finite(false, [5], -2);
    Numeric.PureFractionEncodes();
    var b := DecimalBytes(x);
    DecimalTagged(x, b);
    Numeric.PureFractionMisread(b);
    NumericReads(b, Finite(false, [5, 0, 0, 0, 0, 0], -2), depth);
  }

  /** A Decimal whose integer digits fill whole base-10000 groups, at least one. */
  predicate WholeGroups(x: Decimal) {
    Numeric.Canonical(x) && x.exponent <= 0
    && (|x.digits| + x.exponent) % 4 == 0 && |x.digits| + x.exponent >= 4
  }

  lemma DecimalBytes(x: Decimal) returns (b: seq<byte>)
    requires Numeric.FormatSpec(x).Ok?
    ensures Numeric.FormatSpec(x) == Ok(Formatted(1700, Packed(b), |b|))
  {
    b := Numeric.FormatSpec(x).value.payload.bytes;
  }

  lemma DecimalTagged(x: Decimal, b: seq<byte>)
    requires Numeric.FormatSpec(x) == Ok(Formatted(1700, Packed(b), |b|))
    ensures FormatType(DecimalVal(x)) == Ok(Param(1700, Packed(b), |b|, 1))
  {
    DecimalClass(x);
    DecimalFormatter(x);
    TaggedOk(DecimalVal(x), NumericType, Formatted(1700, Packed(b), |b|));
  }

  lemma DecimalFormatter(x: Decimal)
    ensures WellFormed(DecimalVal(x)) && FormatterClass(TypeOf(DecimalVal(x))) == Some(NumericType)
    ensures Klass(NumericType) == Some(TypeOf(DecimalVal(x)))
  {
  }

  lemma TaggedOk(v: Value, c: TypeClass, f: Formatted)
    requires WellFormed(v) && FormatterClass(TypeOf(v)) == Some(c) && Klass(c) == Some(TypeOf(v))
    requires ClassFormat(c, v) == Ok(f)
    ensures FormatType(v) == Ok(Param(f.oid, f.payload, f.size, 1))
  {
    ClassTagged(v, c);
  }

  lemma DecimalClass(x: Decimal)
    ensures ClassFormat(NumericType, DecimalVal(x)) == Numeric.FormatSpec(x)
  {
  }

  lemma ClassTagged(v: Value, c: TypeClass)
    requires WellFormed(v) && FormatterClass(TypeOf(v)) == Some(c)
    ensures Klass(c) == Some(TypeOf(v))
    ensures FormatType(v) == Tagged(ClassFormat(c, v))
  {
    FormatterClaims(TypeOf(v));
  }

  lemma NumericReads(b: seq<byte>, x: Decimal, depth: nat)
    requires Numeric.ParseSpec(b) == Ok(x)
    ensures InferParser(1700) == Ok(NumericType)
    ensures ParseValue(NumericType, b, |b|, depth) == Ok(DecimalVal(x))
  {
    NumericOid();
    NumericParseOk(b, x);
    NumericDispatch(b, DecimalVal(x), depth);
  }

  lemma NumericOid()
    ensures InferParser(1700) == Ok(NumericType)
  {
    InferParserSpec(1700, NumericType);
  }

  lemma NumericParseOk(b: seq<byte>, x: Decimal)
    requires Numeric.ParseSpec(b) == Ok(x)
    ensures NumericParse(b) == Ok(DecimalVal(x))
  {
  }

  lemma NumericDispatch(b: seq<byte>, v: Value, depth: nat)
    requires NumericParse(b) == Ok(v)
    ensures ParseValue(NumericType, b, |b|, depth) == Ok(v)
  {
  }

  lemma UuidRoundTrip(raw: seq<byte>, depth: nat)
    requires |raw| == 16
    ensures ReadsBack(Foreign(UuidT, raw), depth)
  {
    InferParserSpec(2950, UUIDType);
    assert Prefix(raw, 16) == raw;
    assert ParseValue(UUIDType, raw, 16, depth) == Ok(Foreign(UuidT, raw));
  }

  /** Every value `RoundTrips` admits survives `format_type` then `infer_parser` and `parse`. */
  lemma FormatParse(v: Value, depth: nat)
    requires WellFormed(v) && RoundTrips(v)
    ensures ReadsBack(v, depth)
  {
    match v
    case BoolVal(b) => BoolRoundTrip(b, depth);
    case IntVal(i) => LongRoundTrip(i, depth);
    case BytesVal(bs) => BytesRoundTrip(bs, depth);
    case DateVal(day) => DateValRoundTrip(day, depth);
    case TimeVal(h, m, s, us) => TimeValRoundTrip(h, m, s, us, depth);
    case DateTimeVal(micros) => DateTimeValRoundTrip(micros, depth);
    case TimedeltaVal(days, seconds, us) => TimedeltaValRoundTrip(days, seconds, us, depth);
    case DecimalVal(x) => DecimalValRoundTrip(x, depth);
    case Foreign(_, raw) => UuidRoundTrip(raw, depth);
  }

  /**
   * The error paths of `format_type`: an address or network raises
   * struct.error (its class packs with the empty format), so does an int
   * outside the int8 range, and a NaN or infinite Decimal raises TypeError
   * (`abs()` of its non-numeric exponent).  None is sent as a null pointer.
   */
  lemma InetFormatFails(v: Value)
    requires WellFormed(v) && TypeOf(v) in {IPv4AddressT, IPv4NetworkT, IPv6AddressT, IPv6NetworkT}
    ensures FormatType(v) == Err(StructError)
  {
  }

  lemma LongFormatFails(i: int)
    ensures FormatType(IntVal(i)).Err? <==> !InSigned(i, 8)
    ensures FormatType(IntVal(i)).Err? ==> FormatType(IntVal(i)).error == StructError
  {
    LongWidth(i);
    ClassTagged(IntVal(i), LongType);
  }

  lemma SpecialDecimalFails(x: Decimal)
    requires !x.Finite?
    ensures FormatType(DecimalVal(x)) == Err(TypeError)
  {
    DecimalClass(x);
    ClassTagged(DecimalVal(x), NumericType);
  }

  lemma NoneFormat()
    ensures FormatType(NoneVal) == Ok(Param(0, NullPtr, 0, 1))
  {
  }
}
