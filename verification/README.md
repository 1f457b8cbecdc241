# egress, modelled in Dafny

egress is a DB-API 2.0 driver for PostgreSQL, written in Python over
libpq through ctypes. This project models the three files that hold its
behaviour and proves what they promise:

- `egress/types.py`, the binary codec. The driver asks the server for
  every result in binary format, so each PostgreSQL type has a class whose
  `parse` turns the server's bytes into a Python value and whose `format`
  turns a Python value into parameter bytes. The metaclass registers each
  class under its OID and under the Python types it formats.
- `egress/cursor.py`, the cursor state machine. `execute` rewrites `%s`
  placeholders to `$n`, marshals the parameters and opens a transaction
  block when autocommit is off. It sends the statement, checks the result
  and installs it as the cursor's current result. `fetchone`, `fetchmany`
  and `fetchall` then walk that result row by row and free it once it is
  consumed.
- `egress/connection.py`, the connection. It keeps the list of its
  cursors, commits, rolls back and closes. The `EXC_MAP` table turns a
  server SQLSTATE into a DB-API exception class.

The model is layered as follows.

- `py.dfy` holds the Python semantics the code relies on: slicing, list
  assignment, `'%d' % n` and `int(text)`.
- `wire.dfy` models `struct` packing of big-endian integers.
- `types.dfy`, `temporal.dfy`, `numeric.dfy`, `codec.dfy` and
  `formats.dfy` model the codec.
- `errors.dfy` models the SQLSTATE classifier.
- `placeholders.dfy` models the SQL rewriting.
- `driver.dfy` is a scripted stand-in for libpq. A fake server answers
  each command with the next reply of its script, logs the commands it
  was sent, and tracks the transaction status the way PostgreSQL reports
  it.
- `fetch.dfy` holds the cursor's result bookkeeping as functions on a
  `View` value: the held result, row count, description and row position.
- `dbapi.dfy` holds the `Connection` and `Cursor` classes. Their methods
  update fields in place and are proved against the functions of
  `fetch.dfy` and the value-level `ExecuteSpec` and `Dispatch`.
- `dbapi_lemmas.dfy` relates these operations across calls.

Where the code departs from what it evidently intends (see Findings), the
main path of the model follows the code as written:

- `NumericType.format` is `Numeric.FormatSpec`. It groups the integer
  digits of a Decimal in fours from the left (egress/types.py:476-479),
  while `parse` reads the groups as base-10000 digits aligned on the
  decimal point (egress/types.py:443-464). The corrected, point-aligned
  `Numeric.FormatFixed` sits beside it and is used nowhere else.
- `TimestampType.parse` is `Temporal.TimestampParse`. It compares an int8
  count with the int4 date infinities (egress/types.py:364-367). The
  corrected `Temporal.TimestampParseFixed` sits beside it.
- `_check_cmd_result` classifies a SQLSTATE with
  `Errors.ClassifyAsWritten`, the table as written, whose key for class XX
  is "X" (egress/connection.py:73-74). The corrected `Errors.Classify`
  sits beside it.
- `ArrayType.parse` appends a None to the list for each NULL element
  (egress/types.py:84-85), instead of leaving the element's slot None.
  So a one-element array holding NULL reads as `[None, None]`
  (`Codec.OneNullArray`).

One departure is the other way round. As written, `fetchone` calls the
type class itself with two arguments, and the NULL test looks at a pointer
that is never null (egress/cursor.py:290-295). So every cell raises
TypeError, which `Fetch.DecodeCellAsWritten` and `Fetch.CellMisread` show.
The fetch operations decode with the corrected `Fetch.DecodeCell`: a NULL
cell reads as None, and any other cell through its column's parser,
which receives the cell as the pointer `PQgetvalue` returns (only the jsonb
parser tells that apart from bytes, `Codec.JsonbCellParse`).
"## Left out" names each member this affects.

`execute` opens a transaction block with BEGIN whenever autocommit is off
and `_in_txn` is false. `_in_txn` tests only that the status is not idle
(egress/connection.py:97-99). After a successful BEGIN the scripted server
reports "in transaction", as PostgreSQL does (the PQtransactionStatus
section of the libpq chapter of the PostgreSQL documentation).

## Model

| member | source | states |
|---|---|---|
| Py.SliceBound | egress/types.py:53 | a slice bound is clamped into 0..len, and a negative bound counts from the end |
| Py.Slice | egress/types.py:69 | `s[a:b]` never runs past the end, and inside range it is the ordinary subsequence |
| Py.Prefix | egress/types.py:53 | `value[:size]` is the first `size` items, or the whole sequence when `size` is larger |
| Py.ListIndex | egress/types.py:87 | an index is valid iff it lies in -len..len-1, and a negative one counts from the end |
| Py.ListAssign | egress/types.py:87 | list assignment succeeds iff the index is in range; it writes that one slot (from the end when negative) and keeps the length and every other slot |
| Py.DigitChar | egress/cursor.py:194 | every digit value has a decimal digit character |
| Py.DigitValue | egress/cursor.py:194 | a digit character's value is below 10 and prints back as the same character |
| Py.NatText | egress/cursor.py:194 | `'%d' % n` is non-empty, all decimal digits, and denotes n |
| Py.ParseNat | egress/cursor.py:53 | on the text PQcmdTuples returns, `int(text)` succeeds iff the text is a non-empty run of digits, and raises ValueError otherwise |
| Py.ParseNatText | egress/cursor.py:53 | `int('%d' % n) == n` |
| Wire.Pow256 | egress/types.py:53 | 256^n is positive |
| Wire.DecodeUnsigned | egress/types.py:437 | an n-byte big-endian unsigned field holds a value below 256^n |
| Wire.EncodeUnsigned | egress/types.py:487 | a value below 256^width encodes as `width` bytes that decode back to it |
| Wire.DecodeSigned | egress/types.py:53 | a two's-complement field lies in the signed range of its width |
| Wire.EncodeSigned | egress/types.py:57 | an in-range signed value encodes as `width` bytes that decode back to it |
| Wire.UnpackSigned | egress/types.py:53 | `struct.unpack` of a signed field succeeds iff exactly `width` bytes are given, and yields a value in range |
| Wire.UnpackUnsigned | egress/types.py:437 | `struct.unpack` of an unsigned field succeeds iff exactly `width` bytes are given, and yields a value below 256^width |
| Wire.PackSigned | egress/types.py:57 | `struct.pack` of a signed field succeeds iff the value is in range, giving `width` bytes |
| Wire.PackUnsigned | egress/types.py:485-487 | `struct.pack` of an unsigned field succeeds iff 0 <= v < 256^width, giving `width` bytes |
| Wire.SignedRoundTrip | egress/types.py:51-57 | every in-range signed value packs, and unpacks back to itself |
| Wire.UnsignedRoundTrip | egress/types.py:436-441 | every in-range unsigned value packs, and unpacks back to itself |
| Wire.BitLength | egress/types.py:146 | `int.bit_length()` is 0 exactly for 0 |
| Wire.Pow2 | egress/types.py:146 | 2^n is positive |
| Wire.BitLengthBound | egress/types.py:146-152 | `v.bit_length() <= n` iff -2^n < v < 2^n |
| Wire.HalfAsPow2 | egress/types.py:146-152 | the signed bound of a byte width is 2^(8·width-1) |
| Wire.Pow256AsPow2 | egress/types.py:146-152 | 256^n is 2^(8n) |
| Types.TypeRegistry.constructor | egress/types.py:31-40 | loading the module leaves the OID table and the type table as the metaclass builds them, class by class in declaration order |
| Types.TypeRegistry.Register | egress/types.py:36-39 | one metaclass call records the class under its OID and under its Python type; other OIDs keep their entries |
| Types.ClassForOidSound | egress/types.py:16-20 | the class found for an OID declares that OID |
| Types.OidInjective | egress/types.py:36-37 | the OID a class declares finds that very class, so no two classes share an OID |
| Types.AllDeclared | egress/types.py:31-40 | every type class is among the declared ones |
| Types.OidTableValues | egress/types.py:36-37 | every entry of the OID table is the class that declares the OID |
| Types.OidTableHas | egress/types.py:36-37 | every registered class with an OID is in the OID table |
| Types.TypeTableAppend | egress/types.py:38-39 | registering more classes overrides earlier entries for the same Python type |
| Types.TypeTableSoleWriter | egress/types.py:38-39 | a Python type that only one class claims maps to that class |
| Types.TypeTableHas | egress/types.py:38-39 | every Python type a registered class claims is in the type table |
| Types.FormatterClaims | egress/types.py:38-39 | the formatter chosen for a Python type claims that type |
| Types.TypeTableKeys | egress/types.py:38-39 | a Python type no class claims is not in the type table |
| Types.KlassOwner | egress/types.py:188-243 | a class claiming a Python type is that type's formatter, except IPv4Address, which IPv4AddressType and IPAddressType both claim |
| Types.TypeTableLoadedKeys | egress/types.py:38-39 | after loading, the type table covers exactly the claimed Python types |
| Types.TypeTableLoadedIPv4 | egress/types.py:242-243 | after loading, IPv4Address is formatted by IPAddressType, the later of its two claimants |
| Types.IPv4TailWriter | egress/types.py:242-243 | no class declared after IPAddressType takes IPv4Address back |
| Types.TypeTableLoaded | egress/types.py:38-39 | after loading, every claimed Python type maps to its formatter class |
| Types.InferParser | egress/types.py:16-20 | an OID with no class raises KeyError |
| Types.InferParserLoaded | egress/types.py:20 | `infer_parser` succeeds iff the loaded OID table has the OID, and returns its entry |
| Types.InferParserSpec | egress/types.py:16-20 | `infer_parser(oid)` is c iff c declares oid, and raises iff no class declares it |
| Temporal.DateParse | egress/types.py:318-325 | a date reads iff it is exactly 4 bytes and not a finite count outside the date range: the int4 infinities read as date.max and date.min, any other count as that many days from 2000-01-01, and a count beyond the range raises OverflowError |
| Temporal.DateFormat | egress/types.py:327-330 | a date formats with OID 1082 as 4 bytes holding its day count |
| Temporal.DateRoundTrip | egress/types.py:318-330 | every valid date, max and min included, reads back from its own bytes |
| Temporal.TimeParse | egress/types.py:341-347 | a time reads from exactly 8 bytes of microseconds since midnight, as a valid time of day |
| Temporal.TimeFormat | egress/types.py:349-352 | a time formats as 8 bytes holding its microseconds since midnight, below one day |
| Temporal.TimeRoundTrip | egress/types.py:341-352 | every valid time reads back from its own bytes |
| Temporal.TimeMicrosInjective | egress/types.py:351 | distinct valid times have distinct microsecond counts |
| Temporal.DivModUnique | egress/types.py:345-347 | quotient and remainder by a positive divisor are unique |
| Temporal.DateTimeFromMicros | egress/types.py:368 | adding a microsecond count to 2000-01-01 succeeds iff the result is a valid datetime |
| Temporal.TimestampParse | egress/types.py:359-368 | as written: size 0 reads as None; otherwise exactly 8 bytes are needed; a count equal to an int4 date infinity reads as datetime.max or min, any other count as that offset from 2000-01-01 when it is a valid datetime, and raises OverflowError otherwise |
| Temporal.TimestampParseFixed | egress/types.py:359-368 | corrected: only the int8 infinities read as datetime.max and min, and every other count is an offset from 2000-01-01 |
| Temporal.TimestampSentinelMisread | egress/types.py:364-367 | as written, the finite instant 2147483647 µs after 2000-01-01 reads as datetime.max |
| Temporal.TimestampInfinityOverflows | egress/types.py:364-368 | as written, the int8 timestamp infinities raise OverflowError; corrected, they read as datetime.max and min |
| Temporal.TimestampFixedReadsEveryInstant | egress/types.py:359-368 | with the correction every valid instant reads back from its own bytes |
| Temporal.TimestampTzParse | egress/types.py:394-399 | size 0 reads as None; otherwise 8 bytes read as an offset from 2000-01-01 |
| Temporal.TimestampTzFormat | egress/types.py:401-408 | a datetime formats with OID 1184 as 8 bytes holding its microsecond offset from 2000-01-01, counted exactly (see Left out for the float) |
| Temporal.TimestampTzRoundTrip | egress/types.py:394-408 | every valid datetime reads back from the bytes of its exact microsecond offset |
| Temporal.TimedeltaFromMicros | egress/types.py:379 | `timedelta(microseconds=n)` gives a normalised timedelta whose total is n |
| Temporal.IntervalParse | egress/types.py:376-380 | an interval reads from exactly 16 bytes, as the timedelta of its microseconds plus its days and 30-day months |
| Temporal.IntervalFormat | egress/types.py:382-386 | a timedelta formats with OID 1186 as 16 bytes: seconds·10⁶ + microseconds as int8, then days mod 30 and days div 30 as int4 |
| Temporal.DeltaMicrosInjective | egress/types.py:385 | distinct normalised timedeltas have distinct microsecond totals |
| Temporal.IntervalRoundTrip | egress/types.py:376-386 | every valid timedelta reads back from its own bytes |
| Temporal.IntervalParseOf | egress/types.py:378-379 | the timedelta read is the one of (days + 30·months) days plus the microseconds |
| Temporal.TimedeltaOfMicros | egress/types.py:379 | a normalised timedelta is rebuilt from its microsecond total |
| Numeric.Canon | egress/types.py:464 | the digits `Decimal` keeps are non-empty and carry no leading zero |
| Numeric.CanonZeros | egress/types.py:464 | leading zeros do not change the digits `Decimal` keeps |
| Numeric.LiteralValue | egress/types.py:464 | `Decimal` of integer and fraction digit texts succeeds iff both are digits and not both empty, with exponent minus the fraction length |
| Numeric.DecimalLiteral | egress/types.py:464 | a Decimal read from text has canonical digits, exponent at most 0, and is negative iff the text starts with '-' |
| Numeric.DecimalLiteralOf | egress/types.py:455-464 | the text the parse loop builds (sign, integer digits, point, fraction digits) reads as the decimal of those digits |
| Numeric.GroupText | egress/types.py:449 | a base-10000 group prints as four digits |
| Numeric.LeftGroups | egress/types.py:477-479 | integer digits split into ceil(n/4) groups, each below 10000 |
| Numeric.FracGroups | egress/types.py:481-484 | fraction digits split into ceil(n/4) groups, each below 10000 |
| Numeric.Groups | egress/types.py:440-441 | the body holds one group per two bytes |
| Numeric.PackGroups | egress/types.py:487 | groups pack as two bytes each |
| Numeric.GroupsRoundTrip | egress/types.py:485-487 | unpacking packed groups gives back the groups |
| Numeric.ReadHeader | egress/types.py:436-437 | the header's ndigits, sign and dscale are unsigned 16-bit and its weight signed 16-bit |
| Numeric.PackNumeric | egress/types.py:485-487 | header and groups pack iff every field fits its 16-bit slot, as 8 + 2·n bytes |
| Numeric.PackNumericRead | egress/types.py:436-441 | the header and groups read back from what was packed |
| Numeric.ParseSpec | egress/types.py:434-465 | fewer than 8 bytes raise StructError, and the NaN sign reads as NaN |
| Numeric.ParseReadsDigits | egress/types.py:443-464 | the value read has the first (weight+1)·4 + dscale digits of the group stream, the header's sign and exponent -dscale; it fails iff there are no such digits |
| Numeric.LiteralOfNumerals | egress/types.py:455-464 | `Decimal` of digit texts fails iff there is no digit; otherwise it spells those digits with exponent minus the fraction length |
| Numeric.Parse | egress/types.py:434-465 | the parse with its loops computes ParseSpec |
| Numeric.Accumulate | egress/types.py:455-463 | the digit loop builds the sign, integer digits, point and fraction digits from the stream |
| Numeric.ParsePacked | egress/types.py:434-465 | a packed header and groups parse as the decimal their digit text denotes |
| Numeric.Cut | egress/types.py:471-475 | the split between integer and fraction digits is where the exponent puts it |
| Numeric.FormatSpec | egress/types.py:467-488 | as written: `format` succeeds iff the Decimal is finite and its header fits, with OID 1700 and 8 + 2·groups bytes |
| Numeric.FormatHeader | egress/types.py:480-487 | the written header counts the groups, takes the sign and dscale from the Decimal, and sets weight to the integer groups minus one, or 0 |
| Numeric.Format | egress/types.py:467-488 | the formatting with its two while loops computes FormatSpec |
| Numeric.FormatAsLayout | egress/types.py:476-487 | for a Decimal with an integer digit and exponent at most 0, what `format` writes is the layout of its integer digits zero-padded on the left to whole groups, then its fraction |
| Numeric.FormatParseAsWritten | egress/types.py:467-488 | as written, for a Decimal with an integer digit and exponent at most 0, the bytes read back as its integer digits left-padded to whole groups, then its fraction |
| Numeric.FormatRoundTripWholeGroups | egress/types.py:467-488 | a Decimal whose integer digit count is a non-zero multiple of four reads back as itself |
| Numeric.WholeGroupsKept | egress/types.py:477-479 | with whole groups, padding changes no digit |
| Numeric.FormatMisplacesShortGroup | egress/types.py:476-480 | as written, Decimal('12345.6') reads back as 12340005.6 |
| Numeric.ShortGroupWidened | egress/types.py:448-451 | the short group 5 of 12345 is read back as 0005 |
| Numeric.FormatShortGroupEncodes | egress/types.py:467-488 | `format` does accept 12345.6, so the misreading is not an error path |
| Numeric.Fill | egress/types.py:453-458 | reading n digits from a digit stream that runs out gives n digits, '0' once the stream is spent |
| Numeric.FillWithin | egress/types.py:453-458 | a read within the stream is a prefix of it |
| Numeric.FillBeyond | egress/types.py:453-458 | a read past the stream is the stream, then zeros |
| Numeric.ReadPacked | egress/types.py:434-465 | packed groups with at least one digit to read parse as the decimal of the first (weight+1)·4 + dscale stream digits, with sign from the header and exponent -dscale |
| Numeric.LiteralRead | egress/types.py:455-464 | the text the parse loop builds reads as that decimal |
| Numeric.ReadResult | egress/types.py:455-464 | a parse result with that sign, exponent and digits is that decimal |
| Numeric.FormatStream | egress/types.py:476-487 | the digit stream of what `format` writes is the integer digits left-padded to whole groups, then the fraction right-padded to whole groups |
| Numeric.TakeChars | egress/types.py:453-458 | reading n characters of a digit text, then '0's, spells the n digits `Fill` gives |
| Numeric.FormatReadDigits | egress/types.py:434-488 | the digits read from what `format` writes are its padded layout, then zeros |
| Numeric.FormatParseAll | egress/types.py:434-488 | as written, every Decimal `format` accepts is finite and `parse` reads its bytes back as `Reread` of it: (weight+1)·4 + dscale digits of the padded layout, exponent -abs(exponent) |
| Numeric.RereadPacked | egress/types.py:434-488 | the packed header and groups of a finite Decimal parse as `Reread` of it |
| Numeric.RereadDigits | egress/types.py:436-464 | `Reread` is the value the parser builds from the header and groups `format` writes |
| Numeric.FormatHeaderCount | egress/types.py:443-480 | under the header `format` writes, the parser reads four digits per integer group (four when there is none) plus abs(exponent) |
| Numeric.FormatHeaderReads | egress/types.py:480-487 | the header `format` writes is not NaN, carries the Decimal's sign, and leaves at least four digits to read |
| Numeric.PureFractionParts | egress/types.py:471-475 | a pure fraction has no integer digit, every digit a fraction digit |
| Numeric.FormatPureFraction | egress/types.py:434-488 | as written, a pure fraction reads back as its digits right-padded to whole groups, read 4 + dscale at a time with zeros once they run out |
| Numeric.PureFractionReread | egress/types.py:434-488 | `Reread` of a pure fraction, in terms of its digits |
| Numeric.RereadOf | egress/types.py:434-488 | `Reread` in terms of its regrouped integer digits and padded fraction |
| Numeric.PureFractionMisread | egress/types.py:476-487 | as written, Decimal('0.05') is sent as the group 5000 under weight 0 and reads back as 5000.00 |
| Numeric.PureFractionDigits | egress/types.py:453-458 | the digits read for 0.05 are 500000 |
| Numeric.PureFractionEncodes | egress/types.py:467-488 | `format` accepts 0.05, so the misreading is not an error path |
| Numeric.FormatPositiveExponent | egress/types.py:434-488 | as written, a Decimal with a positive exponent at least its digit count reads back as its regrouped coefficient under exponent -exponent |
| Numeric.PositiveExponentReread | egress/types.py:434-488 | `Reread` under such an exponent, in terms of the coefficient |
| Numeric.PositiveExponentParts | egress/types.py:471-475 | under such an exponent every digit is an integer digit |
| Numeric.PositiveExponentMisread | egress/types.py:468-487 | as written, Decimal('1E+5') is sent with dscale 5 and reads back as 1.00000 |
| Numeric.PositiveExponentDigits | egress/types.py:477-479 | the digits read for 1E+5 are 100000 |
| Numeric.PositiveExponentEncodes | egress/types.py:467-488 | `format` accepts 1E+5, so the misreading is not an error path |
| Numeric.FixedFracDigits | egress/types.py:469-475 | the corrected split keeps -exponent fraction digits |
| Numeric.PadLeft | egress/types.py:477-479 | the corrected integer digits are padded to whole groups |
| Numeric.FormatFixed | egress/types.py:467-488 | corrected: NaN and infinities raise TypeError, and a result carries OID 1700 and its byte count |
| Numeric.FormatFixedRoundTrip | egress/types.py:434-488 | corrected: every canonical Decimal that formats reads back as itself, or, with a positive exponent, as the same number without exponent |
| Numeric.FixedLayout | egress/types.py:467-488 | the corrected bytes pack a point-aligned layout of the same digits |
| Numeric.FixedDigits | egress/types.py:469-484 | the point-aligned layout keeps the Decimal's digits and exponent |
| Numeric.FixedDigitsWhole | egress/types.py:469-484 | with exponent at least 0 the point-aligned layout spells the coefficient followed by exponent zeros |
| Numeric.FixedDigitsCut | egress/types.py:469-484 | with a cut inside the digits the layout spells the coefficient |
| Numeric.FixedDigitsFraction | egress/types.py:469-484 | for a pure fraction the layout spells the coefficient |
| Codec.UnpackBool | egress/types.py:100-104 | a bool reads iff the cell is one byte |
| Codec.UnpackInt | egress/types.py:51-53 | an integer reads iff the cell is exactly its width, as the signed big-endian value |
| Codec.UnpackFloat | egress/types.py:223-231 | a float reads iff the cell is exactly its width |
| Codec.UnpackNothing | egress/types.py:49-53 | a class without a format string cannot parse |
| Codec.JsonbParse | egress/types.py:507-511 | on an array element, a bytes slice, the version test never holds: the element reads iff it is non-empty, as the text after the version byte, and an empty one raises IndexError |
| Codec.JsonbCellParse | egress/types.py:507-511 | on a whole cell, the pointer PQgetvalue returns, the parse always succeeds: version byte 1 gives the `json.loads` object iff the cell starts with it, anything else, the empty cell included, the text after the first byte |
| Codec.JsonbCellVersusElement | egress/types.py:509-511 | the jsonb bytes 01 '1' read as the JSON object of '1' in a cell but as the text '1' in an array element; an empty value is '' in a cell and IndexError in an element |
| Codec.UuidParse | egress/types.py:495-497 | a uuid reads iff the cell is 16 bytes |
| Codec.InetParse | egress/types.py:196-205 | an inet cell needs its 4-byte header and, for a length byte of 4 or 16, that many address bytes; a prefix shorter than the address then needs every host bit clear, or the strict network constructor raises ValueError; any other length byte reads as None |
| Codec.HostBitsIn | egress/types.py:200 | a helper of the host-bit test: byte k of an address holds at most 8 of the host bits a prefix leaves |
| Codec.InetHostBitsSet | egress/types.py:200 | 10.0.0.1/8 has a host bit set, so its cell raises ValueError |
| Codec.InetHostBitsClear | egress/types.py:198-204 | 10.0.0.0/8 reads as an IPv4 network, and 10.0.0.1/32 as an address |
| Codec.ElementParse | egress/types.py:87 | an array element is parsed by its class's own `parse`; the method `Codec.ParseElement` computes it and is proved equal to `Codec.ParseValue` of the element bytes |
| Codec.NumericParse | egress/types.py:434-465 | a numeric cell reads iff NumericType.parse succeeds, as its Decimal |
| Codec.ParseValue | egress/types.py:434 | dispatching on NumericType runs the numeric parser; the doc comment lists every class's parser |
| Codec.Nones | egress/types.py:79 | `[None] * n` has max(n, 0) entries, all None |
| Codec.ReadDims | egress/types.py:66-72 | the dimension loop reads one pair per dimension |
| Codec.ReadDimInfo | egress/types.py:66-72 | the dimension loop computes ReadDims |
| Codec.ArraySpec | egress/types.py:62-89 | an array reads only from a 20-byte header with one dimension and a known element OID, and as a list |
| Codec.Elements | egress/types.py:81-88 | the element loop produces a list |
| Codec.StoreElement | egress/types.py:87-88 | storing a parsed element keeps the result a list |
| Codec.Parse | egress/types.py:51-53 | the cell parse computes ParseValue |
| Codec.ParseElement | egress/types.py:87 | an element is parsed by the element class |
| Codec.ArrayParse | egress/types.py:62-89 | the array parse, with its loops, computes ArraySpec |
| Codec.ReadElements | egress/types.py:81-88 | the element loop computes Elements |
| Codec.ReadCell | egress/types.py:82-88 | one turn of the element loop advances Elements or reports its error |
| Codec.FillSlot | egress/types.py:79-87 | assigning the slot just after a filled prefix replaces the first of the remaining None slots |
| Codec.NullStep | egress/types.py:82-86 | a cell of length -1 or 0 appends one more None to the list and the loop goes on right after the length |
| Codec.StoreStep | egress/types.py:84-88 | a cell of any other length is parsed from the bytes after its length and stored |
| Codec.ItemStep | egress/types.py:87-88 | an element that parses is stored in slot x-1, the first None slot, and the loop goes on after its bytes |
| Codec.StoreCell | egress/types.py:82-88 | one turn of the element loop over a cell of length other than -1 and 0 advances Elements or reports its error |
| Codec.Stored | egress/types.py:85-88 | a turn goes on only when the element parsed and `val[x-1] = item` succeeded, at the end of the cell; a failed parse hands back its error |
| Codec.StoreResult | egress/types.py:82-88 | one turn of the element loop over a non-empty cell: a failing parse or store decides the array's error, otherwise the loop goes on from the next cell with the stored list |
| Codec.ShortHeader | egress/types.py:82-83 | a length header cut short by the end of the value raises struct.error |
| Codec.HeaderReads | egress/types.py:64-72 | the 20-byte header reads back as its dimension count, element OID, size and lower bound |
| Codec.OneDim | egress/types.py:68-72 | one pass of the dimension loop reads the eight bytes at `offs` as a (size, lower bound) pair |
| Codec.ArrayStart | egress/types.py:64-81 | with a known element OID, a one-dimensional array is its element loop from the lower bound over `dim` positions, starting from `dim` None slots |
| Codec.ArrayUnknownElement | egress/types.py:75 | an unknown element OID raises KeyError |
| Codec.ArrayNoDims | egress/types.py:74 | an array of zero or fewer dimensions fails the `ndim == 1` assertion |
| Codec.OneNullArray | egress/types.py:79-86 | a one-element array whose cell is NULL reads as [None, None]: the slot stays None and one more None is appended |
| Formats.LongFormat | egress/types.py:144-152 | an int formats as int2, int4 or int8, with bytes that decode to the int |
| Formats.LongWidth | egress/types.py:144-152 | an int formats iff it fits int8, at the narrowest width whose bit length bound it meets |
| Formats.BitsFit | egress/types.py:146-152 | bit length below 8·width iff the value fits the signed width |
| Formats.ClassFormat | egress/types.py:55-57 | a class's format carries the class's own OID; NumericType formats with `format` as written |
| Formats.FormatType | egress/types.py:23-28 | a text-format parameter has OID 0 and length 0 |
| Formats.FormatTypeLookup | egress/types.py:23-28 | an unclaimed Python type is sent as its text with OID 0; a claimed one is formatted by the class the type table names |
| Formats.BoolFormat | egress/types.py:25 | True is sent as bool OID 16, not as the int 1 |
| Formats.ReadsBackOf | egress/types.py:16-28 | a value whose bytes the parser of its tagged OID reads as itself round-trips |
| Formats.LongRoundTrip | egress/types.py:139-166 | every int that fits int8 reads back through `infer_parser` of its OID |
| Formats.LongTagged | egress/types.py:144-152 | an int is tagged with the OID of the width chosen |
| Formats.LongParser | egress/types.py:155-166 | the parser for that OID reads that width |
| Formats.IntReads | egress/types.py:155-166 | the int2, int4 and int8 classes read their width back |
| Formats.BoolRoundTrip | egress/types.py:100-104 | a bool reads back as itself |
| Formats.BytesRoundTrip | egress/types.py:107-117 | bytes read back as themselves |
| Formats.DateValRoundTrip | egress/types.py:313-330 | a date parameter reads back as itself |
| Formats.TimeValRoundTrip | egress/types.py:333-352 | a time parameter reads back as itself |
| Formats.DateTimeValRoundTrip | egress/types.py:389-408 | a datetime parameter, encoded with its exact microsecond offset, reads back as itself |
| Formats.TimedeltaValRoundTrip | egress/types.py:371-386 | a timedelta parameter reads back as itself |
| Formats.DecimalValRoundTrip | egress/types.py:430-488 | a canonical Decimal with exponent at most 0 whose integer digits fill whole groups, at least one, reads back as itself |
| Formats.DecimalValReread | egress/types.py:430-488 | any Decimal `format` accepts is sent with OID 1700 and read back through `infer_parser` as `Numeric.Reread` of it |
| Formats.PureFractionNotReadBack | egress/types.py:476-487 | as written, the parameter Decimal('0.05') does not read back as itself |
| Formats.DecimalBytes | egress/types.py:488 | a Decimal that formats yields OID 1700 and its bytes |
| Formats.DecimalTagged | egress/types.py:25 | a Decimal is tagged with OID 1700 |
| Formats.DecimalFormatter | egress/types.py:429-431 | Decimal is formatted by NumericType |
| Formats.TaggedOk | egress/types.py:25 | `format_type` tags a class's output with format 1 |
| Formats.DecimalClass | egress/types.py:429-488 | NumericType formats a Decimal with `format` as written: TypeError for NaN and infinities, OID 1700 and 8 + 2·groups bytes otherwise |
| Formats.ClassTagged | egress/types.py:25 | a claimed type is formatted by its class and tagged |
| Formats.NumericReads | egress/types.py:431 | OID 1700 is read by NumericType |
| Formats.NumericOid | egress/types.py:431 | `infer_parser(1700)` is NumericType |
| Formats.NumericParseOk | egress/types.py:434-465 | a numeric parse reads as a Decimal value |
| Formats.NumericDispatch | egress/types.py:51-53 | parsing with NumericType is the numeric parse |
| Formats.UuidRoundTrip | egress/types.py:491-501 | a UUID reads back as itself |
| Formats.FormatParse | egress/types.py:16-28 | every bool, int8-range int, bytes, date, time, datetime, timedelta, UUID and whole-group Decimal parameter reads back as itself through `infer_parser` of its tagged OID (a datetime with its exact microsecond offset) |
| Formats.InetFormatFails | egress/types.py:188-220 | an address or network parameter raises StructError |
| Formats.LongFormatFails | egress/types.py:152 | an int raises StructError iff it does not fit int8 |
| Formats.SpecialDecimalFails | egress/types.py:469-470 | NaN and infinite Decimals raise TypeError |
| Formats.NoneFormat | egress/types.py:92-97 | None is sent as a NULL pointer, in binary format |
| Errors.ClassifyAsWritten | egress/connection.py:184-190 | as written, the exception class is never the bare Error or InterfaceError |
| Errors.Classify | egress/connection.py:184-190 | corrected, likewise |
| Errors.TablesDiffer | egress/connection.py:6-75 | the corrected table is the written one with the key "X" replaced by "XX" |
| Errors.NoCode | egress/connection.py:187-190 | a missing or empty SQLSTATE gives DatabaseError |
| Errors.ClassDecides | egress/connection.py:188 | only the first two characters of a SQLSTATE matter |
| Errors.CommonClasses | egress/connection.py:8-59 | classes 23, 22, 42, 0A and 53 map to IntegrityError, DataError, ProgrammingError, NotSupportedError and OperationalError |
| Errors.CommonClassesAsWritten | egress/connection.py:8-59 | as written, classes 23, 22, 42, 0A and 53 map to the same classes as in the corrected table |
| Errors.UnlistedClass | egress/connection.py:188 | a class the table does not list gives DatabaseError |
| Errors.UnlistedClassAsWritten | egress/connection.py:188 | as written, a SQLSTATE gives DatabaseError iff its class is not a key of the table |
| Errors.InternalClass | egress/connection.py:73-74 | corrected, class XX gives InternalError |
| Errors.InternalClassMisread | egress/connection.py:73-74 | as written, XX000 gives DatabaseError, because the key is "X" and the lookup takes two characters |
| Placeholders.FindFrom | egress/cursor.py:193-194 | the search finds the first `%s` at or after a position, or reports there is none |
| Placeholders.Find | egress/cursor.py:193-194 | `'%s' in s` is false iff no `%s` occurs; otherwise the leftmost one is found |
| Placeholders.Marker | egress/cursor.py:194 | `'$%d' % k` starts with '$', ends with a digit and holds no `%s` |
| Placeholders.Escape | egress/cursor.py:196 | doubling every '%' never shortens a text |
| Placeholders.NumberPlaceholders | egress/cursor.py:192-195 | the replace loop numbers every `%s` from the left, starting at 1 |
| Placeholders.Rewrite | egress/cursor.py:191-196 | with parameters the text is numbered and then unescaped; without, it is sent unchanged |
| Placeholders.Advance | egress/cursor.py:193-195 | one turn of the replace loop keeps the loop's invariant |
| Placeholders.FindAfter | egress/cursor.py:193-194 | the leftmost `%s` lies after the part already rewritten |
| Placeholders.NumberedAtFirst | egress/cursor.py:194 | the first placeholder gets the current number and the rest go on from the next |
| Placeholders.NumberedNone | egress/cursor.py:193 | a text without `%s` is unchanged by numbering |
| Placeholders.NumberedClean | egress/cursor.py:193-195 | after numbering no `%s` remains |
| Placeholders.NumberedSplit | egress/cursor.py:194 | the k-th placeholder from the left becomes `$k` |
| Placeholders.UnescapeEscape | egress/cursor.py:196 | `%%` unescapes to a single '%', so escaped text comes back |
| Placeholders.PercentFree | egress/cursor.py:193-196 | a text holding no '%' is left alone by both the numbering loop and the unescape |
| Placeholders.EscapeBeforeS | egress/cursor.py:192-196 | `%%s` is rewritten to `%$1`, because numbering runs before unescaping |
| Driver.TxnAfter | egress/wrap.py:144-145 | BEGIN opens a block, COMMIT and ROLLBACK close it, and other successful commands keep the status |
| Driver.Serve | egress/wrap.py:162-168 | the server logs the command, answers with the next scripted reply or a fatal error once the script runs out, and updates its status from the reply |
| Driver.PGResult.constructor | egress/wrap.py:20-22 | a new result handle holds its reply and is not cleared |
| Driver.PGResult.Clear | egress/wrap.py:41-44 | a result handle is cleared afterwards, however often it is cleared |
| Driver.PGConn.constructor | egress/wrap.py:97-98 | a connection handle wraps its server |
| Driver.PGConn.Execute | egress/wrap.py:162-164 | `PQexec` serves one plain command and returns a fresh result of its reply |
| Driver.PGConn.ExecParams | egress/wrap.py:166-168 | `PQexecParams` serves one parameterised command and returns a fresh result |
| Driver.PGConn.Finish | egress/wrap.py:106-109 | finishing closes the connection and changes nothing else |
| Fetch.Describe | egress/cursor.py:59-78 | the description exists iff every column type has a parser, otherwise TypeError; it has one entry per column with its name and parser |
| Fetch.Column | egress/cursor.py:61-77 | a column's entry exists iff `infer_parser` knows its type OID, else TypeError; it carries the column's name, parser and size |
| Fetch.RowCount | egress/cursor.py:49-57 | a tuples result counts its rows; a command counts `int(cmd_tuples)`, or -1 when that is empty, raising ValueError only on a non-numeric count; any other status records nothing; a recorded count is at least -1 |
| Fetch.Install | egress/cursor.py:40-79 | `_set_result` holds the reply; rowcount is the row count for tuples, `int(cmdTuples)` or -1 for commands, else None; on success the position is -1 with a description, on failure the description is cleared |
| Fetch.DecodeCols | egress/cursor.py:288-296 | a decoded row has one value per column, each the decoding of its cell |
| Fetch.DecodeCellAsWritten | egress/cursor.py:290-295 | as written, a cell reads as None iff PQgetvalue returned a null pointer, and every other cell raises TypeError |
| Fetch.DecodeCell | egress/cursor.py:290-295 | corrected: a missing or NULL cell reads as None; a jsonb cell is parsed as the pointer it is and never raises; only another non-NULL cell's parse can raise |
| Fetch.DecodeRow | egress/cursor.py:288-297 | a row decodes iff each of its cells does, and then has one value per description entry |
| Fetch.FetchOne | egress/cursor.py:271-297 | with a result held and the position set, the call after the last row frees the result and returns None, and before it the next row, `DecodeRow` of position+1 (one value per column), is returned or its error raised, with the position advanced by one; a returned row shrinks what remains, and None means the result was freed |
| Fetch.FetchMany | egress/cursor.py:299-327 | the rows returned extend what was already collected, and only a held result can raise (partner lemma Fetch.FetchManyBound bounds the count) |
| Fetch.FetchAll | egress/cursor.py:329-338 | the rows returned extend what was already collected, and a successful `fetchall` leaves no result held; only a held result can raise |
| Fetch.Rows | egress/cursor.py:329-338 | the rows lo..hi number hi-lo |
| Fetch.DecodeColsOk | egress/cursor.py:289-296 | a row decodes iff each of its cells does |
| Fetch.DecodeColsExtend | egress/cursor.py:289-296 | the first cell that fails decides the row's error |
| Fetch.NullRow | egress/cursor.py:292-293 | corrected: a row of NULL or missing cells reads as all None |
| Fetch.CellMisread | egress/cursor.py:290-295 | as written, a text cell and a NULL cell both raise TypeError; corrected, they read as the text and None |
| Fetch.NoResult | egress/cursor.py:279-280 | with no result held every fetch returns nothing and changes nothing |
| Fetch.FetchAllRows | egress/cursor.py:329-338 | `fetchall` returns every remaining row in order and frees the result |
| Fetch.FetchAllAfterInstall | egress/cursor.py:329-338 | right after a tuples result is installed, `fetchall` returns all its rows |
| Fetch.FetchAllFresh | egress/cursor.py:329-338 | on a view holding a result not yet fetched from, `fetchall` returns all its rows and frees it |
| Fetch.Installed | egress/cursor.py:40-79 | an installed tuples result is held, counted, described and positioned before its first row |
| Fetch.FetchManyBound | egress/cursor.py:299-327 | `fetchmany(n)` returns at most n rows, and fewer only when the result ran out and was freed |
| Fetch.ManyThenAll | egress/cursor.py:299-338 | `fetchmany` followed by `fetchall` returns what `fetchall` alone would |
| Dbapi.CheckResult | egress/connection.py:180-193 | a result passes iff its status is COMMAND_OK or TUPLES_OK on a healthy connection; a failed status raises, with the message, the class the table as written gives its SQLSTATE |
| Dbapi.ConnStatus | egress/connection.py:172-178 | the status check passes iff the connection is open and CONNECTION_OK; closed raises "No connection", bad raises DatabaseError with the connection's message |
| Dbapi.EndTxn | egress/connection.py:121-149 | on a closed connection it raises; outside a transaction it sends nothing and succeeds; inside one it sends exactly its statement (partner lemma DbapiLemmas.EndTxnEnds: the connection ends idle) |
| Dbapi.Marshal | egress/cursor.py:201-213 | the four parameter arrays have one entry per parameter, each from `format_type` of it |
| Dbapi.RemoveFirst | egress/connection.py:163-170 | `list.remove` takes out one occurrence if there is one, and nothing otherwise |
| Dbapi.RemoveFirstMultiset | egress/connection.py:167-170 | `list.remove` takes out exactly one occurrence of the item, if there is one |
| Dbapi.RemoveFirstSplit | egress/connection.py:167-170 | removing a cursor takes out its first occurrence and keeps the order of the rest |
| Dbapi.RemoveOwned | egress/connection.py:163-170 | removing a cursor keeps the list free of repeats and made of the connection's own cursors |
| Dbapi.DropDistinct | egress/connection.py:167-170 | dropping one entry of a list without repeats leaves none |
| Dbapi.DropOwned | egress/connection.py:167-170 | dropping one cursor of a connection's list leaves only that connection's cursors |
| Dbapi.MarshalExtend | egress/cursor.py:208-213 | once a parameter fails, later ones do not change the error |
| Dbapi.MarshalAll | egress/cursor.py:208-213 | parameters that all format marshal to exactly their arrays |
| Dbapi.MarshalFirstError | egress/cursor.py:208-209 | the first parameter `format_type` rejects decides the error |
| Dbapi.Statement | egress/cursor.py:191-196 | without parameters the operation is sent unchanged, and so is an operation holding no '%' |
| Dbapi.Send | egress/cursor.py:224-232 | `exec_params` sends the statement with the four parameter arrays and asks for binary results (format 1) |
| Dbapi.Begin | egress/cursor.py:221-223 | with autocommit on or a transaction open nothing is sent; otherwise BEGIN is sent, and when it succeeds a transaction is open |
| Dbapi.ExecuteSpec | egress/cursor.py:191-238 | on a closed connection `execute` raises and the connection stays closed; when it succeeds the cursor is attached, records the rewritten statement and holds a successful result |
| Dbapi.Dispatch | egress/cursor.py:219-238 | the statement is always recorded as the query; an open connection stays open; a success means an attached cursor now holds a result the server reported as successful |
| Dbapi.ExecuteManySpec | egress/cursor.py:262-265 | on a closed connection `executemany` succeeds only for an empty sequence; a successful run over a non-empty sequence leaves a result held (partner lemmas DbapiLemmas.ExecuteManyOne and ExecuteManyAppend) |
| Dbapi.DecodeColsStep | egress/cursor.py:289-296 | one turn of the cell loop: a decoded cell extends the row, a failing one decides the row's error |
| Dbapi.BuildParams | egress/cursor.py:201-217 | the marshalling loop computes Marshal |
| Dbapi.DecodeRowAt | egress/cursor.py:288-297 | the cell loop computes the row decoding |
| Dbapi.Connection.constructor | egress/connection.py:87-93 | a new connection has no cursors and autocommit off |
| Dbapi.Connection.CheckConnStatus | egress/connection.py:172-178 | a bad connection raises DatabaseError with its message; a closed one raises "No connection" |
| Dbapi.Connection.CheckCmdResult | egress/connection.py:180-193 | the result check with the table as written, clearing the result when it raises |
| Dbapi.Connection.Commit | egress/connection.py:121-134 | `commit` ends the transaction |
| Dbapi.Connection.Rollback | egress/connection.py:136-149 | `rollback` ends the transaction |
| Dbapi.Connection.EndWith | egress/connection.py:121-149 | the shared body sends COMMIT or ROLLBACK only inside a transaction |
| Dbapi.Connection.OpenCursor | egress/connection.py:151-161 | a fresh cursor is appended to the connection's cursors, with nothing held |
| Dbapi.Connection.CloseCursor | egress/connection.py:163-170 | the cursor is removed from the list, the connection's invariant (its own cursors, no repeats) is kept, and nothing else changes |
| Dbapi.Connection.Close | egress/connection.py:101-119 | every cursor is closed and detached; an open transaction is rolled back and, unless that fails, the handle is finished and dropped; a closed connection raises |
| Dbapi.Connection.CloseCursors | egress/connection.py:111-112 | the loop closes every cursor, freeing its result and detaching it |
| Dbapi.Cursor.constructor | egress/cursor.py:20-25 | a new cursor holds nothing and has arraysize 1 |
| Dbapi.Cursor.FreeResult | egress/cursor.py:27-30 | the held result is cleared and dropped, and nothing else changes |
| Dbapi.Cursor.Cleanup | egress/cursor.py:32-38 | the result is freed and rowcount and description are reset |
| Dbapi.Cursor.SetResult | egress/cursor.py:40-79 | the new state is Install of the reply, and the previous result is cleared |
| Dbapi.Cursor.Close | egress/cursor.py:151-162 | the cursor is cleaned up, removed from its connection (whose invariant it keeps) and detached |
| Dbapi.Cursor.Execute | egress/cursor.py:164-238 | the new query, server and view are those ExecuteSpec gives, with errors classified by the table as written |
| Dbapi.Cursor.Run | egress/cursor.py:219-238 | sending a marshalled statement changes state as Dispatch says |
| Dbapi.Cursor.ExecuteMany | egress/cursor.py:240-269 | the new state is ExecuteManySpec: one execute per parameter sequence, stopping at the first error |
| Dbapi.Cursor.Fetchone | egress/cursor.py:271-297 | the new view and the row are FetchOne's, so rows come back in order and then None |
| Dbapi.Cursor.Fetchmany | egress/cursor.py:299-327 | the new view and rows are FetchMany's, with arraysize as the default size |
| Dbapi.Cursor.Fetchall | egress/cursor.py:329-338 | the new view and rows are FetchAll's |
| DbapiLemmas.DispatchSends | egress/cursor.py:219-232 | on a live connection the statement is sent once; outside autocommit an idle server gets BEGIN first, and a failing BEGIN is all that is sent, with its error raised |
| DbapiLemmas.DispatchWithoutServer | egress/cursor.py:219-224 | a detached cursor or closed connection sends nothing, records the query and raises |
| DbapiLemmas.DispatchView | egress/cursor.py:234-238 | the view changes only by installing a successful reply; after a successful execute it is held, described and before row 0 |
| DbapiLemmas.StaysInTransaction | egress/cursor.py:221-223 | outside autocommit a successful statement leaves the connection in a transaction block |
| DbapiLemmas.ExecuteMarshalsFirst | egress/cursor.py:201-219 | a parameter `format_type` rejects changes nothing; otherwise the rewritten statement is what is recorded and dispatched |
| DbapiLemmas.DispatchRecordsQuery | egress/cursor.py:219 | every dispatched statement is recorded as the cursor's query |
| DbapiLemmas.MarshalFailsIff | egress/cursor.py:208-213 | marshalling fails iff some parameter is rejected by `format_type` |
| DbapiLemmas.MarshalFails | egress/cursor.py:208-213 | one rejected parameter makes marshalling fail |
| DbapiLemmas.MarshalSucceeds | egress/cursor.py:208-213 | parameters that all format marshal |
| DbapiLemmas.ExecuteThenFetchAll | egress/cursor.py:238 | after a successful query, `fetchall` returns all its rows decoded, in order |
| DbapiLemmas.EndTxnEnds | egress/connection.py:121-149 | commit and rollback leave an open connection idle, sending one command inside a transaction and none outside; closed, they raise |
| DbapiLemmas.EndTxnTwice | egress/connection.py:130-134 | a second commit or rollback sends nothing and succeeds |
| DbapiLemmas.ExecuteManyOne | egress/cursor.py:262-265 | `executemany` with one parameter sequence is `execute` with it |
| DbapiLemmas.ExecuteManyAppend | egress/cursor.py:262-265 | `executemany` over two batches is the first batch, then, unless it raised, the second |

## Left out

- Floating point: FloatType and DoubleType check only the cell width. The value is kept as its bytes, and formatting a float is not modelled.
- Text decoding and encoding: UTF-8 `decode` and `encode` keep text as bytes. A UTF-8 decode error is not modelled, and the encoding of the operation before it is sent is not modelled.
- The text of an unclaimed parameter type: `str(value)` is left symbolic.
- UUID, inet and JSON values are kept as their bytes. `uuid.UUID`, `ipaddress` and `json.loads` objects are not built; a JSON document that `json.loads` rejects is not modelled.
- A whole cell reaches `parse` as a `POINTER(c_char)`, whose slices do not stop at the end of the cell. The model reads a cell as its bytes, so a cell shorter than its class expects raises struct.error in the model where the program would read past the buffer. libpq never produces such a cell; array elements, which are bytes, behave as modelled.
- Temporal.TimestampTzParse: the `tzinfo` argument is not modelled. Datetimes are naive.
- Temporal.TimestampTzFormat: microseconds are computed exactly. The source computes `int(total_seconds() * 1000000)` in floating point and truncates, so an offset whose product rounds just below the integer is sent one microsecond short (249 µs after 2000-01-01 is sent as 248), and far from 2000 the float's precision loses tens of microseconds.
- Temporal.TimestampTzRoundTrip: the round trip is proved for the exact microsecond count. Through the source's float arithmetic a datetime can read back a microsecond or more earlier (2000-01-01 00:00:00.000249 reads back as .000248).
- Formats.DateTimeValRoundTrip: likewise proved for the exact microsecond count; the float path of `format` can make a datetime read back earlier.
- Formats.FormatParse: its datetime case rests on the exact microsecond count, as above; the other classes are unaffected.
- Codec.ParseValue: array nesting is bounded by a fuel parameter. It stands for Python's recursion limit.
- Codec.ArrayParse: only the element loop's steps are proved. There is no closed form of the whole array as read.
- Driver.Serve: libpq and the network are replaced by a scripted server. What a real server answers is not modelled.
- The script running out is answered with a fatal, broken-connection reply.
- Dbapi.Marshal: mapping (dict) parameters are not modelled. Parameters are a sequence.
- Dbapi.Marshal: with no parameters, the source passes None for the four arrays. The model passes empty ones.
- Connection keyword arguments, `pid`, `server_version`, `status` and `__del__` finalisers are not modelled. They only query libpq or the garbage collector.
- `callproc`, `nextset`, `setinputsizes` and `setoutputsize` are not modelled. They raise NotImplementedError.
- Cursor iteration (`__iter__` and `__next__`) is not modelled separately. It repeats `fetchone`.
- Dbapi.Cursor.ExecuteMany: the per-result hooks after each `execute` are not modelled. They never run, because `execute` returns None.
- Fetch.FetchAll: the statements after the `return` in `fetchall` are not modelled. They are unreachable.
- Fetch.RowCount: `int(cmdTuples)` is modelled for digit strings only. libpq produces nothing else.
- Concurrency and thread safety are not modelled. The driver has none.
- Fetch.DecodeCols: decodes each cell with the corrected `Fetch.DecodeCell`, as evidently intended. The program as written raises TypeError for every cell (see Findings).
- Fetch.FetchOne: a row is decoded as evidently intended, while the program as written raises TypeError for any row with a column.
- Fetch.FetchMany: likewise decodes as evidently intended.
- Fetch.FetchAll: likewise decodes as evidently intended.
- Fetch.FetchAllRows: the rows it returns are decoded as evidently intended; as written, `fetchall` of a result with a column raises TypeError.
- Fetch.FetchAllAfterInstall: likewise states the rows decoded as evidently intended.
- Fetch.FetchAllFresh: likewise states the rows decoded as evidently intended.
- Fetch.ManyThenAll: likewise over the evidently intended decoding.
- DbapiLemmas.ExecuteThenFetchAll: the rows `fetchall` returns are decoded as evidently intended; as written, the program raises TypeError on the first row with a column.
- Dbapi.DecodeRowAt: the cell loop decodes as evidently intended, while the program as written raises TypeError.
- Dbapi.Cursor.Fetchone: decodes as evidently intended, while the program as written raises TypeError.
- Dbapi.Cursor.Fetchmany: decodes as evidently intended, while the program as written raises TypeError.
- Dbapi.Cursor.Fetchall: decodes as evidently intended, while the program as written raises TypeError.

## Findings

| source | as written | input that shows it | evidently intended | confidence | as-written member | corrected member |
|---|---|---|---|---|---|---|
| egress/types.py:364-367 | the int8 microsecond count of a timestamp is compared with the int4 date infinities | the instant 2147483647 µs after 2000-01-01 (00:35:47.483647) reads as datetime.max, and the int8 timestamp 'infinity' raises OverflowError | compare with the int8 infinities, so every finite instant reads as itself | not executed | Temporal.TimestampParse, Temporal.TimestampSentinelMisread, Temporal.TimestampInfinityOverflows | Temporal.TimestampParseFixed, Temporal.TimestampFixedReadsEveryInstant |
| egress/types.py:476-487 | integer digits of a Decimal are grouped in fours from the left, so a short group lands at the units end | Decimal('12345.6') reads back as 12340005.6 | base-10000 groups aligned on the decimal point | not executed | Numeric.FormatSpec, Numeric.FormatMisplacesShortGroup | Numeric.FormatFixed, Numeric.FormatFixedRoundTrip |
| egress/types.py:471-480 | a pure fraction has no integer group, so weight is written as 0 and `parse` reads its first fraction group as the integer part | Decimal('0.05') reads back as 5000.00 | base-10000 groups aligned on the decimal point, with a negative weight | not executed | Numeric.FormatPureFraction, Numeric.PureFractionMisread, Formats.PureFractionNotReadBack | Numeric.FormatFixed, Numeric.FormatFixedRoundTrip |
| egress/types.py:468-487 | dscale is abs(exponent), so a positive exponent is written as that many fraction digits | Decimal('1E+5') reads back as 1.00000 | the integer 100000, with dscale 0 | not executed | Numeric.FormatPositiveExponent, Numeric.PositiveExponentMisread | Numeric.FormatFixed, Numeric.FormatFixedRoundTrip |
| egress/connection.py:73-74 | class XX is keyed as 'X', while the lookup uses the first two characters of the SQLSTATE | SQLSTATE XX000 raises DatabaseError | InternalError | not executed | Errors.ClassifyAsWritten, Errors.InternalClassMisread | Errors.Classify, Errors.InternalClass |
| egress/cursor.py:290-295 | `not val` tests the pointer PQgetvalue returns, which is non-null for every cell; `desc.type_code(val, vlen)` calls the type class itself, which takes no arguments | a text cell 'hi' raises TypeError, and so does a NULL int4 cell | a NULL cell reads as None, and any other cell as `type_code.parse(value, length, tzinfo)` | not executed | Fetch.DecodeCellAsWritten, Fetch.CellMisread | Fetch.DecodeCell, Fetch.NullRow |
