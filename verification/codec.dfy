/**
 * The parsing half of the codec: what `cls.parse(value, size, tzinfo)` does
 * for each class of egress/types.py, with ArrayType.parse reading a
 * one-dimensional array and handing each element to the parser of the
 * element OID.  The time zone argument is not modelled.  Because an element
 * can itself be an array, the parsers are mutually recursive; `depth` is the
 * number of nested calls Python's recursion limit still allows.
 */
module Codec {
  import opened Py
  import opened Wire
  import opened Types
  import opened Temporal
  import Numeric

  /** ArrayType and its subclasses, which all inherit ArrayType.parse. */
  predicate IsArray(c: TypeClass) {
    match c
    case ArrayType | Int2VectorType | NameArrayType | Int2ArrayType | Int4ArrayType | TextArray
      | VarcharArray | InetArray | UUIDArray | DateArray | TimeArray | TimestamptzArray
      | DecimalArray | JsonbArray | Int4RangeArray | Int8RangeArray => true
    case _ => false
  }

  /** `struct.unpack('?', value[:size])[0]`: one byte, true when non-zero. */
  function UnpackBool(value: seq<byte>, size: int): (r: Result<Value>)
    ensures r.Ok? <==> |Prefix(value, size)| == 1
  {
    var p := Prefix(value, size);
    if |p| == 1 then Ok(BoolVal(p[0] != 0)) else Err(StructError)
  }

  /** `struct.unpack(fmt, value[:size])[0]` for the signed integer formats of `width` bytes. */
  function UnpackInt(value: seq<byte>, size: int, width: nat): (r: Result<Value>)
    requires width >= 1
    ensures r.Ok? <==> |Prefix(value, size)| == width
    ensures r.Ok? ==> r == Ok(IntVal(DecodeSigned(Prefix(value, size))))
  {
    var i :- UnpackSigned(Prefix(value, size), width);
    Ok(IntVal(i))
  }

  /**
   * `struct.unpack('!f' or '!d', value[:size])[0]`: the float is left
   * uninterpreted, but the length check is kept.
   */
  function UnpackFloat(kind: PyType, value: seq<byte>, size: int, width: nat): (r: Result<Value>)
    ensures r.Ok? <==> |Prefix(value, size)| == width
  {
    var p := Prefix(value, size);
    if |p| == width then Ok(Foreign(kind, p)) else Err(StructError)
  }

  /** `BaseType.parse` with the empty format '': unpacking yields `()` and `[0]` fails. */
  function UnpackNothing(value: seq<byte>, size: int): (r: Result<Value>)
    ensures r.Err?
  {
    if Prefix(value, size) == [] then Err(IndexError) else Err(StructError)
  }

  /**
   * `JsonbType.parse` on an array element, which is a bytes slice:
   * `value[0] == b'\x01'` compares an int with a bytes object, which is
   * never equal, so the text after the version byte is always returned as
   * a string, and an empty element raises IndexError.
   */
  function JsonbParse(value: seq<byte>, size: int): (r: Result<Value>)
    ensures r.Ok? <==> value != []
    ensures r.Ok? ==> r.value.TextVal?
  {
    if value == [] then Err(IndexError) else Ok(TextVal(Slice(value, 1, size)))
  }

  /**
   * `JsonbType.parse` on a whole cell, which arrives as the `POINTER(c_char)`
   * that `PQgetvalue` returns: indexing it gives a one-byte bytes object, so
   * version byte 1 takes the `json.loads` branch (the object it builds is
   * kept as its JSON text), and an empty cell reads its terminating NUL and
   * gives the empty string.
   */
  function JsonbCellParse(value: seq<byte>, size: int): (r: Result<Value>)
    ensures r.Ok?
    ensures r.value.Foreign? <==> value != [] && value[0] == 1
    ensures r.value == (if value != [] && value[0] == 1 then Foreign(OtherT, Slice(value, 1, size))
                        else TextVal(Slice(value, 1, size)))
  {
    if value != [] && value[0] == 1 then Ok(Foreign(OtherT, Slice(value, 1, size)))
    else Ok(TextVal(Slice(value, 1, size)))
  }

  /**
   * The same jsonb bytes read differently as a cell and as an array
   * element: version 1 is decoded as JSON only in a cell, and an empty
   * value is the empty string in a cell but IndexError in an element.
   */
  lemma JsonbCellVersusElement()
    ensures JsonbCellParse([1, 49], 2) == Ok(Foreign(OtherT, [49]))
    ensures JsonbParse([1, 49], 2) == Ok(TextVal([49]))
    ensures JsonbCellParse([], 0) == Ok(TextVal([]))
    ensures JsonbParse([], 0) == Err(IndexError)
  {
    assert Slice([1, 49], 1, 2) == [49];
  }

  /** `uuid.UUID(bytes=value[:size])`, which insists on sixteen bytes. */
  function UuidParse(value: seq<byte>, size: int): (r: Result<Value>)
    ensures r.Ok? <==> |Prefix(value, size)| == 16
  {
    var p := Prefix(value, size);
    if |p| == 16 then Ok(Foreign(UuidT, p)) else Err(ValueError)
  }

  /**
   * `IPv4AddressType.parse`, shared by the other inet classes: a four-byte
   * header (family, prefix bits, is_cidr, address length `nb`), then the
   * address.  A prefix shorter than the address gives a network object,
   * which `IPv4Network` and `IPv6Network` build strictly, raising
   * ValueError when a host bit is set; a full prefix gives the address's
   * text (kept here as the `str` of its bytes), and an `nb` other than 4
   * or 16 gives None.  The `size` argument is not used.
   */
  function InetParse(value: seq<byte>): (r: Result<Value>)
    ensures r.Ok? <==> (|value| >= 4 &&
      (value[3] == 4 || value[3] == 16 ==>
        var addr := Slice(value, 4, 4 + value[3] as int);
        |addr| == value[3] as int && (value[1] < 8 * value[3] ==> HostBitsClear(addr, value[1]))))
    ensures r == Ok(NoneVal) <==> |value| >= 4 && value[3] != 4 && value[3] != 16
  {
    var hdr := Prefix(value, 4);
    if |hdr| != 4 then Err(StructError) else
    var bits, nb := hdr[1] as int, hdr[3] as int;
    var addr := Slice(value, 4, 4 + nb);
    if nb == 4 then
      if |addr| != 4 then Err(ValueError)
      else if bits < 32 then
        if HostBitsClear(addr, bits) then Ok(Foreign(IPv4NetworkT, addr)) else Err(ValueError)
      else Ok(Foreign(StrT, addr))
    else if nb == 16 then
      if |addr| != 16 then Err(ValueError)
      else if bits < 128 then
        if HostBitsClear(addr, bits) then Ok(Foreign(IPv6NetworkT, addr)) else Err(ValueError)
      else Ok(Foreign(StrT, addr))
    else Ok(NoneVal)
  }

  /** How many low bits of address byte `k` lie beyond a prefix of `bits` bits. */
  function HostBitsIn(k: nat, bits: int): (n: nat)
    ensures n <= 8
  {
    if bits >= 8 * (k + 1) then 0 else if bits <= 8 * k then 8 else 8 * (k + 1) - bits
  }

  /** No bit of the address beyond its prefix is set. */
  predicate HostBitsClear(addr: seq<byte>, bits: int) {
    forall k :: 0 <= k < |addr| ==> addr[k] % Pow2(HostBitsIn(k, bits)) == 0
  }

  /** The inet cell 10.0.0.1/8 has host bits set, so `IPv4Network` raises ValueError. */
  lemma InetHostBitsSet()
    ensures InetParse([2, 8, 0, 4, 10, 0, 0, 1]) == Err(ValueError)
  {
    var addr: seq<byte> := [10, 0, 0, 1];
    assert Slice([2, 8, 0, 4, 10, 0, 0, 1], 4, 8) == addr;
    assert HostBitsIn(3, 8) == 8 && Pow2(8) == 256;
    assert addr[3] % Pow2(HostBitsIn(3, 8)) != 0;
  }

  /** The inet cell 10.0.0.0/8 reads as a network, and 10.0.0.1/32 as an address. */
  lemma InetHostBitsClear()
    ensures InetParse([2, 8, 0, 4, 10, 0, 0, 0]) == Ok(Foreign(IPv4NetworkT, [10, 0, 0, 0]))
    ensures InetParse([2, 32, 0, 4, 10, 0, 0, 1]) == Ok(Foreign(StrT, [10, 0, 0, 1]))
  {
    var net: seq<byte> := [10, 0, 0, 0];
    assert Slice([2, 8, 0, 4, 10, 0, 0, 0], 4, 8) == net;
    assert Pow2(0) == 1 && Pow2(8) == 256;
    forall k | 0 <= k < 4 ensures net[k] % Pow2(HostBitsIn(k, 8)) == 0 {
      if k > 0 { assert net[k] == 0; }
    }
    assert Slice([2, 32, 0, 4, 10, 0, 0, 1], 4, 8) == [10, 0, 0, 1];
  }

  /** `NumericType.parse`, whose result is a `Decimal`. */
  function NumericParse(value: seq<byte>): (r: Result<Value>)
    ensures r.Ok? <==> Numeric.ParseSpec(value).Ok?
    ensures r.Ok? ==> r.value == DecimalVal(Numeric.ParseSpec(value).value)
  {
    var d :- Numeric.ParseSpec(value);
    Ok(DecimalVal(d))
  }

  /**
   * `cls.parse(value, size, tzinfo)` for every class, its own or the one
   * it inherits:
   *  - BaseType and NoneType run `BaseType.parse` with the empty format;
   *    bool, the integers (int8, int2, int4 and oid) and the floats (float4
   *    and float8, both giving a float) run it with their `fmt`;
   *  - bytea, char, text, unknown, bpchar and varchar keep the first `size`
   *    bytes, name reads None for an empty value;
   *  - the five inet classes inherit IPv4AddressType's parser;
   *  - date, time, timestamp, interval, timestamptz, uuid and jsonb have
   *    their own; timetz inherits TimeOfDayType's;
   *  - numeric reads through `Numeric.ParseSpec`;
   *  - every array class inherits ArrayType.parse.
   */
  function ParseValue(c: TypeClass, value: seq<byte>, size: int, depth: nat): (r: Result<Value>)
    ensures c == NumericType ==> r == NumericParse(value)
    decreases depth, 1, 0, 0
  {
    match c
    case BaseType => UnpackNothing(value, size)
    case NoneType => UnpackNothing(value, size)
    case BoolType => UnpackBool(value, size)
    case BinaryType => Ok(BytesVal(Prefix(value, size)))
    case CharType => Ok(TextVal(Prefix(value, size)))
    case NameDataType => if size == 0 then Ok(NoneVal) else Ok(TextVal(Prefix(value, size)))
    case LongType => UnpackInt(value, size, 8)
    case ShortIntType => UnpackInt(value, size, 2)
    case IntType => UnpackInt(value, size, 4)
    case StringType => Ok(TextVal(Prefix(value, size)))
    case OidType => UnpackInt(value, size, 4)
    case IPv4AddressType => InetParse(value)
    case IPv4NetworkType => InetParse(value)
    case IPv6AddressType => InetParse(value)
    case IPv6NetworkType => InetParse(value)
    case IPAddressType => InetParse(value)
    case FloatType => UnpackFloat(FloatT, value, size, 4)
    case DoubleType => UnpackFloat(FloatT, value, size, 8)
    case UnknownType => Ok(TextVal(Prefix(value, size)))
    case BlankPaddedString => Ok(TextVal(Prefix(value, size)))
    case VarCharType => Ok(TextVal(Prefix(value, size)))
    case DateType => DateParse(value, size)
    case TimeOfDayType => TimeParse(value, size)
    case TimestampType => TimestampParse(value, size)
    case IntervalType => IntervalParse(value, size)
    case TimestampTzType => TimestampTzParse(value, size)
    case TimeTzType => TimeParse(value, size)
    case NumericType => NumericParse(value)
    case UUIDType => UuidParse(value, size)
    case JsonbType => JsonbParse(value, size)
    case _ => ArraySpec(value, depth)
  }

  /** `[None] * n`. */
  function Nones(n: int): (s: seq<Value>)
    ensures |s| == if n > 0 then n else 0
    ensures forall k :: 0 <= k < |s| ==> s[k] == NoneVal
    decreases n
  {
    if n <= 0 then [] else Nones(n - 1) + [NoneVal]
  }

  /** The `ndim` (count, lower bound) pairs that follow the array header at `offs`. */
  function ReadDims(value: seq<byte>, offs: int, n: int): (r: Result<seq<(int, int)>>)
    ensures r.Ok? ==> |r.value| == if n > 0 then n else 0
    decreases if n > 0 then n else 0
  {
    if n <= 0 then Ok([]) else
    var pair := Slice(value, offs, offs + 8);
    if |pair| != 8 then Err(StructError) else
    var rest :- ReadDims(value, offs + 8, n - 1);
    Ok([(DecodeSigned(pair[..4]), DecodeSigned(pair[4..]))] + rest)
  }

  /**
   * `ArrayType.parse`: the header `!iii` (ndim, flags, element OID), the
   * dimension pairs, the check that ndim is 1, then the elements, starting
   * from `dim` None slots.
   */
  function ArraySpec(value: seq<byte>, depth: nat): (r: Result<Value>)
    ensures r.Ok? ==> depth >= 1 && |value| >= 20 && DecodeSigned(value[..4]) == 1
    ensures r.Ok? ==> InferParser(DecodeSigned(value[8..12])).Ok?
    ensures r.Ok? ==> r.value.ListVal?
    decreases depth, 0, 0, 0
  {
    if depth == 0 then Err(RecursionError) else
    if |value| < 12 then Err(StructError) else
    var ndim, elementType := DecodeSigned(value[..4]), DecodeSigned(value[8..12]);
    var dims :- ReadDims(value, 12, ndim);
    if ndim != 1 then Err(AssertionError) else
    var cast :- InferParser(elementType);
    var dim, lb := dims[0].0, dims[0].1;
    assert |Slice(value, 12, 20)| == 8;
    Elements(value, 20, lb, lb + dim - 1, cast, Nones(dim), depth - 1)
  }

  /**
   * The element loop `for x in range(lb, ub+1)` from position `x` on, with
   * the list `val` built so far: a length of -1 or 0 appends a None, any
   * other length is parsed by `cast` and stored at `val[x-1]`.
   */
  function Elements(value: seq<byte>, offs: int, x: int, ub: int, cast: TypeClass, val: seq<Value>, depth: nat)
    : (r: Result<Value>)
    ensures r.Ok? ==> r.value.ListVal?
    decreases depth, 2, if x <= ub then ub - x + 1 else 0, 1
  {
    if x > ub then Ok(ListVal(val)) else
    var head := Slice(value, offs, offs + 4);
    if |head| != 4 then Err(StructError) else
    var n := DecodeSigned(head);
    if n == -1 || n == 0 then Elements(value, offs + 4, x + 1, ub, cast, val + [NoneVal], depth)
    else StoreElement(value, offs + 4, n, x, ub, cast, val, depth)
  }

  /** One non-NULL element: the `n` bytes at `offs`, parsed by `cast` and stored at `val[x-1]`. */
  function StoreElement(value: seq<byte>, offs: int, n: int, x: int, ub: int, cast: TypeClass, val: seq<Value>,
                        depth: nat): (r: Result<Value>)
    requires x <= ub
    ensures r.Ok? ==> r.value.ListVal?
    decreases depth, 2, ub - x + 1, 0
  {
    var item :- ElementParse(cast, Slice(value, offs, offs + n), n, depth);
    var val' :- ListAssign(val, x - 1, item);
    Elements(value, offs + n, x + 1, ub, cast, val', depth)
  }

  /**
   * The call `cast.parse(value[offs:offs+el_size], el_size, tzinfo)` in the
   * element loop.  It is `ParseValue`; keeping it a separate step of the
   * recursion lets proofs about the loop leave the class dispatch folded.
   */
  function ElementParse(cast: TypeClass, value: seq<byte>, size: int, depth: nat): (r: Result<Value>)
    decreases depth, 1, 1, 0
  {
    ParseValue(cast, value, size, depth)
  }

  /**
   * `cls.parse(value, size, tzinfo)` as the driver runs it: NumericType and
   * ArrayType parse by their loops, every other class by its expression.
   */
  method Parse(c: TypeClass, value: seq<byte>, size: int, depth: nat) returns (r: Result<Value>)
    ensures r == ParseValue(c, value, size, depth)
    decreases depth, 1, 0
  {
    if c == NumericType {
      var d := Numeric.Parse(value);
      r := if d.Ok? then Ok(DecimalVal(d.value)) else Err(d.error);
    } else if IsArray(c) {
      r := ArrayParse(value, depth);
    } else {
      r := ParseValue(c, value, size, depth);
    }
  }

  /** The dimension pairs read so far, then those `r` still reads. */
  function Prepend(prefix: seq<(int, int)>, r: Result<seq<(int, int)>>): Result<seq<(int, int)>> {
    if r.Ok? then Ok(prefix + r.value) else r
  }

  lemma ReadDimsStep(value: seq<byte>, offs: int, n: int, prefix: seq<(int, int)>)
    requires n > 0 && |Slice(value, offs, offs + 8)| == 8
    ensures var pair := Slice(value, offs, offs + 8);
            Prepend(prefix, ReadDims(value, offs, n))
            == Prepend(prefix + [(DecodeSigned(pair[..4]), DecodeSigned(pair[4..]))], ReadDims(value, offs + 8, n - 1))
  {
    var pair := Slice(value, offs, offs + 8);
    var p := (DecodeSigned(pair[..4]), DecodeSigned(pair[4..]));
    var rest := ReadDims(value, offs + 8, n - 1);
    if rest.Ok? {
      assert prefix + ([p] + rest.value) == (prefix + [p]) + rest.value;
    }
  }

  /** The `for dim in range(ndim)` loop of `ArrayType.parse`, reading from offset 12. */
  method ReadDimInfo(value: seq<byte>, ndim: int) returns (r: Result<seq<(int, int)>>)
    ensures r == ReadDims(value, 12, ndim)
  {
    var dimInfo: seq<(int, int)> := [];
    var offs, d := 12, 0;
    var all := ReadDims(value, 12, ndim);
    if all.Ok? {
      assert [] + all.value == all.value;
    }
    while d < ndim
      invariant 0 <= d && (ndim >= 0 ==> d <= ndim)
      invariant offs == 12 + 8 * d
      invariant ReadDims(value, 12, ndim) == Prepend(dimInfo, ReadDims(value, offs, ndim - d))
    {
      var pair := Slice(value, offs, offs + 8);
      if |pair| != 8 {
        return Err(StructError);
      }
      ReadDimsStep(value, offs, ndim - d, dimInfo);
      dimInfo := dimInfo + [(DecodeSigned(pair[..4]), DecodeSigned(pair[4..]))];
      offs, d := offs + 8, d + 1;
    }
    assert dimInfo + [] == dimInfo;
    return Ok(dimInfo);
  }

  /** The element parse of the array loop. */
  method ParseElement(cast: TypeClass, value: seq<byte>, size: int, depth: nat) returns (r: Result<Value>)
    ensures r == ElementParse(cast, value, size, depth)
    decreases depth, 1, 1
  {
    r := Parse(cast, value, size, depth);
  }

  /** `ArrayType.parse`, loop by loop. */
  method ArrayParse(value: seq<byte>, depth: nat) returns (r: Result<Value>)
    ensures r == ArraySpec(value, depth)
    decreases depth, 0, 0
  {
    if depth == 0 {
      return Err(RecursionError);
    }
    if |value| < 12 {
      return Err(StructError);
    }
    var ndim, elementType := DecodeSigned(value[..4]), DecodeSigned(value[8..12]);
    var dims := ReadDimInfo(value, ndim);
    if dims.Err? {
      return Err(dims.error);
    }
    if ndim != 1 {
      return Err(AssertionError);
    }
    var cast := InferParser(elementType);
    if cast.Err? {
      return Err(cast.error);
    }
    var dim, lb := dims.value[0].0, dims.value[0].1;
    r := ReadElements(value, 20, lb, lb + dim - 1, cast.value, Nones(dim), depth - 1);
  }

  /** The `for x in range(lb, ub+1)` loop of `ArrayType.parse`. */
  method ReadElements(value: seq<byte>, offs: int, lb: int, ub: int, cast: TypeClass, val: seq<Value>, depth: nat)
    returns (r: Result<Value>)
    ensures r == Elements(value, offs, lb, ub, cast, val, depth)
    decreases depth, 2, if lb <= ub then ub - lb + 1 else 0, 2
  {
    var offs, x, val := offs, lb, val;
    ghost var target := Elements(value, offs, x, ub, cast, val, depth);
    while x <= ub
      invariant lb <= x && Elements(value, offs, x, ub, cast, val, depth) == target
      decreases ub - x + 1
    {
      var next := ReadCell(value, offs, x, ub, cast, val, depth);
      if next.Err? {
        return Err(next.error);
      }
      offs, val, x := next.value.0, next.value.1, x + 1;
    }
    r := Ok(ListVal(val));
  }

  /**
   * One turn of that loop: the length at `offs`, then for NULL or empty an
   * appended None, otherwise the parsed bytes stored at `val[x-1]`.
   * Returns where the next cell starts and the list after this turn.
   */
  method ReadCell(value: seq<byte>, offs: int, x: int, ub: int, cast: TypeClass, val: seq<Value>, depth: nat)
    returns (r: Result<(int, seq<Value>)>)
    requires x <= ub
    ensures r.Ok? ==> Elements(value, offs, x, ub, cast, val, depth)
                      == Elements(value, r.value.0, x + 1, ub, cast, r.value.1, depth)
    ensures r.Err? ==> Elements(value, offs, x, ub, cast, val, depth) == Err(r.error)
    decreases depth, 2, ub - x + 1, 1
  {
    var head := Slice(value, offs, offs + 4);
    if |head| != 4 {
      ShortHeader(value, offs, x, ub, cast, val, depth);
      return Err(StructError);
    }
    var n := DecodeSigned(head);
    if n == -1 || n == 0 {
      NullStep(value, offs, x, ub, cast, val, depth, n);
      return Ok((offs + 4, val + [NoneVal]));
    }
    r := StoreCell(value, offs, x, ub, cast, val, depth, n);
  }

  /** A cell of length `n` other than -1 and 0: its bytes parsed by `cast` and stored at `val[x-1]`. */
  method StoreCell(value: seq<byte>, offs: int, x: int, ub: int, cast: TypeClass, val: seq<Value>, depth: nat, n: int)
    returns (r: Result<(int, seq<Value>)>)
    requires x <= ub && HeaderAt(value, offs, n) && n != -1 && n != 0
    ensures r.Ok? ==> Elements(value, offs, x, ub, cast, val, depth)
                      == Elements(value, r.value.0, x + 1, ub, cast, r.value.1, depth)
    ensures r.Err? ==> Elements(value, offs, x, ub, cast, val, depth) == Err(r.error)
    decreases depth, 2, ub - x + 1, 0
  {
    var item := ParseElement(cast, Slice(value, offs + 4, offs + 4 + n), n, depth);
    StoreResult(value, offs, x, ub, cast, val, depth, n, item);
    r := Stored(item, val, x, offs + 4 + n);
  }

  /**
   * What one turn over a non-empty cell hands back, given the element's
   * parse `item`: its error, the error of storing it at `val[x-1]`, or where
   * the next cell starts with the list after the store.
   */
  function Stored(item: Result<Value>, val: seq<Value>, x: int, next: int): (r: Result<(int, seq<Value>)>)
    ensures r.Ok? ==> item.Ok? && ListAssign(val, x - 1, item.value) == Ok(r.value.1) && r.value.0 == next
    ensures item.Err? ==> r == Err(item.error)
  {
    if item.Err? then Err(item.error) else
    var stored := ListAssign(val, x - 1, item.value);
    if stored.Err? then Err(stored.error) else Ok((next, stored.value))
  }

  /** The four bytes at `offs` are there and read as the signed length `n`. */
  predicate HeaderAt(value: seq<byte>, offs: int, n: int) {
    |Slice(value, offs, offs + 4)| == 4 && DecodeSigned(Slice(value, offs, offs + 4)) == n
  }

  /** Storing a read element into the first of the None slots. */
  lemma FillSlot(prefix: seq<Value>, item: Value, m: nat)
    requires m >= 1
    ensures ListAssign(prefix + Nones(m), |prefix|, item) == Ok(prefix + [item] + Nones(m - 1))
  {
    var a := ListAssign(prefix + Nones(m), |prefix|, item);
    assert a.Ok?;
    assert a.value == prefix + [item] + Nones(m - 1);
  }

  /** A length header cut short by the end of the value raises struct.error. */
  lemma ShortHeader(value: seq<byte>, offs: int, x: int, ub: int, cast: TypeClass, val: seq<Value>, depth: nat)
    requires x <= ub && |Slice(value, offs, offs + 4)| != 4
    ensures Elements(value, offs, x, ub, cast, val, depth) == Err(StructError)
  {
  }

  /**
   * One turn of the element loop over a cell of length -1 (NULL) or 0: the
   * slot stays None, one more None is appended, and the next cell starts
   * right after the length.
   */
  lemma NullStep(value: seq<byte>, offs: int, x: int, ub: int, cast: TypeClass, val: seq<Value>, depth: nat, n: int)
    requires x <= ub && HeaderAt(value, offs, n) && (n == -1 || n == 0)
    ensures Elements(value, offs, x, ub, cast, val, depth)
            == Elements(value, offs + 4, x + 1, ub, cast, val + [NoneVal], depth)
  {
  }

  /** One turn of the element loop over a cell of any other length `n`: its bytes are parsed and stored. */
  lemma StoreStep(value: seq<byte>, offs: int, x: int, ub: int, cast: TypeClass, val: seq<Value>, depth: nat, n: int)
    requires x <= ub && HeaderAt(value, offs, n) && n != -1 && n != 0
    ensures Elements(value, offs, x, ub, cast, val, depth) == StoreElement(value, offs + 4, n, x, ub, cast, val, depth)
  {
  }

  /**
   * The outcome of that turn, given the element's parse `item`: `Stored`
   * of it is what the loop goes on with.
   */
  lemma StoreResult(value: seq<byte>, offs: int, x: int, ub: int, cast: TypeClass, val: seq<Value>, depth: nat, n: int,
                    item: Result<Value>)
    requires x <= ub && HeaderAt(value, offs, n) && n != -1 && n != 0
    requires item == ElementParse(cast, Slice(value, offs + 4, offs + 4 + n), n, depth)
    ensures Stored(item, val, x, offs + 4 + n).Ok? ==>
      Elements(value, offs, x, ub, cast, val, depth)
      == Elements(value, Stored(item, val, x, offs + 4 + n).value.0, x + 1, ub, cast, Stored(item, val, x, offs + 4 + n).value.1, depth)
    ensures Stored(item, val, x, offs + 4 + n).Err? ==>
      Elements(value, offs, x, ub, cast, val, depth) == Err(Stored(item, val, x, offs + 4 + n).error)
  {
    StoreStep(value, offs, x, ub, cast, val, depth, n);
  }

  /**
   * One turn of the element loop over a cell of `n` bytes that parses as
   * `item`, while None slots remain: the item takes the first of them
   * (slot x-1) and the next cell starts 4 + n bytes further on.
   */
  lemma ItemStep(value: seq<byte>, offs: int, x: int, ub: int, cast: TypeClass, prefix: seq<Value>, m: nat, depth: nat,
                 n: int, item: Value)
    requires x <= ub && n >= 1 && HeaderAt(value, offs, n)
    requires ElementParse(cast, Slice(value, offs + 4, offs + 4 + n), n, depth) == Ok(item)
    requires x - 1 == |prefix| && m >= 1
    ensures Elements(value, offs, x, ub, cast, prefix + Nones(m), depth)
            == Elements(value, offs + 4 + n, x + 1, ub, cast, prefix + [item] + Nones(m - 1), depth)
  {
    FillSlot(prefix, item, m);
    assert Elements(value, offs, x, ub, cast, prefix + Nones(m), depth)
        == StoreElement(value, offs + 4, n, x, ub, cast, prefix + Nones(m), depth);
  }

  /** The array header: ndim, flags and element OID, then one (count, lower bound) pair. */
  function ArrayHeader(flags: int, elementType: int, dim: int, lb: int): (h: seq<byte>)
    requires InSigned(flags, 4) && InSigned(elementType, 4) && InSigned(dim, 4) && InSigned(lb, 4)
    ensures |h| == 20
  {
    EncodeSigned(1, 4) + EncodeSigned(flags, 4) + EncodeSigned(elementType, 4) + EncodeSigned(dim, 4) + EncodeSigned(lb, 4)
  }

  /** What the header of a one-dimensional array reads as. */
  lemma HeaderReads(flags: int, elementType: int, dim: int, lb: int, rest: seq<byte>)
    requires InSigned(flags, 4) && InSigned(elementType, 4) && InSigned(dim, 4) && InSigned(lb, 4)
    ensures var value := ArrayHeader(flags, elementType, dim, lb) + rest;
            DecodeSigned(value[..4]) == 1 && DecodeSigned(value[8..12]) == elementType
            && ReadDims(value, 12, 1) == Ok([(dim, lb)])
  {
    var value := ArrayHeader(flags, elementType, dim, lb) + rest;
    var hdr := EncodeSigned(1, 4) + EncodeSigned(flags, 4) + EncodeSigned(elementType, 4);
    var pair := EncodeSigned(dim, 4) + EncodeSigned(lb, 4);
    assert value == hdr + pair + rest;
    assert value[..4] == EncodeSigned(1, 4) && value[8..12] == EncodeSigned(elementType, 4);
    assert value[12..20] == pair;
    assert pair[..4] == EncodeSigned(dim, 4) && pair[4..] == EncodeSigned(lb, 4);
    OneDim(value, 12, pair);
  }

  /** One (count, lower bound) pair read from eight bytes at `offs`. */
  lemma OneDim(value: seq<byte>, offs: nat, pair: seq<byte>)
    requires offs + 8 <= |value| && value[offs..offs + 8] == pair
    ensures ReadDims(value, offs, 1) == Ok([(DecodeSigned(pair[..4]), DecodeSigned(pair[4..]))])
  {
    assert Slice(value, offs, offs + 8) == pair;
    assert ReadDims(value, offs + 8, 0) == Ok([]);
    var d := (DecodeSigned(pair[..4]), DecodeSigned(pair[4..]));
    assert [d] + [] == [d];
  }

  /**
   * A one-dimensional array whose element OID is known: the element loop
   * runs from the lower bound over `dim` positions, starting from `dim`
   * None slots, one recursion level down.
   */
  lemma ArrayStart(flags: int, elementType: int, dim: int, lb: int, rest: seq<byte>, cast: TypeClass, depth: nat)
    requires InSigned(flags, 4) && InSigned(elementType, 4) && InSigned(dim, 4) && InSigned(lb, 4)
    requires InferParser(elementType) == Ok(cast) && depth >= 1
    ensures var value := ArrayHeader(flags, elementType, dim, lb) + rest;
            ArraySpec(value, depth) == Elements(value, 20, lb, lb + dim - 1, cast, Nones(dim), depth - 1)
  {
    HeaderReads(flags, elementType, dim, lb, rest);
  }

  /** An element OID with no registered class fails the parse with KeyError. */
  lemma ArrayUnknownElement(flags: int, elementType: int, dim: int, lb: int, rest: seq<byte>, depth: nat)
    requires InSigned(flags, 4) && InSigned(elementType, 4) && InSigned(dim, 4) && InSigned(lb, 4)
    requires ClassForOid(elementType) == None && depth >= 1
    ensures ArraySpec(ArrayHeader(flags, elementType, dim, lb) + rest, depth) == Err(KeyError)
  {
    HeaderReads(flags, elementType, dim, lb, rest);
    InferParserSpec(elementType, BaseType);
  }

  /** An array of zero or fewer dimensions is rejected by the `ndim == 1` assertion. */
  lemma ArrayNoDims(ndim: int, flags: int, elementType: int, rest: seq<byte>, depth: nat)
    requires ndim <= 0 && InSigned(ndim, 4) && InSigned(flags, 4) && InSigned(elementType, 4) && depth >= 1
    ensures ArraySpec(EncodeSigned(ndim, 4) + EncodeSigned(flags, 4) + EncodeSigned(elementType, 4) + rest, depth)
            == Err(AssertionError)
  {
    var value := EncodeSigned(ndim, 4) + EncodeSigned(flags, 4) + EncodeSigned(elementType, 4) + rest;
    assert value[..4] == EncodeSigned(ndim, 4);
  }

  /**
   * A one-element array whose cell is NULL reads as two Nones: the NULL
   * keeps its slot and appends one more.
   */
  lemma OneNullArray(flags: int, elementType: int, cast: TypeClass, depth: nat)
    requires InSigned(flags, 4) && InSigned(elementType, 4)
    requires InferParser(elementType) == Ok(cast) && depth >= 1
    ensures ArraySpec(ArrayHeader(flags, elementType, 1, 1) + EncodeSigned(-1, 4), depth) == Ok(ListVal([NoneVal, NoneVal]))
  {
    var value := ArrayHeader(flags, elementType, 1, 1) + EncodeSigned(-1, 4);
    ArrayStart(flags, elementType, 1, 1, EncodeSigned(-1, 4), cast, depth);
    assert value[20..24] == EncodeSigned(-1, 4);
    NullStep(value, 20, 1, 1, cast, Nones(1), depth - 1, -1);
    assert Nones(1) + [NoneVal] == [NoneVal, NoneVal];
  }
}
