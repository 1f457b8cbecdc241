/**
 * The codec's type registry: every class declared in egress/types.py, the
 * `oid` and `klass` attributes each one has (inherited ones included), the
 * Python values the codec produces and consumes, and the two dictionaries
 * that the metaclass fills as the classes are created.
 */
module Types {
  import opened Py
  import opened Wire

  /** The exact runtime type of a Python value, as `type(value)` sees it. */
  datatype PyType =
    | NoneT | BoolT | IntT | BytesT | StrT | FloatT
    | DateT | TimeT | DateTimeT | TimedeltaT | DecimalT | UuidT
    | IPv4AddressT | IPv4NetworkT | IPv6AddressT | IPv6NetworkT
    | ListT
    | OtherT      // any type the driver has no class for (dict, tuple, ...)

  /** A decimal digit, as in `Decimal.as_tuple().digits`. */
  type digit = x: int | 0 <= x < 10

  /** `decimal.Decimal`, as `Decimal.as_tuple()` shows it. */
  datatype Decimal =
    | Finite(negative: bool, digits: seq<digit>, exponent: int)
    | NaN
    | Infinity(negative: bool)

  /**
   * A Python value.  A `str` is kept as its UTF-8 encoding; dates and
   * datetimes as offsets from 2000-01-01; a value of a library type the
   * model does not interpret (float, UUID, IP address, parsed JSON) as the
   * bytes it was built from or encodes to.
   */
  datatype Value =
    | NoneVal
    | BoolVal(b: bool)
    | IntVal(i: int)
    | BytesVal(bytes: seq<byte>)
    | TextVal(utf8: seq<byte>)
    | DateVal(day: int)
    | TimeVal(hour: int, minute: int, second: int, micro: int)
    | DateTimeVal(micros: int)
    | TimedeltaVal(days: int, seconds: int, micros: int)
    | DecimalVal(dec: Decimal)
    | ListVal(items: seq<Value>)
    | Foreign(kind: PyType, raw: seq<byte>)

  function TypeOf(v: Value): PyType {
    match v
    case NoneVal => NoneT
    case BoolVal(_) => BoolT
    case IntVal(_) => IntT
    case BytesVal(_) => BytesT
    case TextVal(_) => StrT
    case DateVal(_) => DateT
    case TimeVal(_, _, _, _) => TimeT
    case DateTimeVal(_) => DateTimeT
    case TimedeltaVal(_, _, _) => TimedeltaT
    case DecimalVal(_) => DecimalT
    case ListVal(_) => ListT
    case Foreign(k, _) => k
  }

  /** A parameter value handed to libpq. */
  datatype Payload =
    | Packed(bytes: seq<byte>)   // binary bytes from struct.pack or the value itself
    | TextOf(v: Value)           // `str(v).encode('utf-8')`, left symbolic
    | NullPtr                    // Python None passed as the value pointer
    | PackedFloat(f: Value)      // `struct.pack('!d', f)` of a float, left symbolic

  /** What a class's `format` returns: `(oid, value, size)`. */
  datatype Formatted = Formatted(oid: int, payload: Payload, size: int)

  /** The classes of egress/types.py. */
  datatype TypeClass =
    | BaseType | ArrayType | NoneType | BoolType | BinaryType | CharType
    | NameDataType | LongType | ShortIntType | Int2VectorType | IntType
    | StringType | OidType | IPv4AddressType | IPv4NetworkType
    | IPv6AddressType | IPv6NetworkType | FloatType | DoubleType
    | UnknownType | IPAddressType | NameArrayType | Int2ArrayType
    | Int4ArrayType | TextArray | VarcharArray | InetArray | UUIDArray
    | DateArray | TimeArray | TimestamptzArray | DecimalArray | JsonbArray
    | Int4RangeArray | Int8RangeArray | BlankPaddedString | VarCharType
    | DateType | TimeOfDayType | TimestampType | IntervalType
    | TimestampTzType | TimeTzType | NumericType | UUIDType | JsonbType

  /** The classes in the order the module creates them. */
  const Declared: seq<TypeClass> := Declared0 + Declared1 + Declared2 + Declared3 + Declared4 + Declared5

  const Declared0: seq<TypeClass> := [BaseType, ArrayType, NoneType, BoolType, BinaryType, CharType, NameDataType, LongType]
  const Declared1: seq<TypeClass> := [ShortIntType, Int2VectorType, IntType, StringType, OidType, IPv4AddressType, IPv4NetworkType, IPv6AddressType]
  const Declared2: seq<TypeClass> := [IPv6NetworkType, FloatType, DoubleType, UnknownType, IPAddressType, NameArrayType, Int2ArrayType, Int4ArrayType]
  const Declared3: seq<TypeClass> := [TextArray, VarcharArray, InetArray, UUIDArray, DateArray, TimeArray, TimestamptzArray, DecimalArray]
  const Declared4: seq<TypeClass> := [JsonbArray, Int4RangeArray, Int8RangeArray, BlankPaddedString, VarCharType, DateType, TimeOfDayType, TimestampType]
  const Declared5: seq<TypeClass> := [IntervalType, TimestampTzType, TimeTzType, NumericType, UUIDType, JsonbType]

  /** The class attribute `oid`, inherited where a class does not set it. */
  function Oid(c: TypeClass): Option<int> {
    match c
    case BaseType => None
    case ArrayType => None
    case NoneType => None
    case BoolType => Some(16)
    case BinaryType => Some(17)
    case CharType => Some(18)
    case NameDataType => Some(19)
    case LongType => Some(20)
    case ShortIntType => Some(21)
    case Int2VectorType => Some(22)
    case IntType => Some(23)
    case StringType => Some(25)
    case OidType => Some(26)
    case IPv4AddressType => Some(650)
    case IPv4NetworkType => None
    case IPv6AddressType => None
    case IPv6NetworkType => None
    case FloatType => Some(700)
    case DoubleType => Some(701)
    case UnknownType => Some(705)
    case IPAddressType => Some(869)
    case NameArrayType => Some(1003)
    case Int2ArrayType => Some(1005)
    case Int4ArrayType => Some(1007)
    case TextArray => Some(1009)
    case VarcharArray => Some(1015)
    case InetArray => Some(1041)
    case UUIDArray => Some(2951)
    case DateArray => Some(1182)
    case TimeArray => Some(1183)
    case TimestamptzArray => Some(1185)
    case DecimalArray => Some(1231)
    case JsonbArray => Some(3807)
    case Int4RangeArray => Some(3905)
    case Int8RangeArray => Some(3927)
    case BlankPaddedString => Some(1042)
    case VarCharType => Some(1043)
    case DateType => Some(1082)
    case TimeOfDayType => Some(1083)
    case TimestampType => Some(1114)
    case IntervalType => Some(1186)
    case TimestampTzType => Some(1184)
    case TimeTzType => Some(1266)
    case NumericType => Some(1700)
    case UUIDType => Some(2950)
    case JsonbType => Some(3802)
  }

  /** The class attribute `klass`; IPAddressType inherits IPv4Address from IPv4AddressType. */
  function Klass(c: TypeClass): Option<PyType> {
    match c
    case NoneType => Some(NoneT)
    case BoolType => Some(BoolT)
    case BinaryType => Some(BytesT)
    case LongType => Some(IntT)
    case IPv4AddressType => Some(IPv4AddressT)
    case IPv4NetworkType => Some(IPv4NetworkT)
    case IPv6AddressType => Some(IPv6AddressT)
    case IPv6NetworkType => Some(IPv6NetworkT)
    case DoubleType => Some(FloatT)
    case IPAddressType => Some(IPv4AddressT)
    case DateType => Some(DateT)
    case TimeOfDayType => Some(TimeT)
    case IntervalType => Some(TimedeltaT)
    case TimestampTzType => Some(DateTimeT)
    case NumericType => Some(DecimalT)
    case UUIDType => Some(UuidT)
    case _ => None
  }

  /** One metaclass step for the `_oid` dictionary. */
  function RegisterOid(m: map<int, TypeClass>, c: TypeClass): map<int, TypeClass> {
    if Oid(c).Some? then m[Oid(c).value := c] else m
  }

  /** One metaclass step for the `_type` dictionary. */
  function RegisterKlass(m: map<PyType, TypeClass>, c: TypeClass): map<PyType, TypeClass> {
    if Klass(c).Some? then m[Klass(c).value := c] else m
  }

  /** `BaseType._oid` after the classes `cs` have been created, in order. */
  function OidTable(cs: seq<TypeClass>): map<int, TypeClass> {
    if cs == [] then map[] else RegisterOid(OidTable(cs[..|cs| - 1]), cs[|cs| - 1])
  }

  /** `BaseType._type` after the classes `cs` have been created, in order. */
  function TypeTable(cs: seq<TypeClass>): map<PyType, TypeClass> {
    if cs == [] then map[] else RegisterKlass(TypeTable(cs[..|cs| - 1]), cs[|cs| - 1])
  }

  /**
   * The registry dictionaries, filled by `BaseTypeMeta.__new__` each time a
   * class is created.
   */
  class TypeRegistry {
    var oids: map<int, TypeClass>
    var types: map<PyType, TypeClass>

    /** Importing the module: every class is created, in declaration order. */
    constructor ()
      ensures oids == OidTable(Declared) && types == TypeTable(Declared)
    {
      oids, types := map[], map[];
      new;
      var i := 0;
      while i < |Declared|
        invariant 0 <= i <= |Declared|
        modifies this
        invariant oids == OidTable(Declared[..i]) && types == TypeTable(Declared[..i])
      {
        assert Declared[..i + 1][..i] == Declared[..i];
        Register(Declared[i]);
        i := i + 1;
      }
      assert Declared[..|Declared|] == Declared;
    }

    /** The metaclass's work for one new class. */
    method Register(c: TypeClass)
      modifies this
      ensures oids == RegisterOid(old(oids), c)
      ensures types == RegisterKlass(old(types), c)
      ensures Oid(c).Some? ==> oids[Oid(c).value] == c
      ensures Klass(c).Some? ==> types[Klass(c).value] == c
      ensures forall k :: k in old(oids) && Some(k) != Oid(c) ==> k in oids && oids[k] == old(oids)[k]
    {
      var oid, klass := Oid(c), Klass(c);
      if oid.Some? {
        oids := oids[oid.value := c];
      }
      if klass.Some? {
        types := types[klass.value := c];
      }
    }
  }

  /** The inverse of `Oid`: the one class, if any, that declares an OID. */
  function ClassForOid(k: int): Option<TypeClass> {
    match k
    case 16 => Some(BoolType)
    case 17 => Some(BinaryType)
    case 18 => Some(CharType)
    case 19 => Some(NameDataType)
    case 20 => Some(LongType)
    case 21 => Some(ShortIntType)
    case 22 => Some(Int2VectorType)
    case 23 => Some(IntType)
    case 25 => Some(StringType)
    case 26 => Some(OidType)
    case 650 => Some(IPv4AddressType)
    case 700 => Some(FloatType)
    case 701 => Some(DoubleType)
    case 705 => Some(UnknownType)
    case 869 => Some(IPAddressType)
    case 1003 => Some(NameArrayType)
    case 1005 => Some(Int2ArrayType)
    case 1007 => Some(Int4ArrayType)
    case 1009 => Some(TextArray)
    case 1015 => Some(VarcharArray)
    case 1041 => Some(InetArray)
    case 2951 => Some(UUIDArray)
    case 1182 => Some(DateArray)
    case 1183 => Some(TimeArray)
    case 1185 => Some(TimestamptzArray)
    case 1231 => Some(DecimalArray)
    case 3807 => Some(JsonbArray)
    case 3905 => Some(Int4RangeArray)
    case 3927 => Some(Int8RangeArray)
    case 1042 => Some(BlankPaddedString)
    case 1043 => Some(VarCharType)
    case 1082 => Some(DateType)
    case 1083 => Some(TimeOfDayType)
    case 1114 => Some(TimestampType)
    case 1186 => Some(IntervalType)
    case 1184 => Some(TimestampTzType)
    case 1266 => Some(TimeTzType)
    case 1700 => Some(NumericType)
    case 2950 => Some(UUIDType)
    case 3802 => Some(JsonbType)
    case _ => None
  }

  lemma ClassForOidSound(k: int)
    ensures ClassForOid(k).Some? ==> Oid(ClassForOid(k).value) == Some(k)
  {
  }

  /** No two classes declare the same OID. */
  lemma OidInjective(c: TypeClass)
    requires Oid(c).Some?
    ensures ClassForOid(Oid(c).value) == Some(c)
  {
    match c
    case _ =>
  }

  lemma AllDeclared(c: TypeClass)
    ensures c in Declared
  {
    match c
    case BaseType => assert c in Declared0;
    case ArrayType => assert c in Declared0;
    case NoneType => assert c in Declared0;
    case BoolType => assert c in Declared0;
    case BinaryType => assert c in Declared0;
    case CharType => assert c in Declared0;
    case NameDataType => assert c in Declared0;
    case LongType => assert c in Declared0;
    case ShortIntType => assert c in Declared1;
    case Int2VectorType => assert c in Declared1;
    case IntType => assert c in Declared1;
    case StringType => assert c in Declared1;
    case OidType => assert c in Declared1;
    case IPv4AddressType => assert c in Declared1;
    case IPv4NetworkType => assert c in Declared1;
    case IPv6AddressType => assert c in Declared1;
    case IPv6NetworkType => assert c in Declared2;
    case FloatType => assert c in Declared2;
    case DoubleType => assert c in Declared2;
    case UnknownType => assert c in Declared2;
    case IPAddressType => assert c in Declared2;
    case NameArrayType => assert c in Declared2;
    case Int2ArrayType => assert c in Declared2;
    case Int4ArrayType => assert c in Declared2;
    case TextArray => assert c in Declared3;
    case VarcharArray => assert c in Declared3;
    case InetArray => assert c in Declared3;
    case UUIDArray => assert c in Declared3;
    case DateArray => assert c in Declared3;
    case TimeArray => assert c in Declared3;
    case TimestamptzArray => assert c in Declared3;
    case DecimalArray => assert c in Declared3;
    case JsonbArray => assert c in Declared4;
    case Int4RangeArray => assert c in Declared4;
    case Int8RangeArray => assert c in Declared4;
    case BlankPaddedString => assert c in Declared4;
    case VarCharType => assert c in Declared4;
    case DateType => assert c in Declared4;
    case TimeOfDayType => assert c in Declared4;
    case TimestampType => assert c in Declared4;
    case IntervalType => assert c in Declared5;
    case TimestampTzType => assert c in Declared5;
    case TimeTzType => assert c in Declared5;
    case NumericType => assert c in Declared5;
    case UUIDType => assert c in Declared5;
    case JsonbType => assert c in Declared5;
  }

  /** Every entry of `_oid` is the class that declares that OID. */
  lemma {:induction false} OidTableValues(cs: seq<TypeClass>, k: int)
    ensures k in OidTable(cs) ==> ClassForOid(k) == Some(OidTable(cs)[k])
  {
    if cs != [] {
      var last := cs[|cs| - 1];
      OidTableValues(cs[..|cs| - 1], k);
      if Oid(last) == Some(k) {
        OidInjective(last);
      }
    }
  }

  /** Every class created with an OID leaves that OID in `_oid`. */
  lemma {:induction false} OidTableHas(cs: seq<TypeClass>, c: TypeClass)
    requires c in cs && Oid(c).Some?
    ensures Oid(c).value in OidTable(cs)
  {
    var init := cs[..|cs| - 1];
    if c != cs[|cs| - 1] {
      assert cs == init + [cs[|cs| - 1]];
      OidTableHas(init, c);
    }
  }

  /** `_type` after `p + s` is `_type` after `p`, overridden by what `s` registers. */
  lemma {:induction false} TypeTableAppend(p: seq<TypeClass>, s: seq<TypeClass>)
    ensures TypeTable(p + s) == TypeTable(p) + TypeTable(s)
  {
    if s == [] {
      assert p + s == p;
    } else {
      var init, last := s[..|s| - 1], s[|s| - 1];
      assert (p + s)[..|p + s| - 1] == p + init;
      TypeTableAppend(p, init);
    }
  }

  /** When every writer of key `t` in `cs` is `w`, `_type[t]` can only be `w`. */
  lemma {:induction false} TypeTableSoleWriter(cs: seq<TypeClass>, t: PyType, w: TypeClass)
    requires forall i :: 0 <= i < |cs| && Klass(cs[i]) == Some(t) ==> cs[i] == w
    ensures t in TypeTable(cs) ==> TypeTable(cs)[t] == w
  {
    if cs != [] {
      var init := cs[..|cs| - 1];
      assert forall i :: 0 <= i < |init| ==> init[i] == cs[i];
      TypeTableSoleWriter(init, t, w);
    }
  }

  /** Whatever writes key `t` makes it present. */
  lemma {:induction false} TypeTableHas(cs: seq<TypeClass>, c: TypeClass)
    requires c in cs && Klass(c).Some?
    ensures Klass(c).value in TypeTable(cs)
  {
    var init := cs[..|cs| - 1];
    if c != cs[|cs| - 1] {
      assert cs == init + [cs[|cs| - 1]];
      TypeTableHas(init, c);
    }
  }

  /** The class `FormatterClass` names does claim the type. */
  lemma FormatterClaims(t: PyType)
    requires FormatterClass(t).Some?
    ensures Klass(FormatterClass(t).value) == Some(t)
  {
  }

  /** Only a class that declares `klass == t` creates the key `t`. */
  lemma {:induction false} TypeTableKeys(cs: seq<TypeClass>, t: PyType)
    requires forall i :: 0 <= i < |cs| ==> Klass(cs[i]) != Some(t)
    ensures t !in TypeTable(cs)
  {
    if cs != [] {
      var init := cs[..|cs| - 1];
      assert forall i :: 0 <= i < |init| ==> init[i] == cs[i];
      TypeTableKeys(init, t);
    }
  }

  /** The formatter `format_type` ends up with for each exact type. */
  function FormatterClass(t: PyType): Option<TypeClass> {
    match t
    case NoneT => Some(NoneType)
    case BoolT => Some(BoolType)
    case BytesT => Some(BinaryType)
    case IntT => Some(LongType)
    case IPv4AddressT => Some(IPAddressType)
    case IPv4NetworkT => Some(IPv4NetworkType)
    case IPv6AddressT => Some(IPv6AddressType)
    case IPv6NetworkT => Some(IPv6NetworkType)
    case FloatT => Some(DoubleType)
    case DateT => Some(DateType)
    case TimeT => Some(TimeOfDayType)
    case TimedeltaT => Some(IntervalType)
    case DateTimeT => Some(TimestampTzType)
    case DecimalT => Some(NumericType)
    case UuidT => Some(UUIDType)
    case StrT => None
    case ListT => None
    case OtherT => None
  }

  /** Apart from IPv4Address, each exact type is claimed by at most one class. */
  lemma KlassOwner(c: TypeClass, t: PyType)
    requires Klass(c) == Some(t)
    ensures t == IPv4AddressT ==> c == IPv4AddressType || c == IPAddressType
    ensures t != IPv4AddressT ==> FormatterClass(t) == Some(c)
  {
  }

  /** A type is a key of the loaded `_type` exactly when some class claims it. */
  lemma TypeTableLoadedKeys(t: PyType)
    ensures t in TypeTable(Declared) <==> FormatterClass(t).Some?
  {
    if FormatterClass(t).Some? {
      var w := FormatterClass(t).value;
      AllDeclared(w);
      FormatterClaims(t);
      TypeTableHas(Declared, w);
    } else {
      forall i | 0 <= i < |Declared| ensures Klass(Declared[i]) != Some(t) {
        if Klass(Declared[i]) == Some(t) {
          KlassOwner(Declared[i], t);
        }
      }
      TypeTableKeys(Declared, t);
    }
  }

  /** IPv4Address is claimed twice; the later class, IPAddressType, wins. */
  lemma TypeTableLoadedIPv4()
    ensures IPv4AddressT in TypeTable(Declared) && TypeTable(Declared)[IPv4AddressT] == IPAddressType
  {
    var p, s := Declared0 + Declared1, Declared2 + Declared3 + Declared4 + Declared5;
    assert Declared == p + s;
    TypeTableAppend(p, s);
    IPv4TailWriter(s);
  }

  /** Among the classes created after IPv4AddressType, only IPAddressType claims IPv4Address. */
  lemma IPv4TailWriter(s: seq<TypeClass>)
    requires s == Declared2 + Declared3 + Declared4 + Declared5
    ensures IPv4AddressT in TypeTable(s) && TypeTable(s)[IPv4AddressT] == IPAddressType
  {
    var t := IPv4AddressT;
    assert IPAddressType in Declared2;
    TypeTableHas(s, IPAddressType);
    assert IPv4AddressType !in s;
    forall i | 0 <= i < |s| && Klass(s[i]) == Some(t) ensures s[i] == IPAddressType {
      KlassOwner(s[i], t);
    }
    TypeTableSoleWriter(s, t, IPAddressType);
  }

  /**
   * `BaseType._type` once the module is loaded: each exact type maps to its
   * formatter; IPv4Address, claimed by two classes, ends with the later one.
   */
  lemma TypeTableLoaded(t: PyType)
    ensures t in TypeTable(Declared) <==> FormatterClass(t).Some?
    ensures t in TypeTable(Declared) ==> TypeTable(Declared)[t] == FormatterClass(t).value
  {
    TypeTableLoadedKeys(t);
    if t == IPv4AddressT {
      TypeTableLoadedIPv4();
    } else if FormatterClass(t).Some? {
      forall i | 0 <= i < |Declared| && Klass(Declared[i]) == Some(t)
        ensures Declared[i] == FormatterClass(t).value
      {
        KlassOwner(Declared[i], t);
      }
      TypeTableSoleWriter(Declared, t, FormatterClass(t).value);
    }
  }

  /**
   * `infer_parser(ftype)`: the class registered for the OID, KeyError when
   * there is none.  `InferParserLoaded` shows this is the lookup in
   * `BaseType._oid` as the metaclass leaves it.
   */
  function InferParser(oid: int): (r: Result<TypeClass>)
    ensures r.Err? ==> r.error == KeyError
  {
    match ClassForOid(oid)
    case Some(c) => Ok(c)
    case None => Err(KeyError)
  }

  /** `BaseType._oid[ftype]` once the module is loaded is `InferParser`. */
  lemma InferParserLoaded(oid: int)
    ensures oid in OidTable(Declared) <==> InferParser(oid).Ok?
    ensures oid in OidTable(Declared) ==> InferParser(oid) == Ok(OidTable(Declared)[oid])
  {
    OidTableValues(Declared, oid);
    if ClassForOid(oid).Some? {
      var d := ClassForOid(oid).value;
      ClassForOidSound(oid);
      AllDeclared(d);
      OidTableHas(Declared, d);
    }
  }

  /** `infer_parser` returns exactly the class that declares the OID, and fails for any other OID. */
  lemma InferParserSpec(oid: int, c: TypeClass)
    ensures InferParser(oid) == Ok(c) <==> Oid(c) == Some(oid)
    ensures InferParser(oid).Err? <==> ClassForOid(oid) == None
  {
    ClassForOidSound(oid);
    if Oid(c) == Some(oid) {
      OidInjective(c);
    }
  }
}
