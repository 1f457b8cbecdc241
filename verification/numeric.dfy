/**
 * PostgreSQL's binary `numeric` format as NumericType reads and writes it:
 * a header (ndigits: u16, weight: i16, sign: u16, dscale: u16) and then
 * `ndigits` base-10000 digit groups, each a u16.  Parsing renders the
 * groups as decimal text and hands the text to `decimal.Decimal`;
 * formatting cuts `Decimal.as_tuple()` digits into groups of four.
 */
module Numeric {
  import opened Py
  import opened Wire
  import opened Types

  const NaNSign: int := 0xC000
  const NegSign: int := 0x4000

  // ---------------------------------------------------------------- decimal text

  predicate AllDigits(s: string) {
    forall k :: 0 <= k < |s| ==> IsDigit(s[k])
  }

  /** A character of decimal digit text. */
  type numeral = c: char | '0' <= c <= '9' witness '0'

  lemma NumeralsAreDigits(s: seq<numeral>)
    ensures AllDigits(s)
  {
    forall k | 0 <= k < |s| ensures IsDigit(s[k]) {
      var c: numeral := s[k];
    }
  }

  /** `''.join(map(str, ds))`. */
  function Chars(ds: seq<digit>): (s: seq<numeral>)
    ensures |s| == |ds|
  {
    seq(|ds|, k requires 0 <= k < |ds| => DigitChar(ds[k]))
  }

  /** The digit values of a string of decimal digits. */
  function DigitsOf(s: string): (ds: seq<digit>)
    requires AllDigits(s)
    ensures |ds| == |s|
  {
    seq(|s|, k requires 0 <= k < |s| => DigitValue(s[k]) as digit)
  }

  lemma DigitsOfChars(a: seq<digit>, b: seq<digit>)
    ensures DigitsOf(Chars(a) + Chars(b)) == a + b
  {
    var s := Chars(a) + Chars(b);
    assert forall k :: 0 <= k < |s| ==> s[k] == DigitChar((a + b)[k]);
  }

  lemma CharsDigitsOf(s: string)
    requires AllDigits(s)
    ensures Chars(DigitsOf(s)) == s
  {
  }

  lemma CharsAppend(a: seq<digit>, b: seq<digit>)
    ensures Chars(a) + Chars(b) == Chars(a + b)
  {
  }

  function Zeros(n: nat): (z: seq<digit>)
    ensures |z| == n
    ensures forall k :: 0 <= k < n ==> z[k] == 0
  {
    seq(n, _ => 0)
  }

  /** The coefficient `Decimal` keeps: leading zeros dropped, but at least one digit. */
  function Canon(ds: seq<digit>): (c: seq<digit>)
    ensures |c| >= 1
    ensures |c| == 1 || c[0] != 0
  {
    if ds == [] then [0]
    else if |ds| > 1 && ds[0] == 0 then Canon(ds[1..])
    else ds
  }

  /** `Decimal.as_tuple()` of a finite value, as Python produces it. */
  predicate Canonical(x: Decimal) {
    x.Finite? && |x.digits| >= 1 && (|x.digits| == 1 || x.digits[0] != 0)
  }

  /** Leading zeros do not change the coefficient. */
  lemma {:induction false} CanonZeros(z: nat, ds: seq<digit>)
    requires ds != []
    ensures Canon(Zeros(z) + ds) == Canon(ds)
  {
    var s := Zeros(z) + ds;
    if z > 0 {
      assert s[0] == 0 && |s| > 1;
      assert s[1..] == Zeros(z - 1) + ds;
      CanonZeros(z - 1, ds);
    } else {
      assert s == ds;
    }
  }

  /** Position of the first '.' in `s`, or `|s|` when there is none. */
  function DotIndex(s: string): (i: nat)
    ensures i <= |s|
    ensures i < |s| ==> s[i] == '.'
    ensures forall k :: 0 <= k < i ==> s[k] != '.'
  {
    if s == [] || s[0] == '.' then 0 else 1 + DotIndex(s[1..])
  }

  /** Digits before and after the first '.' of `body` (the point itself dropped). */
  function SplitPoint(body: string): (parts: (string, string))
    ensures |parts.0| + |parts.1| <= |body|
  {
    var k := DotIndex(body);
    (body[..k], if k < |body| then body[k + 1..] else [])
  }

  /** The decimal that integer digits `ip` and fraction digits `fp` spell. */
  function LiteralValue(neg: bool, ip: string, fp: string): (r: Result<Decimal>)
    ensures r.Ok? ==> Canonical(r.value) && r.value.exponent == -|fp| && r.value.negative == neg
    ensures r.Ok? <==> AllDigits(ip) && AllDigits(fp) && |ip| + |fp| > 0
  {
    if AllDigits(ip) && AllDigits(fp) && |ip| + |fp| > 0
    then Ok(Finite(neg, Canon(DigitsOf(ip + fp)), -|fp|))
    else Err(InvalidOperation)
  }

  /**
   * `decimal.Decimal(n)` for text made of an optional '-', digits and an
   * optional '.': a value needs at least one digit, else InvalidOperation.
   */
  function DecimalLiteral(n: string): (r: Result<Decimal>)
    ensures r.Ok? ==> Canonical(r.value) && r.value.exponent <= 0
    ensures r.Ok? ==> (r.value.negative <==> |n| > 0 && n[0] == '-')
  {
    var neg := |n| > 0 && n[0] == '-';
    var parts := SplitPoint(if neg then n[1..] else n);
    LiteralValue(neg, parts.0, parts.1)
  }

  function SignText(neg: bool): string {
    if neg then "-" else ""
  }

  lemma {:induction false} DotIndexAfterDigits(ip: seq<numeral>, rest: string)
    requires rest == [] || rest[0] == '.'
    ensures DotIndex(ip + rest) == |ip|
  {
    if ip != [] {
      assert (ip + rest)[0] == ip[0];
      assert (ip + rest)[1..] == ip[1..] + rest;
      DotIndexAfterDigits(ip[1..], rest);
    } else {
      assert ip + rest == rest;
    }
  }

  /** Splitting `digits[.fraction]` at the point gives back both parts. */
  lemma SplitPointOf(ip: seq<numeral>, fp: string, point: bool)
    requires fp != [] ==> point
    ensures SplitPoint(ip + (if point then "." + fp else "")) == (ip, fp)
  {
    var rest := if point then "." + fp else "";
    var body := ip + rest;
    DotIndexAfterDigits(ip, rest);
    assert body[..|ip|] == ip;
    if point {
      assert body[|ip| + 1..] == fp;
    }
  }

  /** The text `sign digits[.fraction]` is read as the decimal it spells. */
  lemma DecimalLiteralOf(neg: bool, ip: seq<numeral>, fp: seq<numeral>, point: bool)
    requires fp != [] ==> point
    ensures DecimalLiteral(SignText(neg) + ip + (if point then "." + fp else "")) == LiteralValue(neg, ip, fp)
  {
    var body := ip + (if point then "." + fp else "");
    var n := SignText(neg) + body;
    assert SignText(neg) + ip + (if point then "." + fp else "") == n;
    assert (|n| > 0 && n[0] == '-') == neg by {
      if !neg && ip != [] {
        assert n[0] == ip[0];
      }
    }
    assert (if neg then n[1..] else n) == body;
    SplitPointOf(ip, fp, point);
  }

  // ---------------------------------------------------------------- digit groups

  /** `int(''.join(map(str, ds)))`: the decimal value of a digit sequence. */
  function DigitsValue(ds: seq<digit>): nat
  {
    if ds == [] then 0 else DigitsValue(ds[..|ds| - 1]) * 10 + ds[|ds| - 1]
  }

  /** The value of four or fewer digits fits a numeric group. */
  lemma DigitsValueBound(ds: seq<digit>)
    requires |ds| <= 4
    ensures DigitsValue(ds) < Pow10(|ds|) <= 10000
  {
    if ds != [] {
      DigitsValueBound(ds[..|ds| - 1]);
    }
  }

  function Pow10(n: nat): nat {
    if n == 0 then 1 else 10 * Pow10(n - 1)
  }

  /** `'{:04d}'.format(d)`: four digits, zero-padded, or all of a larger group's digits. */
  function GroupText(d: nat): (s: seq<numeral>)
    ensures d < 10000 ==> |s| == 4
  {
    if d < 10000
    then [DigitChar(d / 1000), DigitChar(d / 100 % 10), DigitChar(d / 10 % 10), DigitChar(d % 10)]
    else NatText(d)
  }

  /** A group cut from four digits is rendered back as those four digits. */
  lemma GroupTextOfChunk(c: seq<digit>)
    requires |c| == 4
    ensures GroupText(DigitsValue(c)) == Chars(c)
  {
    ChunkValue(c);
    DigitsOfGroup(c[0], c[1], c[2], c[3]);
  }

  /** The value of four digits, place by place. */
  lemma ChunkValue(c: seq<digit>)
    requires |c| == 4
    ensures DigitsValue(c) == 1000 * (c[0] as int) + 100 * (c[1] as int) + 10 * (c[2] as int) + c[3] as int
  {
    assert c[..1][..0] == [];
    assert DigitsValue(c[..1]) == c[0] as int;
    assert c[..2][..1] == c[..1];
    assert DigitsValue(c[..2]) == 10 * (c[0] as int) + c[1] as int;
    assert c[..3][..2] == c[..2];
    assert DigitsValue(c[..3]) == 100 * (c[0] as int) + 10 * (c[1] as int) + c[2] as int;
    assert c[..4] == c;
  }

  /** The four places of a group below 10000 are its four digits. */
  lemma DigitsOfGroup(a: digit, b: digit, d: digit, e: digit)
    ensures var v := 1000 * a + 100 * b + 10 * d + e;
      v / 1000 == a && v / 100 % 10 == b && v / 10 % 10 == d && v % 10 == e
  {
    var v: int := 1000 * a + 100 * b + 10 * d + e;
    assert v / 100 == 10 * a + b;
    assert v / 10 == 100 * a + 10 * b + d;
  }

  /** The generator's output before its endless '0's: each group's text in turn. */
  function Stream(groups: seq<nat>): seq<numeral>
  {
    if groups == [] then [] else GroupText(groups[0]) + Stream(groups[1..])
  }

  lemma {:induction false} StreamAppend(a: seq<nat>, b: seq<nat>)
    ensures Stream(a + b) == Stream(a) + Stream(b)
  {
    if a == [] {
      assert a + b == b;
    } else {
      assert (a + b)[0] == a[0];
      assert (a + b)[1..] == a[1..] + b;
      StreamAppend(a[1..], b);
    }
  }

  /** `next(src)` at position `p`: the stream's character, then '0' for ever. */
  function StreamChar(st: seq<numeral>, p: nat): numeral
  {
    if p < |st| then st[p] else '0'
  }

  /** `count` successive `next(src)` calls starting at position `from`. */
  function Take(st: seq<numeral>, from: nat, count: nat): (s: seq<numeral>)
    ensures |s| == count
    ensures forall k :: 0 <= k < count ==> s[k] == StreamChar(st, from + k)
  {
    seq<numeral>(count, k requires 0 <= k < count => StreamChar(st, from + k))
  }

  lemma TakeStep(st: seq<numeral>, from: nat, count: nat)
    ensures Take(st, from, count + 1) == Take(st, from, count) + [StreamChar(st, from + count)]
  {
  }

  /** Cut a digit sequence from the left into groups of four; the last may be shorter. */
  function LeftGroups(ds: seq<digit>): (gs: seq<nat>)
    ensures forall k :: 0 <= k < |gs| ==> gs[k] < 10000
    ensures |gs| == (|ds| + 3) / 4
  {
    if ds == [] then []
    else if |ds| <= 4 then (DigitsValueBound(ds); [DigitsValue(ds)])
    else (DigitsValueBound(ds[..4]); [DigitsValue(ds[..4])] + LeftGroups(ds[4..]))
  }

  /** Cut fractional digits into groups of four, the last right-padded with zeros. */
  function FracGroups(fs: seq<digit>): (gs: seq<nat>)
    ensures forall k :: 0 <= k < |gs| ==> gs[k] < 10000
    ensures |gs| == (|fs| + 3) / 4
  {
    if fs == [] then []
    else if |fs| < 4 then (DigitsValueBound((fs + Zeros(4))[..4]); [DigitsValue((fs + Zeros(4))[..4])])
    else (DigitsValueBound(fs[..4]); [DigitsValue(fs[..4])] + FracGroups(fs[4..]))
  }

  /** A whole number of four-digit groups streams back as exactly its digits. */
  lemma {:induction false} StreamOfLeftGroups(ds: seq<digit>)
    requires |ds| % 4 == 0
    ensures Stream(LeftGroups(ds)) == Chars(ds)
  {
    if ds != [] {
      var head, tail := ds[..4], ds[4..];
      GroupTextOfChunk(head);
      if |ds| > 4 {
        StreamOfLeftGroups(tail);
        calc {
          Stream(LeftGroups(ds));
          { StreamFirstGroup(ds); }
          GroupText(DigitsValue(head)) + Stream(LeftGroups(tail));
          Chars(head) + Chars(tail);
          { CharsAppend(head, tail); }
          Chars(head + tail);
          { assert ds == head + tail; }
          Chars(ds);
        }
      } else {
        assert head == ds;
        assert Stream([DigitsValue(ds)]) == GroupText(DigitsValue(ds)) by {
          assert [DigitsValue(ds)][1..] == [];
        }
      }
    }
  }

  lemma StreamFirstGroup(ds: seq<digit>)
    requires |ds| > 4
    ensures Stream(LeftGroups(ds)) == GroupText(DigitsValue(ds[..4])) + Stream(LeftGroups(ds[4..]))
  {
    var v := DigitsValue(ds[..4]);
    assert LeftGroups(ds) == [v] + LeftGroups(ds[4..]);
    StreamAppend([v], LeftGroups(ds[4..]));
    assert Stream([v]) == GroupText(v) by {
      assert [v][1..] == [];
    }
  }

  /**
   * What the groups of `LeftGroups(ds)` stream back as: every group is
   * rendered with four digits, so a short last group gains leading zeros.
   */
  function Regroup(ds: seq<digit>): (r: seq<digit>)
    ensures |r| % 4 == 0 && |ds| <= |r| < |ds| + 4
    ensures |ds| % 4 == 0 ==> r == ds
  {
    if ds == [] then []
    else if |ds| <= 4 then Zeros(4 - |ds|) + ds
    else ds[..4] + Regroup(ds[4..])
  }

  lemma {:induction false} LeftGroupsRegroup(ds: seq<digit>)
    ensures LeftGroups(ds) == LeftGroups(Regroup(ds))
  {
    if ds != [] && |ds| <= 4 {
      DigitsValueZeros(4 - |ds|, ds);
    } else if |ds| > 4 {
      LeftGroupsRegroup(ds[4..]);
      var r := Regroup(ds);
      assert r[..4] == ds[..4];
      assert r[4..] == Regroup(ds[4..]);
    }
  }

  lemma {:induction false} DigitsValueZeros(z: nat, ds: seq<digit>)
    ensures DigitsValue(Zeros(z) + ds) == DigitsValue(ds)
    decreases |ds|
  {
    if ds == [] {
      ZerosValue(z);
      assert Zeros(z) + ds == Zeros(z);
    } else {
      var n := |ds| - 1;
      assert (Zeros(z) + ds)[..z + n] == Zeros(z) + ds[..n];
      DigitsValueZeros(z, ds[..n]);
    }
  }

  lemma {:induction false} ZerosValue(z: nat)
    ensures DigitsValue(Zeros(z)) == 0
  {
    if z > 0 {
      assert Zeros(z)[..z - 1] == Zeros(z - 1);
      ZerosValue(z - 1);
    }
  }

  /** Right-padding to a whole number of groups. */
  function PadRight(fs: seq<digit>): (p: seq<digit>)
    ensures |p| % 4 == 0 && |fs| <= |p| < |fs| + 4
  {
    fs + Zeros((4 - |fs| % 4) % 4)
  }

  lemma {:induction false} FracGroupsPadded(fs: seq<digit>)
    ensures FracGroups(fs) == LeftGroups(PadRight(fs))
  {
    if fs != [] && |fs| < 4 {
      assert (fs + Zeros(4))[..4] == PadRight(fs);
    } else if |fs| == 4 {
      assert PadRight(fs) == fs && fs[..4] == fs && fs[4..] == [];
    } else if |fs| > 4 {
      FracGroupsPadded(fs[4..]);
      PadRightStep(fs);
      LeftGroupsHead(fs[..4], PadRight(fs[4..]));
    }
  }

  /** Padding a long fraction pads only its tail. */
  lemma PadRightStep(fs: seq<digit>)
    requires |fs| > 4
    ensures PadRight(fs) == fs[..4] + PadRight(fs[4..])
  {
    assert (|fs| - 4) % 4 == |fs| % 4;
    assert fs == fs[..4] + fs[4..];
  }

  /** A full first group is split off by `LeftGroups` as it stands. */
  lemma LeftGroupsHead(g: seq<digit>, rest: seq<digit>)
    requires |g| == 4 && rest != []
    ensures LeftGroups(g + rest) == [DigitsValue(g)] + LeftGroups(rest)
  {
    assert (g + rest)[..4] == g && (g + rest)[4..] == rest;
  }

  // ---------------------------------------------------------------- parse

  /** `struct.unpack('!%dH' % n, body)` for a body of exactly 2n bytes. */
  function Groups(body: seq<byte>): (gs: seq<nat>)
    ensures |gs| == |body| / 2
  {
    if |body| < 2 then [] else [DecodeUnsigned(body[..2])] + Groups(body[2..])
  }

  predicate U16s(vals: seq<nat>) {
    forall k :: 0 <= k < |vals| ==> vals[k] < 65536
  }

  /** The packed bytes of a list of u16 groups. */
  function PackGroups(vals: seq<nat>): (b: seq<byte>)
    requires U16s(vals)
    ensures |b| == 2 * |vals|
  {
    if vals == [] then [] else EncodeUnsigned(vals[0], 2) + PackGroups(vals[1..])
  }

  lemma {:induction false} GroupsRoundTrip(vals: seq<nat>)
    requires U16s(vals)
    ensures Groups(PackGroups(vals)) == vals
  {
    if vals != [] {
      var b := PackGroups(vals);
      assert b[..2] == EncodeUnsigned(vals[0], 2);
      assert b[2..] == PackGroups(vals[1..]);
      GroupsRoundTrip(vals[1..]);
    }
  }

  /** The fixed header `struct.unpack('!HhHH', value[:8])`. */
  datatype Header = Header(ndigits: nat, weight: int, sign: nat, dscale: nat)

  function ReadHeader(hdr: seq<byte>): (h: Header)
    requires |hdr| == 8
    ensures h.ndigits < 65536 && -32768 <= h.weight < 32768 && h.sign < 65536 && h.dscale < 65536
  {
    Header(DecodeUnsigned(hdr[0..2]), DecodeSigned(hdr[2..4]), DecodeUnsigned(hdr[4..6]), DecodeUnsigned(hdr[6..8]))
  }

  /** `struct.pack('!HhHH%dH' % len(vals), ndigits, weight, sign, dscale, *vals)`. */
  function PackNumeric(h: Header, vals: seq<nat>): (r: Result<seq<byte>>)
    ensures r.Ok? <==> (h.ndigits < 65536 && -32768 <= h.weight < 32768 && h.sign < 65536
      && h.dscale < 65536 && U16s(vals))
    ensures r.Ok? ==> |r.value| == 8 + 2 * |vals|
  {
    if h.ndigits < 65536 && InSigned(h.weight, 2) && h.sign < 65536 && h.dscale < 65536 && U16s(vals)
    then Ok(EncodeUnsigned(h.ndigits, 2) + EncodeSigned(h.weight, 2) + EncodeUnsigned(h.sign, 2)
            + EncodeUnsigned(h.dscale, 2) + PackGroups(vals))
    else Err(StructError)
  }

  /** The header and the groups come back out of the packed bytes. */
  lemma PackNumericRead(h: Header, vals: seq<nat>)
    requires PackNumeric(h, vals).Ok?
    ensures var b := PackNumeric(h, vals).value;
      ReadHeader(b[..8]) == h && b[8..] == PackGroups(vals)
  {
    var b := PackNumeric(h, vals).value;
    var hdr := b[..8];
    assert hdr[0..2] == EncodeUnsigned(h.ndigits, 2);
    assert hdr[2..4] == EncodeSigned(h.weight, 2);
    assert hdr[4..6] == EncodeUnsigned(h.sign, 2);
    assert hdr[6..8] == EncodeUnsigned(h.dscale, 2);
  }

  /** Integer digits the parser reads: `range((weight+1)*4)` is empty for weight < 0. */
  function IntCount(weight: int): nat {
    if weight + 1 > 0 then (weight + 1) * 4 else 0
  }

  /** The text the parser hands to `Decimal`. */
  function NumericText(h: Header, groups: seq<nat>): string {
    TextOf(h.sign != 0, Stream(groups), IntCount(h.weight), h.dscale)
  }

  /** `count` integer digits, then a point and `dscale` digits if dscale is non-zero. */
  function TextOf(neg: bool, st: seq<numeral>, count: nat, dscale: nat): string
  {
    SignText(neg) + Take(st, 0, count) + (if dscale != 0 then "." + Take(st, count, dscale) else "")
  }

  /** `NumericType.parse(value, size, tzinfo)`; `size` is not consulted. */
  function ParseSpec(value: seq<byte>): (r: Result<Decimal>)
    ensures |value| < 8 <==> r == Err(StructError) && |value| < 8
    ensures |value| >= 8 && ReadHeader(value[..8]).sign == NaNSign ==> r == Ok(NaN)
  {
    if |value| < 8 then Err(StructError) else
    var h := ReadHeader(value[..8]);
    if h.sign == NaNSign then Ok(NaN) else
    var body := Slice(value, 8, 8 + 2 * h.ndigits);
    if |body| != 2 * h.ndigits then Err(StructError) else
    DecimalLiteral(NumericText(h, Groups(body)))
  }

  /**
   * The parsed coefficient is made of exactly `(weight+1)*4` integer digits
   * and `dscale` fraction digits read from the groups, with '0' supplied once
   * they run out; the text has no digit at all, and Decimal refuses it,
   * exactly when weight < 0 and dscale == 0.
   */
  lemma ParseReadsDigits(h: Header, groups: seq<nat>)
    ensures var r := DecimalLiteral(NumericText(h, groups));
      var digits := Take(Stream(groups), 0, IntCount(h.weight) + h.dscale);
      (r.Err? <==> |digits| == 0)
      && (r.Ok? ==> r.value.negative == (h.sign != 0) && r.value.exponent == -(h.dscale as int))
      && (r.Ok? ==> (NumeralsAreDigits(digits); r.value.digits == Canon(DigitsOf(digits))))
  {
    var st := Stream(groups);
    var n, d := IntCount(h.weight), h.dscale;
    var ip := Take(st, 0, n);
    var fp := if d != 0 then Take(st, n, d) else [];
    assert NumericText(h, groups) == SignText(h.sign != 0) + ip + (if d != 0 then "." + fp else "");
    assert DecimalLiteral(NumericText(h, groups)) == LiteralValue(h.sign != 0, ip, fp) by {
      DecimalLiteralOf(h.sign != 0, ip, fp, d != 0);
    }
    assert Take(st, 0, n + d) == ip + fp by {
      TakeSplit(st, n, d);
    }
    LiteralOfNumerals(DecimalLiteral(NumericText(h, groups)), Take(Stream(groups), 0, IntCount(h.weight) + h.dscale),
      h.sign != 0, ip, fp, h.dscale);
  }

  /** `Decimal` of numeral texts fails iff there is no digit, and otherwise spells those digits. */
  lemma LiteralOfNumerals(r: Result<Decimal>, digits: seq<numeral>, neg: bool, ip: seq<numeral>, fp: seq<numeral>, d: nat)
    requires |fp| == d && r == LiteralValue(neg, ip, fp) && digits == ip + fp
    ensures (r.Err? <==> |digits| == 0)
      && (r.Ok? ==> r.value.negative == neg && r.value.exponent == -(d as int))
      && (r.Ok? ==> (NumeralsAreDigits(digits); r.value.digits == Canon(DigitsOf(digits))))
  {
    NumeralsAreDigits(ip);
    NumeralsAreDigits(fp);
  }

  lemma TakeSplit(st: seq<numeral>, n: nat, d: nat)
    ensures Take(st, 0, n + d) == Take(st, 0, n) + Take(st, n, d)
  {
  }

  /** `NumericType.parse`. */
  method Parse(value: seq<byte>) returns (r: Result<Decimal>)
    ensures r == ParseSpec(value)
  {
    var hdr := Prefix(value, 8);
    if |hdr| != 8 {
      return Err(StructError);
    }
    assert hdr == value[..8];
    var h := ReadHeader(hdr);
    if h.sign == NaNSign {
      return Ok(NaN);
    }
    var body := Slice(value, 8, 8 + 2 * h.ndigits);
    if |body| != 2 * h.ndigits {
      return Err(StructError);
    }
    var n := Accumulate(h.sign != 0, Stream(Groups(body)), IntCount(h.weight), h.dscale);
    r := DecimalLiteral(n);
  }

  /** The loops of `NumericType.parse` that build the text one `next(src)` at a time. */
  method Accumulate(neg: bool, src: seq<numeral>, count: nat, dscale: nat) returns (n: string)
    ensures n == TextOf(neg, src, count, dscale)
  {
    var pos := 0;
    n := SignText(neg);
    var i := 0;
    while i < count
      invariant 0 <= i <= count && pos == i
      invariant n == SignText(neg) + Take(src, 0, i)
    {
      TakeStep(src, 0, i);
      n := n + [StreamChar(src, pos)];
      pos := pos + 1;
      i := i + 1;
    }
    if dscale != 0 {
      n := n + ".";
      var j := 0;
      while j < dscale
        invariant 0 <= j <= dscale && pos == count + j
        invariant n == SignText(neg) + Take(src, 0, count) + "." + Take(src, count, j)
      {
        TakeStep(src, count, j);
        n := n + [StreamChar(src, pos)];
        pos := pos + 1;
        j := j + 1;
      }
    }
  }

  // ---------------------------------------------------------------- format

  lemma TakeWithin(st: seq<numeral>, from: nat, count: nat)
    requires from + count <= |st|
    ensures Take(st, from, count) == st[from..from + count]
  {
  }

  /** The groups of whole integer groups `ip` and fraction digits `fp`, in order. */
  function Layout(ip: seq<digit>, fp: seq<digit>): (vals: seq<nat>)
    ensures |vals| == |ip| / 4 + (|fp| + 3) / 4 || |ip| % 4 != 0
    ensures U16s(vals)
  {
    LeftGroups(ip) + FracGroups(fp)
  }

  /** The laid-out groups stream back as the integer digits, then the padded fraction. */
  lemma LayoutStream(ip: seq<digit>, fp: seq<digit>)
    requires |ip| % 4 == 0
    ensures Stream(Layout(ip, fp)) == Chars(ip) + Chars(PadRight(fp))
  {
    StreamAppend(LeftGroups(ip), FracGroups(fp));
    StreamOfLeftGroups(ip);
    FracGroupsPadded(fp);
    StreamOfLeftGroups(PadRight(fp));
  }

  /** Reading `|ip|` integer digits and `|fp|` fraction digits gives back exactly `ip` and `fp`. */
  lemma LayoutText(neg: bool, ip: seq<digit>, fp: seq<digit>)
    requires |ip| % 4 == 0
    ensures TextOf(neg, Stream(Layout(ip, fp)), |ip|, |fp|)
      == SignText(neg) + Chars(ip) + (if |fp| != 0 then "." + Chars(fp) else "")
  {
    var st := Stream(Layout(ip, fp));
    LayoutStream(ip, fp);
    TakeWithin(st, 0, |ip|);
    assert st[0..|ip|] == Chars(ip);
    if |fp| != 0 {
      TakeWithin(st, |ip|, |fp|);
      assert st[|ip|..|ip| + |fp|] == Chars(PadRight(fp))[..|fp|];
      assert Chars(PadRight(fp))[..|fp|] == Chars(fp);
    }
  }

  /** The header the layout of `ip` and `fp` is packed under. */
  function LayoutHeader(neg: bool, ip: seq<digit>, fp: seq<digit>): Header {
    Header(|Layout(ip, fp)|, |ip| / 4 - 1, if neg then NegSign else 0, |fp|)
  }

  /**
   * The parser reads whole integer groups `ip` and fraction digits `fp`,
   * packed with weight `|ip|/4 - 1` and dscale `|fp|`, as the decimal
   * those digits spell.
   */
  lemma ParseLayout(neg: bool, ip: seq<digit>, fp: seq<digit>)
    requires |ip| % 4 == 0 && |ip| + |fp| > 0
    requires PackNumeric(LayoutHeader(neg, ip, fp), Layout(ip, fp)).Ok?
    ensures ParseSpec(PackNumeric(LayoutHeader(neg, ip, fp), Layout(ip, fp)).value)
      == Ok(Finite(neg, Canon(ip + fp), -|fp|))
  {
    var h, vals := LayoutHeader(neg, ip, fp), Layout(ip, fp);
    calc {
      ParseSpec(PackNumeric(h, vals).value);
      { ParsePacked(h, vals); }
      DecimalLiteral(NumericText(h, vals));
      { assert IntCount(h.weight) == |ip| && (h.sign != 0) == neg; }
      DecimalLiteral(TextOf(neg, Stream(vals), |ip|, |fp|));
      { LayoutText(neg, ip, fp); }
      DecimalLiteral(SignText(neg) + Chars(ip) + (if |fp| != 0 then "." + Chars(fp) else ""));
      { LiteralOfChars(neg, ip, fp); }
      Ok(Finite(neg, Canon(ip + fp), -|fp|));
    }
  }

  /** `ParseLayout`, for bytes named by the caller. */
  lemma ParseLayoutBytes(neg: bool, ip: seq<digit>, fp: seq<digit>, b: seq<byte>)
    requires |ip| % 4 == 0 && |ip| + |fp| > 0
    requires PackNumeric(LayoutHeader(neg, ip, fp), Layout(ip, fp)) == Ok(b)
    ensures ParseSpec(b) == Ok(Finite(neg, Canon(ip + fp), -|fp|))
  {
    ParseLayout(neg, ip, fp);
  }

  /** Digit values written out as `sign digits[.fraction]` are read back by `Decimal`. */
  lemma LiteralOfChars(neg: bool, ip: seq<digit>, fp: seq<digit>)
    requires |ip| + |fp| > 0
    ensures DecimalLiteral(SignText(neg) + Chars(ip) + (if |fp| != 0 then "." + Chars(fp) else ""))
      == Ok(Finite(neg, Canon(ip + fp), -|fp|))
  {
    DecimalLiteralOf(neg, Chars(ip), Chars(fp), |fp| != 0);
    LiteralValueOfChars(neg, ip, fp);
  }

  /** The digit characters of `ip` and `fp` make the value they spell. */
  lemma LiteralValueOfChars(neg: bool, ip: seq<digit>, fp: seq<digit>)
    requires |ip| + |fp| > 0
    ensures LiteralValue(neg, Chars(ip), Chars(fp)) == Ok(Finite(neg, Canon(ip + fp), -|fp|))
  {
    NumeralsAreDigits(Chars(ip));
    NumeralsAreDigits(Chars(fp));
    NumeralsAreDigits(Chars(ip) + Chars(fp));
    DigitsOfChars(ip, fp);
  }

  /** Parsing what `struct.pack` produced reads back its header and groups. */
  lemma ParsePacked(h: Header, vals: seq<nat>)
    requires PackNumeric(h, vals).Ok? && h.sign != NaNSign && h.ndigits == |vals|
    ensures ParseSpec(PackNumeric(h, vals).value) == DecimalLiteral(NumericText(h, vals))
  {
    var b := PackNumeric(h, vals).value;
    PackNumericRead(h, vals);
    assert Slice(b, 8, 8 + 2 * h.ndigits) == PackGroups(vals);
    GroupsRoundTrip(vals);
  }

  /**
   * Where `format` cuts the coefficient into integer and fraction digits:
   * `digits[:exponent]` and `digits[exponent:]`, or no cut at exponent 0.
   */
  function Cut(x: Decimal): (c: nat)
    requires x.Finite?
    ensures c <= |x.digits|
    ensures x.exponent <= 0 && -x.exponent <= |x.digits| ==> c == |x.digits| + x.exponent
  {
    if x.exponent != 0 then SliceBound(x.exponent, |x.digits|) else |x.digits|
  }

  function IntDigits(x: Decimal): seq<digit>
    requires x.Finite?
  {
    x.digits[..Cut(x)]
  }

  function FracDigits(x: Decimal): seq<digit>
    requires x.Finite?
  {
    x.digits[Cut(x)..]
  }

  function Abs(v: int): nat {
    if v < 0 then -v else v
  }

  /**
   * `NumericType.format` as written: integer digits are grouped from the
   * left, the weight field is `max(0, groups - 1)`, dscale is `|exponent|`;
   * NaN and infinities have a string exponent, and `abs` raises TypeError.
   */
  function FormatSpec(x: Decimal): (r: Result<Formatted>)
    ensures r.Ok? <==> x.Finite? && PackNumeric(FormatHeader(x), FormatGroups(x)).Ok?
    ensures r.Ok? ==> (r.value.oid == 1700 && r.value.payload.Packed?
      && r.value.size == |r.value.payload.bytes| == 8 + 2 * |FormatGroups(x)|)
  {
    if !x.Finite? then Err(TypeError) else
    var b :- PackNumeric(FormatHeader(x), FormatGroups(x));
    Ok(Formatted(1700, Packed(b), 8 + 2 * |FormatGroups(x)|))
  }

  /** The groups `format` emits: integer groups, then right-padded fraction groups. */
  function FormatGroups(x: Decimal): seq<nat>
    requires x.Finite?
  {
    LeftGroups(IntDigits(x)) + FracGroups(FracDigits(x))
  }

  /** The header `format` packs: ndigits, max(0, weight - 1), sign, dscale. */
  function FormatHeader(x: Decimal): (h: Header)
    requires x.Finite?
    ensures h.ndigits == |FormatGroups(x)|
    ensures h.sign == (if x.negative then NegSign else 0) && h.dscale == Abs(x.exponent)
    ensures h.weight == if |LeftGroups(IntDigits(x))| > 0 then |LeftGroups(IntDigits(x))| - 1 else 0
  {
    var weight := |LeftGroups(IntDigits(x))|;
    Header(|FormatGroups(x)|, if weight - 1 > 0 then weight - 1 else 0, if x.negative then NegSign else 0, Abs(x.exponent))
  }

  /** Where `format` cuts: `digits[:exponent]` and `digits[exponent:]`, or no cut at exponent 0. */
  lemma FormatCutAt(x: Decimal)
    requires x.Finite?
    ensures IntDigits(x) == if x.exponent != 0 then Prefix(x.digits, x.exponent) else x.digits
    ensures FracDigits(x) == if x.exponent != 0 then Slice(x.digits, x.exponent, |x.digits|) else []
  {
  }

  /** One turn of the first loop of `format`: `digits[:4]` becomes a group. */
  lemma LeftGroupsStep(ds: seq<digit>)
    requires ds != []
    ensures LeftGroups(ds) == [DigitsValue(Prefix(ds, 4))] + LeftGroups(Slice(ds, 4, |ds|))
  {
    if |ds| <= 4 {
      assert Prefix(ds, 4) == ds;
      assert Slice(ds, 4, |ds|) == [];
    } else {
      assert Prefix(ds, 4) == ds[..4];
      assert Slice(ds, 4, |ds|) == ds[4..];
    }
  }

  /** One turn of the second loop: `(frac[:4] + ('0',) * 4)[:4]` becomes a group. */
  lemma FracGroupsStep(fs: seq<digit>)
    requires fs != []
    ensures FracGroups(fs) == [DigitsValue(Prefix(Prefix(fs, 4) + Zeros(4), 4))] + FracGroups(Slice(fs, 4, |fs|))
  {
    if |fs| >= 4 {
      FracGroupsFull(fs);
    } else {
      FracGroupsShort(fs);
    }
  }

  lemma FracGroupsFull(fs: seq<digit>)
    requires |fs| >= 4
    ensures FracGroups(fs) == [DigitsValue(Prefix(Prefix(fs, 4) + Zeros(4), 4))] + FracGroups(Slice(fs, 4, |fs|))
  {
    assert Prefix(fs, 4) == fs[..4];
    assert Prefix(fs[..4] + Zeros(4), 4) == fs[..4];
    assert Slice(fs, 4, |fs|) == fs[4..];
  }

  lemma FracGroupsShort(fs: seq<digit>)
    requires 0 < |fs| < 4
    ensures FracGroups(fs) == [DigitsValue(Prefix(Prefix(fs, 4) + Zeros(4), 4))] + FracGroups(Slice(fs, 4, |fs|))
  {
    assert Prefix(fs, 4) == fs;
    assert Prefix(fs + Zeros(4), 4) == (fs + Zeros(4))[..4];
    assert Slice(fs, 4, |fs|) == [];
  }

  /** Once the groups and the header are those of `FormatSpec`, packing them is its result. */
  lemma FormatTail(x: Decimal, h: Header, vals: seq<nat>)
    requires x.Finite? && vals == FormatGroups(x)
    requires h == Header(|vals|, if |LeftGroups(IntDigits(x))| - 1 > 0 then |LeftGroups(IntDigits(x))| - 1 else 0,
      if x.negative then NegSign else 0, Abs(x.exponent))
    ensures FormatSpec(x) == if PackNumeric(h, vals).Ok?
      then Ok(Formatted(1700, Packed(PackNumeric(h, vals).value), 8 + 2 * |vals|))
      else Err(PackNumeric(h, vals).error)
  {
  }

  /** Moving the head of what is left onto what is done keeps their concatenation. */
  lemma Shift(done: seq<nat>, g: nat, rest: seq<nat>)
    ensures done + ([g] + rest) == (done + [g]) + rest
  {
  }

  /** `NumericType.format`: the two while loops that cut `digits` and `frac` into groups. */
  method Format(x: Decimal) returns (r: Result<Formatted>)
    ensures r == FormatSpec(x)
  {
    if !x.Finite? {
      return Err(TypeError);
    }
    var dscale := Abs(x.exponent);
    var digits, frac;
    if x.exponent != 0 {
      frac := Slice(x.digits, x.exponent, |x.digits|);
      digits := Prefix(x.digits, x.exponent);
    } else {
      frac := [];
      digits := x.digits;
    }
    FormatCutAt(x);
    ghost var left := LeftGroups(digits);
    ghost var all := left + FracGroups(frac);
    var vals: seq<nat> := [];
    while digits != []
      invariant vals + LeftGroups(digits) == left
      decreases |digits|
    {
      LeftGroupsStep(digits);
      Shift(vals, DigitsValue(Prefix(digits, 4)), LeftGroups(Slice(digits, 4, |digits|)));
      vals := vals + [DigitsValue(Prefix(digits, 4))];
      digits := Slice(digits, 4, |digits|);
    }
    assert LeftGroups(digits) == [];
    assert vals == left;
    var weight := |vals|;
    while frac != []
      invariant vals + FracGroups(frac) == all
      decreases |frac|
    {
      FracGroupsStep(frac);
      var d := Prefix(Prefix(frac, 4) + Zeros(4), 4);
      Shift(vals, DigitsValue(d), FracGroups(Slice(frac, 4, |frac|)));
      frac := Slice(frac, 4, |frac|);
      vals := vals + [DigitsValue(d)];
    }
    assert vals == all;
    var h := Header(|vals|, if weight - 1 > 0 then weight - 1 else 0, if x.negative then NegSign else 0, dscale);
    FormatTail(x, h, vals);
    var b :- PackNumeric(h, vals);
    r := Ok(Formatted(1700, Packed(b), 8 + 2 * |vals|));
  }

  /** A parsed value is the decimal that whole integer groups `ip` and fraction `fp` spell. */
  lemma ParseLayoutAs(neg: bool, ip: seq<digit>, fp: seq<digit>, b: seq<byte>, d: Decimal)
    requires |ip| % 4 == 0 && |ip| + |fp| > 0
    requires PackNumeric(LayoutHeader(neg, ip, fp), Layout(ip, fp)) == Ok(b)
    requires d == Finite(neg, Canon(ip + fp), -|fp|)
    ensures ParseSpec(b) == Ok(d)
  {
    ParseLayoutBytes(neg, ip, fp, b);
  }

  /**
   * The layout `format` produces as written: the integer digits regrouped
   * from the left, each short group widened to four digits, then the fraction.
   */
  lemma WrittenLayout(x: Decimal, b: seq<byte>) returns (ip: seq<digit>, fp: seq<digit>)
    requires x.Finite? && x.exponent <= 0 && |x.digits| + x.exponent >= 1
    requires PackNumeric(FormatHeader(x), FormatGroups(x)) == Ok(b)
    ensures |ip| % 4 == 0 && |ip| + |fp| > 0
    ensures PackNumeric(LayoutHeader(x.negative, ip, fp), Layout(ip, fp)) == Ok(b)
    ensures ip == Regroup(x.digits[..|x.digits| + x.exponent]) && fp == x.digits[|x.digits| + x.exponent..]
    ensures -|fp| == x.exponent
  {
    var k := |x.digits| + x.exponent;
    ip, fp := Regroup(x.digits[..k]), x.digits[k..];
    FormatAsLayout(x);
  }

  /** What `format` packs is the layout of the regrouped digits. */
  lemma FormatAsLayout(x: Decimal)
    requires x.Finite? && x.exponent <= 0 && |x.digits| + x.exponent >= 1
    ensures var k := |x.digits| + x.exponent;
      var ip, F := Regroup(x.digits[..k]), x.digits[k..];
      FormatGroups(x) == Layout(ip, F) && FormatHeader(x) == LayoutHeader(x.negative, ip, F)
  {
    var k := |x.digits| + x.exponent;
    var I, F := x.digits[..k], x.digits[k..];
    assert IntDigits(x) == I && FracDigits(x) == F;
    LeftGroupsRegroup(I);
    RegroupCount(I);
    assert |LeftGroups(I)| >= 1;
    assert Abs(x.exponent) == |F|;
  }

  /** Regrouping yields exactly four digits per group of the original. */
  lemma RegroupCount(ds: seq<digit>)
    ensures |Regroup(ds)| / 4 == |LeftGroups(ds)|
  {
    LeftGroupsRegroup(ds);
  }

  /** The bytes `format` returns are its header and groups packed. */
  lemma FormatSpecBytes(x: Decimal, b: seq<byte>)
    requires FormatSpec(x) == Ok(Formatted(1700, Packed(b), |b|))
    ensures x.Finite? && PackNumeric(FormatHeader(x), FormatGroups(x)) == Ok(b)
  {
  }

  /**
   * As written, a value with integer digits comes back with its short
   * integer group widened to four digits: `Regroup` puts in the zeros
   * that `'{:04d}'` prints in front of it.
   */
  lemma FormatParseAsWritten(x: Decimal, b: seq<byte>)
    requires x.Finite? && x.exponent <= 0 && |x.digits| + x.exponent >= 1
    requires FormatSpec(x) == Ok(Formatted(1700, Packed(b), |b|))
    ensures ParseSpec(b) == Ok(Finite(x.negative,
      Canon(Regroup(x.digits[..|x.digits| + x.exponent]) + x.digits[|x.digits| + x.exponent..]), x.exponent))
  {
    FormatSpecBytes(x, b);
    var ip, fp := WrittenLayout(x, b);
    ParseLayoutAs(x.negative, ip, fp, b, Finite(x.negative,
      Canon(Regroup(x.digits[..|x.digits| + x.exponent]) + x.digits[|x.digits| + x.exponent..]), x.exponent));
  }

  /**
   * When the integer part is a whole, non-zero number of four-digit groups
   * (1000.02, say), format and parse are inverse.
   */
  lemma FormatRoundTripWholeGroups(x: Decimal, b: seq<byte>)
    requires Canonical(x) && x.exponent <= 0
    requires (|x.digits| + x.exponent) % 4 == 0 && |x.digits| + x.exponent >= 4
    requires FormatSpec(x) == Ok(Formatted(1700, Packed(b), |b|))
    ensures ParseSpec(b) == Ok(x)
  {
    var k := |x.digits| + x.exponent;
    WholeGroupsKept(x.digits, k);
    assert x == Finite(x.negative, Canon(Regroup(x.digits[..k]) + x.digits[k..]), x.exponent);
    FormatParseAsWritten(x, b);
  }

  /** Cutting whole groups off the front of a coefficient and regrouping them changes nothing. */
  lemma WholeGroupsKept(ds: seq<digit>, k: nat)
    requires k % 4 == 0 && k <= |ds|
    requires |ds| >= 1 && (|ds| == 1 || ds[0] != 0)
    ensures Canon(Regroup(ds[..k]) + ds[k..]) == ds
  {
    assert ds[..k] + ds[k..] == ds;
  }

  /** 12345.6 is sent as groups 1234, 0005, 6000 under weight 1 and read back as 12340005.6. */
  lemma FormatMisplacesShortGroup(b: seq<byte>)
    requires FormatSpec(Finite(false, [1, 2, 3, 4, 5, 6], -1)) == Ok(Formatted(1700, Packed(b), |b|))
    ensures ParseSpec(b) == Ok(Finite(false, [1, 2, 3, 4, 0, 0, 0, 5, 6], -1))
  {
    FormatParseAsWritten(Finite(false, [1, 2, 3, 4, 5, 6], -1), b);
    ShortGroupWidened();
  }

  /** The digits of 12345.6 after `format`'s widening of the short group 5 to 0005. */
  lemma ShortGroupWidened()
    ensures var ds: seq<digit> := [1, 2, 3, 4, 5, 6];
      Canon(Regroup(ds[..5]) + ds[5..]) == [1, 2, 3, 4, 0, 0, 0, 5, 6]
  {
    var ds: seq<digit> := [1, 2, 3, 4, 5, 6];
    assert ds[..5] == [1, 2, 3, 4, 5] && ds[5..] == [6];
    assert Regroup([5]) == [0, 0, 0, 5];
    assert Regroup(ds[..5]) + ds[5..] == [1, 2, 3, 4, 0, 0, 0, 5, 6];
  }

  /** The value 12345.6 does have an encoding: `format` succeeds on it. */
  lemma FormatShortGroupEncodes()
    ensures FormatSpec(Finite(false, [1, 2, 3, 4, 5, 6], -1)).Ok?
  {
    var x := Finite(false, [1, 2, 3, 4, 5, 6], -1);
    assert IntDigits(x) == [1, 2, 3, 4, 5] && FracDigits(x) == [6];
    assert |FormatGroups(x)| == 3;
  }

  // ---------------------------------------------------------------- every finite decimal, as written

  /** `n` calls of `next(src)` on a generator that yields `ds` and then '0' for ever. */
  function Fill(ds: seq<digit>, n: nat): (f: seq<digit>)
    ensures |f| == n
  {
    seq(n, k requires 0 <= k < n => if k < |ds| then ds[k] else 0)
  }

  /** When the stream is longer than what is read, the read is a prefix of it. */
  lemma FillWithin(ds: seq<digit>, n: nat)
    requires n <= |ds|
    ensures Fill(ds, n) == ds[..n]
  {
  }

  /** When the stream runs out, the rest of the read is '0's. */
  lemma FillBeyond(ds: seq<digit>, n: nat)
    requires |ds| <= n
    ensures Fill(ds, n) == ds + Zeros(n - |ds|)
  {
    var f, g := Fill(ds, n), ds + Zeros(n - |ds|);
    assert forall k :: 0 <= k < n ==> f[k] == g[k];
  }

  /**
   * The decimal `parse` makes of what `format` writes for a finite `x`:
   * it reads the integer groups as `'{:04d}'` prints them, then the
   * right-padded fraction groups, `(weight+1)*4 + dscale` digits in all
   * with '0' once the groups run out, under the exponent `-|exponent|`.
   */
  function Reread(x: Decimal): Decimal
    requires x.Finite?
  {
    var I := Regroup(IntDigits(x));
    Finite(x.negative, Canon(Fill(I + PadRight(FracDigits(x)), (if I == [] then 4 else |I|) + Abs(x.exponent))),
      -(Abs(x.exponent) as int))
  }

  /** The digits `n` calls of `next(src)` produce. */
  function ReadDigits(st: seq<numeral>, n: nat): seq<digit>
  {
    NumeralsAreDigits(Take(st, 0, n));
    DigitsOf(Take(st, 0, n))
  }

  /** The decimal spelled by the digits the parser reads under header `h` from groups `vals`. */
  function ReadValue(h: Header, vals: seq<nat>): Decimal {
    Finite(h.sign != 0, Canon(ReadDigits(Stream(vals), IntCount(h.weight) + h.dscale)), -(h.dscale as int))
  }

  /** Packed groups with at least one digit to read are parsed as the decimal those digits spell. */
  lemma ReadPacked(h: Header, vals: seq<nat>, b: seq<byte>)
    requires PackNumeric(h, vals) == Ok(b) && h.sign != NaNSign && h.ndigits == |vals|
    requires IntCount(h.weight) + h.dscale > 0
    ensures ParseSpec(b) == Ok(ReadValue(h, vals))
  {
    ParsePackedBytes(h, vals, b);
    LiteralRead(h, vals);
  }

  /** `ParsePacked`, for bytes named by the caller. */
  lemma ParsePackedBytes(h: Header, vals: seq<nat>, b: seq<byte>)
    requires PackNumeric(h, vals) == Ok(b) && h.sign != NaNSign && h.ndigits == |vals|
    ensures ParseSpec(b) == DecimalLiteral(NumericText(h, vals))
  {
    ParsePacked(h, vals);
  }

  /** The text the parser builds from a header and groups, as a decimal. */
  lemma LiteralRead(h: Header, vals: seq<nat>)
    requires IntCount(h.weight) + h.dscale > 0
    ensures DecimalLiteral(NumericText(h, vals)) == Ok(ReadValue(h, vals))
  {
    ParseReadsDigits(h, vals);
    ReadResult(DecimalLiteral(NumericText(h, vals)), h, vals);
  }

  /** A parse result with the sign, exponent and digits `ParseReadsDigits` gives is `ReadValue`. */
  lemma ReadResult(r: Result<Decimal>, h: Header, vals: seq<nat>)
    requires IntCount(h.weight) + h.dscale > 0
    requires r.Ok? ==> r.value.Finite?
    requires var digits := Take(Stream(vals), 0, IntCount(h.weight) + h.dscale);
      (r.Err? <==> |digits| == 0)
      && (r.Ok? ==> r.value.negative == (h.sign != 0) && r.value.exponent == -(h.dscale as int))
      && (r.Ok? ==> (NumeralsAreDigits(digits); r.value.digits == Canon(DigitsOf(digits))))
    ensures r == Ok(ReadValue(h, vals))
  {
    var n := IntCount(h.weight) + h.dscale;
    assert |Take(Stream(vals), 0, n)| == n;
    var v := r.value;
    assert v.digits == Canon(ReadDigits(Stream(vals), n));
  }

  /** The groups `format` writes stream back as the regrouped integer digits, then the padded fraction. */
  lemma FormatStream(x: Decimal)
    requires x.Finite?
    ensures Stream(FormatGroups(x)) == Chars(Regroup(IntDigits(x)) + PadRight(FracDigits(x)))
  {
    var I, F := IntDigits(x), FracDigits(x);
    StreamAppend(LeftGroups(I), FracGroups(F));
    LeftGroupsRegroup(I);
    StreamOfLeftGroups(Regroup(I));
    FracGroupsPadded(F);
    StreamOfLeftGroups(PadRight(F));
    CharsAppend(Regroup(I), PadRight(F));
  }

  /** Reading `n` characters of the text of `ds`, then '0's, spells `Fill(ds, n)`. */
  lemma TakeChars(ds: seq<digit>, n: nat)
    ensures Take(Chars(ds), 0, n) == Chars(Fill(ds, n))
  {
    var t, c := Take(Chars(ds), 0, n), Chars(Fill(ds, n));
    forall k | 0 <= k < n
      ensures t[k] == c[k]
    {
      if k >= |ds| {
        assert Fill(ds, n)[k] == 0;
      }
    }
  }

  lemma DigitsOfCharsOf(a: seq<digit>)
    ensures DigitsOf(Chars(a)) == a
  {
    DigitsOfChars(a, []);
    assert Chars(a) + Chars([]) == Chars(a);
    assert a + [] == a;
  }

  /** The digits read from what `format` writes are those of its regrouped layout, then '0's. */
  lemma FormatReadDigits(x: Decimal, n: nat)
    requires x.Finite?
    ensures ReadDigits(Stream(FormatGroups(x)), n) == Fill(Regroup(IntDigits(x)) + PadRight(FracDigits(x)), n)
  {
    var S := Regroup(IntDigits(x)) + PadRight(FracDigits(x));
    FormatStream(x);
    TakeChars(S, n);
    DigitsOfCharsOf(Fill(S, n));
  }

  /**
   * Every value `format` accepts is read back by `parse`, and as
   * `Reread(x)`: the general form of what the cases below show.
   */
  lemma FormatParseAll(x: Decimal, b: seq<byte>)
    requires FormatSpec(x) == Ok(Formatted(1700, Packed(b), |b|))
    ensures x.Finite? && ParseSpec(b) == Ok(Reread(x))
  {
    FormatSpecBytes(x, b);
    RereadPacked(x, b);
  }

  lemma RereadPacked(x: Decimal, b: seq<byte>)
    requires x.Finite? && PackNumeric(FormatHeader(x), FormatGroups(x)) == Ok(b)
    ensures ParseSpec(b) == Ok(Reread(x))
  {
    var h, vals := FormatHeader(x), FormatGroups(x);
    FormatHeaderReads(x);
    RereadDigits(x);
    ReadPacked(h, vals, b);
  }

  /** `Reread(x)` in terms of the digits the parser reads from the groups `format` writes. */
  lemma RereadDigits(x: Decimal)
    requires x.Finite?
    ensures Reread(x) == ReadValue(FormatHeader(x), FormatGroups(x))
  {
    var h, I, F := FormatHeader(x), Regroup(IntDigits(x)), PadRight(FracDigits(x));
    var n := IntCount(h.weight) + h.dscale;
    FormatHeaderCount(x);
    FormatReadDigits(x, n);
    RereadOf(x, I, F, n);
  }

  /** The number of digits `parse` reads under the header `format` writes. */
  lemma FormatHeaderCount(x: Decimal)
    requires x.Finite?
    ensures IntCount(FormatHeader(x).weight) + FormatHeader(x).dscale
      == (if Regroup(IntDigits(x)) == [] then 4 else |Regroup(IntDigits(x))|) + Abs(x.exponent)
  {
    var I := Regroup(IntDigits(x));
    RegroupCount(IntDigits(x));
    assert IntCount(FormatHeader(x).weight) == if I == [] then 4 else |I|;
  }

  /** The header `format` writes has a sign `parse` reads as a number, and at least one group of digits to read. */
  lemma FormatHeaderReads(x: Decimal)
    requires x.Finite?
    ensures FormatHeader(x).sign != NaNSign && (FormatHeader(x).sign != 0 <==> x.negative)
    ensures IntCount(FormatHeader(x).weight) + FormatHeader(x).dscale >= 4
  {
  }

  /** Where `format` cuts a pure fraction: no integer digit, every digit a fraction digit, weight 0. */
  lemma PureFractionParts(x: Decimal)
    requires x.Finite? && x.exponent < 0 && |x.digits| + x.exponent <= 0
    ensures IntDigits(x) == [] && FracDigits(x) == x.digits
    ensures Regroup(IntDigits(x)) == [] && PadRight(FracDigits(x)) == PadRight(x.digits)
    ensures Abs(x.exponent) == -x.exponent
  {
    assert IntDigits(x) == [];
  }

  /**
   * A pure fraction (0.05, say) has no integer group, so `format` writes
   * weight 0 and `parse` takes its first fraction group for the integer
   * part: the digits come back right-padded to whole groups and read
   * `4 + dscale` at a time, with '0' once they run out.
   */
  lemma FormatPureFraction(x: Decimal, b: seq<byte>)
    requires x.Finite? && x.exponent < 0 && |x.digits| + x.exponent <= 0
    requires FormatSpec(x) == Ok(Formatted(1700, Packed(b), |b|))
    ensures ParseSpec(b) == Ok(Finite(x.negative, Canon(Fill(PadRight(x.digits), 4 - x.exponent)), x.exponent))
  {
    FormatParseAll(x, b);
    PureFractionReread(x);
  }

  lemma PureFractionReread(x: Decimal)
    requires x.Finite? && x.exponent < 0 && |x.digits| + x.exponent <= 0
    ensures Reread(x) == Finite(x.negative, Canon(Fill(PadRight(x.digits), 4 - x.exponent)), x.exponent)
  {
    var P := PadRight(x.digits);
    PureFractionParts(x);
    RereadOf(x, [], P, 4 - x.exponent);
    assert [] + P == P;
  }

  /** `Reread(x)` once its regrouped integer digits `I` and padded fraction `F` are known. */
  lemma RereadOf(x: Decimal, I: seq<digit>, F: seq<digit>, n: nat)
    requires x.Finite? && I == Regroup(IntDigits(x)) && F == PadRight(FracDigits(x))
    requires n == (if I == [] then 4 else |I|) + Abs(x.exponent)
    ensures Reread(x) == Finite(x.negative, Canon(Fill(I + F, n)), -(Abs(x.exponent) as int))
  {
  }

  /** 0.05 is sent as the group 5000 under weight 0 and read back as 5000.00. */
  lemma PureFractionMisread(b: seq<byte>)
    requires FormatSpec(Finite(false, [5], -2)) == Ok(Formatted(1700, Packed(b), |b|))
    ensures ParseSpec(b) == Ok(Finite(false, [5, 0, 0, 0, 0, 0], -2))
  {
    FormatPureFraction(Finite(false, [5], -2), b);
    PureFractionDigits();
  }

  lemma PureFractionDigits()
    ensures Canon(Fill(PadRight([5]), 4 - -2)) == [5, 0, 0, 0, 0, 0]
  {
    assert PadRight([5]) == [5, 0, 0, 0];
    FillBeyond([5, 0, 0, 0], 6);
    assert [5, 0, 0, 0] + Zeros(2) == [5, 0, 0, 0, 0, 0];
  }

  /** The value 0.05 does have an encoding: `format` succeeds on it. */
  lemma PureFractionEncodes()
    ensures FormatSpec(Finite(false, [5], -2)).Ok?
  {
    var x := Finite(false, [5], -2);
    assert IntDigits(x) == [] && FracDigits(x) == [5];
    assert |FormatGroups(x)| == 1;
  }

  /**
   * A positive exponent (1E+5, say) is written as a dscale of the same
   * size: the zeros it stands for are read as fraction digits, so the
   * value comes back as the regrouped coefficient alone.
   */
  lemma FormatPositiveExponent(x: Decimal, b: seq<byte>)
    requires x.Finite? && |x.digits| >= 1 && x.exponent >= |x.digits|
    requires FormatSpec(x) == Ok(Formatted(1700, Packed(b), |b|))
    ensures ParseSpec(b) == Ok(Finite(x.negative, Canon(Regroup(x.digits) + Zeros(x.exponent)), -x.exponent))
  {
    FormatParseAll(x, b);
    PositiveExponentReread(x);
  }

  lemma PositiveExponentReread(x: Decimal)
    requires x.Finite? && |x.digits| >= 1 && x.exponent >= |x.digits|
    ensures Reread(x) == Finite(x.negative, Canon(Regroup(x.digits) + Zeros(x.exponent)), -x.exponent)
  {
    PositiveExponentParts(x);
    assert Regroup(x.digits) + PadRight([]) == Regroup(x.digits);
    FillBeyond(Regroup(x.digits), |Regroup(x.digits)| + x.exponent);
  }

  /** Where `format` cuts under a large positive exponent: every digit is an integer digit, no fraction. */
  lemma PositiveExponentParts(x: Decimal)
    requires x.Finite? && |x.digits| >= 1 && x.exponent >= |x.digits|
    ensures IntDigits(x) == x.digits && FracDigits(x) == []
  {
  }

  /** 1E+5 is read back as 1.00000. */
  lemma PositiveExponentMisread(b: seq<byte>)
    requires FormatSpec(Finite(false, [1], 5)) == Ok(Formatted(1700, Packed(b), |b|))
    ensures ParseSpec(b) == Ok(Finite(false, [1, 0, 0, 0, 0, 0], -5))
  {
    FormatPositiveExponent(Finite(false, [1], 5), b);
    PositiveExponentDigits();
  }

  lemma PositiveExponentDigits()
    ensures Canon(Regroup([1]) + Zeros(5)) == [1, 0, 0, 0, 0, 0]
  {
    assert Regroup([1]) == [0, 0, 0, 1];
    assert Regroup([1]) + Zeros(5) == Zeros(3) + [1, 0, 0, 0, 0, 0];
    CanonZeros(3, [1, 0, 0, 0, 0, 0]);
  }

  /** The value 1E+5 does have an encoding: `format` succeeds on it. */
  lemma PositiveExponentEncodes()
    ensures FormatSpec(Finite(false, [1], 5)).Ok?
  {
    var x := Finite(false, [1], 5);
    assert IntDigits(x) == [1] && FracDigits(x) == [];
    assert |FormatGroups(x)| == 1;
  }

  // ---------------------------------------------------------------- corrected format

  /** The digits left of the decimal point, with the zeros a positive exponent stands for. */
  function FixedIntDigits(x: Decimal): seq<digit>
    requires x.Finite?
  {
    if x.exponent >= 0 then x.digits + Zeros(x.exponent)
    else if -x.exponent <= |x.digits| then x.digits[..|x.digits| + x.exponent]
    else []
  }

  /** The `-exponent` digits right of the decimal point, zero-filled on the left. */
  function FixedFracDigits(x: Decimal): (fp: seq<digit>)
    requires x.Finite?
    ensures |fp| == if x.exponent < 0 then -x.exponent else 0
  {
    if x.exponent >= 0 then []
    else if -x.exponent <= |x.digits| then x.digits[|x.digits| + x.exponent..]
    else Zeros(-x.exponent - |x.digits|) + x.digits
  }

  /** Left-padding to a whole number of groups, so that groups align on the decimal point. */
  function PadLeft(ds: seq<digit>): (p: seq<digit>)
    ensures |p| % 4 == 0
  {
    Zeros((4 - |ds| % 4) % 4) + ds
  }

  /**
   * `NumericType.format` with base-10000 groups aligned on the decimal
   * point, weight = integer groups - 1 and dscale = number of fraction digits.
   */
  function FormatFixed(x: Decimal): (r: Result<Formatted>)
    ensures !x.Finite? ==> r == Err(TypeError)
    ensures r.Ok? ==> (r.value.oid == 1700 && r.value.payload.Packed?
      && r.value.size == |r.value.payload.bytes|)
  {
    if !x.Finite? then Err(TypeError) else
    var ip, fp := PadLeft(FixedIntDigits(x)), FixedFracDigits(x);
    var b :- PackNumeric(LayoutHeader(x.negative, ip, fp), Layout(ip, fp));
    Ok(Formatted(1700, Packed(b), 8 + 2 * |Layout(ip, fp)|))
  }

  /**
   * The corrected format is undone by parse for every finite decimal the
   * header can describe: exactly, for a non-positive exponent; as the same
   * number written without exponent, for a positive one.
   */
  lemma FormatFixedRoundTrip(x: Decimal, b: seq<byte>)
    requires Canonical(x) && FormatFixed(x) == Ok(Formatted(1700, Packed(b), |b|))
    ensures x.exponent <= 0 ==> ParseSpec(b) == Ok(x)
    ensures x.exponent > 0 ==> ParseSpec(b) == Ok(Finite(x.negative, Canon(x.digits + Zeros(x.exponent)), 0))
  {
    var ip, fp := FixedLayout(x, b);
    if x.exponent <= 0 {
      ParseLayoutAs(x.negative, ip, fp, b, x);
    } else {
      ParseLayoutAs(x.negative, ip, fp, b, Finite(x.negative, Canon(x.digits + Zeros(x.exponent)), 0));
    }
  }

  /** The integer and fraction digits the corrected format lays out for `x`. */
  lemma FixedLayout(x: Decimal, b: seq<byte>) returns (ip: seq<digit>, fp: seq<digit>)
    requires Canonical(x) && FormatFixed(x) == Ok(Formatted(1700, Packed(b), |b|))
    ensures |ip| % 4 == 0 && |ip| + |fp| > 0
    ensures PackNumeric(LayoutHeader(x.negative, ip, fp), Layout(ip, fp)) == Ok(b)
    ensures -|fp| == (if x.exponent <= 0 then x.exponent else 0)
    ensures Canon(ip + fp) == (if x.exponent <= 0 then x.digits else Canon(x.digits + Zeros(x.exponent)))
  {
    ip, fp := PadLeft(FixedIntDigits(x)), FixedFracDigits(x);
    FixedBytes(x, b);
    FixedDigits(x);
  }

  lemma FixedBytes(x: Decimal, b: seq<byte>)
    requires x.Finite? && FormatFixed(x) == Ok(Formatted(1700, Packed(b), |b|))
    ensures PackNumeric(LayoutHeader(x.negative, PadLeft(FixedIntDigits(x)), FixedFracDigits(x)),
      Layout(PadLeft(FixedIntDigits(x)), FixedFracDigits(x))) == Ok(b)
  {
  }

  /** The digits the corrected layout spells are the coefficient, up to leading zeros. */
  lemma FixedDigits(x: Decimal)
    requires Canonical(x)
    ensures var ip, fp := PadLeft(FixedIntDigits(x)), FixedFracDigits(x);
      |ip| + |fp| > 0
      && -|fp| == (if x.exponent <= 0 then x.exponent else 0)
      && Canon(ip + fp) == (if x.exponent <= 0 then x.digits else Canon(x.digits + Zeros(x.exponent)))
  {
    if x.exponent >= 0 {
      FixedDigitsWhole(x);
    } else if -x.exponent <= |x.digits| {
      FixedDigitsCut(x);
    } else {
      FixedDigitsFraction(x);
    }
  }

  lemma FixedDigitsWhole(x: Decimal)
    requires Canonical(x) && x.exponent >= 0
    ensures Canon(PadLeft(FixedIntDigits(x)) + FixedFracDigits(x)) == Canon(x.digits + Zeros(x.exponent))
    ensures x.exponent == 0 ==> Canon(PadLeft(FixedIntDigits(x)) + FixedFracDigits(x)) == x.digits
  {
    var I := FixedIntDigits(x);
    var z := (4 - |I| % 4) % 4;
    assert PadLeft(I) + FixedFracDigits(x) == Zeros(z) + (x.digits + Zeros(x.exponent));
    CanonZeros(z, x.digits + Zeros(x.exponent));
    if x.exponent == 0 {
      assert x.digits + Zeros(x.exponent) == x.digits;
    }
  }

  lemma FixedDigitsCut(x: Decimal)
    requires Canonical(x) && x.exponent < 0 && -x.exponent <= |x.digits|
    ensures Canon(PadLeft(FixedIntDigits(x)) + FixedFracDigits(x)) == x.digits
  {
    var I := FixedIntDigits(x);
    var z := (4 - |I| % 4) % 4;
    assert PadLeft(I) + FixedFracDigits(x) == Zeros(z) + x.digits;
    CanonZeros(z, x.digits);
  }

  lemma FixedDigitsFraction(x: Decimal)
    requires Canonical(x) && -x.exponent > |x.digits|
    ensures Canon(PadLeft(FixedIntDigits(x)) + FixedFracDigits(x)) == x.digits
  {
    assert PadLeft(FixedIntDigits(x)) + FixedFracDigits(x) == Zeros(-x.exponent - |x.digits|) + x.digits;
    CanonZeros(-x.exponent - |x.digits|, x.digits);
  }
}
