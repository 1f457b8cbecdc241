/**
 * Python's `struct` module for the big-endian ('!') integer formats the
 * codec uses: '?', '!h', '!H', '!i', '!q'.  `unpack` insists on exactly the
 * format's size and `pack` on a value in the format's range; both raise
 * struct.error otherwise.
 */
module Wire {
  import opened Py

  type byte = x: int | 0 <= x < 256

  function Pow256(n: nat): (p: nat)
    ensures p >= 1
  {
    if n == 0 then 1 else 256 * Pow256(n - 1)
  }

  /** Big-endian unsigned value of a byte string. */
  function DecodeUnsigned(s: seq<byte>): (n: nat)
    ensures n < Pow256(|s|)
  {
    if s == [] then 0 else DecodeUnsigned(s[..|s| - 1]) * 256 + s[|s| - 1]
  }

  /** Big-endian unsigned encoding of `n` in `width` bytes. */
  function EncodeUnsigned(n: nat, width: nat): (s: seq<byte>)
    requires n < Pow256(width)
    ensures |s| == width
    ensures DecodeUnsigned(s) == n
  {
    if width == 0 then [] else
      var s := EncodeUnsigned(n / 256, width - 1) + [n % 256];
      assert s[..|s| - 1] == EncodeUnsigned(n / 256, width - 1);
      s
  }

  /** Half the range of a `width`-byte integer: signed values lie in [-Half, Half). */
  function Half(width: nat): nat
    requires width >= 1
  {
    128 * Pow256(width - 1)
  }

  predicate InSigned(v: int, width: nat)
    requires width >= 1
  {
    0 <= v + Half(width) && v < Half(width)
  }

  /** Big-endian two's-complement value of a non-empty byte string. */
  function DecodeSigned(s: seq<byte>): (v: int)
    requires |s| >= 1
    ensures InSigned(v, |s|)
  {
    var u := DecodeUnsigned(s);
    if u >= Half(|s|) then u - Pow256(|s|) else u
  }

  /** Big-endian two's-complement encoding of `v` in `width` bytes. */
  function EncodeSigned(v: int, width: nat): (s: seq<byte>)
    requires width >= 1 && InSigned(v, width)
    ensures |s| == width
    ensures DecodeSigned(s) == v
  {
    EncodeUnsigned(if v < 0 then v + Pow256(width) else v, width)
  }

  /** `struct.unpack('!<signed format of width bytes>', s)[0]`. */
  function UnpackSigned(s: seq<byte>, width: nat): (r: Result<int>)
    requires width >= 1
    ensures r.Ok? <==> |s| == width
    ensures r.Ok? ==> InSigned(r.value, width)
  {
    if |s| == width then Ok(DecodeSigned(s)) else Err(StructError)
  }

  /** `struct.unpack('!<unsigned format of width bytes>', s)[0]`. */
  function UnpackUnsigned(s: seq<byte>, width: nat): (r: Result<nat>)
    ensures r.Ok? <==> |s| == width
    ensures r.Ok? ==> r.value < Pow256(width)
  {
    if |s| == width then Ok(DecodeUnsigned(s)) else Err(StructError)
  }

  /** `struct.pack('!<signed format of width bytes>', v)`. */
  function PackSigned(v: int, width: nat): (r: Result<seq<byte>>)
    requires width >= 1
    ensures r.Ok? <==> InSigned(v, width)
    ensures r.Ok? ==> |r.value| == width
  {
    if InSigned(v, width) then Ok(EncodeSigned(v, width)) else Err(StructError)
  }

  /** `struct.pack('!<unsigned format of width bytes>', v)`. */
  function PackUnsigned(v: int, width: nat): (r: Result<seq<byte>>)
    ensures r.Ok? <==> 0 <= v < Pow256(width)
    ensures r.Ok? ==> |r.value| == width
  {
    if 0 <= v < Pow256(width) then Ok(EncodeUnsigned(v, width)) else Err(StructError)
  }

  /** A signed value packed and unpacked with the same width comes back unchanged. */
  lemma SignedRoundTrip(v: int, width: nat)
    requires width >= 1 && InSigned(v, width)
    ensures PackSigned(v, width).Ok?
    ensures UnpackSigned(PackSigned(v, width).value, width) == Ok(v)
  {
  }

  /** An unsigned value packed and unpacked with the same width comes back unchanged. */
  lemma UnsignedRoundTrip(v: nat, width: nat)
    requires v < Pow256(width)
    ensures PackUnsigned(v, width).Ok?
    ensures UnpackUnsigned(PackUnsigned(v, width).value, width) == Ok(v)
  {
  }

  /** Python's `int.bit_length()`: bits of |v| without sign and leading zeros. */
  function BitLength(v: int): (n: nat)
    ensures v == 0 <==> n == 0
    decreases if v < 0 then 1 - v else v
  {
    if v < 0 then BitLength(-v) else if v == 0 then 0 else 1 + BitLength(v / 2)
  }

  function Pow2(n: nat): (p: nat)
    ensures p >= 1
  {
    if n == 0 then 1 else 2 * Pow2(n - 1)
  }

  /** `v.bit_length() <= n` exactly when |v| < 2^n. */
  lemma {:induction false} BitLengthBound(v: int, n: nat)
    ensures BitLength(v) <= n <==> 0 < v + Pow2(n) && v < Pow2(n)
    decreases if v < 0 then 1 - v else v
  {
    if v < 0 {
      BitLengthBound(-v, n);
    } else if v == 0 {
    } else if n == 0 {
    } else {
      BitLengthBound(v / 2, n - 1);
    }
  }

  /** The signed range of `width` bytes is the range of `8 * width - 1` magnitude bits. */
  lemma HalfAsPow2(width: nat)
    requires width >= 1
    ensures Half(width) == Pow2(8 * width - 1)
  {
    Pow256AsPow2(width - 1);
    var m := 8 * (width - 1);
    assert Pow2(m + 7) == 2 * Pow2(m + 6) == 4 * Pow2(m + 5) == 8 * Pow2(m + 4);
    assert Pow2(m + 4) == 2 * Pow2(m + 3) == 4 * Pow2(m + 2) == 8 * Pow2(m + 1) == 16 * Pow2(m);
  }

  lemma Pow256AsPow2(width: nat)
    ensures Pow256(width) == Pow2(8 * width)
  {
    if width > 0 {
      Pow256AsPow2(width - 1);
      assert Pow2(8 * width) == 256 * Pow2(8 * (width - 1)) by {
        var m := 8 * (width - 1);
        assert Pow2(m + 8) == 2 * Pow2(m + 7) == 4 * Pow2(m + 6) == 8 * Pow2(m + 5) == 16 * Pow2(m + 4);
        assert Pow2(m + 4) == 2 * Pow2(m + 3) == 4 * Pow2(m + 2) == 8 * Pow2(m + 1) == 16 * Pow2(m);
      }
    }
  }
}
