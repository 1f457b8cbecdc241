/**
 * The pieces of Python's runtime semantics that the driver relies on:
 * exceptions (as values), slicing with clamped and negative bounds,
 * list indexing with negative indices, and integer/decimal text.
 */
module Py {

  datatype Option<+T> = None | Some(value: T)

  /** The DB-API exception classes the driver raises (egress.exceptions). */
  datatype DbKind =
    | Error            // the base class, used by requires_open
    | Interface
    | Database
    | Data
    | Operational
    | Integrity
    | Internal
    | Programming
    | NotSupported

  /** A Python exception, raised by the driver or by the runtime under it. */
  datatype Exception =
    | StructError          // struct.pack / struct.unpack refused its input
    | ValueError
    | OverflowError        // a date or timedelta out of Python's range
    | KeyError
    | IndexError
    | AssertionError
    | InvalidOperation     // decimal.Decimal refused a literal
    | TypeError
    | AttributeError       // an attribute looked up on None
    | RecursionError
    | Db(kind: DbKind, msg: string)

  datatype Result<+T> = Ok(value: T) | Err(error: Exception) {
    predicate IsFailure() { Err? }
    function PropagateFailure<U>(): Result<U>
      requires Err?
    {
      Err(error)
    }
    function Extract(): T
      requires Ok?
    {
      value
    }
  }

  /** Where a Python slice bound `i` lands in a sequence of length `n`. */
  function SliceBound(i: int, n: nat): (r: nat)
    ensures r <= n
    ensures 0 <= i <= n ==> r == i
    ensures i > n ==> r == n
    ensures i < 0 && -i <= n ==> r == n + i
  {
    if i < 0 then (if i + n < 0 then 0 else i + n) else if i > n then n else i
  }

  /** Python's `s[a:b]`. */
  function Slice<T>(s: seq<T>, a: int, b: int): (r: seq<T>)
    ensures SliceBound(a, |s|) + |r| <= |s|
    ensures 0 <= a <= b <= |s| ==> r == s[a..b]
  {
    var lo, hi := SliceBound(a, |s|), SliceBound(b, |s|);
    if lo <= hi then s[lo..hi] else []
  }

  /** Python's `s[:n]`. */
  function Prefix<T>(s: seq<T>, n: int): (r: seq<T>)
    ensures 0 <= n <= |s| ==> r == s[..n]
    ensures n >= |s| ==> r == s
  {
    Slice(s, 0, n)
  }

  /** The position `xs[i]` refers to in a list of length `n`, if any. */
  function ListIndex(i: int, n: nat): (r: Option<nat>)
    ensures r.Some? <==> 0 <= i + n && i < n
    ensures r.Some? ==> r.value < n && (r.value == i || r.value == i + n)
  {
    if 0 <= i < n then Some(i) else if 0 <= i + n && i < 0 then Some(i + n) else None
  }

  /** Python's `xs[i] = x`, which raises IndexError outside `-len <= i < len`. */
  function ListAssign<T>(xs: seq<T>, i: int, x: T): (r: Result<seq<T>>)
    ensures r.Ok? <==> 0 <= i + |xs| && i < |xs|
    ensures r.Ok? ==> |r.value| == |xs|
    ensures r.Ok? && 0 <= i ==> r.value[i] == x
    ensures r.Ok? && i < 0 ==> r.value[|xs| + i] == x
    ensures r.Ok? ==> forall k :: 0 <= k < |xs| && k != i && k != |xs| + i ==> r.value[k] == xs[k]
  {
    match ListIndex(i, |xs|)
    case None => Err(IndexError)
    case Some(k) => Ok(xs[k := x])
  }

  predicate IsDigit(c: char) { '0' <= c <= '9' }

  function DigitChar(d: nat): (c: char)
    requires d < 10
    ensures IsDigit(c)
  {
    ['0', '1', '2', '3', '4', '5', '6', '7', '8', '9'][d]
  }

  function DigitValue(c: char): (d: nat)
    requires IsDigit(c)
    ensures d < 10 && DigitChar(d) == c
  {
    (c as int - '0' as int)
  }

  /** `str(n)` for a natural number: shortest decimal text. */
  function NatText(n: nat): (s: string)
    ensures |s| >= 1
    ensures forall k :: 0 <= k < |s| ==> IsDigit(s[k])
    ensures TextNat(s) == n
  {
    if n < 10 then [DigitChar(n)] else NatText(n / 10) + [DigitChar(n % 10)]
  }

  /** The number a string of decimal digits denotes (`int(s)`). */
  function TextNat(s: string): nat
    requires forall k :: 0 <= k < |s| ==> IsDigit(s[k])
  {
    if s == [] then 0 else TextNat(s[..|s| - 1]) * 10 + DigitValue(s[|s| - 1])
  }

  /** `int(s)` for the text libpq hands back: decimal digits, else ValueError. */
  function ParseNat(s: string): (r: Result<nat>)
    ensures r.Ok? <==> s != [] && forall k :: 0 <= k < |s| ==> IsDigit(s[k])
  {
    if s != [] && forall k :: 0 <= k < |s| ==> IsDigit(s[k]) then Ok(TextNat(s)) else Err(ValueError)
  }

  lemma {:induction false} ParseNatText(n: nat)
    ensures ParseNat(NatText(n)) == Ok(n)
  {
  }
}
