/**
 * The rewriting `Cursor.execute` applies to its SQL text when it is given
 * parameters: every `%s` placeholder, from the left, becomes `$1`, `$2`, ...
 * (the positional form the server understands), and then every `%%` becomes
 * a single `%`.
 */
module Placeholders {
  import opened Py

  /** A `%s` starts at position `i` of `s`. */
  predicate At(s: string, i: int)
  {
    0 <= i && i + 1 < |s| && s[i] == '%' && s[i + 1] == 's'
  }

  /** `'%s' not in s`. */
  ghost predicate NoPlaceholder(s: string)
  {
    forall i :: !At(s, i)
  }

  /** The first `%s` at or after `from`, as `str.find` locates it. */
  function FindFrom(s: string, from: nat): (r: Option<nat>)
    ensures r.Some? ==> from <= r.value && At(s, r.value)
    ensures r.Some? ==> forall j :: from <= j < r.value ==> !At(s, j)
    ensures r.None? ==> forall j :: from <= j ==> !At(s, j)
    decreases |s| - from
  {
    if from + 1 >= |s| then None
    else if s[from] == '%' && s[from + 1] == 's' then Some(from)
    else FindFrom(s, from + 1)
  }

  function Find(s: string): (r: Option<nat>)
    ensures r.None? <==> NoPlaceholder(s)
    ensures r.Some? ==> At(s, r.value) && forall j :: 0 <= j < r.value ==> !At(s, j)
  {
    FindFrom(s, 0)
  }

  /** The marker that replaces the `k`-th placeholder: `'$%d' % k`. */
  function Marker(k: nat): (m: string)
    ensures |m| >= 2 && m[0] == '$' && IsDigit(m[|m| - 1])
    ensures NoPlaceholder(m)
  {
    "$" + NatText(k)
  }

  /** `s.replace('%s', marker, 1)`: the leftmost placeholder only. */
  function ReplaceFirst(s: string, marker: string): (r: string)
  {
    match Find(s)
    case None => s
    case Some(i) => s[..i] + marker + s[i + 2..]
  }

  /**
   * The text after the placeholder loop, numbering from `k`: scanning from
   * the left, each `%s` met becomes the next marker.
   */
  function Numbered(s: string, k: nat): string
    decreases |s|
  {
    if |s| < 2 then s
    else if s[0] == '%' && s[1] == 's' then Marker(k) + Numbered(s[2..], k + 1)
    else [s[0]] + Numbered(s[1..], k)
  }

  /** `s.replace('%%', '%')`: pairs are taken from the left without overlap. */
  function Unescape(s: string): string
    decreases |s|
  {
    if |s| < 2 then s
    else if s[0] == '%' && s[1] == '%' then "%" + Unescape(s[2..])
    else [s[0]] + Unescape(s[1..])
  }

  /** Every `%` doubled: the text a caller writes for a literal `%`. */
  function Escape(t: string): (r: string)
    ensures |r| >= |t|
  {
    if t == [] then [] else (if t[0] == '%' then "%%" else [t[0]]) + Escape(t[1..])
  }

  /**
   * The loop in `execute` that replaces the leftmost `%s` by `$ctr` while
   * one remains.
   */
  method NumberPlaceholders(operation: string) returns (r: string)
    ensures r == Numbered(operation, 1)
  {
    r := operation;
    var ctr: nat := 1;
    ghost var done: string := [];
    ghost var rest := operation;
    while Find(r).Some?
      invariant r == done + rest
      invariant Numbered(operation, 1) == done + Numbered(rest, ctr)
      invariant NoPlaceholder(done) && (done == [] || done[|done| - 1] != '%')
      decreases |rest|
    {
      var j := Advance(operation, done, rest, ctr);
      r := ReplaceFirst(r, Marker(ctr));
      done, rest := done + rest[..j] + Marker(ctr), rest[j + 2..];
      ctr := ctr + 1;
    }
    SuffixClean(done, rest);
    NumberedNone(rest, ctr);
  }

  /**
   * The SQL text `execute` sends: rewritten only when `parameters` is
   * truthy (a non-empty sequence), unchanged otherwise.
   */
  method Rewrite(operation: string, hasParameters: bool) returns (r: string)
    ensures hasParameters ==> r == Unescape(Numbered(operation, 1))
    ensures !hasParameters ==> r == operation
  {
    r := operation;
    if hasParameters {
      r := NumberPlaceholders(r);
      r := Unescape(r);
    }
  }

  /** Joining two texts without `%s` makes none, unless `%` meets `s` at the seam. */
  lemma JoinClean(a: string, b: string)
    requires NoPlaceholder(a) && NoPlaceholder(b)
    requires a == [] || b == [] || a[|a| - 1] != '%' || b[0] != 's'
    ensures NoPlaceholder(a + b)
  {
    forall i
      ensures !At(a + b, i)
    {
      if i + 1 < |a| {
        assert !At(a, i);
      } else if i >= |a| {
        assert !At(b, i - |a|);
      }
    }
  }

  /** The end of a text without `%s` has none. */
  lemma SuffixClean(a: string, b: string)
    requires NoPlaceholder(a + b)
    ensures NoPlaceholder(b)
  {
    forall i
      ensures !At(b, i)
    {
      assert !At(a + b, |a| + i);
    }
  }

  /** One turn of the placeholder loop keeps its invariant. */
  lemma Advance(operation: string, done: string, rest: string, ctr: nat) returns (j: nat)
    requires Numbered(operation, 1) == done + Numbered(rest, ctr)
    requires NoPlaceholder(done) && (done == [] || done[|done| - 1] != '%')
    requires Find(done + rest).Some?
    ensures j + 2 <= |rest|
    ensures ReplaceFirst(done + rest, Marker(ctr)) == (done + rest[..j] + Marker(ctr)) + rest[j + 2..]
    ensures Numbered(operation, 1) == (done + rest[..j] + Marker(ctr)) + Numbered(rest[j + 2..], ctr + 1)
    ensures NoPlaceholder(done + rest[..j] + Marker(ctr))
    ensures var d := done + rest[..j] + Marker(ctr); d[|d| - 1] != '%'
  {
    j := FindAfter(done, rest);
    var m := Marker(ctr);
    NumberedAtFirst(rest, j, ctr);
    PrefixClean(rest, j);
    JoinClean(done, rest[..j]);
    JoinClean(done + rest[..j], m);
    Regroup(done, rest[..j], m, rest[j + 2..]);
    Regroup(done, rest[..j], m, Numbered(rest[j + 2..], ctr + 1));
  }

  lemma Regroup(a: string, b: string, c: string, d: string)
    ensures a + (b + c + d) == (a + b + c) + d
  {
  }

  /** Before its first `%s`, a text has none. */
  lemma PrefixClean(s: string, j: nat)
    requires j <= |s| && forall m :: 0 <= m < j ==> !At(s, m)
    ensures NoPlaceholder(s[..j])
  {
    forall i
      ensures !At(s[..j], i)
    {
      if 0 <= i && i + 1 < j {
        assert !At(s, i);
      }
    }
  }

  /**
   * The leftmost `%s` of `done + rest` lies in `rest` when `done` has none
   * and does not end in `%`; `ReplaceFirst` then rewrites it there.
   */
  lemma FindAfter(done: string, rest: string) returns (j: nat)
    requires NoPlaceholder(done) && (done == [] || done[|done| - 1] != '%')
    requires Find(done + rest).Some?
    ensures At(rest, j) && forall m :: 0 <= m < j ==> !At(rest, m)
    ensures Find(done + rest) == Some(|done| + j)
    ensures forall marker: string :: ReplaceFirst(done + rest, marker) == done + (rest[..j] + marker + rest[j + 2..])
  {
    var s := done + rest;
    var i := Find(s).value;
    if i < |done| {
      assert s[i + 1] == 's';
      if i + 1 < |done| {
        assert At(done, i);
      }
      assert false;
    }
    j := i - |done|;
    assert At(rest, j);
    forall m | 0 <= m < j
      ensures !At(rest, m)
    {
      assert !At(s, |done| + m);
    }
    forall marker: string
      ensures ReplaceFirst(s, marker) == done + (rest[..j] + marker + rest[j + 2..])
    {
      assert s[..i] == done + rest[..j];
      assert s[i + 2..] == rest[j + 2..];
    }
  }

  /** A text whose first `%s` is at `j` numbers it with `k` and goes on from `k + 1`. */
  lemma {:induction false} NumberedAtFirst(s: string, j: nat, k: nat)
    requires At(s, j) && forall m :: 0 <= m < j ==> !At(s, m)
    ensures Numbered(s, k) == s[..j] + Marker(k) + Numbered(s[j + 2..], k + 1)
    decreases j
  {
    if j > 0 {
      assert !At(s, 0);
      forall m | 0 <= m < j - 1
        ensures !At(s[1..], m)
      {
        assert !At(s, m + 1);
      }
      assert Numbered(s, k) == [s[0]] + Numbered(s[1..], k);
      NumberedAtFirst(s[1..], j - 1, k);
      assert s[1..][j - 1 + 2..] == s[j + 2..];
      assert [s[0]] + s[1..][..j - 1] == s[..j];
    }
  }

  /** A text without `%s` comes through the numbering unchanged. */
  lemma {:induction false} NumberedNone(s: string, k: nat)
    requires NoPlaceholder(s)
    ensures Numbered(s, k) == s
    decreases |s|
  {
    if |s| >= 2 {
      assert !At(s, 0);
      forall m ensures !At(s[1..], m) {
        assert !At(s, m + 1);
      }
      NumberedNone(s[1..], k);
    }
  }

  /** The first character of the numbered text: a marker's `$`, or the original one. */
  lemma NumberedHead(s: string, k: nat)
    requires s != []
    ensures Numbered(s, k) != []
    ensures Numbered(s, k)[0] == if At(s, 0) then '$' else s[0]
  {
  }

  /** After the loop no `%s` remains. */
  lemma {:induction false} NumberedClean(s: string, k: nat)
    ensures NoPlaceholder(Numbered(s, k))
    decreases |s|
  {
    if |s| < 2 {
    } else if At(s, 0) {
      NumberedClean(s[2..], k + 1);
      JoinClean(Marker(k), Numbered(s[2..], k + 1));
    } else {
      NumberedClean(s[1..], k);
      if s[1..] != [] {
        NumberedHead(s[1..], k);
      }
      JoinClean([s[0]], Numbered(s[1..], k));
    }
  }

  /**
   * The `k`-th placeholder from the left becomes `$k`: the text before the
   * first `%s` is kept and the rest is numbered from the next number on.
   */
  lemma NumberedSplit(a: string, b: string, k: nat)
    requires NoPlaceholder(a)
    ensures Numbered(a + "%s" + b, k) == a + Marker(k) + Numbered(b, k + 1)
  {
    var s := a + "%s" + b;
    var j := |a|;
    assert At(s, j);
    forall m | 0 <= m < j
      ensures !At(s, m)
    {
      if m + 1 < |a| {
        assert !At(a, m);
      }
    }
    NumberedAtFirst(s, j, k);
    assert s[..j] == a && s[j + 2..] == b;
  }

  /** A text holding no `%` is left alone by numbering and by unescaping. */
  lemma {:induction false} PercentFree(s: string, k: nat)
    ensures (forall i :: 0 <= i < |s| ==> s[i] != '%') ==> Numbered(s, k) == s && Unescape(s) == s
    decreases |s|
  {
    if |s| >= 2 && forall i :: 0 <= i < |s| ==> s[i] != '%' {
      assert forall i :: 0 <= i < |s[1..]| ==> s[1..][i] == s[i + 1];
      PercentFree(s[1..], k);
      assert s == [s[0]] + s[1..];
    }
  }

  /** Unescaping undoes escaping: `%%` reads back as one `%`. */
  lemma {:induction false} UnescapeEscape(t: string)
    ensures Unescape(Escape(t)) == t
  {
    if t != [] {
      UnescapeEscape(t[1..]);
      var e := Escape(t[1..]);
      if t[0] == '%' {
        assert Escape(t) == "%%" + e;
        assert ("%%" + e)[2..] == e;
      } else {
        assert Escape(t) == [t[0]] + e;
        assert ([t[0]] + e)[1..] == e;
      }
    }
  }

  /**
   * The numbering runs before the unescaping, so an escaped `%` written
   * just before an `s` still starts a placeholder.
   */
  lemma EscapeBeforeS()
    ensures Unescape(Numbered("%%s", 1)) == "%$1"
  {
    assert Numbered("%%s", 1) == "%$1" by {
      assert Numbered("%s", 1) == Marker(1) + Numbered("", 2);
    }
  }
}
