/**
 * The cursor's view of a result, as values: what `_set_result` installs
 * (row count, description, row index) and what `fetchone`, `fetchmany` and
 * `fetchall` return and leave behind.  The Cursor class in Dbapi is proved
 * to follow these functions step by step.
 */
module Fetch {
  import opened Py
  import opened Wire
  import opened Types
  import opened Codec
  import opened Driver

  /** The nesting budget the column parsers run with (Python's default recursion limit). */
  const RecursionLimit: nat := 1000

  /** One entry of `cursor.description`: the DB-API seven-tuple. */
  datatype Description = Description(name: string, typeCode: TypeClass, displaySize: Option<int>,
                                     internalSize: int, precision: Option<int>, scale: Option<int>,
                                     nullOk: Option<bool>)

  /**
   * The cursor fields that follow a result: the held result (`_result`, as
   * its reply), `_nfields`, `_rowcount`, `_description` and `_resultrow`;
   * `_nfields` is unset (None) until a result is installed, `_resultrow`
   * until a description is.
   */
  datatype View = View(held: Option<Reply>, nfields: Option<int>, rowcount: Option<int>,
                       description: Option<seq<Description>>, resultrow: Option<int>)

  /** The entry `_set_result` builds for one result column. */
  function Column(f: Field): (r: Result<Description>)
    ensures r.Ok? <==> InferParser(f.ftype).Ok?
    ensures r.Err? ==> r.error == TypeError
    ensures r.Ok? ==> r.value.name == f.name && r.value.typeCode == InferParser(f.ftype).value &&
                      r.value.internalSize == f.size
  {
    match InferParser(f.ftype)
    case Ok(c) => Ok(Description(f.name, c, None, f.size, None, None, None))
    case Err(_) => Err(TypeError)
  }

  /**
   * The description loop of `_set_result`: one entry per column, in column
   * order, naming the column, its parser and its size; the first column
   * whose type OID has no parser raises TypeError.
   */
  function Describe(fields: seq<Field>): (r: Result<seq<Description>>)
    ensures r.Ok? <==> forall i :: 0 <= i < |fields| ==> InferParser(fields[i].ftype).Ok?
    ensures r.Err? ==> r.error == TypeError
    ensures r.Ok? ==> |r.value| == |fields|
    ensures r.Ok? ==> forall i :: 0 <= i < |fields| ==>
      r.value[i] == Description(fields[i].name, InferParser(fields[i].ftype).value, None, fields[i].size, None, None, None)
  {
    if fields == [] then Ok([]) else
    var init :- Describe(fields[..|fields| - 1]);
    var d :- Column(fields[|fields| - 1]);
    Ok(init + [d])
  }

  /**
   * The row count `_set_result` records: `int(cmd_tuples)` for a command,
   * -1 when that is empty, the number of rows for a query, and nothing
   * (None) for any other status.
   */
  function RowCount(r: Reply): (rc: Result<Option<int>>)
    ensures rc.Ok? <==> r.status != CommandOk || r.cmdTuples == "" || ParseNat(r.cmdTuples).Ok?
    ensures rc.Err? ==> rc.error == ValueError
    ensures rc == Ok(None) <==> r.status != CommandOk && r.status != TuplesOk
    ensures r.status == TuplesOk ==> rc == Ok(Some(|r.rows|))
    ensures r.status == CommandOk && rc.Ok? ==>
      rc.value == Some(if r.cmdTuples == "" then -1 else TextNat(r.cmdTuples))
    ensures rc.Ok? && rc.value.Some? ==> rc.value.value >= -1
  {
    if r.status == CommandOk then
      if r.cmdTuples != "" then
        var n :- ParseNat(r.cmdTuples);
        Ok(Some(n))
      else Ok(Some(-1))
    else if r.status == TuplesOk then Ok(Some(|r.rows|))
    else Ok(None)
  }

  /**
   * `_set_result(result)`: the previous result is let go, the new one held;
   * the row count and then the description are computed, and only when both
   * succeed is the row index reset to -1.
   */
  function Install(v: View, reply: Reply): (res: (View, Result<()>))
    ensures res.0.held == Some(reply) && res.0.nfields == Some(|reply.fields|)
    ensures res.1.Ok? <==> RowCount(reply).Ok? && Describe(reply.fields).Ok?
    ensures reply.status == TuplesOk ==> res.0.rowcount == Some(|reply.rows|)
    ensures reply.status == CommandOk && reply.cmdTuples == "" ==> res.0.rowcount == Some(-1)
    ensures reply.status == CommandOk && RowCount(reply).Ok? && reply.cmdTuples != "" ==>
      res.0.rowcount == Some(TextNat(reply.cmdTuples))
    ensures reply.status != CommandOk && reply.status != TuplesOk ==> res.0.rowcount == None
    ensures res.1.Ok? ==> res.0.resultrow == Some(-1) && res.0.description == Some(Describe(reply.fields).value)
    ensures res.1.Err? ==> res.0.resultrow == v.resultrow && res.0.description == None
  {
    var v0 := View(Some(reply), Some(|reply.fields|), None, None, v.resultrow);
    match RowCount(reply)
    case Err(e) => (v0, Err(e))
    case Ok(rc) =>
      var v1 := v0.(rowcount := rc);
      match Describe(reply.fields)
      case Err(e) => (v1, Err(e))
      case Ok(d) => (v1.(description := Some(d), resultrow := Some(-1)), Ok(()))
  }

  /**
   * What `PQgetvalue`, `PQgetlength` and `PQgetisnull` report for one cell:
   * inside the result the stored cell, whose buffer is empty for a NULL;
   * outside it a null pointer (None), which libpq reports as a NULL.
   */
  function CellAt(r: Reply, row: int, col: int): Option<Cell>
  {
    if 0 <= row < |r.rows| && 0 <= col < |r.rows[row]| then Some(r.rows[row][col]) else None
  }

  /**
   * One cell of a fetched row as the loop in `fetchone` decodes it: only a
   * null pointer counts as missing, and any other cell, a NULL inside the
   * result included, is handed to the column's type class itself, whose
   * construction takes no arguments and raises TypeError.
   */
  function DecodeCellAsWritten(c: Option<Cell>, parser: TypeClass): (r: Result<Value>)
    ensures r.Ok? <==> c.None?
    ensures r.Ok? ==> r.value == NoneVal
    ensures r.Err? ==> r.error == TypeError
  {
    match c
    case None => Ok(NoneVal)
    case Some(_) => Err(TypeError)
  }

  /**
   * One cell of a fetched row: None for a SQL NULL, else the column's parse
   * of its bytes.  The cell reaches `parse` as the pointer `PQgetvalue`
   * returns, which only the jsonb parser tells apart from a bytes object.
   */
  function DecodeCell(c: Option<Cell>, parser: TypeClass): (r: Result<Value>)
    ensures c.None? || c.value.isnull ==> r == Ok(NoneVal)
    ensures r.Err? ==> c.Some? && !c.value.isnull && parser != JsonbType
    ensures c.Some? && !c.value.isnull && parser == JsonbType ==> r == JsonbCellParse(c.value.value, c.value.length)
  {
    match c
    case None => Ok(NoneVal)
    case Some(cell) =>
      if cell.isnull then Ok(NoneVal)
      else if parser == JsonbType then JsonbCellParse(cell.value, cell.length)
      else ElementParse(parser, cell.value, cell.length, RecursionLimit)
  }

  /**
   * The first `n` values of row `row` as `fetchone` builds them, one per
   * description entry in order; the first cell whose parse raises makes
   * the row raise.
   */
  function DecodeCols(reply: Reply, desc: seq<Description>, row: int, n: nat): (r: Result<seq<Value>>)
    requires n <= |desc|
    ensures r.Ok? ==> |r.value| == n
    ensures r.Ok? ==> forall i :: 0 <= i < n ==>
      Ok(r.value[i]) == DecodeCell(CellAt(reply, row, i), desc[i].typeCode)
  {
    if n == 0 then Ok([]) else
    var init :- DecodeCols(reply, desc, row, n - 1);
    var x :- DecodeCell(CellAt(reply, row, n - 1), desc[n - 1].typeCode);
    assert forall i :: 0 <= i < n - 1 ==> (init + [x])[i] == init[i];
    Ok(init + [x])
  }

  /** Row `row` as `fetchone` returns it: every column of the description. */
  function DecodeRow(reply: Reply, desc: seq<Description>, row: int): (r: Result<seq<Value>>)
    ensures r.Ok? <==> forall i :: 0 <= i < |desc| ==> DecodeCell(CellAt(reply, row, i), desc[i].typeCode).Ok?
    ensures r.Ok? ==> |r.value| == |desc|
  {
    DecodeColsOk(reply, desc, row, |desc|);
    DecodeCols(reply, desc, row, |desc|)
  }

  /** How many more `fetchone` calls can return a row, plus one for the call that ends the result. */
  function Remaining(v: View): nat
  {
    if v.held.None? then 0
    else if v.resultrow.None? || v.rowcount.None? then 1
    else if v.rowcount.value <= v.resultrow.value then 1
    else v.rowcount.value - v.resultrow.value + 1
  }

  /**
   * `fetchone`: None without a result; otherwise the row index advances, and
   * past the row count the result is freed and None returned.  Advancing an
   * unset row index raises AttributeError; comparing with a missing row
   * count, or walking a missing description, raises TypeError.
   */
  function FetchOne(v: View): (res: (View, Result<Option<seq<Value>>>))
    ensures res.1.Ok? && res.1.value.Some? ==> Remaining(res.0) < Remaining(v)
    ensures res.1 == Ok(None) ==> res.0.held.None?
    ensures res.1.Ok? && res.1.value.Some? ==> v.resultrow.Some? && res.0 == v.(resultrow := Some(v.resultrow.value + 1))
    ensures v.held.Some? && v.resultrow.Some? && v.rowcount.Some? && v.resultrow.value + 1 >= v.rowcount.value ==>
      res == (v.(held := None, resultrow := Some(v.resultrow.value + 1)), Ok(None))
    ensures v.held.Some? && v.resultrow.Some? && v.rowcount.Some? && v.description.Some? &&
            v.resultrow.value + 1 < v.rowcount.value ==>
      var d := DecodeRow(v.held.value, v.description.value, v.resultrow.value + 1);
      res.0 == v.(resultrow := Some(v.resultrow.value + 1)) &&
      res.1 == (if d.Ok? then Ok(Some(d.value)) else Err(d.error))
  {
    if v.held.None? then (v, Ok(None))
    else if v.resultrow.None? then (v, Err(AttributeError)) else
    var row := v.resultrow.value + 1;
    var v1 := v.(resultrow := Some(row));
    if v.rowcount.None? then (v1, Err(TypeError))
    else if row >= v.rowcount.value then (v1.(held := None), Ok(None))
    else if v.description.None? then (v1, Err(TypeError))
    else match DecodeRow(v.held.value, v.description.value, row)
      case Err(e) => (v1, Err(e))
      case Ok(rec) => (v1, Ok(Some(rec)))
  }

  /** `fetchmany(n)` after the rows `acc` were collected: at most `n` more calls to `fetchone`. */
  function FetchMany(v: View, n: int, acc: seq<seq<Value>>): (res: (View, Result<seq<seq<Value>>>))
    ensures res.1.Ok? ==> acc <= res.1.value
    ensures res.1.Err? ==> n > 0 && v.held.Some?
    decreases if n > 0 then n else 0
  {
    if n <= 0 then (v, Ok(acc)) else
    var (v1, r) := FetchOne(v);
    match r
    case Err(e) => (v1, Err(e))
    case Ok(None) => (v1, Ok(acc))
    case Ok(Some(row)) => FetchMany(v1, n - 1, acc + [row])
  }

  /** `fetchall`: `[row for row in cursor]`, calling `fetchone` until it returns None. */
  function FetchAll(v: View, acc: seq<seq<Value>>): (res: (View, Result<seq<seq<Value>>>))
    ensures res.1.Ok? ==> acc <= res.1.value && res.0.held.None?
    ensures res.1.Err? ==> v.held.Some?
    decreases Remaining(v)
  {
    var (v1, r) := FetchOne(v);
    match r
    case Err(e) => (v1, Err(e))
    case Ok(None) => (v1, Ok(acc))
    case Ok(Some(row)) => FetchAll(v1, acc + [row])
  }

  /** The rows `lo .. hi - 1` of a result, each decoded (an undecodable one as []). */
  function Rows(reply: Reply, desc: seq<Description>, lo: int, hi: int): (rows: seq<seq<Value>>)
    ensures |rows| == if lo < hi then hi - lo else 0
    decreases hi - lo
  {
    if lo >= hi then [] else
    [match DecodeRow(reply, desc, lo) case Ok(x) => x case Err(_) => []] + Rows(reply, desc, lo + 1, hi)
  }

  /** A row decodes exactly when each of its cells does. */
  lemma {:induction false} DecodeColsOk(reply: Reply, desc: seq<Description>, row: int, n: nat)
    requires n <= |desc|
    ensures DecodeCols(reply, desc, row, n).Ok? <==>
      forall i :: 0 <= i < n ==> DecodeCell(CellAt(reply, row, i), desc[i].typeCode).Ok?
  {
    if n > 0 {
      DecodeColsOk(reply, desc, row, n - 1);
    }
  }

  /** Once the first `j` columns fail to decode, the whole row fails with the same error. */
  lemma {:induction false} DecodeColsExtend(reply: Reply, desc: seq<Description>, row: int, j: nat, n: nat)
    requires j <= n <= |desc| && DecodeCols(reply, desc, row, j).Err?
    ensures DecodeCols(reply, desc, row, n) == DecodeCols(reply, desc, row, j)
    decreases n - j
  {
    if j < n {
      DecodeColsExtend(reply, desc, row, j, n - 1);
    }
  }

  /** A row whose cells are all NULL reads as one None per column, whatever the parsers. */
  lemma {:induction false} NullRow(reply: Reply, desc: seq<Description>, row: int, n: nat)
    requires n <= |desc|
    requires forall i :: 0 <= i < n ==> CellAt(reply, row, i).None? || CellAt(reply, row, i).value.isnull
    ensures DecodeCols(reply, desc, row, n) == Ok(seq(n, _ => NoneVal))
  {
    if n > 0 {
      NullRow(reply, desc, row, n - 1);
      var c := CellAt(reply, row, n - 1);
      assert c.None? || c.value.isnull;
      assert DecodeCell(c, desc[n - 1].typeCode) == Ok(NoneVal);
      assert DecodeCols(reply, desc, row, n) == Ok(seq(n - 1, _ => NoneVal) + [NoneVal]);
      assert seq(n - 1, _ => NoneVal) + [NoneVal] == seq(n, _ => NoneVal);
    } else {
      assert seq(n, _ => NoneVal) == [];
    }
  }

  /**
   * As written, a cell inside the result never decodes: a text cell raises
   * instead of reading as its text, and a NULL raises instead of reading as
   * None.
   */
  lemma CellMisread()
    ensures DecodeCellAsWritten(Some(Cell([104, 105], 2, false)), StringType) == Err(TypeError)
    ensures DecodeCell(Some(Cell([104, 105], 2, false)), StringType) == Ok(TextVal([104, 105]))
    ensures DecodeCellAsWritten(Some(Cell([], 0, true)), IntType) == Err(TypeError)
    ensures DecodeCell(Some(Cell([], 0, true)), IntType) == Ok(NoneVal)
  {
    assert Prefix([104, 105], 2) == [104, 105];
  }

  /** Without a result every fetch returns nothing and changes nothing. */
  lemma NoResult(v: View, n: int, acc: seq<seq<Value>>)
    requires v.held.None?
    ensures FetchOne(v) == (v, Ok(None))
    ensures FetchMany(v, n, acc) == (v, Ok(acc))
    ensures FetchAll(v, acc) == (v, Ok(acc))
  {
  }

  /**
   * From row index `k` of a result with `n` rows that all decode, `fetchall`
   * returns the rows after `k` in order, then frees the result.
   */
  lemma {:induction false} FetchAllRows(v: View, reply: Reply, d: seq<Description>, k: int, n: int,
                                        acc: seq<seq<Value>>)
    requires v.held == Some(reply) && v.rowcount == Some(n) && v.description == Some(d) && v.resultrow == Some(k)
    requires forall j :: k < j < n ==> DecodeRow(reply, d, j).Ok?
    ensures FetchAll(v, acc) ==
      (v.(held := None, resultrow := Some(if k + 1 >= n then k + 1 else n)), Ok(acc + Rows(reply, d, k + 1, n)))
    decreases if n > k then n - k else 0
  {
    var v1 := v.(resultrow := Some(k + 1));
    if k + 1 < n {
      var rec := DecodeRow(reply, d, k + 1).value;
      assert FetchOne(v) == (v1, Ok(Some(rec)));
      assert FetchAll(v, acc) == FetchAll(v1, acc + [rec]);
      FetchAllRows(v1, reply, d, k + 1, n, acc + [rec]);
      assert v1.(held := None, resultrow := Some(n)) == v.(held := None, resultrow := Some(n));
      assert Rows(reply, d, k + 1, n) == [rec] + Rows(reply, d, k + 2, n);
      assert (if k + 2 >= n then k + 2 else n) == n;
      Assoc(acc, [rec], Rows(reply, d, k + 2, n));
    } else {
      assert FetchOne(v) == (v1.(held := None), Ok(None));
      assert acc + Rows(reply, d, k + 1, n) == acc;
    }
  }

  lemma Assoc<T>(a: seq<T>, b: seq<T>, c: seq<T>)
    ensures a + b + c == a + (b + c)
  {
  }

  /**
   * A query result installed by `_set_result` whose rows all decode is read
   * in full by `fetchall`, and freed: zero rows give an empty list.
   */
  lemma FetchAllAfterInstall(v: View, reply: Reply, w: View)
    requires reply.status == TuplesOk && Install(v, reply) == (w, Ok(()))
    requires forall j :: 0 <= j < |reply.rows| ==> DecodeRow(reply, Describe(reply.fields).value, j).Ok?
    ensures FetchAll(w, []) == (w.(held := None, resultrow := Some(|reply.rows|)),
                                Ok(Rows(reply, Describe(reply.fields).value, 0, |reply.rows|)))
    ensures |FetchAll(w, []).1.value| == |reply.rows|
  {
    var d := Installed(v, reply, w);
    FetchAllFresh(w, reply, d);
  }

  /** `fetchall` on a view that holds `reply` and has not fetched yet returns all of its rows. */
  lemma FetchAllFresh(w: View, reply: Reply, d: seq<Description>)
    requires w.held == Some(reply) && w.rowcount == Some(|reply.rows|)
    requires w.description == Some(d) && w.resultrow == Some(-1)
    requires forall j :: 0 <= j < |reply.rows| ==> DecodeRow(reply, d, j).Ok?
    ensures FetchAll(w, []) == (w.(held := None, resultrow := Some(|reply.rows|)), Ok(Rows(reply, d, 0, |reply.rows|)))
  {
    var n := |reply.rows|;
    assert forall j :: -1 < j < n ==> DecodeRow(reply, d, j).Ok?;
    FetchAllRows(w, reply, d, -1, n, []);
    assert (if -1 + 1 >= n then -1 + 1 else n) == n;
    assert [] + Rows(reply, d, 0, n) == Rows(reply, d, 0, n);
  }

  /** What a successful `_set_result` of a query result leaves in the view. */
  lemma Installed(v: View, reply: Reply, w: View) returns (d: seq<Description>)
    requires reply.status == TuplesOk && Install(v, reply) == (w, Ok(()))
    ensures d == Describe(reply.fields).value
    ensures w.held == Some(reply) && w.rowcount == Some(|reply.rows|)
    ensures w.description == Some(d) && w.resultrow == Some(-1)
  {
    d := Describe(reply.fields).value;
  }

  /**
   * `fetchmany(n)` extends what was collected by at most `n` rows, and
   * returns fewer only once the result is used up and freed.
   */
  lemma {:induction false} FetchManyBound(v: View, n: int, acc: seq<seq<Value>>)
    requires FetchMany(v, n, acc).1.Ok?
    ensures var r := FetchMany(v, n, acc).1.value;
      acc <= r && |r| <= |acc| + (if n > 0 then n else 0)
    ensures |FetchMany(v, n, acc).1.value| < |acc| + n ==> FetchMany(v, n, acc).0.held.None?
    decreases if n > 0 then n else 0
  {
    if n > 0 {
      var (v1, r) := FetchOne(v);
      if r.Ok? && r.value.Some? {
        FetchManyBound(v1, n - 1, acc + [r.value.value]);
      }
    }
  }

  /** `fetchmany` followed by `fetchall` yields what `fetchall` alone would. */
  lemma {:induction false} ManyThenAll(v: View, n: int, acc: seq<seq<Value>>)
    requires FetchMany(v, n, acc).1.Ok?
    ensures FetchAll(FetchMany(v, n, acc).0, FetchMany(v, n, acc).1.value) == FetchAll(v, acc)
    decreases if n > 0 then n else 0
  {
    if n > 0 {
      var (v1, r) := FetchOne(v);
      if r.Ok? && r.value.Some? {
        ManyThenAll(v1, n - 1, acc + [r.value.value]);
      } else {
        assert v1.held.None?;
      }
    }
  }
}
