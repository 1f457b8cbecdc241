/**
 * The DB-API layer: a Connection that owns a libpq handle, tracks the
 * cursors it handed out and runs every statement inside a transaction
 * unless autocommit is on, and a Cursor that rewrites and marshals a
 * statement, checks what the server answered, and reads the rows back.
 * The functions below say what each operation does to the values it
 * touches; the classes at the end are proved to follow them.
 */
module Dbapi {
  import opened Py
  import opened Types
  import opened Codec
  import opened Formats
  import opened Driver
  import opened Fetch
  import Errors
  import Placeholders

  /** What `requires_open` raises once the connection has been closed. */
  const NoConnection := Db(Error, "No connection")

  /** `_check_conn_status`: the connection must be open and still `CONNECTION_OK`. */
  function ConnStatus(h: Option<Server>): (r: Result<()>)
    ensures r.Ok? <==> h.Some? && h.value.connOk
    ensures h.None? ==> r == Err(NoConnection)
    ensures h.Some? && !h.value.connOk ==> r == Err(Db(Database, h.value.message))
  {
    match h
    case None => Err(NoConnection)
    case Some(s) => if s.connOk then Ok(()) else Err(Db(Database, s.message))
  }

  /**
   * `_check_cmd_result(result)`: a command or query that succeeded passes if
   * the connection is still good; any other status raises the exception
   * class EXC_MAP gives its SQLSTATE, carrying the result's error message.
   */
  function CheckResult(h: Option<Server>, r: Reply): (res: Result<()>)
    ensures res.Ok? <==> Succeeded(r) && h.Some? && h.value.connOk
    ensures !Succeeded(r) ==> res == Err(Db(Errors.ClassifyAsWritten(r.sqlstate), r.message))
    ensures Succeeded(r) && h.Some? && !h.value.connOk ==> res == Err(Db(Database, h.value.message))
  {
    if Succeeded(r) then ConnStatus(h) else Err(Db(Errors.ClassifyAsWritten(r.sqlstate), r.message))
  }

  /**
   * `commit()` and `rollback()`: on an open connection inside a transaction
   * `sql` is sent and its result checked; outside one nothing is sent.
   */
  function EndTxn(h: Option<Server>, sql: string): (res: (Option<Server>, Result<()>))
    ensures res.0.Some? <==> h.Some?
    ensures h.None? ==> res.1 == Err(NoConnection)
    ensures h.Some? && h.value.txn == Idle ==> res == (h, Ok(()))
    ensures h.Some? && h.value.txn != Idle ==>
      res.0.value.sent == h.value.sent + [Exec(sql)] && res.0.value.open == h.value.open
  {
    match h
    case None => (None, Err(NoConnection))
    case Some(s) =>
      if s.txn == Idle then (h, Ok(()))
      else
        var (s1, r) := Serve(s, Exec(sql));
        (Some(s1), CheckResult(Some(s1), r))
  }

  /** The four parameter arrays `execute` builds, one entry per parameter. */
  datatype ParamArrays = ParamArrays(types: seq<int>, values: seq<Payload>, lengths: seq<int>, formats: seq<int>)

  /**
   * The parameter arrays for the first `n` parameters, from `format_type` of
   * each in turn; the first failure raises.
   */
  function Marshal(parameters: seq<Value>, n: nat): (r: Result<ParamArrays>)
    requires n <= |parameters| && forall i :: 0 <= i < |parameters| ==> WellFormed(parameters[i])
    ensures r.Ok? ==> |r.value.types| == |r.value.values| == |r.value.lengths| == |r.value.formats| == n
    ensures r.Ok? ==> forall i :: 0 <= i < n ==>
      FormatType(parameters[i]) == Ok(Param(r.value.types[i], r.value.values[i], r.value.lengths[i], r.value.formats[i]))
  {
    if n == 0 then Ok(ParamArrays([], [], [], [])) else
    var a :- Marshal(parameters, n - 1);
    var p :- FormatType(parameters[n - 1]);
    Ok(ParamArrays(a.types + [p.oid], a.values + [p.payload], a.lengths + [p.length], a.formats + [p.format]))
  }

  /** The statement text `execute` sends: rewritten only when there are parameters. */
  function Statement(operation: string, parameters: seq<Value>): (r: string)
    ensures parameters == [] ==> r == operation
    ensures (forall i :: 0 <= i < |operation| ==> operation[i] != '%') ==> r == operation
  {
    Placeholders.PercentFree(operation, 1);
    if parameters != [] then Placeholders.Unescape(Placeholders.Numbered(operation, 1)) else operation
  }

  /** `exec_params(operation, len(parameters), types, values, lengths, formats, 1)`. */
  function Send(sql: string, a: ParamArrays): (c: Command)
    ensures c.ExecParams? && c.sql == sql && c.resultFormat == 1
    ensures c.types == a.types && c.values == a.values && c.lengths == a.lengths && c.formats == a.formats
  {
    Command.ExecParams(sql, a.types, a.values, a.lengths, a.formats, 1)
  }

  /**
   * The transaction `execute` opens: unless autocommit is on, an idle
   * connection is sent BEGIN, whose result is checked.
   */
  function Begin(autocommit: bool, s: Server): (res: (Server, Result<()>))
    ensures res.0.open == s.open
    ensures autocommit || s.txn != Idle ==> res == (s, Ok(()))
    ensures !autocommit && s.txn == Idle ==> res.0.sent == s.sent + [Exec("BEGIN")]
    ensures !autocommit && res.1.Ok? ==> res.0.txn != Idle
  {
    if autocommit || s.txn != Idle then (s, Ok(()))
    else
      var (s1, r) := Serve(s, Exec("BEGIN"));
      (s1, CheckResult(Some(s1), r))
  }

  /**
   * What `execute` reads and changes besides the server: the cursor's
   * `query`, the connection's server (None once it is closed) and the view
   * of the held result.
   */
  datatype Session = Session(query: Option<string>, handle: Option<Server>, view: View)

  /**
   * `execute(operation, parameters)` on a cursor that is `attached` to a
   * connection with the given autocommit flag: marshalling fails before
   * anything changes, and otherwise the statement is dispatched.
   */
  function ExecuteSpec(attached: bool, autocommit: bool, e: Session, operation: string,
                       parameters: seq<Value>): (res: (Session, Result<()>))
    requires forall i :: 0 <= i < |parameters| ==> WellFormed(parameters[i])
    ensures e.handle.None? ==> res.0.handle.None? && res.1.Err?
    ensures res.1.Ok? ==> attached && res.0.query == Some(Statement(operation, parameters)) &&
                          res.0.view.held.Some? && Succeeded(res.0.view.held.value)
  {
    match Marshal(parameters, |parameters|)
    case Err(x) => (e, Err(x))
    case Ok(a) => Dispatch(attached, autocommit, e, Statement(operation, parameters), a)
  }

  /**
   * The rest of `execute` once the parameters are marshalled: the query
   * text is recorded; a detached cursor or a closed connection raises; a
   * failed BEGIN or statement leaves the previous result in place; the
   * result of a statement that succeeded is installed.
   */
  function Dispatch(attached: bool, autocommit: bool, e: Session, sql: string, a: ParamArrays): (res: (Session, Result<()>))
    ensures res.0.query == Some(sql)
    ensures res.0.handle.Some? <==> e.handle.Some?
    ensures res.1.Ok? ==> attached && res.0.view.held.Some? && Succeeded(res.0.view.held.value)
  {
    var e1 := e.(query := Some(sql));
    if !attached then (e1, Err(AttributeError))
    else if e.handle.None? then (e1, Err(if autocommit then AttributeError else NoConnection))
    else
      var (s1, b) := Begin(autocommit, e.handle.value);
      if b.Err? then (e1.(handle := Some(s1)), Err(b.error)) else
      var (s2, r) := Serve(s1, Send(sql, a));
      var e2 := e1.(handle := Some(s2));
      match CheckResult(Some(s2), r)
      case Err(x) => (e2, Err(x))
      case Ok(_) =>
        var (v, out) := Install(e.view, r);
        (e2.(view := v), out)
  }

  /** `executemany`: `execute` with each parameter sequence in turn, stopping at the first that raises. */
  function ExecuteManySpec(attached: bool, autocommit: bool, e: Session, operation: string,
                           seqOfParameters: seq<seq<Value>>): (res: (Session, Result<()>))
    requires forall k, i :: 0 <= k < |seqOfParameters| && 0 <= i < |seqOfParameters[k]| ==>
      WellFormed(seqOfParameters[k][i])
    ensures e.handle.None? ==> res.0.handle.None? && (res.1.Ok? <==> seqOfParameters == [])
    ensures res.1.Ok? && seqOfParameters != [] ==> attached && res.0.view.held.Some?
    decreases |seqOfParameters|
  {
    if seqOfParameters == [] then (e, Ok(())) else
    var (e1, r) := ExecuteSpec(attached, autocommit, e, operation, seqOfParameters[0]);
    if r.Err? then (e1, r)
    else ExecuteManySpec(attached, autocommit, e1, operation, seqOfParameters[1..])
  }

  /** `list.remove(x)` with the ValueError swallowed: the first occurrence goes, if there is one. */
  function RemoveFirst<T(==)>(s: seq<T>, x: T): (r: seq<T>)
    ensures x !in s ==> r == s
    ensures x in s ==> |r| == |s| - 1
  {
    if s == [] then [] else
    assert s == [s[0]] + s[1..];
    if s[0] == x then s[1..] else [s[0]] + RemoveFirst(s[1..], x)
  }

  /** `list.remove(x)` takes out exactly one occurrence of `x`, if there is one. */
  lemma {:induction false} RemoveFirstMultiset<T>(s: seq<T>, x: T)
    ensures multiset(RemoveFirst(s, x)) == multiset(s) - multiset{x}
  {
    if s != [] {
      assert s == [s[0]] + s[1..];
      if s[0] != x {
        RemoveFirstMultiset(s[1..], x);
      }
    }
  }

  /**
   * `cursors.remove(c)` takes out the first occurrence only and keeps the
   * order of the others.
   */
  lemma {:induction false} RemoveFirstSplit<T>(s: seq<T>, x: T) returns (i: nat)
    requires x in s
    ensures i < |s| && s[i] == x && x !in s[..i]
    ensures RemoveFirst(s, x) == s[..i] + s[i + 1..]
  {
    if s[0] == x {
      i := 0;
      return;
    }
    TailHas(s, x);
    var j := RemoveFirstSplit(s[1..], x);
    i := j + 1;
    RemoveFirstCons(s, x);
    ShiftSplit(s, j);
    Cons3(s[0], s[1..][..j], s[1..][j + 1..]);
  }

  lemma TailHas<T>(s: seq<T>, x: T)
    requires x in s && s[0] != x
    ensures x in s[1..]
  {
    assert s == [s[0]] + s[1..];
  }

  lemma RemoveFirstCons<T>(s: seq<T>, x: T)
    requires s != [] && s[0] != x
    ensures RemoveFirst(s, x) == [s[0]] + RemoveFirst(s[1..], x)
  {
  }

  lemma ShiftSplit<T>(s: seq<T>, j: nat)
    requires j + 1 < |s|
    ensures s[..j + 1] == [s[0]] + s[1..][..j]
    ensures s[j + 2..] == s[1..][j + 1..]
  {
  }

  lemma Cons3<T>(a: T, b: seq<T>, c: seq<T>)
    ensures [a] + (b + c) == ([a] + b) + c
  {
  }

  /**
   * Removing a cursor from a list of distinct cursors of one connection
   * leaves a list of distinct cursors of that connection.
   */
  lemma RemoveOwned(s: seq<Cursor>, c: Cursor, owner: Connection)
    requires forall i :: 0 <= i < |s| ==> s[i].conn == owner
    requires forall i, j :: 0 <= i < j < |s| ==> s[i] != s[j]
    ensures var r := RemoveFirst(s, c);
      (forall i :: 0 <= i < |r| ==> r[i].conn == owner) && (forall i, j :: 0 <= i < j < |r| ==> r[i] != r[j])
  {
    if c in s {
      var i := RemoveFirstSplit(s, c);
      DropDistinct(s, i);
      DropOwned(s, i, owner);
    }
  }

  /** Dropping one entry of a list without repeats leaves none. */
  lemma DropDistinct<T>(s: seq<T>, i: nat)
    requires i < |s| && forall a, b :: 0 <= a < b < |s| ==> s[a] != s[b]
    ensures var r := s[..i] + s[i + 1..]; forall a, b :: 0 <= a < b < |r| ==> r[a] != r[b]
  {
    var r := s[..i] + s[i + 1..];
    forall a, b | 0 <= a < b < |r|
      ensures r[a] != r[b]
    {
      assert r[a] == s[if a < i then a else a + 1];
      assert r[b] == s[if b < i then b else b + 1];
    }
  }

  /** Dropping one cursor of a connection's list leaves only cursors of that connection. */
  lemma DropOwned(s: seq<Cursor>, i: nat, owner: Connection)
    requires i < |s| && forall k :: 0 <= k < |s| ==> s[k].conn == owner
    ensures var r := s[..i] + s[i + 1..]; forall k :: 0 <= k < |r| ==> r[k].conn == owner
  {
    var r := s[..i] + s[i + 1..];
    forall k | 0 <= k < |r|
      ensures r[k].conn == owner
    {
      assert r[k] == s[if k < i then k else k + 1];
    }
  }

  /** Once the first `j` parameters fail to marshal, all of them fail with the same error. */
  lemma {:induction false} MarshalExtend(parameters: seq<Value>, j: nat, n: nat)
    requires j <= n <= |parameters| && forall i :: 0 <= i < |parameters| ==> WellFormed(parameters[i])
    requires Marshal(parameters, j).Err?
    ensures Marshal(parameters, n) == Marshal(parameters, j)
    decreases n - j
  {
    if j < n {
      MarshalExtend(parameters, j, n - 1);
    }
  }

  /** Arrays that hold `format_type` of every one of the first `n` parameters are their marshalling. */
  lemma {:induction false} MarshalAll(parameters: seq<Value>, n: nat, a: ParamArrays)
    requires n <= |parameters| && forall i :: 0 <= i < |parameters| ==> WellFormed(parameters[i])
    requires |a.types| == |a.values| == |a.lengths| == |a.formats| == n
    requires forall i :: 0 <= i < n ==>
      FormatType(parameters[i]) == Ok(Param(a.types[i], a.values[i], a.lengths[i], a.formats[i]))
    ensures Marshal(parameters, n) == Ok(a)
    decreases n
  {
    if n > 0 {
      var a' := DropLast(a);
      MarshalAll(parameters, n - 1, a');
    }
  }

  /** The arrays without their last entries. */
  function DropLast(a: ParamArrays): (b: ParamArrays)
    requires |a.types| == |a.values| == |a.lengths| == |a.formats| > 0
    ensures |b.types| == |b.values| == |b.lengths| == |b.formats| == |a.types| - 1
    ensures forall i :: 0 <= i < |b.types| ==>
      b.types[i] == a.types[i] && b.values[i] == a.values[i] && b.lengths[i] == a.lengths[i] && b.formats[i] == a.formats[i]
    ensures var k := |b.types|;
      a == ParamArrays(b.types + [a.types[k]], b.values + [a.values[k]], b.lengths + [a.lengths[k]], b.formats + [a.formats[k]])
  {
    var k := |a.types| - 1;
    assert a.types[..k] + [a.types[k]] == a.types;
    assert a.values[..k] + [a.values[k]] == a.values;
    assert a.lengths[..k] + [a.lengths[k]] == a.lengths;
    assert a.formats[..k] + [a.formats[k]] == a.formats;
    ParamArrays(a.types[..k], a.values[..k], a.lengths[..k], a.formats[..k])
  }

  /** The first parameter `format_type` rejects decides the error of the whole marshalling. */
  lemma MarshalFirstError(parameters: seq<Value>, idx: nat, a: ParamArrays)
    requires idx < |parameters| && forall i :: 0 <= i < |parameters| ==> WellFormed(parameters[i])
    requires Marshal(parameters, idx) == Ok(a) && FormatType(parameters[idx]).Err?
    ensures Marshal(parameters, |parameters|) == Err(FormatType(parameters[idx]).error)
  {
    MarshalExtend(parameters, idx + 1, |parameters|);
  }

  /**
   * The loop in `execute` that fills `paramTypes`, `paramValues`,
   * `paramLengths` and `paramFormats` from `format_type` of each parameter.
   */
  method BuildParams(parameters: seq<Value>) returns (r: Result<ParamArrays>)
    requires forall i :: 0 <= i < |parameters| ==> WellFormed(parameters[i])
    ensures r == Marshal(parameters, |parameters|)
  {
    var n := |parameters|;
    var types := new int[n];
    var values := new Payload[n](_ => NullPtr);
    var lengths := new int[n];
    var formats := new int[n];
    for idx := 0 to n
      invariant forall j :: 0 <= j < idx ==>
        FormatType(parameters[j]) == Ok(Param(types[j], values[j], lengths[j], formats[j]))
    {
      var p := FormatType(parameters[idx]);
      if p.Err? {
        ghost var a := ParamArrays(types[..idx], values[..idx], lengths[..idx], formats[..idx]);
        MarshalAll(parameters, idx, a);
        MarshalFirstError(parameters, idx, a);
        return Err(p.error);
      }
      types[idx] := p.value.oid;
      values[idx] := p.value.payload;
      lengths[idx] := p.value.length;
      formats[idx] := p.value.format;
    }
    r := Ok(ParamArrays(types[..], values[..], lengths[..], formats[..]));
    MarshalAll(parameters, n, r.value);
  }

  /**
   * The loop in `fetchone` over the description: each cell of row `row` is
   * decoded in column order, a NULL as None and any other cell by the
   * column's parser; the first parse that raises ends the row.
   */
  method DecodeRowAt(reply: Reply, desc: seq<Description>, row: int) returns (r: Result<seq<Value>>)
    ensures r == DecodeRow(reply, desc, row)
  {
    var rec: seq<Value> := [];
    for idx := 0 to |desc|
      invariant DecodeCols(reply, desc, row, idx) == Ok(rec)
    {
      var cell := CellAt(reply, row, idx);
      var val: Result<Value>;
      if cell.None? || cell.value.isnull {
        val := Ok(NoneVal);
      } else if desc[idx].typeCode == JsonbType {
        val := JsonbCellParse(cell.value.value, cell.value.length);
      } else {
        val := ParseElement(desc[idx].typeCode, cell.value.value, cell.value.length, RecursionLimit);
      }
      DecodeColsStep(reply, desc, row, idx, rec, val);
      if val.Err? {
        return Err(val.error);
      }
      rec := rec + [val.value];
    }
    r := Ok(rec);
  }

  /** One turn of that loop: a decoded cell extends the row, a failing one decides it. */
  lemma DecodeColsStep(reply: Reply, desc: seq<Description>, row: int, idx: nat, rec: seq<Value>, val: Result<Value>)
    requires idx < |desc| && DecodeCols(reply, desc, row, idx) == Ok(rec)
    requires val == DecodeCell(CellAt(reply, row, idx), desc[idx].typeCode)
    ensures val.Ok? ==> DecodeCols(reply, desc, row, idx + 1) == Ok(rec + [val.value])
    ensures val.Err? ==> DecodeRow(reply, desc, row) == Err(val.error)
  {
    if val.Err? {
      DecodeColsExtend(reply, desc, row, idx + 1, |desc|);
    }
  }

  /**
   * `Connection`: the libpq handle (null once closed), the cursors handed
   * out and not yet closed, and the autocommit flag.
   */
  class Connection {
    var handle: PGConn?
    var cursors: seq<Cursor>
    var autocommit: bool

    /** Every tracked cursor is attached to this connection, and none is tracked twice. */
    ghost predicate Valid()
      reads this, cursors
    {
      (forall i :: 0 <= i < |cursors| ==> cursors[i].conn == this) &&
      (forall i, j :: 0 <= i < j < |cursors| ==> cursors[i] != cursors[j])
    }

    /** The server behind the handle; None once the connection is closed. */
    function Handle(): Option<Server>
      reads this, handle
    {
      if handle == null then None else Some(handle.server)
    }

    /** `Connection(conn)`: no cursors yet, autocommit off. */
    constructor(handle: PGConn)
      ensures this.handle == handle && cursors == [] && !autocommit
      ensures Valid()
    {
      this.handle := handle;
      cursors := [];
      autocommit := false;
    }

    /** `_check_conn_status`. */
    method CheckConnStatus() returns (r: Result<()>)
      ensures r == ConnStatus(Handle())
    {
      if handle == null {
        return Err(NoConnection);
      }
      if handle.server.connOk {
        return Ok(());
      }
      return Err(Db(Database, handle.server.message));
    }

    /** `_check_cmd_result(result)`: a failed result is cleared before its exception is raised. */
    method CheckCmdResult(res: PGResult) returns (r: Result<()>)
      modifies res
      ensures r == CheckResult(Handle(), res.reply)
      ensures !Succeeded(res.reply) ==> res.cleared
      ensures Succeeded(res.reply) ==> res.cleared == old(res.cleared)
    {
      if Succeeded(res.reply) {
        r := CheckConnStatus();
        return;
      }
      var kind := Errors.ClassifyAsWritten(res.reply.sqlstate);
      res.Clear();
      r := Err(Db(kind, res.reply.message));
    }

    /** `commit()`. */
    method Commit() returns (r: Result<()>)
      modifies handle
      ensures (Handle(), r) == EndTxn(old(Handle()), "COMMIT")
    {
      r := EndWith("COMMIT");
    }

    /** `rollback()`. */
    method Rollback() returns (r: Result<()>)
      modifies handle
      ensures (Handle(), r) == EndTxn(old(Handle()), "ROLLBACK")
    {
      r := EndWith("ROLLBACK");
    }

    /** The body `commit` and `rollback` share: `sql` is sent only inside a transaction. */
    method EndWith(sql: string) returns (r: Result<()>)
      modifies handle
      ensures (Handle(), r) == EndTxn(old(Handle()), sql)
    {
      if handle == null {
        return Err(NoConnection);
      }
      if handle.server.txn == Idle {
        return Ok(());
      }
      var res := handle.Execute(sql);
      r := CheckCmdResult(res);
    }

    /** `cursor()`: a new cursor on this connection, tracked from now on. */
    method OpenCursor() returns (c: Cursor)
      requires Valid()
      modifies this
      ensures Valid()
      ensures fresh(c) && c.conn == this && c.query == None && c.arraysize == 1
      ensures c.AsView() == View(None, None, None, None, None)
      ensures cursors == old(cursors) + [c]
      ensures handle == old(handle) && autocommit == old(autocommit)
    {
      c := new Cursor(this);
      cursors := cursors + [c];
    }

    /** `_close_cursor(cursor)`: the cursor is no longer tracked. */
    method CloseCursor(c: Cursor)
      requires Valid()
      modifies this
      ensures cursors == RemoveFirst(old(cursors), c) && Valid()
      ensures handle == old(handle) && autocommit == old(autocommit)
    {
      RemoveOwned(cursors, c, this);
      cursors := RemoveFirst(cursors, c);
    }

    /**
     * `close()`: every tracked cursor is closed; then, on a connection still
     * open, a pending transaction is rolled back and the handle finished.
     * A second close raises, as `_in_txn` finds no connection.
     */
    method Close() returns (r: Result<()>)
      requires Valid()
      modifies this, handle, set c | c in cursors, set c | c in cursors :: c.result
      ensures cursors == [] && Valid() && autocommit == old(autocommit)
      ensures forall c :: c in old(cursors) ==>
        c.conn == null && c.result == null && c.rowcount == None && c.description == None
      ensures forall c :: c in old(cursors) && old(c.result) != null ==> old(c.result).cleared
      ensures old(handle) == null ==> handle == null && r == Err(NoConnection)
      ensures old(handle) != null ==>
        var (h, e) := EndTxn(old(Handle()), "ROLLBACK");
        r == e && handle == (if e.Ok? then null else old(handle)) &&
        old(handle).server == (if e.Ok? then h.value.(open := false) else h.value)
    {
      CloseCursors();
      if handle == null {
        return Err(NoConnection);
      }
      if handle.server.txn != Idle {
        r := Rollback();
        if r.Err? {
          return;
        }
      }
      handle.Finish();
      handle := null;
      r := Ok(());
    }

    /** The loop at the head of `close()`: `while self.cursors: self.cursors[0].close()`. */
    method CloseCursors()
      requires Valid()
      modifies this, set c | c in cursors, set c | c in cursors :: c.result
      ensures cursors == [] && Valid()
      ensures handle == old(handle) && autocommit == old(autocommit)
      ensures forall c :: c in old(cursors) ==>
        c.conn == null && c.result == null && c.rowcount == None && c.description == None
      ensures forall c :: c in old(cursors) && old(c.result) != null ==> old(c.result).cleared
    {
      ghost var all := cursors;
      while cursors != []
        invariant Valid() && handle == old(handle) && autocommit == old(autocommit)
        invariant |cursors| <= |all| && cursors == all[|all| - |cursors|..]
        invariant forall c :: c in cursors ==> c.result == old(c.result)
        invariant forall i :: 0 <= i < |all| - |cursors| ==>
          all[i].conn == null && all[i].result == null && all[i].rowcount == None && all[i].description == None
        invariant forall i :: 0 <= i < |all| - |cursors| && old(all[i].result) != null ==> old(all[i].result).cleared
        decreases |cursors|
      {
        cursors[0].Close();
      }
    }
  }

  /**
   * `Cursor`: its connection (None once closed), the last query text,
   * `arraysize`, and the fields that follow the held result.
   */
  class Cursor {
    var conn: Connection?
    var query: Option<string>
    var arraysize: int
    var result: PGResult?
    var nfields: Option<int>
    var rowcount: Option<int>
    var description: Option<seq<Description>>
    var resultrow: Option<int>

    /** The result fields as a value. */
    function AsView(): View
      reads this
    {
      View(if result == null then None else Some(result.reply), nfields, rowcount, description, resultrow)
    }

    /** The server behind the cursor's connection; None when either is closed. */
    function Handle(): Option<Server>
      reads this, conn, if conn != null then conn.handle else null
    {
      if conn == null then None else conn.Handle()
    }

    /** `Cursor(conn)`: no query, `arraysize` 1, no result. */
    constructor(conn: Connection)
      ensures this.conn == conn && query == None && arraysize == 1
      ensures AsView() == View(None, None, None, None, None)
    {
      this.conn := conn;
      query := None;
      arraysize := 1;
      result := null;
      nfields := None;
      rowcount := None;
      description := None;
      resultrow := None;
    }

    /** `_free_result`: the held result is cleared and let go. */
    method FreeResult()
      modifies this, result
      ensures AsView() == old(AsView()).(held := None)
      ensures old(result) != null ==> old(result).cleared
      ensures conn == old(conn) && query == old(query) && arraysize == old(arraysize)
    {
      if result != null {
        result.Clear();
        result := null;
      }
    }

    /** `_cleanup`: the result is freed and the row count and description forgotten. */
    method Cleanup()
      modifies this, result
      ensures AsView() == old(AsView()).(held := None, rowcount := None, description := None)
      ensures old(result) != null ==> old(result).cleared
      ensures conn == old(conn) && query == old(query) && arraysize == old(arraysize)
    {
      FreeResult();
      rowcount := None;
      description := None;
    }

    /** `_set_result(res)`. */
    method SetResult(res: PGResult) returns (r: Result<()>)
      modifies this, result
      ensures (AsView(), r) == Install(old(AsView()), res.reply)
      ensures result == res
      ensures old(result) != null ==> old(result).cleared
      ensures conn == old(conn) && query == old(query) && arraysize == old(arraysize)
    {
      Cleanup();
      result := res;
      var reply := res.reply;
      nfields := Some(|reply.fields|);
      if reply.status == CommandOk {
        if reply.cmdTuples != "" {
          var count := ParseNat(reply.cmdTuples);
          if count.Err? {
            return Err(count.error);
          }
          rowcount := Some(count.value);
        } else {
          rowcount := Some(-1);
        }
      } else if reply.status == TuplesOk {
        rowcount := Some(|reply.rows|);
      }
      var desc: seq<Description> := [];
      for i := 0 to |reply.fields|
        invariant |desc| == i
        invariant forall j :: 0 <= j < i ==>
          InferParser(reply.fields[j].ftype).Ok? &&
          desc[j] == Description(reply.fields[j].name, InferParser(reply.fields[j].ftype).value, None,
                                 reply.fields[j].size, None, None, None)
      {
        var f := reply.fields[i];
        var c := InferParser(f.ftype);
        if c.Err? {
          return Err(TypeError);
        }
        desc := desc + [Description(f.name, c.value, None, f.size, None, None, None)];
      }
      assert Describe(reply.fields).Ok?;
      assert desc == Describe(reply.fields).value;
      description := Some(desc);
      resultrow := Some(-1);
      r := Ok(());
    }

    /** `close()`: the result is cleaned up and the cursor leaves its connection. */
    method Close()
      requires conn != null ==> conn.Valid()
      modifies this, result, conn
      ensures conn == null
      ensures AsView() == old(AsView()).(held := None, rowcount := None, description := None)
      ensures old(result) != null ==> old(result).cleared
      ensures query == old(query) && arraysize == old(arraysize)
      ensures old(conn) != null ==> old(conn).cursors == RemoveFirst(old(conn.cursors), this)
      ensures old(conn) != null ==> old(conn).handle == old(conn.handle) && old(conn).autocommit == old(conn.autocommit)
    {
      Cleanup();
      if conn != null {
        conn.CloseCursor(this);
        conn := null;
      }
    }

    /**
     * `execute(operation, parameters)`: the statement is rewritten and its
     * parameters marshalled, a transaction is opened unless autocommit is
     * on, and the checked result of the statement is installed.
     */
    method Execute(operation: string, parameters: seq<Value>) returns (r: Result<()>)
      requires forall i :: 0 <= i < |parameters| ==> WellFormed(parameters[i])
      modifies this, result, if conn != null then conn.handle else null
      ensures conn == old(conn) && arraysize == old(arraysize)
      ensures result == old(result) || (result != null && fresh(result))
      ensures old(result) != null && result != old(result) ==> old(result).cleared
      ensures (Session(query, Handle(), AsView()), r) ==
        ExecuteSpec(old(conn) != null, old(conn != null && conn.autocommit),
                    Session(old(query), old(Handle()), old(AsView())), operation, parameters)
    {
      var sql := Placeholders.Rewrite(operation, parameters != []);
      var arrays := BuildParams(parameters);
      if arrays.Err? {
        return Err(arrays.error);
      }
      r := Run(sql, arrays.value);
    }

    /** The part of `execute` after marshalling. */
    method Run(sql: string, a: ParamArrays) returns (r: Result<()>)
      modifies this, result, if conn != null then conn.handle else null
      ensures conn == old(conn) && arraysize == old(arraysize)
      ensures result == old(result) || (result != null && fresh(result))
      ensures old(result) != null && result != old(result) ==> old(result).cleared
      ensures (Session(query, Handle(), AsView()), r) ==
        Dispatch(old(conn) != null, old(conn != null && conn.autocommit),
                 Session(old(query), old(Handle()), old(AsView())), sql, a)
    {
      query := Some(sql);
      if conn == null {
        return Err(AttributeError);
      }
      if !conn.autocommit {
        if conn.handle == null {
          return Err(NoConnection);
        }
        if conn.handle.server.txn == Idle {
          var begin := conn.handle.Execute("BEGIN");
          r := conn.CheckCmdResult(begin);
          if r.Err? {
            return;
          }
        }
      }
      if conn.handle == null {
        return Err(AttributeError);
      }
      var res := conn.handle.ExecParams(sql, a.types, a.values, a.lengths, a.formats, 1);
      r := conn.CheckCmdResult(res);
      if r.Err? {
        return;
      }
      r := SetResult(res);
    }

    /** `executemany(operation, seq_of_parameters)`: `execute` once per parameter sequence. */
    method ExecuteMany(operation: string, seqOfParameters: seq<seq<Value>>) returns (r: Result<()>)
      requires forall k, i :: 0 <= k < |seqOfParameters| && 0 <= i < |seqOfParameters[k]| ==>
        WellFormed(seqOfParameters[k][i])
      modifies this, result, if conn != null then conn.handle else null
      ensures conn == old(conn) && arraysize == old(arraysize)
      ensures (Session(query, Handle(), AsView()), r) ==
        ExecuteManySpec(old(conn) != null, old(conn != null && conn.autocommit),
                        Session(old(query), old(Handle()), old(AsView())), operation, seqOfParameters)
    {
      ghost var attached := conn != null;
      ghost var autocommit := conn != null && conn.autocommit;
      for k := 0 to |seqOfParameters|
        invariant conn == old(conn) && arraysize == old(arraysize)
        invariant result == null || result == old(result) || fresh(result)
        invariant ExecuteManySpec(attached, autocommit, Session(query, Handle(), AsView()), operation, seqOfParameters[k..]) ==
          ExecuteManySpec(attached, autocommit, Session(old(query), old(Handle()), old(AsView())), operation, seqOfParameters)
      {
        assert seqOfParameters[k..][1..] == seqOfParameters[k + 1..];
        r := Execute(operation, seqOfParameters[k]);
        if r.Err? {
          return;
        }
      }
      r := Ok(());
    }

    /**
     * `fetchone()`, with each cell decoded as the column's parser reads it
     * and a NULL as None.
     */
    method Fetchone() returns (r: Result<Option<seq<Value>>>)
      modifies this, result
      ensures (AsView(), r) == FetchOne(old(AsView()))
      ensures result == null || result == old(result)
      ensures old(result) != null && result == null ==> old(result).cleared
      ensures conn == old(conn) && query == old(query) && arraysize == old(arraysize)
    {
      if result == null {
        return Ok(None);
      }
      if resultrow.None? {
        return Err(AttributeError);
      }
      resultrow := Some(resultrow.value + 1);
      if rowcount.None? {
        return Err(TypeError);
      }
      if resultrow.value >= rowcount.value {
        FreeResult();
        return Ok(None);
      }
      if description.None? {
        return Err(TypeError);
      }
      var rec := DecodeRowAt(result.reply, description.value, resultrow.value);
      if rec.Err? {
        return Err(rec.error);
      }
      r := Ok(Some(rec.value));
    }

    /** `fetchmany(size)`: up to `size` rows, `arraysize` when no size is given. */
    method Fetchmany(size: Option<int>) returns (r: Result<seq<seq<Value>>>)
      modifies this, result
      ensures (AsView(), r) == FetchMany(old(AsView()), if size.Some? then size.value else old(arraysize), [])
      ensures old(result) != null && result == null ==> old(result).cleared
      ensures conn == old(conn) && query == old(query) && arraysize == old(arraysize)
    {
      var n := if size.Some? then size.value else arraysize;
      var rows: seq<seq<Value>> := [];
      var i := 0;
      while i < n
        invariant FetchMany(AsView(), n - i, rows) == FetchMany(old(AsView()), n, [])
        invariant result == null || result == old(result)
        invariant old(result) != null && result == null ==> old(result).cleared
        invariant conn == old(conn) && query == old(query) && arraysize == old(arraysize)
        decreases n - i
      {
        var row := Fetchone();
        if row.Err? {
          return Err(row.error);
        }
        if row.value.None? {
          return Ok(rows);
        }
        rows := rows + [row.value.value];
        i := i + 1;
      }
      r := Ok(rows);
    }

    /** `fetchall()`: `[row for row in self]`, iterating `fetchone` until it returns None. */
    method Fetchall() returns (r: Result<seq<seq<Value>>>)
      modifies this, result
      ensures (AsView(), r) == FetchAll(old(AsView()), [])
      ensures old(result) != null && result == null ==> old(result).cleared
      ensures conn == old(conn) && query == old(query) && arraysize == old(arraysize)
    {
      var rows: seq<seq<Value>> := [];
      while true
        invariant FetchAll(AsView(), rows) == FetchAll(old(AsView()), [])
        invariant result == null || result == old(result)
        invariant old(result) != null && result == null ==> old(result).cleared
        invariant conn == old(conn) && query == old(query) && arraysize == old(arraysize)
        decreases Remaining(AsView())
      {
        var row := Fetchone();
        if row.Err? {
          return Err(row.error);
        }
        if row.value.None? {
          return Ok(rows);
        }
        rows := rows + [row.value.value];
      }
    }
  }
}
