/**
 * What the DB-API operations promise across calls: which commands reach
 * the server and in what order, the transaction a non-autocommit
 * connection keeps open, the result a cursor holds after `execute`, and
 * how `commit`, `rollback`, `executemany` and cursor bookkeeping compose.
 */
module DbapiLemmas {
  import opened Py
  import opened Types
  import opened Formats
  import opened Driver
  import opened Fetch
  import opened Dbapi

  /**
   * On a live connection `execute` sends the statement once, with result
   * format 1; outside autocommit an idle server is sent BEGIN first, and a
   * BEGIN that fails is the only command sent and its error is raised.
   */
  lemma DispatchSends(autocommit: bool, e: Session, sql: string, a: ParamArrays)
    requires e.handle.Some?
    ensures var s := e.handle.value;
      var (e', r) := Dispatch(true, autocommit, e, sql, a);
      e'.query == Some(sql) && e'.handle.Some? &&
      (autocommit || s.txn != Idle ==> e'.handle.value.sent == s.sent + [Send(sql, a)]) &&
      (!autocommit && s.txn == Idle ==>
        var (s1, b) := Serve(s, Exec("BEGIN"));
        if CheckResult(Some(s1), b).Ok? then e'.handle.value.sent == s.sent + [Exec("BEGIN"), Send(sql, a)]
        else e'.handle.value.sent == s.sent + [Exec("BEGIN")] && r == CheckResult(Some(s1), b) && e'.view == e.view)
  {
    var s := e.handle.value;
    if !autocommit && s.txn == Idle {
      var (s1, b) := Serve(s, Exec("BEGIN"));
      if CheckResult(Some(s1), b).Ok? {
        assert s1.sent + [Send(sql, a)] == s.sent + [Exec("BEGIN"), Send(sql, a)];
      }
    }
  }

  /**
   * A detached cursor or a closed connection sends nothing: `execute`
   * only records the query and raises.
   */
  lemma DispatchWithoutServer(attached: bool, autocommit: bool, e: Session, sql: string, a: ParamArrays)
    requires !attached || e.handle.None?
    ensures var (e', r) := Dispatch(attached, autocommit, e, sql, a);
      e' == e.(query := Some(sql)) && r.Err?
  {
  }

  /**
   * The cursor's view changes only by installing a result the server
   * reported as successful; when `execute` succeeds that result is held,
   * described and positioned before its first row.
   */
  lemma DispatchView(attached: bool, autocommit: bool, e: Session, sql: string, a: ParamArrays)
    ensures var (e', r) := Dispatch(attached, autocommit, e, sql, a);
      e'.view == e.view ||
      (e'.view.held.Some? && Succeeded(e'.view.held.value) && e'.view == Install(e.view, e'.view.held.value).0)
    ensures var (e', r) := Dispatch(attached, autocommit, e, sql, a);
      r.Ok? ==> e'.view.held.Some? && Succeeded(e'.view.held.value) &&
                Install(e.view, e'.view.held.value) == (e'.view, Ok(())) &&
                e'.view.resultrow == Some(-1) && e'.view.description.Some?
  {
  }

  /**
   * Outside autocommit, a statement that succeeds leaves the connection
   * inside a transaction block (unless the statement itself ends one); an
   * idle server is then inside the block BEGIN opened.
   */
  lemma StaysInTransaction(e: Session, sql: string, a: ParamArrays)
    requires sql != "COMMIT" && sql != "ROLLBACK"
    ensures var (e', r) := Dispatch(true, false, e, sql, a);
      r.Ok? ==> e'.handle.Some? && e'.handle.value.txn != Idle &&
                (e.handle.value.txn == Idle ==> e'.handle.value.txn == InTrans)
  {
    var (e', r) := Dispatch(true, false, e, sql, a);
    if r.Ok? {
      var s := e.handle.value;
      var (s1, b) := Begin(false, s);
      assert b.Ok? && s1.txn != Idle;
      assert s.txn == Idle ==> s1.txn == InTrans;
    }
  }

  /**
   * `execute` as a whole: parameters `format_type` rejects change nothing;
   * otherwise the rewritten statement is what is dispatched.
   */
  lemma ExecuteMarshalsFirst(attached: bool, autocommit: bool, e: Session, operation: string, parameters: seq<Value>)
    requires forall i :: 0 <= i < |parameters| ==> WellFormed(parameters[i])
    ensures var (e', r) := ExecuteSpec(attached, autocommit, e, operation, parameters);
      Marshal(parameters, |parameters|).Err? ==> e' == e && r.Err?
    ensures var (e', r) := ExecuteSpec(attached, autocommit, e, operation, parameters);
      Marshal(parameters, |parameters|).Ok? ==> e'.query == Some(Statement(operation, parameters))
  {
    var m := Marshal(parameters, |parameters|);
    if m.Ok? {
      DispatchRecordsQuery(attached, autocommit, e, Statement(operation, parameters), m.value);
    }
  }

  /** Every dispatched statement is recorded as the cursor's query, whatever happens next. */
  lemma DispatchRecordsQuery(attached: bool, autocommit: bool, e: Session, sql: string, a: ParamArrays)
    ensures Dispatch(attached, autocommit, e, sql, a).0.query == Some(sql)
  {
  }

  /** Marshalling the first `n` parameters fails exactly when `format_type` rejects one of them. */
  lemma MarshalFailsIff(parameters: seq<Value>, n: nat)
    requires n <= |parameters| && forall j :: 0 <= j < |parameters| ==> WellFormed(parameters[j])
    ensures Marshal(parameters, n).Err? <==> exists i :: 0 <= i < n && FormatType(parameters[i]).Err?
  {
    if i :| 0 <= i < n && FormatType(parameters[i]).Err? {
      MarshalFails(parameters, i, n);
    } else {
      MarshalSucceeds(parameters, n);
    }
  }

  /** A parameter `format_type` rejects makes every longer marshalling fail. */
  lemma {:induction false} MarshalFails(parameters: seq<Value>, i: nat, n: nat)
    requires i < n <= |parameters| && forall j :: 0 <= j < |parameters| ==> WellFormed(parameters[j])
    requires FormatType(parameters[i]).Err?
    ensures Marshal(parameters, n).Err?
    decreases n
  {
    if i < n - 1 {
      MarshalFails(parameters, i, n - 1);
    }
  }

  /** Parameters `format_type` accepts all marshal. */
  lemma {:induction false} MarshalSucceeds(parameters: seq<Value>, n: nat)
    requires n <= |parameters| && forall j :: 0 <= j < |parameters| ==> WellFormed(parameters[j])
    requires forall i :: 0 <= i < n ==> FormatType(parameters[i]).Ok?
    ensures Marshal(parameters, n).Ok?
    decreases n
  {
    if n > 0 {
      MarshalSucceeds(parameters, n - 1);
    }
  }

  /**
   * The rows `fetchall` returns after an `execute` whose query succeeded:
   * every row of the result, in order, each decoded by its column's parser.
   */
  lemma ExecuteThenFetchAll(attached: bool, autocommit: bool, e: Session, sql: string, a: ParamArrays)
    requires var (e', r) := Dispatch(attached, autocommit, e, sql, a);
      r.Ok? && e'.view.held.value.status == TuplesOk &&
      forall j :: 0 <= j < |e'.view.held.value.rows| ==>
        DecodeRow(e'.view.held.value, Describe(e'.view.held.value.fields).value, j).Ok?
    ensures var (e', r) := Dispatch(attached, autocommit, e, sql, a);
      var reply := e'.view.held.value;
      FetchAll(e'.view, []).1 == Ok(Rows(reply, Describe(reply.fields).value, 0, |reply.rows|))
  {
    var (e', r) := Dispatch(attached, autocommit, e, sql, a);
    DispatchView(attached, autocommit, e, sql, a);
    FetchAllAfterInstall(e.view, e'.view.held.value, e'.view);
  }

  /**
   * `commit` and `rollback` leave an open connection idle: inside a
   * transaction exactly one command is sent, outside one none is; on a
   * closed connection they raise.
   */
  lemma EndTxnEnds(h: Option<Server>, sql: string)
    requires sql == "COMMIT" || sql == "ROLLBACK"
    ensures var (h', r) := EndTxn(h, sql);
      (h'.Some? <==> h.Some?) && (h.None? ==> r == Err(NoConnection)) &&
      (h.Some? ==> h'.value.txn == Idle && h'.value.open == h.value.open) &&
      (h.Some? && h.value.txn == Idle ==> h' == h && r.Ok?) &&
      (h.Some? && h.value.txn != Idle ==> h'.value.sent == h.value.sent + [Exec(sql)])
  {
  }

  /** A second `commit` (or `rollback`) right after the first sends nothing and succeeds. */
  lemma EndTxnTwice(h: Option<Server>, sql: string, sql2: string)
    requires sql == "COMMIT" || sql == "ROLLBACK"
    requires h.Some?
    ensures var h' := EndTxn(h, sql).0;
      EndTxn(h', sql2) == (h', Ok(()))
  {
    EndTxnEnds(h, sql);
  }

  /** `executemany` with one parameter sequence is `execute` with it. */
  lemma ExecuteManyOne(attached: bool, autocommit: bool, e: Session, operation: string, parameters: seq<Value>)
    requires forall i :: 0 <= i < |parameters| ==> WellFormed(parameters[i])
    ensures ExecuteManySpec(attached, autocommit, e, operation, [parameters]) ==
            ExecuteSpec(attached, autocommit, e, operation, parameters)
  {
    var (e1, r) := ExecuteSpec(attached, autocommit, e, operation, parameters);
    assert [parameters][1..] == [];
  }

  /**
   * `executemany` over two batches in a row is `executemany` over the first,
   * then, unless it raised, over the second from where the first left off.
   */
  lemma {:induction false} ExecuteManyAppend(attached: bool, autocommit: bool, e: Session, operation: string,
                                             xs: seq<seq<Value>>, ys: seq<seq<Value>>)
    requires forall k, i :: 0 <= k < |xs + ys| && 0 <= i < |(xs + ys)[k]| ==> WellFormed((xs + ys)[k][i])
    ensures forall k, i :: 0 <= k < |xs| && 0 <= i < |xs[k]| ==> WellFormed(xs[k][i])
    ensures forall k, i :: 0 <= k < |ys| && 0 <= i < |ys[k]| ==> WellFormed(ys[k][i])
    ensures ExecuteManySpec(attached, autocommit, e, operation, xs + ys) ==
      var (e1, r) := ExecuteManySpec(attached, autocommit, e, operation, xs);
      if r.Err? then (e1, r) else ExecuteManySpec(attached, autocommit, e1, operation, ys)
    decreases |xs|
  {
    forall k, i | 0 <= k < |xs| && 0 <= i < |xs[k]|
      ensures WellFormed(xs[k][i])
    {
      assert (xs + ys)[k] == xs[k];
    }
    forall k, i | 0 <= k < |ys| && 0 <= i < |ys[k]|
      ensures WellFormed(ys[k][i])
    {
      assert (xs + ys)[|xs| + k] == ys[k];
    }
    if xs == [] {
      assert xs + ys == ys;
    } else {
      assert (xs + ys)[0] == xs[0];
      assert (xs + ys)[1..] == xs[1..] + ys;
      var (e1, r) := ExecuteSpec(attached, autocommit, e, operation, xs[0]);
      if r.Ok? {
        ExecuteManyAppend(attached, autocommit, e1, operation, xs[1..], ys);
      }
    }
  }
}
