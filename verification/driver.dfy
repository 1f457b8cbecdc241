/**
 * The libpq layer under the driver, as a fake: a connection handle whose
 * server answers each command with the next reply of a script, logs what it
 * was sent, and keeps the transaction status the way PostgreSQL reports it
 * (BEGIN opens a transaction block, COMMIT and ROLLBACK close it, a failing
 * command inside a block leaves it failed).  Result handles carry a reply
 * and can be cleared; clearing and finishing are idempotent.
 */
module Driver {
  import opened Py
  import opened Wire
  import opened Types

  /** `PQresultStatus`. */
  datatype ExecStatus =
    | EmptyQuery | CommandOk | TuplesOk | CopyOut | CopyIn | BadResponse
    | NonfatalError | FatalError | CopyBoth | SingleTuple

  /** `PQtransactionStatus`. */
  datatype TxnStatus = Idle | Active | InTrans | InError | Unknown

  /** One result column: `PQfname`, `PQftype`, `PQfmod`, `PQfsize`. */
  datatype Field = Field(name: string, ftype: int, fmod: int, size: int)

  /** One result cell: `PQgetvalue` (its bytes), `PQgetlength`, `PQgetisnull`. */
  datatype Cell = Cell(value: seq<byte>, length: int, isnull: bool)

  /**
   * Everything a result handle answers: its status, columns, rows,
   * `PQcmdTuples`, the SQLSTATE error field and the error message, and
   * whether the connection is still `CONNECTION_OK` after it.
   */
  datatype Reply = Reply(status: ExecStatus, fields: seq<Field>, rows: seq<seq<Cell>>,
                         cmdTuples: string, sqlstate: Option<string>, message: string, connOk: bool)

  /** What the driver sends: `PQexec`, or `PQexecParams` with its four parameter arrays. */
  datatype Command =
    | Exec(sql: string)
    | ExecParams(sql: string, types: seq<int>, values: seq<Payload>, lengths: seq<int>,
                 formats: seq<int>, resultFormat: int)

  /**
   * The connection as the server sees it: open until `PQfinish`, its status
   * and last error message, the transaction status, the replies still to
   * come and the commands received so far.
   */
  datatype Server = Server(open: bool, connOk: bool, message: string, txn: TxnStatus,
                           script: seq<Reply>, sent: seq<Command>)

  /** The answer once the script has run out: a fatal error on a broken connection. */
  const NoReply := Reply(FatalError, [], [], "", None, "", false)

  /** The two statuses `_check_cmd_result` accepts. */
  predicate Succeeded(r: Reply) {
    r.status == CommandOk || r.status == TuplesOk
  }

  /** The server's transaction status after it answered `sql` with `r`. */
  function TxnAfter(txn: TxnStatus, sql: string, r: Reply): (t: TxnStatus)
    ensures sql == "BEGIN" && Succeeded(r) ==> t == InTrans
    ensures sql == "COMMIT" || sql == "ROLLBACK" ==> t == Idle
    ensures sql != "BEGIN" && sql != "COMMIT" && sql != "ROLLBACK" && Succeeded(r) ==> t == txn
  {
    if sql == "COMMIT" || sql == "ROLLBACK" then Idle
    else if Succeeded(r) then (if sql == "BEGIN" then InTrans else txn)
    else if txn == InTrans then InError
    else txn
  }

  /** The server receives `c` and answers with the next reply of its script. */
  function Serve(s: Server, c: Command): (res: (Server, Reply))
    ensures res.0.sent == s.sent + [c]
    ensures res.0.open == s.open
    ensures res.1 == (if s.script != [] then s.script[0] else NoReply)
    ensures res.0.script == (if s.script != [] then s.script[1..] else [])
    ensures res.0.txn == TxnAfter(s.txn, c.sql, res.1)
    ensures res.0.connOk == res.1.connOk && res.0.message == res.1.message
  {
    var r := if s.script != [] then s.script[0] else NoReply;
    (Server(s.open, r.connOk, r.message, TxnAfter(s.txn, c.sql, r),
            if s.script != [] then s.script[1..] else [], s.sent + [c]), r)
  }

  /** A `PGresult` handle. */
  class PGResult {
    const reply: Reply
    var cleared: bool

    constructor(reply: Reply)
      ensures this.reply == reply && !cleared
    {
      this.reply := reply;
      cleared := false;
    }

    /** `Result.clear`: `PQclear` once, then nothing. */
    method Clear()
      modifies this
      ensures cleared
    {
      cleared := true;
    }
  }

  /** A `PGconn` handle. */
  class PGConn {
    var server: Server

    constructor(server: Server)
      ensures this.server == server
    {
      this.server := server;
    }

    /** `PQexec(sql)`. */
    method Execute(sql: string) returns (r: PGResult)
      modifies this
      ensures fresh(r) && !r.cleared
      ensures (server, r.reply) == Serve(old(server), Exec(sql))
    {
      var s, reply := Serve(server, Exec(sql)).0, Serve(server, Exec(sql)).1;
      server := s;
      r := new PGResult(reply);
    }

    /** `PQexecParams(sql, n, types, values, lengths, formats, resultFormat)`. */
    method ExecParams(sql: string, types: seq<int>, values: seq<Payload>, lengths: seq<int>,
                      formats: seq<int>, resultFormat: int) returns (r: PGResult)
      modifies this
      ensures fresh(r) && !r.cleared
      ensures (server, r.reply) == Serve(old(server), Command.ExecParams(sql, types, values, lengths, formats, resultFormat))
    {
      var c := Command.ExecParams(sql, types, values, lengths, formats, resultFormat);
      var s, reply := Serve(server, c).0, Serve(server, c).1;
      server := s;
      r := new PGResult(reply);
    }

    /** `PGConnection.finish`: `PQfinish` once, then nothing. */
    method Finish()
      modifies this
      ensures server == old(server).(open := false)
    {
      server := server.(open := false);
    }
  }
}
