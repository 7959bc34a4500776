/** `query`: the validation and path choice that run before the driver is
    called. The database is an oracle: the caller supplies what the driver would
    answer, and the model decides which statement is issued and what the caller
    then receives. */
module Executor {
  import opened Js
  import opened ObjMaps
  import opened NativeTypes
  import opened WhereClause

  /** A result row. */
  type Row = Obj<Value>

  /** What the driver answers for a statement: rows plus the affected-row count,
      or an error message. */
  datatype DbReply = Reply(rows: seq<Row>, rowsAffected: int) | DbFail(message: string)

  /** A statement handed to the driver: plain SQL on the simple path, or SQL with
      its declared inputs and bound values on the prepared path. */
  datatype Statement =
    | Simple(sql: string)
    | Prepared(sql: string, inputs: seq<(string, Option<MappedType>)>, bindings: Obj<Value>)

  /** What a successful query resolves with: the rows, or a row count. */
  datatype QueryResult = RowsOf(rows: seq<Row>) | AffectedCount(count: int)

  /** How a call ends: resolved, rejected, or a TypeError thrown on the way. */
  datatype Outcome<T> = Done(value: T) | Rejected(reason: string) | Crashed(error: string)

  /** The statement issued to the database, if any, and the outcome. */
  datatype Run<T> = Run(issued: Option<Statement>, outcome: Outcome<T>)

  /** `query(strSql, params)`. */
  function Query(sql: string, params: Option<Where>, reply: DbReply): (r: Run<QueryResult>)
    requires params.Some? ==> Wf(params.value)
    // an invalid predicate map is rejected with the validator's message and nothing runs
    ensures r.issued.None? <==> WhereIsValidForQuery(params).Invalid?
    ensures r.issued.None? ==> r.outcome == Rejected(WhereIsValidForQuery(params).message)
    // a non-empty binding map takes the prepared path, anything else the simple path
    ensures r.issued.Some? ==> r.issued.value.sql == sql
    ensures r.issued.Some? ==> (r.issued.value.Prepared? <==> params.Some? && |params.value.keys| > 0)
    ensures r.issued.Some? && r.issued.value.Prepared? ==>
      NoNullish(params.value) && r.issued.value.bindings == PreparedBindings(params)
    // the driver's failure is passed on
    ensures r.issued.Some? && reply.DbFail? ==> r.outcome == Rejected(reply.message)
    // the prepared path resolves with the rows; the simple path with the rows if
    // there are any, else with the affected-row count
    ensures r.issued.Some? && reply.Reply? && r.issued.value.Prepared? ==> r.outcome == Done(RowsOf(reply.rows))
    ensures r.issued.Some? && reply.Reply? && r.issued.value.Simple? ==>
      r.outcome == if |reply.rows| > 0 then Done(RowsOf(reply.rows)) else Done(AffectedCount(reply.rowsAffected))
  {
    var check := WhereIsValidForQuery(params);
    if check.Invalid? then Run(None, Rejected(check.message))
    else
      assert params.Some? ==> NoNullish(params.value) by {
        if params.Some? { ValidHasNoNullish(params.value); }
      }
      var bindings := PreparedBindings(params);
      PreparedBindingsSpec(params);
      if |bindings.keys| > 0 then
        Run(Some(Prepared(sql, Inputs(params.value), bindings)),
            match reply
            case DbFail(m) => Rejected(m)
            case Reply(rows, _) => Done(RowsOf(rows)))
      else
        Run(Some(Simple(sql)),
            match reply
            case DbFail(m) => Rejected(m)
            case Reply(rows, n) => if |rows| > 0 then Done(RowsOf(rows)) else Done(AffectedCount(n)))
  }
}
