/** The record operations that reach the database: `findAll`, `save` and `del`.
    Each is a pure transition from the record and the database's reply to the
    statement issued, the outcome the caller sees and, for `save` and `del`, the
    record afterwards. */
module Persistence {
  import opened Js
  import opened Strings
  import opened ObjMaps
  import opened NativeTypes
  import opened WhereClause
  import opened Executor
  import opened Records
  import opened Statements

  /** The TypeError raised when a predicate entry keyed by a column is a bare
      scalar: strict mode refuses to create a property on a primitive. */
  const PrimitiveTypeError := "TypeError: cannot create property 'type' on a primitive predicate"

  /** The TypeError raised by reading a property of `undefined`. */
  const UndefinedTypeError := "TypeError: cannot read properties of undefined"

  /** `findAll(where, limit)`: type the predicates from the schema, check them,
      then run `SELECT TOP` and hydrate what comes back. */
  function FindAll(inst: Instance, where: Option<Where>, limit: Option<int>, reply: DbReply): (r: Run<Hydrated>)
    requires ValidInstance(inst)
    requires where.Some? ==> Wf(where.value)
    requires reply.Reply? ==> RowsWf(reply.rows)
    ensures r.outcome.Crashed? ==> r.issued.None?
  {
    var w := where.GetOr(Empty());
    match AddTypesToWhere(inst.def, w)
    case None => Run(None, Crashed(PrimitiveTypeError))
    case Some(typed) =>
      var check := WhereIsValidForModel(inst.def, typed);
      if check.Invalid? then Run(None, Rejected(check.message))
      else
        WhereIsValidForModelSpec(inst.def, typed);
        ValidHasNoNullish(typed);
        var q := Query(SelectSql(inst.def, typed, EffectiveLimit(limit)), Some(typed), reply);
        Run(q.issued,
            match q.outcome
            case Done(res) => Done(Hydrate(inst, res))
            case Rejected(m) => Rejected(m)
            case Crashed(e) => Crashed(e))
  }

  /** Predicates `findAll` accepts: every key a schema column, every entry an
      object carrying a value (the type is filled in from the schema). */
  predicate Acceptable(d: ModelDef, w: Where) {
    forall k :: k in w.vals ==> k in d.columns.vals && w.vals[k].Object? && w.vals[k].p.value.Some?
  }

  /** Typing succeeds and the typed map passes the model check exactly when
      the predicates are acceptable. */
  lemma TypedValidIffAcceptable(d: ModelDef, w: Where)
    requires Wf(w)
    ensures AddTypesToWhere(d, w).Some? && WhereIsValidForModel(d, AddTypesToWhere(d, w).value) == Valid
      <==> Acceptable(d, w)
  {
    var typed := AddTypesToWhere(d, w);
    if Acceptable(d, w) {
      AddTypesThenValid(d, w);
    } else if typed.Some? {
      var t := typed.value;
      WhereIsValidForQuerySpec(t);
      WhereIsValidForModelSpec(d, t);
      var k :| k in w.vals && !(k in d.columns.vals && w.vals[k].Object? && w.vals[k].p.value.Some?);
      assert k in t.vals;
      if k in d.columns.vals {
        assert !EntryOk(k, t.vals[k]);
      }
    }
  }

  /** `findAll` throws exactly when a column's predicate is a bare scalar, runs a
      query exactly when every predicate is acceptable, and otherwise rejects
      before anything runs. */
  lemma FindAllGate(inst: Instance, where: Option<Where>, limit: Option<int>, reply: DbReply)
    requires ValidInstance(inst)
    requires where.Some? ==> Wf(where.value)
    requires reply.Reply? ==> RowsWf(reply.rows)
    ensures var w := where.GetOr(Empty());
      FindAll(inst, where, limit, reply).outcome.Crashed? <==>
        exists k :: k in w.vals && k in inst.def.columns.vals && w.vals[k].Scalar?
    ensures var w := where.GetOr(Empty());
      FindAll(inst, where, limit, reply).issued.Some? <==> Acceptable(inst.def, w)
  {
    TypedValidIffAcceptable(inst.def, where.GetOr(Empty()));
  }

  /** The query `findAll` issues is the SELECT over the typed predicates at
      the effective limit. */
  lemma FindAllSql(inst: Instance, where: Option<Where>, limit: Option<int>, reply: DbReply)
    requires ValidInstance(inst)
    requires where.Some? ==> Wf(where.value)
    requires reply.Reply? ==> RowsWf(reply.rows)
    ensures var w := where.GetOr(Empty());
      FindAll(inst, where, limit, reply).issued.Some? ==>
        && AddTypesToWhere(inst.def, w).Some?
        && NoNullish(AddTypesToWhere(inst.def, w).value)
        && FindAll(inst, where, limit, reply).issued.value.sql ==
             SelectSql(inst.def, AddTypesToWhere(inst.def, w).value, EffectiveLimit(limit))
  {
    var typed := AddTypesToWhere(inst.def, where.GetOr(Empty()));
    if typed.Some? && WhereIsValidForModel(inst.def, typed.value) == Valid {
      WhereIsValidForModelSpec(inst.def, typed.value);
      ValidHasNoNullish(typed.value);
    }
  }

  /** The statement opens with `SELECT TOP ` and a numeral reading back as `n`. */
  ghost predicate OpensWithLimit(sql: string, n: int) {
    exists t :: 11 + |t| <= |sql| && sql[..11 + |t|] == "SELECT TOP " + t && ParseInteger(t) == Some(n)
  }

  lemma SelectOpensWithLimit(d: ModelDef, w: Where, n: int)
    requires Wf(w) && NoNullish(w)
    ensures OpensWithLimit(SelectSql(d, w, n), n)
  {
    SelectSqlLimit(d, w, n);
    var t := IntToString(n);
    assert 11 + |t| <= |SelectSql(d, w, n)|;
  }

  /** The row limit in the issued SELECT reads back as the given limit, or 9
      when none (or 0) is given. */
  lemma FindAllLimit(inst: Instance, where: Option<Where>, limit: Option<int>, reply: DbReply)
    requires ValidInstance(inst)
    requires where.Some? ==> Wf(where.value)
    requires reply.Reply? ==> RowsWf(reply.rows)
    ensures var r := FindAll(inst, where, limit, reply);
      r.issued.Some? ==> OpensWithLimit(r.issued.value.sql, if limit.None? || limit == Some(0) then 9 else limit.value)
  {
    FindAllSql(inst, where, limit, reply);
    var r := FindAll(inst, where, limit, reply);
    if r.issued.Some? {
      var typed := AddTypesToWhere(inst.def, where.GetOr(Empty())).value;
      SelectOpensWithLimit(inst.def, typed, EffectiveLimit(limit));
    }
  }

  /** What a `findAll` that ran resolves with: one hydrated record per row; a
      query without predicates that found no rows gets the affected-row count
      back, which hydrates into the receiver itself. A database error is passed
      on. */
  lemma FindAllResults(inst: Instance, where: Option<Where>, limit: Option<int>, reply: DbReply)
    requires ValidInstance(inst)
    requires where.Some? ==> Wf(where.value)
    requires reply.Reply? ==> RowsWf(reply.rows)
    requires FindAll(inst, where, limit, reply).issued.Some?
    ensures reply.DbFail? ==> FindAll(inst, where, limit, reply).outcome == Rejected(reply.message)
    ensures reply.Reply? && (|reply.rows| > 0 || |where.GetOr(Empty()).keys| > 0) ==>
      FindAll(inst, where, limit, reply).outcome == Done(Hydrate(inst, RowsOf(reply.rows)))
    ensures reply.Reply? && |reply.rows| == 0 && |where.GetOr(Empty()).keys| == 0 ==>
      FindAll(inst, where, limit, reply).outcome == Done(Receiver(inst))
  {
    var w := where.GetOr(Empty());
    var typed := AddTypesToWhere(inst.def, w);
    assert typed.Some? && WhereIsValidForModel(inst.def, typed.value) == Valid;
    var t := typed.value;
    WhereIsValidForModelSpec(inst.def, t);
    ValidHasNoNullish(t);
    PreparedBindingsSpec(Some(t));
  }

  /** The primary key's current value, `this[this.primaryKey]`. */
  function KeyValue(inst: Instance): Value
    requires ValidInstance(inst)
  {
    Lookup(inst.fields, PkName(inst.def))
  }

  /** `save()`: a falsy key value inserts and then takes the new key from the
      first returned row; a truthy one updates by key. */
  function Save(inst: Instance, reply: DbReply): (r: Run<Instance>)
    requires ValidInstance(inst)
    ensures r.outcome.Done? ==> r.outcome.value.def == inst.def && ValidInstance(r.outcome.value)
    ensures r.outcome.Crashed? && r.issued.None? ==> Truthy(KeyValue(inst))
  {
    var d := inst.def;
    var pk := PkName(d);
    if !Truthy(KeyValue(inst)) then
      InsertUpdateParamsValid(inst, false, "");
      var q := Query(InsertSql(d, false, ""), Some(InsertUpdateParams(inst, false, "")), reply);
      Run(q.issued,
          match q.outcome
          case Done(RowsOf(rows)) =>
            if |rows| == 0 then Crashed(UndefinedTypeError)
            else if !Wf(rows[0]) then Crashed(UndefinedTypeError)
            else Done(inst.(fields := Put(inst.fields, pk, Lookup(rows[0], pk))))
          case Done(AffectedCount(_)) => Crashed(UndefinedTypeError)
          case Rejected(m) => Rejected(m)
          case Crashed(e) => Crashed(e))
    else if pk !in d.columns.vals then
      Run(None, Crashed(UndefinedTypeError))
    else
      InsertUpdateParamsValid(inst, true, "");
      var q := Query(UpdateSql(d), Some(InsertUpdateParams(inst, true, "")), reply);
      Run(q.issued,
          match q.outcome
          case Done(_) => Done(inst)
          case Rejected(m) => Rejected(m)
          case Crashed(e) => Crashed(e))
  }

  /** `save` inserts exactly when the key value is falsy and updates otherwise;
      the update binds every column, the key with its current value. A failed
      statement rejects with the driver's message and leaves the record as it
      was. */
  lemma SaveChoosesStatement(inst: Instance, reply: DbReply)
    requires ValidInstance(inst)
    ensures !Truthy(KeyValue(inst)) ==>
      Save(inst, reply).issued.Some? && Save(inst, reply).issued.value.sql == InsertSql(inst.def, false, "")
    ensures Truthy(KeyValue(inst)) && PkName(inst.def) in inst.def.columns.vals ==>
      && Save(inst, reply).issued.Some?
      && Save(inst, reply).issued.value == Prepared(UpdateSql(inst.def),
           Inputs(InsertUpdateParams(inst, true, "")), Save(inst, reply).issued.value.bindings)
      && PkName(inst.def) in Save(inst, reply).issued.value.bindings.vals
      && Save(inst, reply).issued.value.bindings.vals[PkName(inst.def)] == KeyValue(inst)
    ensures Truthy(KeyValue(inst)) && PkName(inst.def) !in inst.def.columns.vals ==>
      Save(inst, reply) == Run(None, Crashed(UndefinedTypeError))
    ensures reply.DbFail? && Save(inst, reply).issued.Some? ==> Save(inst, reply).outcome == Rejected(reply.message)
  {
    var d := inst.def;
    InsertUpdateParamsValid(inst, false, "");
    if Truthy(KeyValue(inst)) && PkName(d) in d.columns.vals {
      var params := InsertUpdateParams(inst, true, "");
      InsertUpdateParamsValid(inst, true, "");
      UpdateParamsValues(inst);
      ValidHasNoNullish(params);
      PreparedBindingsSpec(Some(params));
      assert PkName(d) in params.vals;
      assert |params.keys| > 0;
    }
  }

  /** A successful insert stores the first returned row's key value under the
      key, changes no other field, and resolves with the record. */
  lemma SaveInsertStoresKey(inst: Instance, rows: seq<Row>, n: int)
    requires ValidInstance(inst) && RowsWf(rows) && |rows| > 0
    requires !Truthy(KeyValue(inst))
    ensures Save(inst, Reply(rows, n)).outcome.Done?
    ensures KeyValue(Save(inst, Reply(rows, n)).outcome.value) == Lookup(rows[0], PkName(inst.def))
    ensures forall k :: k != PkName(inst.def) ==>
      Lookup(Save(inst, Reply(rows, n)).outcome.value.fields, k) == Lookup(inst.fields, k)
  {
    InsertUpdateParamsValid(inst, false, "");
  }

  /** Insert then update: once an insert has stored a truthy new key, saving the
      record again updates the row by that key instead of inserting another. */
  lemma SaveTwiceUpdates(inst: Instance, rows: seq<Row>, n: int, reply: DbReply)
    requires ValidInstance(inst) && RowsWf(rows) && |rows| > 0
    requires !Truthy(KeyValue(inst))
    requires PkName(inst.def) in inst.def.columns.vals
    requires Truthy(Lookup(rows[0], PkName(inst.def)))
    ensures Save(inst, Reply(rows, n)).outcome.Done?
    ensures var saved := Save(inst, Reply(rows, n)).outcome.value;
      && Save(saved, reply).issued.Some?
      && Save(saved, reply).issued.value.sql == UpdateSql(inst.def)
      && PkName(inst.def) in Save(saved, reply).issued.value.bindings.vals
      && Save(saved, reply).issued.value.bindings.vals[PkName(inst.def)] == Lookup(rows[0], PkName(inst.def))
  {
    SaveInsertStoresKey(inst, rows, n);
    var saved := Save(inst, Reply(rows, n)).outcome.value;
    SaveChoosesStatement(saved, reply);
  }

  /** The key-only predicate map `del` binds. */
  function KeyParams(inst: Instance): (w: Where)
    requires ValidInstance(inst) && PkName(inst.def) in inst.def.columns.vals
    ensures Wf(w)
  {
    var pk := PkName(inst.def);
    Obj([pk], map[pk := ParamEntry(inst, pk)])
  }

  /** The rejection `del` gives a record without a key value. */
  function NoKeyMessage(d: ModelDef): string {
    d.modelName + " has no primary key value. Cannot delete."
  }

  /** `del()` as written: after a successful DELETE it clears a field named
      `RecordId`, whatever the key is called. */
  function DelAsWritten(inst: Instance, reply: DbReply): (r: (Run<bool>, Instance))
    requires ValidInstance(inst)
    ensures ValidInstance(r.1) && r.1.def == inst.def
  {
    DelWith(inst, reply, "RecordId")
  }

  /** `del()` with the field it clears made a parameter. */
  function DelWith(inst: Instance, reply: DbReply, cleared: string): (r: (Run<bool>, Instance))
    requires ValidInstance(inst)
    ensures ValidInstance(r.1) && r.1.def == inst.def
  {
    var d := inst.def;
    var pk := PkName(d);
    if !Truthy(KeyValue(inst)) then (Run(None, Rejected(NoKeyMessage(d))), inst)
    else if pk !in d.columns.vals then (Run(None, Crashed(UndefinedTypeError)), inst)
    else
      var q := Query(DeleteSql(d), Some(KeyParams(inst)), reply);
      match q.outcome
      case Done(_) => (Run(q.issued, Done(true)), inst.(fields := Put(inst.fields, cleared, Null)))
      case Rejected(m) => (Run(q.issued, Rejected(m)), inst)
      case Crashed(e) => (Run(q.issued, Crashed(e)), inst)
  }

  /** `del()` as its promise describes it: a successful DELETE clears the key. */
  function Del(inst: Instance, reply: DbReply): (r: (Run<bool>, Instance))
    requires ValidInstance(inst)
    ensures ValidInstance(r.1) && r.1.def == inst.def
  {
    DelWith(inst, reply, PkName(inst.def))
  }

  /** `del` rejects a record whose key value is falsy without issuing anything;
      otherwise it issues the DELETE by key, binding the key's value, resolves
      with true when the statement succeeds and passes a driver error on. */
  lemma DelSpec(inst: Instance, reply: DbReply, cleared: string)
    requires ValidInstance(inst)
    ensures !Truthy(KeyValue(inst)) ==> DelWith(inst, reply, cleared) == (Run(None, Rejected(NoKeyMessage(inst.def))), inst)
    ensures Truthy(KeyValue(inst)) && PkName(inst.def) in inst.def.columns.vals ==>
      && DelWith(inst, reply, cleared).0.issued.Some?
      && DelWith(inst, reply, cleared).0.issued.value.sql == DeleteSql(inst.def)
      && DelWith(inst, reply, cleared).0.issued.value.Prepared?
      && DelWith(inst, reply, cleared).0.issued.value.bindings.keys == [PkName(inst.def)]
      && DelWith(inst, reply, cleared).0.issued.value.bindings.vals[PkName(inst.def)] == KeyValue(inst)
      && (reply.Reply? ==> DelWith(inst, reply, cleared).0.outcome == Done(true))
      && (reply.DbFail? ==> DelWith(inst, reply, cleared) == (Run(Some(DelWith(inst, reply, cleared).0.issued.value), Rejected(reply.message)), inst))
  {
    if Truthy(KeyValue(inst)) && PkName(inst.def) in inst.def.columns.vals {
      var w := KeyParams(inst);
      WhereIsValidForQuerySpec(w);
      ValidHasNoNullish(w);
      PreparedBindingsSpec(Some(w));
    }
  }

  /** After a successful delete the record's key is `null`: a second `del`
      rejects without issuing anything, and `save` would insert afresh. */
  lemma DelClearsKey(inst: Instance, rows: seq<Row>, n: int)
    requires ValidInstance(inst)
    requires Truthy(KeyValue(inst)) && PkName(inst.def) in inst.def.columns.vals
    ensures Del(inst, Reply(rows, n)).0.outcome == Done(true)
    ensures KeyValue(Del(inst, Reply(rows, n)).1) == Null
    ensures Del(Del(inst, Reply(rows, n)).1, Reply(rows, n)) ==
      (Run(None, Rejected(NoKeyMessage(inst.def))), Del(inst, Reply(rows, n)).1)
    ensures Save(Del(inst, Reply(rows, n)).1, Reply(rows, n)).issued.Some?
      && Save(Del(inst, Reply(rows, n)).1, Reply(rows, n)).issued.value.sql == InsertSql(inst.def, false, "")
  {
    DelSpec(inst, Reply(rows, n), PkName(inst.def));
    var after := Del(inst, Reply(rows, n)).1;
    SaveChoosesStatement(after, Reply(rows, n));
  }

  /** As written, a model keyed by anything but `RecordId` keeps its key value
      after a successful delete: a second `del` issues the same DELETE again. */
  lemma DelAsWrittenKeepsKey(inst: Instance, rows: seq<Row>, n: int)
    requires ValidInstance(inst)
    requires Truthy(KeyValue(inst)) && PkName(inst.def) in inst.def.columns.vals
    requires PkName(inst.def) != "RecordId"
    ensures DelAsWritten(inst, Reply(rows, n)).0.outcome == Done(true)
    ensures KeyValue(DelAsWritten(inst, Reply(rows, n)).1) == KeyValue(inst)
    ensures DelAsWritten(DelAsWritten(inst, Reply(rows, n)).1, Reply(rows, n)).0.issued ==
      DelAsWritten(inst, Reply(rows, n)).0.issued
  {
    DelSpec(inst, Reply(rows, n), "RecordId");
    var after := DelAsWritten(inst, Reply(rows, n)).1;
    assert KeyParams(after) == KeyParams(inst);
  }
}
