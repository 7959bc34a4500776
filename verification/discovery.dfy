/** Model discovery: the catalog query for one or several tables, and the
    turning of its rows into one model per requested table, with the argument
    shape and empty-catalog checks. The catalog is an oracle: the caller
    supplies the rows the database would return. */
module Discovery {
  import opened Js
  import opened Strings
  import opened ObjMaps
  import opened NativeTypes
  import opened Executor
  import opened Records

  /** A table-name or model-name argument: a string, an array of strings, or
      nothing at all (which JavaScript renders as `undefined`). */
  datatype NameArg = One(name: string) | Many(names: seq<string>) | Absent

  /** The argument as string concatenation renders it: arrays join with commas. */
  function Rendered(a: NameArg): string {
    match a
    case One(n) => n
    case Many(ns) => Join(ns, ",")
    case Absent => "undefined"
  }

  /** The fixed head of the catalog query: every column of the named tables,
      joined with the constraint each column takes part in. */
  const ColumnsSqlHead: string :=
    "SELECT c.*, tc.CONSTRAINT_TYPE FROM INFORMATION_SCHEMA.COLUMNS c\n"
    + " LEFT OUTER JOIN INFORMATION_SCHEMA.CONSTRAINT_COLUMN_USAGE ccu\n"
    + "    ON c.TABLE_NAME = ccu.TABLE_NAME\n"
    + "    AND ccu.COLUMN_NAME = c.COLUMN_NAME\n"
    + " LEFT OUTER JOIN INFORMATION_SCHEMA.TABLE_CONSTRAINTS tc\n"
    + "    ON c.TABLE_NAME = tc.TABLE_NAME\n"
    + "    AND tc.CONSTRAINT_NAME = ccu.CONSTRAINT_NAME \n"
    + " WHERE\n"
    + "    c.TABLE_NAME \n"

  /** `getColumnsSql(table)`. */
  function ColumnsSql(table: NameArg): string {
    ColumnsSqlHead
      + if table.Many? then " IN ('" + Join(table.names, "','") + "')" else " = N'" + Rendered(table) + "'"
  }

  /** Several tables are matched with `IN` over the individually quoted names,
      one table with an equality against a national string literal. */
  lemma ColumnsSqlSpec(table: NameArg)
    ensures table.Many? && |table.names| > 0 ==>
      ColumnsSql(table) == ColumnsSqlHead + " IN (" + Join(Wrap(table.names, "'", "'"), ",") + ")"
    ensures !table.Many? ==> ColumnsSql(table) == ColumnsSqlHead + " = N'" + Rendered(table) + "'"
    ensures |ColumnsSql(table)| > |ColumnsSqlHead| && ColumnsSql(table)[..|ColumnsSqlHead|] == ColumnsSqlHead
  {
    if table.Many? && |table.names| > 0 {
      JoinWrapped(table.names, "'", "'", ",");
      assert "'" + "," + "'" == "','";
      var j := Join(table.names, "','");
      assert " IN ('" + j + "')" == " IN (" + ("'" + j + "'") + ")";
    }
  }

  /** What the catalog query resolves with: `getColumns` runs it without
      bindings, so an empty result comes back as the affected-row count. */
  datatype CatalogReply = CatalogRows(rows: seq<CatalogRow>, rowsAffected: int) | CatalogFail(message: string)

  const ArrayShapeMessage := "If argument 1 (tableNames) is an array, then argument 2 (modelNames) must also be an array."
  const StringShapeMessage := "If argument 1 (tableName) is a string, then argument 2 (modelName) must also be a string."

  function NoColumnsMessage(table: NameArg): string {
    "No column data returned for table [" + Rendered(table) + "]. Perhaps you misspelled the name of the table?"
  }

  /** `modelName[i]`, `undefined` past the end of the array. */
  function NameAt(names: seq<string>, i: nat): string {
    if i < |names| then names[i] else "undefined"
  }

  /** `models[modelName[i]] = generateModel(tableName[i], modelName[i], cols)`
      for i from `i` on. */
  function ModelsFrom(tables: seq<string>, models: seq<string>, cols: Schema, i: nat, acc: Obj<Instance>): (r: Obj<Instance>)
    requires Wf(cols) && Wf(acc) && i <= |tables|
    ensures Wf(r)
    decreases |tables| - i
  {
    if i == |tables| then acc
    else
      var m := NameAt(models, i);
      ModelsFrom(tables, models, cols, i + 1, Put(acc, m, Construct(cols, tables[i], m)))
  }

  /** The models discovery resolves with. */
  function Models(table: NameArg, model: NameArg, cols: Schema): Obj<Instance>
    requires Wf(cols) && (table.Many? <==> model.Many?)
  {
    if table.Many? then ModelsFrom(table.names, model.names, cols, 0, Empty())
    else Put(Empty(), Rendered(model), Construct(cols, Rendered(table), Rendered(model)))
  }

  /** `discoverModel(tableName, modelName)`, with the zero-rows check either as
      it behaves (`rejectEmpty` false) or as it is evidently meant to behave. */
  function DiscoverWith(table: NameArg, model: NameArg, reply: CatalogReply, rejectEmpty: bool): (r: Run<Obj<Instance>>)
    ensures r.issued == Some(Simple(ColumnsSql(table)))
  {
    var issued := Some(Simple(ColumnsSql(table)));
    match reply
    case CatalogFail(m) => Run(issued, Rejected(m))
    case CatalogRows(rows, _) =>
      if |rows| == 0 && rejectEmpty then Run(issued, Rejected(NoColumnsMessage(table)))
      else
        var cols := TranslateColumns(rows);
        if table.Many? && !model.Many? then Run(issued, Rejected(ArrayShapeMessage))
        else if !table.Many? && model.Many? then Run(issued, Rejected(StringShapeMessage))
        else Run(issued, Done(Models(table, model, cols)))
  }

  /** Discovery as written. The zero-rows guard tests `cols.length == 0`, but an
      empty catalog result arrives as the affected-row count, a number without
      a length, so the guard never fires and translation yields no columns. */
  function DiscoverModelAsWritten(table: NameArg, model: NameArg, reply: CatalogReply): (r: Run<Obj<Instance>>)
    ensures r.issued == Some(Simple(ColumnsSql(table)))
  {
    DiscoverWith(table, model, reply, false)
  }

  /** Discovery with the zero-rows rejection in force. */
  function DiscoverModel(table: NameArg, model: NameArg, reply: CatalogReply): (r: Run<Obj<Instance>>)
    ensures r.issued == Some(Simple(ColumnsSql(table)))
  {
    DiscoverWith(table, model, reply, true)
  }

  /** Discovery rejects exactly when the catalog query fails, returns no rows,
      or the arguments disagree in shape (an array of tables with a non-array of
      model names, or a single table with an array of model names), in that
      order of precedence; otherwise it resolves with the models. */
  lemma DiscoverModelSpec(table: NameArg, model: NameArg, reply: CatalogReply)
    ensures reply.CatalogFail? ==> DiscoverModel(table, model, reply).outcome == Rejected(reply.message)
    ensures reply.CatalogRows? && |reply.rows| == 0 ==>
      DiscoverModel(table, model, reply).outcome == Rejected(NoColumnsMessage(table))
    ensures reply.CatalogRows? && |reply.rows| > 0 && table.Many? && !model.Many? ==>
      DiscoverModel(table, model, reply).outcome == Rejected(ArrayShapeMessage)
    ensures reply.CatalogRows? && |reply.rows| > 0 && !table.Many? && model.Many? ==>
      DiscoverModel(table, model, reply).outcome == Rejected(StringShapeMessage)
    ensures DiscoverModel(table, model, reply).outcome.Done? <==>
      reply.CatalogRows? && |reply.rows| > 0 && (table.Many? <==> model.Many?)
    ensures DiscoverModel(table, model, reply).outcome.Done? ==>
      DiscoverModel(table, model, reply).outcome.value == Models(table, model, TranslateColumns(reply.rows))
  {
  }

  /** A single table yields exactly one model, keyed by the model name (the
      text `undefined` when none is given), over that table and its columns. */
  lemma SingleTableModel(table: NameArg, model: NameArg, cols: Schema)
    requires Wf(cols) && !table.Many? && !model.Many?
    ensures Models(table, model, cols).keys == [Rendered(model)]
    ensures Models(table, model, cols).vals[Rendered(model)] == Construct(cols, Rendered(table), Rendered(model))
    ensures model.Absent? ==> Models(table, model, cols).keys == ["undefined"]
  {
  }

  lemma {:induction false} ModelsFromSpec(tables: seq<string>, models: seq<string>, cols: Schema, i: nat, acc: Obj<Instance>)
    requires Wf(cols) && Wf(acc) && i <= |tables| <= |models|
    requires Distinct(models[..|tables|])
    requires acc.keys == models[..i]
    requires forall j :: 0 <= j < i ==> acc.vals[models[j]] == Construct(cols, tables[j], models[j])
    ensures ModelsFrom(tables, models, cols, i, acc).keys == models[..|tables|]
    ensures forall j :: 0 <= j < |tables| ==>
      ModelsFrom(tables, models, cols, i, acc).vals[models[j]] == Construct(cols, tables[j], models[j])
    decreases |tables| - i
  {
    if i < |tables| {
      var m := models[i];
      assert m !in acc.keys by {
        forall j | 0 <= j < i ensures models[..i][j] != m {
          assert models[..|tables|][j] == models[j] && models[..|tables|][i] == m;
        }
      }
      var acc' := Put(acc, m, Construct(cols, tables[i], m));
      assert acc'.keys == models[..i + 1];
      forall j | 0 <= j < i + 1 ensures acc'.vals[models[j]] == Construct(cols, tables[j], models[j]) {
        if j < i {
          assert models[..|tables|][j] == models[j] && models[..|tables|][i] == m;
        }
      }
      ModelsFromSpec(tables, models, cols, i + 1, acc');
    }
  }

  /** With distinct model names, one per table, discovery of several tables
      yields one model per table, keyed by its model name in argument order,
      each over its own table name. */
  lemma ManyTablesModels(tables: seq<string>, models: seq<string>, cols: Schema)
    requires Wf(cols) && |tables| <= |models| && Distinct(models[..|tables|])
    ensures Models(Many(tables), Many(models), cols).keys == models[..|tables|]
    ensures forall i :: 0 <= i < |tables| ==>
      Models(Many(tables), Many(models), cols).vals[models[i]] == Construct(cols, tables[i], models[i])
  {
    ModelsFromSpec(tables, models, cols, 0, Empty());
  }

  lemma {:induction false} ModelsFromShareColumns(tables: seq<string>, models: seq<string>, cols: Schema, i: nat, acc: Obj<Instance>)
    requires Wf(cols) && Wf(acc) && i <= |tables|
    requires forall k :: k in acc.vals ==> acc.vals[k].def.columns == cols
    ensures forall k :: k in ModelsFrom(tables, models, cols, i, acc).vals ==>
      ModelsFrom(tables, models, cols, i, acc).vals[k].def.columns == cols
    decreases |tables| - i
  {
    if i < |tables| {
      var m := NameAt(models, i);
      ModelsFromShareColumns(tables, models, cols, i + 1, Put(acc, m, Construct(cols, tables[i], m)));
    }
  }

  /** Every discovered model carries the columns translated from the whole
      catalog result: with several tables, each model's schema is the merge of
      all their columns, not just its own table's. */
  lemma DiscoveredModelsShareColumns(table: NameArg, model: NameArg, reply: CatalogReply)
    requires DiscoverModel(table, model, reply).outcome.Done?
    ensures reply.CatalogRows?
    ensures forall k :: k in DiscoverModel(table, model, reply).outcome.value.vals ==>
      DiscoverModel(table, model, reply).outcome.value.vals[k].def.columns == TranslateColumns(reply.rows)
  {
    var cols := TranslateColumns(reply.rows);
    if table.Many? {
      ModelsFromShareColumns(table.names, model.names, cols, 0, Empty());
    }
  }

  /** As written, an empty catalog result (a misspelled table) is not rejected:
      discovery resolves with a model that has no columns at all and no key. */
  lemma EmptyCatalogAcceptedAsWritten(table: string, model: string, n: int)
    ensures DiscoverModelAsWritten(One(table), One(model), CatalogRows([], n)).outcome ==
      Done(Obj([model], map[model := Construct(Empty(), table, model)]))
    ensures DiscoverModel(One(table), One(model), CatalogRows([], n)).outcome ==
      Rejected("No column data returned for table [" + table + "]. Perhaps you misspelled the name of the table?")
  {
    var x := Construct(Empty(), table, model);
    assert TranslateColumns([]) == Empty();
    assert Put(Empty(), model, x) == Obj([model], map[model := x]);
  }

  /** The two agree whenever the catalog returns rows. */
  lemma DiscoverAgreesOnRows(table: NameArg, model: NameArg, reply: CatalogReply)
    requires reply.CatalogFail? || |reply.rows| > 0
    ensures DiscoverModelAsWritten(table, model, reply) == DiscoverModel(table, model, reply)
  {
  }
}
