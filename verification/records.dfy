/** The record layer of one discovered table: the model definition, construction
    with primary-key detection, `new`, and hydration of result rows. */
module Records {
  import opened Js
  import opened Strings
  import opened ObjMaps
  import opened NativeTypes
  import opened WhereClause
  import opened Executor

  /** What every instance of a model shares: its table, its name and its
      translated columns. */
  datatype ModelDef = ModelDef(tableName: string, modelName: string, columns: Schema)

  /** A model instance: its definition and the current value of each field. */
  datatype Instance = Instance(def: ModelDef, fields: Obj<Value>)

  predicate ValidInstance(inst: Instance) {
    Wf(inst.def.columns) && Wf(inst.fields)
  }

  predicate Flagged(cols: Schema, k: string)
    requires k in cols.vals
  {
    cols.vals[k].primaryKey
  }

  /** The constructor's scan `for (i in cols) if (cols[i].primaryKey) pk = i`
      from position `i` on, `acc` being the key found so far. */
  function PkScan(cols: Schema, i: nat, acc: Option<string>): Option<string>
    requires Wf(cols) && i <= |cols.keys|
    decreases |cols.keys| - i
  {
    if i == |cols.keys| then acc
    else PkScan(cols, i + 1, if Flagged(cols, cols.keys[i]) then Some(cols.keys[i]) else acc)
  }

  /** `this.primaryKey` as set by the constructor. */
  function PrimaryKey(d: ModelDef): Option<string>
    requires Wf(d.columns)
  {
    PkScan(d.columns, 0, None)
  }

  /** The property name and SQL text `this.primaryKey` turns into: the key, or
      "null" when no column is flagged. */
  function PkName(d: ModelDef): string
    requires Wf(d.columns)
  {
    match PrimaryKey(d)
    case Some(k) => k
    case None => "null"
  }

  lemma {:induction false} PkScanSpec(cols: Schema, i: nat, acc: Option<string>)
    requires Wf(cols) && i <= |cols.keys|
    ensures (forall j :: i <= j < |cols.keys| ==> !Flagged(cols, cols.keys[j])) ==> PkScan(cols, i, acc) == acc
    ensures (exists j :: i <= j < |cols.keys| && Flagged(cols, cols.keys[j])) ==>
      exists p :: i <= p < |cols.keys| && PkScan(cols, i, acc) == Some(cols.keys[p])
        && Flagged(cols, cols.keys[p])
        && forall j :: p < j < |cols.keys| ==> !Flagged(cols, cols.keys[j])
    decreases |cols.keys| - i
  {
    if i < |cols.keys| {
      var acc' := if Flagged(cols, cols.keys[i]) then Some(cols.keys[i]) else acc;
      PkScanSpec(cols, i + 1, acc');
    }
  }

  /** The primary key is the LAST column flagged as one, and there is none
      exactly when no column is flagged. */
  lemma PrimaryKeySpec(d: ModelDef)
    requires Wf(d.columns)
    ensures PrimaryKey(d).None? <==> forall k :: k in d.columns.vals ==> !Flagged(d.columns, k)
    ensures PrimaryKey(d).Some? ==>
      exists p :: 0 <= p < |d.columns.keys| && d.columns.keys[p] == PrimaryKey(d).value
        && Flagged(d.columns, d.columns.keys[p])
        && forall j :: p < j < |d.columns.keys| ==> !Flagged(d.columns, d.columns.keys[j])
  {
    var cols := d.columns;
    PkScanSpec(cols, 0, None);
    if forall j :: 0 <= j < |cols.keys| ==> !Flagged(cols, cols.keys[j]) {
      forall k | k in cols.vals ensures !Flagged(cols, k) {
        var j :| 0 <= j < |cols.keys| && cols.keys[j] == k;
      }
    }
  }

  /** Every field of the schema, each `null`, in column order. */
  function NullFields(cols: Schema): (f: Obj<Value>)
    requires Wf(cols)
    ensures Wf(f)
  {
    Obj(cols.keys, map k | k in cols.vals :: Null)
  }

  /** `new Model(round, cols, tableName, modelName)`. */
  function Construct(cols: Schema, tableName: string, modelName: string): (inst: Instance)
    requires Wf(cols)
    ensures ValidInstance(inst)
    ensures inst.fields.keys == cols.keys
    ensures forall k :: k in cols.vals ==> Lookup(inst.fields, k) == Null
    ensures forall k :: k !in cols.vals ==> Lookup(inst.fields, k) == Undefined
  {
    Instance(ModelDef(tableName, modelName, cols), NullFields(cols))
  }

  /** `model.new()`: a fresh instance of the same model, every field `null`. */
  function New(inst: Instance): (r: Instance)
    requires ValidInstance(inst)
    ensures ValidInstance(r)
    ensures r.def == inst.def
    ensures r.fields.keys == inst.def.columns.keys
    ensures forall k :: k in inst.def.columns.vals ==> Lookup(r.fields, k) == Null
  {
    Construct(inst.def.columns, inst.def.tableName, inst.def.modelName)
  }

  predicate RowsWf(rows: seq<Row>) {
    forall i :: 0 <= i < |rows| ==> Wf(rows[i])
  }

  /** `hydrate(row)`: copies every key of the row onto the instance. */
  function HydrateRow(inst: Instance, row: Row): (r: Instance)
    requires ValidInstance(inst) && Wf(row)
    ensures ValidInstance(r)
  {
    Instance(inst.def, Assign(inst.fields, row))
  }

  /** What `hydrate` returns: new instances for an array of rows, and the
      receiver itself for anything else (a row count, say). */
  datatype Hydrated = Instances(records: seq<Instance>) | Receiver(receiver: Instance)

  /** `hydrate(results, cols)` as `findAll` calls it. */
  function Hydrate(inst: Instance, res: QueryResult): Hydrated
    requires ValidInstance(inst)
    requires res.RowsOf? ==> RowsWf(res.rows)
  {
    match res
    case RowsOf(rows) =>
      Instances(seq(|rows|, i requires 0 <= i < |rows| => HydrateRow(New(inst), rows[i])))
    case AffectedCount(_) => Receiver(inst)
  }

  /** Hydrating one row: every key of the row now holds the row's value, every
      other field keeps its value, and the row's new keys follow the existing
      fields in the row's order. */
  lemma HydrateRowSpec(inst: Instance, row: Row)
    requires ValidInstance(inst) && Wf(row)
    ensures forall k :: k in row.vals ==> Lookup(HydrateRow(inst, row).fields, k) == row.vals[k]
    ensures forall k :: k !in row.vals ==> Lookup(HydrateRow(inst, row).fields, k) == Lookup(inst.fields, k)
    ensures HydrateRow(inst, row).fields.keys == inst.fields.keys + Fresh(row.keys, inst.fields.keys)
    ensures HydrateRow(inst, row).def == inst.def
  {
    AssignSpec(inst.fields, row);
  }

  /** Reading back a hydrated record: each schema field holds the row's value
      when the row has that key and stays `null` otherwise. */
  lemma HydrateRoundTrip(inst: Instance, row: Row, k: string)
    requires ValidInstance(inst) && Wf(row)
    requires k in inst.def.columns.vals
    ensures Lookup(HydrateRow(New(inst), row).fields, k) == if k in row.vals then row.vals[k] else Null
  {
    HydrateRowSpec(New(inst), row);
  }

  /** An array of n rows hydrates into n fresh instances of the same model, the
      i-th filled from the i-th row; a row count returns the receiver unchanged. */
  lemma HydrateSpec(inst: Instance, res: QueryResult)
    requires ValidInstance(inst)
    requires res.RowsOf? ==> RowsWf(res.rows)
    ensures res.AffectedCount? ==> Hydrate(inst, res) == Receiver(inst)
    ensures res.RowsOf? ==>
      && Hydrate(inst, res).Instances?
      && |Hydrate(inst, res).records| == |res.rows|
      && forall i :: 0 <= i < |res.rows| ==>
        && Hydrate(inst, res).records[i].def == inst.def
        && forall k :: k in inst.def.columns.vals ==>
          Lookup(Hydrate(inst, res).records[i].fields, k) ==
            if k in res.rows[i].vals then res.rows[i].vals[k] else Null
  {
    if res.RowsOf? {
      forall i, k | 0 <= i < |res.rows| && k in inst.def.columns.vals
        ensures Lookup(Hydrate(inst, res).records[i].fields, k) ==
          if k in res.rows[i].vals then res.rows[i].vals[k] else Null
      {
        HydrateRoundTrip(inst, res.rows[i], k);
      }
    }
  }
}
