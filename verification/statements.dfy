/** The SQL text and bindings a model builds from its schema: the ordered
    non-key field list, the insert/update parameter map, the INSERT, UPDATE,
    SELECT TOP and DELETE statements, and predicate checking and typing against
    the schema. */
module Statements {
  import opened Js
  import opened Strings
  import opened ObjMaps
  import opened NativeTypes
  import opened WhereClause
  import opened Records

  /** The keys of `ks` other than `pk`, in order: the loop's
      `if (i == this.primaryKey) continue`. */
  function Without(ks: seq<string>, pk: Option<string>): seq<string>
  {
    if ks == [] then [] else (if pk == Some(ks[0]) then [] else [ks[0]]) + Without(ks[1..], pk)
  }

  lemma {:induction false} WithoutAbsent(ks: seq<string>, pk: Option<string>)
    requires pk.None? || pk.value !in ks
    ensures Without(ks, pk) == ks
  {
    if ks != [] {
      WithoutAbsent(ks[1..], pk);
    }
  }

  lemma {:induction false} WithoutAt(ks: seq<string>, p: nat)
    requires Distinct(ks) && p < |ks|
    ensures Without(ks, Some(ks[p])) == ks[..p] + ks[p + 1..]
  {
    if p == 0 {
      TailDistinct(ks);
      WithoutAbsent(ks[1..], Some(ks[0]));
    } else {
      TailDistinct(ks);
      assert ks[1..][p - 1] == ks[p];
      WithoutAt(ks[1..], p - 1);
      assert ks[..p] == [ks[0]] + ks[1..][..p - 1];
      assert ks[p + 1..] == ks[1..][p..];
    }
  }

  lemma {:induction false} WithoutSub(ks: seq<string>, pk: Option<string>)
    requires Distinct(ks)
    ensures Distinct(Without(ks, pk))
    ensures forall k :: k in Without(ks, pk) <==> k in ks && pk != Some(k)
  {
    if ks != [] {
      TailDistinct(ks);
      WithoutSub(ks[1..], pk);
      var head := if pk == Some(ks[0]) then [] else [ks[0]];
      var w := head + Without(ks[1..], pk);
      forall i, j | 0 <= i < j < |w| ensures w[i] != w[j] {
        if i < |head| {
          assert w[i] == ks[0];
          assert w[j] in Without(ks[1..], pk);
        }
      }
    }
  }

  /** The schema columns other than the primary key, in schema order. */
  function NonKeyColumns(d: ModelDef): (nk: seq<string>)
    requires Wf(d.columns)
    ensures forall k :: k in nk ==> k in d.columns.vals
  {
    WithoutSub(d.columns.keys, PrimaryKey(d));
    Without(d.columns.keys, PrimaryKey(d))
  }

  /** The non-key column list is the schema's key list with the primary key's
      position cut out (the whole list when there is no key): schema order, each
      column once, never the key. */
  lemma NonKeyColumnsSpec(d: ModelDef)
    requires Wf(d.columns)
    ensures PrimaryKey(d).None? ==> NonKeyColumns(d) == d.columns.keys
    ensures PrimaryKey(d).Some? ==>
      exists p :: 0 <= p < |d.columns.keys| && d.columns.keys[p] == PrimaryKey(d).value
        && NonKeyColumns(d) == d.columns.keys[..p] + d.columns.keys[p + 1..]
    ensures Distinct(NonKeyColumns(d))
    ensures forall k :: k in NonKeyColumns(d) <==> k in d.columns.vals && PrimaryKey(d) != Some(k)
  {
    PrimaryKeySpec(d);
    WithoutSub(d.columns.keys, PrimaryKey(d));
    if PrimaryKey(d).None? {
      WithoutAbsent(d.columns.keys, None);
    } else {
      var p :| 0 <= p < |d.columns.keys| && d.columns.keys[p] == PrimaryKey(d).value;
      WithoutAt(d.columns.keys, p);
    }
  }

  /** Each name behind the same prefix. */
  function Prefixed(prefix: string, ks: seq<string>): (r: seq<string>)
    ensures |r| == |ks|
    ensures forall i :: 0 <= i < |ks| ==> r[i] == prefix + ks[i]
  {
    if ks == [] then [] else [prefix + ks[0]] + Prefixed(prefix, ks[1..])
  }

  lemma {:induction false} PrefixedEmpty(ks: seq<string>)
    ensures Prefixed("", ks) == ks
  {
    if ks != [] {
      PrefixedEmpty(ks[1..]);
      assert "" + ks[0] == ks[0];
    }
  }

  /** `getInsertUpdateFieldNamesAsArray(prefix)`. */
  function FieldNames(d: ModelDef, prefix: string): seq<string>
    requires Wf(d.columns)
  {
    Prefixed(prefix, NonKeyColumns(d))
  }

  /** The field list is the non-key columns in schema order, each behind the
      prefix: one name per column except the primary key, and the bare names
      when there is no prefix. */
  lemma FieldNamesSpec(d: ModelDef, prefix: string)
    requires Wf(d.columns)
    ensures FieldNames(d, "") == NonKeyColumns(d)
    ensures |FieldNames(d, prefix)| == |d.columns.keys| - (if PrimaryKey(d).Some? then 1 else 0)
    ensures forall i :: 0 <= i < |FieldNames(d, prefix)| ==> FieldNames(d, prefix)[i] == prefix + NonKeyColumns(d)[i]
  {
    NonKeyColumnsSpec(d);
    PrefixedEmpty(NonKeyColumns(d));
  }

  /** `{value: this[k], type: this.columns[k].type}`. */
  function ParamEntry(inst: Instance, k: string): Entry
    requires k in inst.def.columns.vals
  {
    Object(PredObj(Some(Lookup(inst.fields, k)), Some(inst.def.columns.vals[k].sqlType), None))
  }

  function ParamsFrom(inst: Instance, prefix: string, ks: seq<string>, acc: Where): (w: Where)
    requires Wf(acc)
    requires forall k :: k in ks ==> k in inst.def.columns.vals
    ensures Wf(w)
    decreases |ks|
  {
    if ks == [] then acc
    else ParamsFrom(inst, prefix, ks[1..], Put(acc, prefix + ks[0], ParamEntry(inst, ks[0])))
  }

  /** `getInsertUpdateParams(updating, prefix)`: one entry per non-key column and,
      when updating, the primary key's entry assigned last. Reading the key's
      column type throws when the key names no column; callers exclude that. */
  function InsertUpdateParams(inst: Instance, updating: bool, prefix: string): (w: Where)
    requires ValidInstance(inst)
    requires updating ==> PkName(inst.def) in inst.def.columns.vals
    ensures Wf(w)
  {
    var base := ParamsFrom(inst, prefix, NonKeyColumns(inst.def), Empty());
    if updating then Put(base, PkName(inst.def), ParamEntry(inst, PkName(inst.def))) else base
  }

  lemma {:induction false} PrefixInjective(prefix: string, a: string, b: string)
    requires prefix + a == prefix + b
    ensures a == b
  {
    assert (prefix + a)[|prefix|..] == a;
    assert (prefix + b)[|prefix|..] == b;
  }

  /** Distinct names stay distinct behind a common prefix. */
  lemma DistinctBehindPrefix(prefix: string, ks: seq<string>, k: string)
    requires |ks| > 0 && Distinct(ks) && k in ks[1..]
    ensures prefix + k != prefix + ks[0]
  {
    var j :| 0 <= j < |ks[1..]| && ks[1..][j] == k;
    assert ks[j + 1] == k;
    if prefix + k == prefix + ks[0] {
      PrefixInjective(prefix, k, ks[0]);
    }
  }

  /** After the first name's entry is put, the remaining names are still new. */
  lemma PutKeepsRestFresh(prefix: string, ks: seq<string>, acc: Where, e: Entry)
    requires Wf(acc) && |ks| > 0 && Distinct(ks)
    requires forall k :: k in ks ==> prefix + k !in acc.vals
    ensures forall k :: k in ks[1..] ==> prefix + k !in Put(acc, prefix + ks[0], e).vals
  {
    forall k | k in ks[1..] ensures prefix + k !in Put(acc, prefix + ks[0], e).vals {
      assert k in ks;
      DistinctBehindPrefix(prefix, ks, k);
    }
  }

  lemma {:induction false} ParamsFromKeys(inst: Instance, prefix: string, ks: seq<string>, acc: Where)
    requires Wf(acc)
    requires forall k :: k in ks ==> k in inst.def.columns.vals
    requires Distinct(ks)
    requires forall k :: k in ks ==> prefix + k !in acc.vals
    ensures ParamsFrom(inst, prefix, ks, acc).keys == acc.keys + Prefixed(prefix, ks)
    decreases |ks|
  {
    if ks != [] {
      TailDistinct(ks);
      var x := prefix + ks[0];
      var acc' := Put(acc, x, ParamEntry(inst, ks[0]));
      PutKeepsRestFresh(prefix, ks, acc, ParamEntry(inst, ks[0]));
      ParamsFromKeys(inst, prefix, ks[1..], acc');
      assert acc'.keys == acc.keys + [x];
      assert Prefixed(prefix, ks) == [x] + Prefixed(prefix, ks[1..]);
      ConcatAssoc(acc.keys, [x], Prefixed(prefix, ks[1..]));
    }
  }

  lemma {:induction false} ParamsFromKeeps(inst: Instance, prefix: string, ks: seq<string>, acc: Where, x: string)
    requires Wf(acc)
    requires forall k :: k in ks ==> k in inst.def.columns.vals
    requires x in acc.vals
    requires forall k :: k in ks ==> prefix + k != x
    ensures x in ParamsFrom(inst, prefix, ks, acc).vals
    ensures ParamsFrom(inst, prefix, ks, acc).vals[x] == acc.vals[x]
    decreases |ks|
  {
    if ks != [] {
      ParamsFromKeeps(inst, prefix, ks[1..], Put(acc, prefix + ks[0], ParamEntry(inst, ks[0])), x);
    }
  }

  lemma {:induction false} ParamsFromValues(inst: Instance, prefix: string, ks: seq<string>, acc: Where)
    requires Wf(acc)
    requires forall k :: k in ks ==> k in inst.def.columns.vals
    requires Distinct(ks)
    ensures forall k :: k in ks ==>
      prefix + k in ParamsFrom(inst, prefix, ks, acc).vals
      && ParamsFrom(inst, prefix, ks, acc).vals[prefix + k] == ParamEntry(inst, k)
    decreases |ks|
  {
    if ks != [] {
      TailDistinct(ks);
      var acc' := Put(acc, prefix + ks[0], ParamEntry(inst, ks[0]));
      ParamsFromValues(inst, prefix, ks[1..], acc');
      forall k | k in ks[1..] ensures prefix + k != prefix + ks[0] {
        DistinctBehindPrefix(prefix, ks, k);
      }
      ParamsFromKeeps(inst, prefix, ks[1..], acc', prefix + ks[0]);
      forall k | k in ks
        ensures prefix + k in ParamsFrom(inst, prefix, ks, acc).vals
        ensures ParamsFrom(inst, prefix, ks, acc).vals[prefix + k] == ParamEntry(inst, k)
      {
        if k != ks[0] {
          assert k in ks[1..];
        }
      }
    }
  }

  lemma {:induction false} ParamsFromAllOk(inst: Instance, prefix: string, ks: seq<string>, acc: Where)
    requires Wf(acc)
    requires forall k :: k in ks ==> k in inst.def.columns.vals
    requires forall k :: k in acc.vals ==> EntryOk(k, acc.vals[k])
    ensures forall k :: k in ParamsFrom(inst, prefix, ks, acc).vals ==> EntryOk(k, ParamsFrom(inst, prefix, ks, acc).vals[k])
    decreases |ks|
  {
    if ks != [] {
      assert forall k :: k in ks[1..] ==> k in ks;
      ParamsFromAllOk(inst, prefix, ks[1..], Put(acc, prefix + ks[0], ParamEntry(inst, ks[0])));
    }
  }

  /** The insert parameters: exactly the prefixed field names, in field order,
      each bound to the field's current value and its column type. */
  lemma InsertParamsSpec(inst: Instance, prefix: string)
    requires ValidInstance(inst)
    ensures InsertUpdateParams(inst, false, prefix).keys == FieldNames(inst.def, prefix)
    ensures forall k :: k in inst.def.columns.vals && PrimaryKey(inst.def) != Some(k) ==>
      prefix + k in InsertUpdateParams(inst, false, prefix).vals
      && InsertUpdateParams(inst, false, prefix).vals[prefix + k] == ParamEntry(inst, k)
  {
    var nk := NonKeyColumns(inst.def);
    NonKeyColumnsSpec(inst.def);
    ParamsFromKeys(inst, prefix, nk, Empty());
    ParamsFromValues(inst, prefix, nk, Empty());
    assert Empty<Entry>().keys + Prefixed(prefix, nk) == Prefixed(prefix, nk);
  }

  /** Without a prefix the non-key parameters are keyed by the bare column names. */
  lemma UnprefixedParams(inst: Instance)
    requires ValidInstance(inst)
    ensures var base := ParamsFrom(inst, "", NonKeyColumns(inst.def), Empty());
      && base.keys == NonKeyColumns(inst.def)
      && forall k :: k in NonKeyColumns(inst.def) ==> k in base.vals && base.vals[k] == ParamEntry(inst, k)
  {
    var nk := NonKeyColumns(inst.def);
    NonKeyColumnsSpec(inst.def);
    PrefixedEmpty(nk);
    ParamsFromKeys(inst, "", nk, Empty());
    ParamsFromValues(inst, "", nk, Empty());
    assert Empty<Entry>().keys + nk == nk;
    forall k | k in nk ensures "" + k == k { }
  }

  /** The update parameters (no prefix, as `save` asks for them) list the
      non-key columns in schema order and then the primary key. */
  lemma UpdateParamsKeys(inst: Instance)
    requires ValidInstance(inst)
    requires PkName(inst.def) in inst.def.columns.vals
    ensures InsertUpdateParams(inst, true, "").keys ==
      NonKeyColumns(inst.def) + (if PrimaryKey(inst.def).Some? then [PkName(inst.def)] else [])
  {
    NonKeyColumnsSpec(inst.def);
    UnprefixedParams(inst);
    if PrimaryKey(inst.def).None? {
      assert PkName(inst.def) in NonKeyColumns(inst.def);
    }
  }

  /** The update parameters bind every schema column, and nothing else, to its
      field's current value and its column type. */
  lemma UpdateParamsValues(inst: Instance)
    requires ValidInstance(inst)
    requires PkName(inst.def) in inst.def.columns.vals
    ensures forall k :: k in inst.def.columns.vals <==> k in InsertUpdateParams(inst, true, "").vals
    ensures forall k :: k in inst.def.columns.vals ==>
      InsertUpdateParams(inst, true, "").vals[k] == ParamEntry(inst, k)
  {
    NonKeyColumnsSpec(inst.def);
    UnprefixedParams(inst);
    PrimaryKeySpec(inst.def);
  }

  /** Every parameter entry carries a value and a type, so the parameter map
      always passes the query validator. */
  lemma InsertUpdateParamsValid(inst: Instance, updating: bool, prefix: string)
    requires ValidInstance(inst)
    requires updating ==> PkName(inst.def) in inst.def.columns.vals
    ensures WhereIsValidForQuery(Some(InsertUpdateParams(inst, updating, prefix))) == Valid
  {
    NonKeyColumnsSpec(inst.def);
    ParamsFromAllOk(inst, prefix, NonKeyColumns(inst.def), Empty());
    WhereIsValidForQuerySpec(InsertUpdateParams(inst, updating, prefix));
  }

  /** `getInsertQuery(omitIdentity, paramPrefix)`. */
  function InsertSql(d: ModelDef, omitIdentity: bool, paramPrefix: string): string
    requires Wf(d.columns)
  {
    "INSERT INTO [" + d.tableName + "] ("
      + ("[" + Join(FieldNames(d, ""), "],[") + "]")
      + ") VALUES ("
      + Join(FieldNames(d, "@" + paramPrefix), ", ")
      + ");\n"
      + (if omitIdentity then "" else "SELECT SCOPE_IDENTITY() AS " + PkName(d) + ";\n")
  }

  /** The INSERT lists every non-key column as `[c]` separated by commas, binds
      each as `@c` in the same order, and (unless omitted) selects the new
      identity under the primary key's name; the key itself is never inserted. */
  lemma InsertSqlSpec(d: ModelDef, omitIdentity: bool, paramPrefix: string)
    requires Wf(d.columns) && |NonKeyColumns(d)| > 0
    ensures InsertSql(d, omitIdentity, paramPrefix) ==
      "INSERT INTO [" + d.tableName + "] ("
      + Join(Wrap(NonKeyColumns(d), "[", "]"), ",")
      + ") VALUES ("
      + Join(Wrap(NonKeyColumns(d), "@" + paramPrefix, ""), ", ")
      + ");\n"
      + (if omitIdentity then "" else "SELECT SCOPE_IDENTITY() AS " + PkName(d) + ";\n")
    ensures PrimaryKey(d).Some? ==> PrimaryKey(d).value !in NonKeyColumns(d)
  {
    var nk := NonKeyColumns(d);
    FieldNamesSpec(d, "");
    NonKeyColumnsSpec(d);
    JoinWrapped(nk, "[", "]", ",");
    assert "]" + "," + "[" == "],[";
    PrefixedIsWrapped("@" + paramPrefix, nk);
  }

  /** A table whose only column is the key inserts nothing: the column list is
      `([])` and the value list `()`, as the empty joins leave them. */
  lemma InsertSqlNoFields(d: ModelDef, omitIdentity: bool, paramPrefix: string)
    requires Wf(d.columns) && |NonKeyColumns(d)| == 0
    ensures InsertSql(d, omitIdentity, paramPrefix) ==
      "INSERT INTO [" + d.tableName + "] ([]) VALUES ();\n"
      + (if omitIdentity then "" else "SELECT SCOPE_IDENTITY() AS " + PkName(d) + ";\n")
  {
  }

  lemma PrefixedIsWrapped(prefix: string, ks: seq<string>)
    ensures Prefixed(prefix, ks) == Wrap(ks, prefix, "")
  {
    forall i | 0 <= i < |ks| ensures Prefixed(prefix, ks)[i] == Wrap(ks, prefix, "")[i] {
      assert prefix + ks[i] + "" == prefix + ks[i];
    }
  }

  /** The SET list as the loop builds it, skipping any field equal to the key. */
  function SetItems(d: ModelDef, fields: seq<string>, bindings: seq<string>): seq<string>
    requires Wf(d.columns) && |fields| == |bindings|
  {
    if fields == [] then []
    else
      var item := if Some(fields[0]) == PrimaryKey(d) then [] else ["[" + fields[0] + "] = " + bindings[0]];
      item + SetItems(d, fields[1..], bindings[1..])
  }

  /** `getUpdateQuery()`. */
  function UpdateSql(d: ModelDef): string
    requires Wf(d.columns)
  {
    "UPDATE [" + d.tableName + "] SET "
      + Join(SetItems(d, FieldNames(d, ""), FieldNames(d, "@")), ", ")
      + " WHERE [" + PkName(d) + "] = @" + PkName(d)
  }

  /** `[c] = @c`. */
  function Assignment(c: string): string {
    "[" + c + "] = @" + c
  }

  /** One assignment per column. */
  function Assignments(cs: seq<string>): (items: seq<string>)
    ensures |items| == |cs|
    ensures forall i :: 0 <= i < |cs| ==> items[i] == Assignment(cs[i])
  {
    if cs == [] then [] else [Assignment(cs[0])] + Assignments(cs[1..])
  }

  lemma {:induction false} SetItemsNoSkip(d: ModelDef, fields: seq<string>)
    requires Wf(d.columns)
    requires PrimaryKey(d).None? || PrimaryKey(d).value !in fields
    ensures SetItems(d, fields, Prefixed("@", fields)) == Assignments(fields)
  {
    if fields != [] {
      assert fields[0] in fields;
      assert forall k :: k in fields[1..] ==> k in fields;
      SetItemsNoSkip(d, fields[1..]);
      assert "[" + fields[0] + "] = " + ("@" + fields[0]) == Assignment(fields[0]);
    }
  }

  /** `[a] = @a` and `[b] = @b` coincide only for equal names. */
  lemma AssignmentInjective(a: string, b: string)
    requires Assignment(a) == Assignment(b)
    ensures a == b
  {
    assert |Assignment(a)| == 2 * |a| + 6;
    assert |a| == |b|;
    assert Assignment(a)[1..|a| + 1] == a;
    assert Assignment(b)[1..|b| + 1] == b;
  }

  lemma AssignmentsMembers(cs: seq<string>, x: string)
    requires Assignment(x) in Assignments(cs)
    ensures x in cs
  {
    var i :| 0 <= i < |cs| && Assignments(cs)[i] == Assignment(x);
    AssignmentInjective(cs[i], x);
  }

  /** The UPDATE assigns `[c] = @c` for every non-key column in schema order and
      restricts by `[pk] = @pk`; the key is never among the assignments, so the
      loop's skip never fires. */
  lemma UpdateSqlSpec(d: ModelDef)
    requires Wf(d.columns)
    ensures UpdateSql(d) ==
      "UPDATE [" + d.tableName + "] SET " + Join(Assignments(NonKeyColumns(d)), ", ")
      + " WHERE [" + PkName(d) + "] = @" + PkName(d)
    ensures PrimaryKey(d).Some? ==> Assignment(PkName(d)) !in Assignments(NonKeyColumns(d))
  {
    NonKeyColumnsSpec(d);
    FieldNamesSpec(d, "");
    SetItemsNoSkip(d, NonKeyColumns(d));
    var pk := PkName(d);
    if PrimaryKey(d).Some? && Assignment(pk) in Assignments(NonKeyColumns(d)) {
      AssignmentsMembers(NonKeyColumns(d), pk);
    }
  }

  /** The statement `del` runs. */
  function DeleteSql(d: ModelDef): string
    requires Wf(d.columns)
  {
    "DELETE FROM " + d.tableName + " WHERE [" + PkName(d) + "] = @" + PkName(d)
  }

  /** The restriction `WHERE [pk] = @pk` both keyed statements end with. */
  function KeyRestriction(d: ModelDef): string
    requires Wf(d.columns)
  {
    " WHERE [" + PkName(d) + "] = @" + PkName(d)
  }

  lemma ConcatEnds(a: string, r: string)
    ensures |r| <= |a + r| && (a + r)[|a + r| - |r|..] == r && (a + r)[..|a|] == a
  {
  }

  lemma DeleteEndsWithRestriction(d: ModelDef)
    requires Wf(d.columns)
    ensures DeleteSql(d) == ("DELETE FROM " + d.tableName) + KeyRestriction(d)
  {
  }

  lemma UpdateEndsWithRestriction(d: ModelDef)
    requires Wf(d.columns)
    ensures UpdateSql(d) == ("UPDATE [" + d.tableName + "] SET " + Join(Assignments(NonKeyColumns(d)), ", ")) + KeyRestriction(d)
  {
    UpdateSqlSpec(d);
    var pk := PkName(d);
    var u := "UPDATE [" + d.tableName + "] SET " + Join(Assignments(NonKeyColumns(d)), ", ");
    calc {
      UpdateSql(d);
      u + " WHERE [" + pk + "] = @" + pk;
      { ConcatAssoc(u + " WHERE [" + pk, "] = @", pk);
        ConcatAssoc(u + " WHERE [", pk, "] = @" + pk);
        ConcatAssoc(u, " WHERE [", pk + ("] = @" + pk));
        ConcatAssoc(" WHERE [" + pk, "] = @", pk);
        ConcatAssoc(" WHERE [", pk, "] = @" + pk); }
      u + KeyRestriction(d);
    }
  }

  /** `del` and the update `save` issues pick out the same row: both
      statements end with the restriction `WHERE [pk] = @pk`. */
  lemma DeleteAndUpdateShareRestriction(d: ModelDef)
    requires Wf(d.columns)
    ensures var r := KeyRestriction(d);
      && |r| <= |DeleteSql(d)| && DeleteSql(d)[|DeleteSql(d)| - |r|..] == r
      && |r| <= |UpdateSql(d)| && UpdateSql(d)[|UpdateSql(d)| - |r|..] == r
    ensures |d.tableName| + 12 <= |DeleteSql(d)| && DeleteSql(d)[..12 + |d.tableName|] == "DELETE FROM " + d.tableName
  {
    DeleteEndsWithRestriction(d);
    ConcatEnds("DELETE FROM " + d.tableName, KeyRestriction(d));
    UpdateEndsWithRestriction(d);
    ConcatEnds("UPDATE [" + d.tableName + "] SET " + Join(Assignments(NonKeyColumns(d)), ", "), KeyRestriction(d));
  }

  /** `findAll`'s row limit: a falsy limit becomes 9. */
  const DefaultLimit: int := 9

  function EffectiveLimit(limit: Option<int>): (n: int)
    ensures n != 0
    ensures limit.None? ==> n == DefaultLimit
  {
    match limit
    case None => DefaultLimit
    case Some(n) => if n == 0 then DefaultLimit else n
  }

  /** The SELECT `findAll` runs. */
  function SelectSql(d: ModelDef, w: Where, limit: int): string
    requires Wf(w) && NoNullish(w)
  {
    "SELECT TOP " + IntToString(limit) + " * FROM [" + d.tableName + "] "
      + (if |w.keys| > 0 then "WHERE" else "") + " " + ParseWhere(w)
  }

  /** An integer's text is a sign and digits, never a space. */
  lemma NoSpaceInNumeral(n: int)
    ensures ' ' !in IntToString(n)
  {
    if n < 0 {
      assert IntToString(n) == "-" + NatToString(-n);
      assert IntToString(n)[1..] == NatToString(-n);
    }
  }

  /** The SELECT opens with `SELECT TOP `, then a numeral without spaces that
      reads back as the limit, then ` * FROM [table] `. */
  lemma SelectSqlLimit(d: ModelDef, w: Where, limit: int)
    requires Wf(w) && NoNullish(w)
    ensures var t := IntToString(limit);
      && SelectSql(d, w, limit)[..11 + |t|] == "SELECT TOP " + t
      && ParseInteger(t) == Some(limit)
      && ' ' !in t
      && SelectSql(d, w, limit)[11 + |t|..][..9] == " * FROM ["
  {
    IntToStringRoundTrip(limit);
    NoSpaceInNumeral(limit);
    var t := IntToString(limit);
    var rest := " * FROM [" + d.tableName + "] " + (if |w.keys| > 0 then "WHERE" else "") + " " + ParseWhere(w);
    assert SelectSql(d, w, limit) == ("SELECT TOP " + t) + rest;
  }

  /** Without predicates the SELECT ends after the table name and two spaces;
      with predicates it continues `WHERE ` and the rendered clauses. */
  lemma SelectSqlWhere(d: ModelDef, w: Where, limit: int)
    requires Wf(w) && NoNullish(w)
    ensures |w.keys| == 0 ==>
      SelectSql(d, w, limit) == "SELECT TOP " + IntToString(limit) + " * FROM [" + d.tableName + "]  "
    ensures |w.keys| > 0 ==>
      SelectSql(d, w, limit) == "SELECT TOP " + IntToString(limit) + " * FROM [" + d.tableName + "] WHERE " + ParseWhere(w)
  {
    if |w.keys| == 0 {
      assert Clauses(w) == [];
      assert ParseWhere(w) == "";
    }
  }

  function FieldCheckFrom(d: ModelDef, w: Where, i: nat): Check
    requires Wf(w) && i <= |w.keys|
    decreases |w.keys| - i
  {
    if i == |w.keys| then Valid
    else if w.keys[i] !in d.columns.vals then
      Invalid("Field " + w.keys[i] + " is not a valid field in the table schema.")
    else FieldCheckFrom(d, w, i + 1)
  }

  /** `whereIsValidForModel`: the generic check first, then every key must be a
      schema column. */
  function WhereIsValidForModel(d: ModelDef, w: Where): Check
    requires Wf(w)
  {
    var c := WhereIsValidForQuery(Some(w));
    if c.Invalid? then c else FieldCheckFrom(d, w, 0)
  }

  lemma {:induction false} FieldCheckFromSpec(d: ModelDef, w: Where, i: nat)
    requires Wf(w) && i <= |w.keys|
    ensures FieldCheckFrom(d, w, i) == Valid <==> forall j :: i <= j < |w.keys| ==> w.keys[j] in d.columns.vals
    ensures FieldCheckFrom(d, w, i).Invalid? ==>
      exists j :: i <= j < |w.keys| && w.keys[j] !in d.columns.vals
        && FieldCheckFrom(d, w, i).message == "Field " + w.keys[j] + " is not a valid field in the table schema."
        && forall l :: i <= l < j ==> w.keys[l] in d.columns.vals
    decreases |w.keys| - i
  {
    if i < |w.keys| {
      FieldCheckFromSpec(d, w, i + 1);
    }
  }

  /** A map is valid for the model exactly when it passes the generic check and
      names only schema columns; a generic failure is reported as is, and
      otherwise the message names the first key that is not a column. */
  lemma WhereIsValidForModelSpec(d: ModelDef, w: Where)
    requires Wf(w)
    ensures WhereIsValidForModel(d, w) == Valid <==>
      WhereIsValidForQuery(Some(w)) == Valid && forall k :: k in w.vals ==> k in d.columns.vals
    ensures WhereIsValidForQuery(Some(w)).Invalid? ==> WhereIsValidForModel(d, w) == WhereIsValidForQuery(Some(w))
    ensures WhereIsValidForQuery(Some(w)) == Valid && WhereIsValidForModel(d, w).Invalid? ==>
      exists j :: 0 <= j < |w.keys| && w.keys[j] !in d.columns.vals
        && WhereIsValidForModel(d, w).message == "Field " + w.keys[j] + " is not a valid field in the table schema."
        && forall l :: 0 <= l < j ==> w.keys[l] in d.columns.vals
  {
    FieldCheckFromSpec(d, w, 0);
    if forall j :: 0 <= j < |w.keys| ==> w.keys[j] in d.columns.vals {
      forall k | k in w.vals ensures k in d.columns.vals {
        var j :| 0 <= j < |w.keys| && w.keys[j] == k;
      }
    }
  }

  /** A column's predicate that is a bare scalar: setting its `type` throws in
      strict mode. */
  predicate Untypable(d: ModelDef, k: string, e: Entry) {
    k in d.columns.vals && e.Scalar?
  }

  /** An entry after `where[k].type = this.columns[k].type` (columns only). */
  function Typed(d: ModelDef, k: string, e: Entry): Entry {
    if k in d.columns.vals && e.Object? then Object(e.p.(sqlType := Some(d.columns.vals[k].sqlType))) else e
  }

  /** The first position from `i` on whose entry cannot be typed, or the end. */
  function FirstUntypable(d: ModelDef, w: Where, i: nat): (j: nat)
    requires Wf(w) && i <= |w.keys|
    ensures i <= j <= |w.keys|
    decreases |w.keys| - i
  {
    if i == |w.keys| then i
    else if Untypable(d, w.keys[i], w.vals[w.keys[i]]) then i
    else FirstUntypable(d, w, i + 1)
  }

  /** The predicate map as the loop leaves it, and whether the loop threw. */
  datatype Typing = Typing(typed: Where, threw: bool)

  /** The loop of `addTypesToWhere` from position `i`, updating the map in
      place: non-columns are skipped, a column's object gets the column's type,
      and a column's bare scalar throws with the earlier entries already typed. */
  function AddTypesFrom(d: ModelDef, w: Where, i: nat): (t: Typing)
    requires Wf(w) && i <= |w.keys|
    ensures Wf(t.typed) && t.typed.keys == w.keys
    decreases |w.keys| - i
  {
    if i == |w.keys| then Typing(w, false)
    else
      var k := w.keys[i];
      if k !in d.columns.vals then AddTypesFrom(d, w, i + 1)
      else match w.vals[k]
        case Scalar(_) => Typing(w, true)
        case Object(p) => AddTypesFrom(d, Put(w, k, Object(p.(sqlType := Some(d.columns.vals[k].sqlType)))), i + 1)
  }

  /** The first untypable position is untypable, everything before it is not,
      and there is one exactly when some entry from `i` on is untypable. */
  lemma {:induction false} FirstUntypableSpec(d: ModelDef, w: Where, i: nat)
    requires Wf(w) && i <= |w.keys|
    ensures FirstUntypable(d, w, i) < |w.keys| ==>
      Untypable(d, w.keys[FirstUntypable(d, w, i)], w.vals[w.keys[FirstUntypable(d, w, i)]])
    ensures forall l :: i <= l < FirstUntypable(d, w, i) ==> !Untypable(d, w.keys[l], w.vals[w.keys[l]])
    ensures FirstUntypable(d, w, i) < |w.keys| <==>
      exists l :: i <= l < |w.keys| && Untypable(d, w.keys[l], w.vals[w.keys[l]])
    decreases |w.keys| - i
  {
    if i < |w.keys| && !Untypable(d, w.keys[i], w.vals[w.keys[i]]) {
      FirstUntypableSpec(d, w, i + 1);
    }
  }

  /** Maps that agree from position `i` on stop at the same position. */
  lemma {:induction false} FirstUntypableAgrees(d: ModelDef, w: Where, w2: Where, i: nat)
    requires Wf(w) && Wf(w2) && w.keys == w2.keys && i <= |w.keys|
    requires forall l :: i <= l < |w.keys| ==> w.vals[w.keys[l]] == w2.vals[w.keys[l]]
    ensures FirstUntypable(d, w, i) == FirstUntypable(d, w2, i)
    decreases |w.keys| - i
  {
    if i < |w.keys| {
      FirstUntypableAgrees(d, w, w2, i + 1);
    }
  }

  /** The loop throws exactly when it reaches an untypable entry; the entries
      it passed are typed and every other entry is as it was. */
  lemma {:induction false} AddTypesFromSpec(d: ModelDef, w: Where, i: nat)
    requires Wf(w) && i <= |w.keys|
    ensures AddTypesFrom(d, w, i).threw <==> FirstUntypable(d, w, i) < |w.keys|
    ensures forall l :: 0 <= l < |w.keys| ==>
      AddTypesFrom(d, w, i).typed.vals[w.keys[l]] ==
        if i <= l < FirstUntypable(d, w, i) then Typed(d, w.keys[l], w.vals[w.keys[l]]) else w.vals[w.keys[l]]
    decreases |w.keys| - i
  {
    if i < |w.keys| {
      var k := w.keys[i];
      if k !in d.columns.vals {
        AddTypesFromSpec(d, w, i + 1);
        assert FirstUntypable(d, w, i) == FirstUntypable(d, w, i + 1);
        assert Typed(d, k, w.vals[k]) == w.vals[k];
      } else if w.vals[k].Object? {
        AddTypesFromObjectStep(d, w, i);
      }
    }
  }

  /** One step of the loop over a column's predicate object. */
  lemma {:induction false} AddTypesFromObjectStep(d: ModelDef, w: Where, i: nat)
    requires Wf(w) && i < |w.keys|
    requires w.keys[i] in d.columns.vals && w.vals[w.keys[i]].Object?
    ensures AddTypesFrom(d, w, i).threw <==> FirstUntypable(d, w, i) < |w.keys|
    ensures forall l :: 0 <= l < |w.keys| ==>
      AddTypesFrom(d, w, i).typed.vals[w.keys[l]] ==
        if i <= l < FirstUntypable(d, w, i) then Typed(d, w.keys[l], w.vals[w.keys[l]]) else w.vals[w.keys[l]]
    decreases |w.keys| - i, 0
  {
    var k := w.keys[i];
    var e := Object(w.vals[k].p.(sqlType := Some(d.columns.vals[k].sqlType)));
    var w2 := Put(w, k, e);
    assert AddTypesFrom(d, w, i) == AddTypesFrom(d, w2, i + 1);
    forall l | 0 <= l < |w.keys| && l != i ensures w2.vals[w.keys[l]] == w.vals[w.keys[l]] {
      assert w.keys[l] != k;
    }
    FirstUntypableAgrees(d, w, w2, i + 1);
    assert FirstUntypable(d, w, i) == FirstUntypable(d, w, i + 1);
    AddTypesFromSpec(d, w2, i + 1);
    var t := AddTypesFrom(d, w2, i + 1);
    var j := FirstUntypable(d, w, i);
    forall l | 0 <= l < |w.keys|
      ensures t.typed.vals[w.keys[l]] == if i <= l < j then Typed(d, w.keys[l], w.vals[w.keys[l]]) else w.vals[w.keys[l]]
    {
      if l == i {
        assert t.typed.vals[k] == w2.vals[k] == e;
      } else {
        assert w2.vals[w.keys[l]] == w.vals[w.keys[l]];
      }
    }
  }

  /** `addTypesToWhere(where)` followed by the caller reading `where`: the
      typed map, or `None` for the TypeError thrown on a column's bare scalar. */
  function AddTypesToWhere(d: ModelDef, w: Where): (r: Option<Where>)
    requires Wf(w)
    ensures r.None? <==> exists k :: k in w.vals && k in d.columns.vals && w.vals[k].Scalar?
    ensures r.Some? ==> Wf(r.value) && r.value.keys == w.keys
    ensures r.Some? ==> forall k :: k in w.vals && k !in d.columns.vals ==> r.value.vals[k] == w.vals[k]
    ensures r.Some? ==> forall k :: k in w.vals && k in d.columns.vals ==>
      r.value.vals[k] == Object(w.vals[k].p.(sqlType := Some(d.columns.vals[k].sqlType)))
  {
    AddTypesToWhereSpec(d, w);
    var t := AddTypesFrom(d, w, 0);
    if t.threw then None else Some(t.typed)
  }

  lemma AddTypesToWhereSpec(d: ModelDef, w: Where)
    requires Wf(w)
    ensures var t := AddTypesFrom(d, w, 0);
      && (t.threw <==> exists k :: k in w.vals && k in d.columns.vals && w.vals[k].Scalar?)
      && (!t.threw ==> forall k :: k in w.vals ==>
            && (k !in d.columns.vals ==> t.typed.vals[k] == w.vals[k])
            && (k in d.columns.vals ==> t.typed.vals[k] == Object(w.vals[k].p.(sqlType := Some(d.columns.vals[k].sqlType)))))
  {
    var t := AddTypesFrom(d, w, 0);
    AddTypesFromSpec(d, w, 0);
    FirstUntypableSpec(d, w, 0);
    if exists k :: k in w.vals && k in d.columns.vals && w.vals[k].Scalar? {
      var k :| k in w.vals && k in d.columns.vals && w.vals[k].Scalar?;
      var l :| 0 <= l < |w.keys| && w.keys[l] == k;
      assert Untypable(d, w.keys[l], w.vals[w.keys[l]]);
    }
    if !t.threw {
      forall k | k in w.vals
        ensures k !in d.columns.vals ==> t.typed.vals[k] == w.vals[k]
        ensures k in d.columns.vals ==> t.typed.vals[k] == Object(w.vals[k].p.(sqlType := Some(d.columns.vals[k].sqlType)))
      {
        var l :| 0 <= l < |w.keys| && w.keys[l] == k;
        assert !Untypable(d, w.keys[l], w.vals[w.keys[l]]);
      }
    }
  }

  /** When the loop throws, the caller's map is left half typed: there is a
      first column key holding a bare scalar; every entry before it is typed,
      and it and every entry after it are as they were. */
  lemma AddTypesThrowLeavesPrefixTyped(d: ModelDef, w: Where)
    requires Wf(w) && AddTypesFrom(d, w, 0).threw
    ensures exists j ::
      && 0 <= j < |w.keys|
      && Untypable(d, w.keys[j], w.vals[w.keys[j]])
      && (forall l :: 0 <= l < j ==>
            && !Untypable(d, w.keys[l], w.vals[w.keys[l]])
            && AddTypesFrom(d, w, 0).typed.vals[w.keys[l]] == Typed(d, w.keys[l], w.vals[w.keys[l]]))
      && (forall l :: j <= l < |w.keys| ==> AddTypesFrom(d, w, 0).typed.vals[w.keys[l]] == w.vals[w.keys[l]])
  {
    AddTypesFromSpec(d, w, 0);
    FirstUntypableSpec(d, w, 0);
    var j := FirstUntypable(d, w, 0);
    assert Untypable(d, w.keys[j], w.vals[w.keys[j]]);
  }

  /** Typing then checking: predicates that name only schema columns and are
      objects with a value always type successfully and pass the model check. */
  lemma AddTypesThenValid(d: ModelDef, w: Where)
    requires Wf(w)
    requires forall k :: k in w.vals ==> k in d.columns.vals && w.vals[k].Object? && w.vals[k].p.value.Some?
    ensures AddTypesToWhere(d, w).Some?
    ensures WhereIsValidForModel(d, AddTypesToWhere(d, w).value) == Valid
  {
    var t := AddTypesToWhere(d, w).value;
    WhereIsValidForQuerySpec(t);
    WhereIsValidForModelSpec(d, t);
  }
}
