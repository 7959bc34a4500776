/** Concrete cases: the predicate map, type rows, catalog and statements the
    repository's own test file pins down, proved against the model. */
module Scenarios {
  import opened Js
  import opened Strings
  import opened ObjMaps
  import opened NativeTypes
  import opened WhereClause
  import opened Records
  import opened Statements

  const AccountMasterNames: seq<string> := [
    "RecordId", "AccountNumber", "FamilyId", "AccountType", "FamilyMemberType", "FamilyConsolidate",
    "AllowTransactions", "Title", "FirstName", "MiddleName", "LastName", "Suffix", "OrganizationName", "Status"
  ]

  /** The DATA_TYPE and character width of each column, in the same order. */
  const AccountMasterTypes: seq<(string, Option<int>)> := [
    ("bigint", None), ("bigint", None), ("bigint", None), ("varchar", Some(10)), ("varchar", Some(10)),
    ("bit", None), ("bit", None), ("varchar", Some(20)), ("varchar", Some(20)), ("varchar", Some(20)),
    ("varchar", Some(20)), ("varchar", Some(20)), ("varchar", Some(70)), ("char", Some(1))
  ]

  /** The i-th catalog row of the test's A01_AccountMaster table: bigints carry
      precision 19 and scale 0, and RecordId alone takes part in the primary key. */
  function AccountRow(i: nat): CatalogRow
    requires i < 14
  {
    var name := AccountMasterNames[i];
    var dataType := AccountMasterTypes[i].0;
    var width := AccountMasterTypes[i].1;
    var numeric := dataType == "bigint";
    CatalogRow("A01_AccountMaster", name, dataType, width, width,
               if numeric then Some(19) else None, if numeric then Some(0) else None,
               if name == "RecordId" then Some("PRIMARY KEY") else None, i + 1)
  }

  /** The fourteen catalog rows of the test's A01_AccountMaster table. */
  function AccountMasterRows(): seq<CatalogRow> { seq(14, i requires 0 <= i < 14 => AccountRow(i)) }

  /** Row i of the catalog names column i of the list. */
  lemma RowNames()
    ensures |AccountMasterRows()| == 14
    ensures forall i :: 0 <= i < 14 ==> AccountMasterRows()[i].columnName == AccountMasterNames[i]
  {
  }

  lemma NamesUpTo2()
    ensures DistinctNames(AccountMasterRows()[..2]) == ["RecordId", "AccountNumber"]
  {
    RowNames();
    assert AccountMasterRows()[..0] == [];
    DistinctNamesStep(AccountMasterRows(), 0, []);
    DistinctNamesStep(AccountMasterRows(), 1, ["RecordId"]);
  }

  lemma NamesUpTo4()
    ensures DistinctNames(AccountMasterRows()[..4]) == ["RecordId", "AccountNumber", "FamilyId", "AccountType"]
  {
    RowNames();
    NamesUpTo2();
    DistinctNamesStep(AccountMasterRows(), 2, ["RecordId", "AccountNumber"]);
    DistinctNamesStep(AccountMasterRows(), 3, ["RecordId", "AccountNumber", "FamilyId"]);
  }

  lemma NamesUpTo6()
    ensures DistinctNames(AccountMasterRows()[..6]) == ["RecordId", "AccountNumber", "FamilyId", "AccountType", "FamilyMemberType", "FamilyConsolidate"]
  {
    RowNames();
    NamesUpTo4();
    DistinctNamesStep(AccountMasterRows(), 4, ["RecordId", "AccountNumber", "FamilyId", "AccountType"]);
    DistinctNamesStep(AccountMasterRows(), 5, ["RecordId", "AccountNumber", "FamilyId", "AccountType", "FamilyMemberType"]);
  }

  lemma NamesUpTo8()
    ensures DistinctNames(AccountMasterRows()[..8]) == ["RecordId", "AccountNumber", "FamilyId", "AccountType", "FamilyMemberType", "FamilyConsolidate", "AllowTransactions", "Title"]
  {
    RowNames();
    NamesUpTo6();
    DistinctNamesStep(AccountMasterRows(), 6, ["RecordId", "AccountNumber", "FamilyId", "AccountType", "FamilyMemberType", "FamilyConsolidate"]);
    DistinctNamesStep(AccountMasterRows(), 7, ["RecordId", "AccountNumber", "FamilyId", "AccountType", "FamilyMemberType", "FamilyConsolidate", "AllowTransactions"]);
  }

  lemma NamesUpTo10()
    ensures DistinctNames(AccountMasterRows()[..10]) == ["RecordId", "AccountNumber", "FamilyId", "AccountType", "FamilyMemberType", "FamilyConsolidate", "AllowTransactions", "Title", "FirstName", "MiddleName"]
  {
    RowNames();
    NamesUpTo8();
    DistinctNamesStep(AccountMasterRows(), 8, ["RecordId", "AccountNumber", "FamilyId", "AccountType", "FamilyMemberType", "FamilyConsolidate", "AllowTransactions", "Title"]);
    DistinctNamesStep(AccountMasterRows(), 9, ["RecordId", "AccountNumber", "FamilyId", "AccountType", "FamilyMemberType", "FamilyConsolidate", "AllowTransactions", "Title", "FirstName"]);
  }

  lemma NamesUpTo12()
    ensures DistinctNames(AccountMasterRows()[..12]) == ["RecordId", "AccountNumber", "FamilyId", "AccountType", "FamilyMemberType", "FamilyConsolidate", "AllowTransactions", "Title", "FirstName", "MiddleName", "LastName", "Suffix"]
  {
    RowNames();
    NamesUpTo10();
    DistinctNamesStep(AccountMasterRows(), 10, ["RecordId", "AccountNumber", "FamilyId", "AccountType", "FamilyMemberType", "FamilyConsolidate", "AllowTransactions", "Title", "FirstName", "MiddleName"]);
    DistinctNamesStep(AccountMasterRows(), 11, ["RecordId", "AccountNumber", "FamilyId", "AccountType", "FamilyMemberType", "FamilyConsolidate", "AllowTransactions", "Title", "FirstName", "MiddleName", "LastName"]);
  }

  lemma NamesUpTo14()
    ensures DistinctNames(AccountMasterRows()[..14]) == ["RecordId", "AccountNumber", "FamilyId", "AccountType", "FamilyMemberType", "FamilyConsolidate", "AllowTransactions", "Title", "FirstName", "MiddleName", "LastName", "Suffix", "OrganizationName", "Status"]
  {
    RowNames();
    NamesUpTo12();
    DistinctNamesStep(AccountMasterRows(), 12, ["RecordId", "AccountNumber", "FamilyId", "AccountType", "FamilyMemberType", "FamilyConsolidate", "AllowTransactions", "Title", "FirstName", "MiddleName", "LastName", "Suffix"]);
    DistinctNamesStep(AccountMasterRows(), 13, ["RecordId", "AccountNumber", "FamilyId", "AccountType", "FamilyMemberType", "FamilyConsolidate", "AllowTransactions", "Title", "FirstName", "MiddleName", "LastName", "Suffix", "OrganizationName"]);
  }

  /** The catalog rows name fourteen distinct columns, in the order listed. */
  lemma AccountMasterDistinctNames()
    ensures DistinctNames(AccountMasterRows()) == AccountMasterNames
    ensures NamesDistinct(AccountMasterRows())
    ensures forall i :: 0 <= i < 14 ==> AccountMasterRows()[i].columnName == AccountMasterNames[i]
  {
    NamesUpTo14();
    assert AccountMasterRows()[..14] == AccountMasterRows();
    FullDistinctNames(AccountMasterRows());
  }

  /** The Responder model discovered over A01_AccountMaster. */
  function Responder(): ModelDef {
    ModelDef("A01_AccountMaster", "Responder", TranslateColumns(AccountMasterRows()))
  }

  /** A `char` column of width 1 maps to Char(1) and a `varchar` of width 20 to VarChar(20). */
  lemma TextTypeExamples()
    ensures MapType(CatalogRow("", "Status", "char", Some(1), None, None, None, None, 0)) == Native(Char(Given(1)))
    ensures MapType(CatalogRow("", "Status", "varchar", Some(20), None, None, None, None, 0)) == Native(VarChar(Given(20)))
  {
  }

  /** The fourteen rows translate into fourteen columns in catalog order, and
      FirstName is a VarChar(20). */
  lemma AccountMasterTranslation()
    ensures TranslateColumns(AccountMasterRows()).keys == AccountMasterNames
    ensures |TranslateColumns(AccountMasterRows()).keys| == 14
  {
    AccountMasterDistinctNames();
    TranslateColumnsKeys(AccountMasterRows());
  }

  /** The ninth catalog row is FirstName, a varchar of width 20. */
  lemma FirstNameRow()
    ensures |AccountMasterRows()| == 14
    ensures AccountMasterRows()[8].columnName == "FirstName"
    ensures MapType(AccountMasterRows()[8]) == Native(VarChar(Given(20)))
  {
    var row := AccountMasterRows()[8];
    assert row == AccountRow(8);
    assert row.dataType == "varchar" && row.charMaxLength == Some(20);
  }

  /** FirstName is bound as a VarChar(20), as the test expects. */
  lemma AccountMasterColumnTypes()
    ensures "FirstName" in TranslateColumns(AccountMasterRows()).vals
    ensures TranslateColumns(AccountMasterRows()).vals["FirstName"].sqlType == Native(VarChar(Given(20)))
  {
    AccountMasterDistinctNames();
    FirstNameRow();
    PrimaryKeyFlagFromConstraint(AccountMasterRows(), 8);
  }

  /** Only the RecordId row takes part in the primary key. */
  lemma KeyRowOnly(p: nat)
    requires p < 14 && AccountMasterRows()[p].constraintType == Some("PRIMARY KEY")
    ensures p == 0
  {
    AccountMasterDistinctNames();
    assert AccountMasterRows()[p] == AccountRow(p);
    assert AccountMasterNames[p] == "RecordId";
  }

  /** RecordId is a column of Responder flagged as its primary key. */
  lemma RecordIdFlagged()
    ensures Responder().columns.keys[0] == "RecordId"
    ensures "RecordId" in Responder().columns.vals && Flagged(Responder().columns, "RecordId")
  {
    AccountMasterDistinctNames();
    AccountMasterTranslation();
    PrimaryKeyFlagFromConstraint(AccountMasterRows(), 0);
  }

  /** No other column of Responder is flagged. */
  lemma FlaggedOnlyRecordId(j: nat)
    requires j < |Responder().columns.keys| && Flagged(Responder().columns, Responder().columns.keys[j])
    ensures j == 0
  {
    AccountMasterDistinctNames();
    AccountMasterTranslation();
    PrimaryKeyFlagFromConstraint(AccountMasterRows(), j);
    KeyRowOnly(j);
  }

  /** The Responder model's primary key is RecordId. */
  lemma ResponderKey()
    ensures PrimaryKey(Responder()) == Some("RecordId")
    ensures PkName(Responder()) == "RecordId"
  {
    var d := Responder();
    RecordIdFlagged();
    PrimaryKeySpec(d);
    var p :| 0 <= p < |d.columns.keys| && d.columns.keys[p] == PrimaryKey(d).value
      && Flagged(d.columns, d.columns.keys[p])
      && forall j :: p < j < |d.columns.keys| ==> !Flagged(d.columns, d.columns.keys[j]);
    FlaggedOnlyRecordId(p);
  }

  /** The Responder columns other than the key: the catalog order without RecordId. */
  const ResponderFields: seq<string> := AccountMasterNames[1..]

  lemma ResponderNonKey()
    ensures Wf(Responder().columns)
    ensures NonKeyColumns(Responder()) == ResponderFields
  {
    var d := Responder();
    ResponderKey();
    RecordIdFlagged();
    AccountMasterTranslation();
    NonKeyColumnsSpec(d);
    var p :| 0 <= p < |d.columns.keys| && d.columns.keys[p] == "RecordId"
      && NonKeyColumns(d) == d.columns.keys[..p] + d.columns.keys[p + 1..];
    assert d.columns.keys[p] == d.columns.keys[0];
    assert p == 0;
    assert d.columns.keys[..0] + d.columns.keys[1..] == d.columns.keys[1..];
  }


  /** What the Responder statements depend on: the table, the key, and the
      non-key columns in order. */
  predicate ShapedLikeResponder(d: ModelDef) {
    && Wf(d.columns)
    && d.tableName == "A01_AccountMaster"
    && PrimaryKey(d) == Some("RecordId")
    && NonKeyColumns(d) == ResponderFields
  }

  lemma ResponderShape()
    ensures ShapedLikeResponder(Responder())
  {
    ResponderNonKey();
    ResponderKey();
  }

  /** The INSERT a Responder saves with: the thirteen non-key columns in catalog
      order as `[c]` separated by commas, the same columns bound as `@c`, and the
      identity selected back as RecordId. */
  lemma ResponderInsertSql()
    ensures Wf(Responder().columns)
    ensures InsertSql(Responder(), false, "") ==
      "INSERT INTO [" + "A01_AccountMaster" + "] ("
      + Join(Wrap(ResponderFields, "[", "]"), ",")
      + ") VALUES ("
      + Join(Wrap(ResponderFields, "@", ""), ", ")
      + ");\n"
      + ("SELECT SCOPE_IDENTITY() AS " + "RecordId" + ";\n")
  {
    ResponderShape();
    InsertForShape(Responder(), ResponderFields);
  }

  lemma InsertForShape(d: ModelDef, fields: seq<string>)
    requires Wf(d.columns) && d.tableName == "A01_AccountMaster"
    requires PrimaryKey(d) == Some("RecordId") && NonKeyColumns(d) == fields && |fields| > 0
    ensures InsertSql(d, false, "") ==
      "INSERT INTO [" + "A01_AccountMaster" + "] ("
      + Join(Wrap(fields, "[", "]"), ",")
      + ") VALUES ("
      + Join(Wrap(fields, "@", ""), ", ")
      + ");\n"
      + ("SELECT SCOPE_IDENTITY() AS " + "RecordId" + ";\n")
  {
    InsertSqlSpec(d, false, "");
    assert "@" + "" == "@";
  }

  /** The UPDATE a Responder saves with: `[c] = @c` for the thirteen non-key
      columns in catalog order, restricted by RecordId. */
  lemma ResponderUpdateSql()
    ensures Wf(Responder().columns)
    ensures UpdateSql(Responder()) ==
      "UPDATE [" + "A01_AccountMaster" + "] SET " + Join(Assignments(ResponderFields), ", ")
      + " WHERE [" + "RecordId" + "] = @" + "RecordId"
  {
    ResponderShape();
    UpdateSqlSpec(Responder());
  }

  /** The insert parameters of any Responder are keyed by the thirteen non-key
      columns in catalog order; the update parameters add RecordId last. */
  lemma ResponderParamKeys(inst: Instance)
    requires inst.def == Responder() && ValidInstance(inst)
    ensures InsertUpdateParams(inst, false, "").keys == ResponderFields
    ensures PkName(inst.def) == "RecordId" && "RecordId" in inst.def.columns.vals
    ensures InsertUpdateParams(inst, true, "").keys == ResponderFields + ["RecordId"]
  {
    ResponderShape();
    RecordIdFlagged();
    InsertKeysForShape(inst, ResponderFields);
    UpdateKeysForShape(inst, ResponderFields);
  }

  lemma InsertKeysForShape(inst: Instance, fields: seq<string>)
    requires ValidInstance(inst) && NonKeyColumns(inst.def) == fields
    ensures InsertUpdateParams(inst, false, "").keys == fields
  {
    InsertParamsSpec(inst, "");
    FieldNamesSpec(inst.def, "");
  }

  lemma UpdateKeysForShape(inst: Instance, fields: seq<string>)
    requires ValidInstance(inst) && NonKeyColumns(inst.def) == fields
    requires PrimaryKey(inst.def) == Some("RecordId") && "RecordId" in inst.def.columns.vals
    ensures InsertUpdateParams(inst, true, "").keys == fields + ["RecordId"]
  {
    UpdateParamsKeys(inst);
  }

  /** The test's predicate map: FirstName by equality, LastName by `<>`. */
  function NameQuery(): Where {
    Obj(["FirstName", "LastName"],
        map["FirstName" := Object(PredObj(Some(Str("Jonathan")), None, None)),
            "LastName" := Object(PredObj(Some(Str("Watson")), None, Some("<>")))])
  }

  lemma NameQueryClauses()
    ensures Wf(NameQuery()) && NoNullish(NameQuery())
    ensures Clauses(NameQuery()) == ["[FirstName] = @FirstName", "[LastName] <> @LastName"]
  {
    NameQueryFirstClause();
    NameQueryLastClause();
  }

  /** A predicate without an operator compares with `=`. */
  lemma NameQueryFirstClause()
    ensures Wf(NameQuery()) && NoNullish(NameQuery())
    ensures Clauses(NameQuery())[0] == "[FirstName] = @FirstName"
  {
    assert Operator(NameQuery().vals["FirstName"]) == "=";
  }

  /** A predicate with an operator compares with it. */
  lemma NameQueryLastClause()
    ensures Wf(NameQuery()) && NoNullish(NameQuery())
    ensures Clauses(NameQuery())[1] == "[LastName] <> @LastName"
  {
    assert Operator(NameQuery().vals["LastName"]) == "<>";
  }

  /** The test's two predicates render as the equality on FirstName and the
      inequality on LastName, joined by AND. */
  lemma NameQueryRendering()
    ensures Wf(NameQuery()) && NoNullish(NameQuery())
    ensures ParseWhere(NameQuery()) == "[FirstName] = @FirstName" + " AND " + "[LastName] <> @LastName"
  {
    NameQueryClauses();
    JoinPair("[FirstName] = @FirstName", "[LastName] <> @LastName", " AND ");
  }

  lemma JoinPair(a: string, b: string, sep: string)
    ensures Join([a, b], sep) == a + sep + b
  {
    assert [a, b][1..] == [b];
  }

  /** Flattening FirstName/LastName predicates binds each name to its value. */
  lemma NameQueryBindings()
    ensures var w := Obj(["FirstName", "LastName"],
                         map["FirstName" := Object(PredObj(Some(Str("Jonathan")), None, None)),
                             "LastName" := Object(PredObj(Some(Str("Watson")), None, None))]);
      Wf(w) && NoNullish(w)
      && PreparedBindings(Some(w)) == Obj(["FirstName", "LastName"], map["FirstName" := Str("Jonathan"), "LastName" := Str("Watson")])
  {
    var w := Obj(["FirstName", "LastName"],
                 map["FirstName" := Object(PredObj(Some(Str("Jonathan")), None, None)),
                     "LastName" := Object(PredObj(Some(Str("Watson")), None, None))]);
    assert Wf(w);
    PreparedBindingsSpec(Some(w));
  }
}
