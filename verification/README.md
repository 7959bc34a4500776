# roundsql in Dafny

A model of the pure core of roundsql, a small record layer over SQL Server for
Node.js. The model covers these pieces:

- The **type mapper**: `getSqlServerNativeDataType` turns a catalog row into a
  driver native type.
- **Catalog translation**: `translateColumns` turns catalog rows into a
  column-name → `{type, primaryKey}` map.
- **Predicate maps**: `whereIsValidForQuery`, `parseWhere`,
  `getWhereForPreparedStatement` and `setPreparedStatementInputs`.
- The validation and path choice of **`query`**.
- **Stored-procedure** arity checking and positional binding.
- **`discoverModel`**, which builds one model per table.
- On the record side (`Model`):
  - primary-key detection in the constructor;
  - `new` and hydration;
  - the non-key field lists and parameter maps;
  - the INSERT, UPDATE, SELECT TOP and DELETE text;
  - predicate checking and typing against the schema;
  - the key-driven branching of `save` and `del`.

The database is an oracle. Each operation that reaches it takes the reply the
driver would give as a parameter: rows and an affected-row count, or an error.
It returns the statement it issues and the outcome the caller sees:
resolved, rejected, or a TypeError thrown on the way. `save` and `del` also
return the record as it is afterwards.

JavaScript objects are modelled as an ordered key list plus a map (`ObjMaps.Obj`):
- `for..in` and `Object.keys` follow insertion order;
- assigning to an existing key keeps its position;
- assigning to a new key appends it.

Modules, in dependency order:
- Js: the scalar values and truthiness.
- ObjMaps: ordered objects.
- Strings: `join` and integer rendering.
- NativeTypes: the type mapper and catalog translation.
- WhereClause: predicate maps.
- Executor: `query`.
- Records: the model definition, construction, `new` and hydration.
- Statements: the SQL text and parameter maps.
- Persistence: `findAll`, `save` and `del`.
- Procs: stored-procedure arguments.
- Discovery: `getColumnsSql` and `discoverModel`.
- Scenarios: the concrete cases of the project's test suite, namely
  - the fourteen-column `A01_AccountMaster` catalog;
  - the Responder model with its INSERT, UPDATE and parameter keys;
  - the FirstName/LastName predicate map.

## Model

| member | source | states |
|---|---|---|
| Js.FalsyValues | model.js:234 | the key test `!this[pk]` fails for exactly `undefined`, `null`, `false`, `0` and `""` |
| ObjMaps.Put | model.js:59 | property assignment keeps the object well formed, overwrites the key's value, leaves the key order alone for an existing key and appends a new key last |
| ObjMaps.AssignSpec | model.js:58-60 | copying every property of a source: copied keys hold the source's values, other keys keep theirs, old keys keep their positions and new keys follow in the source's order |
| ObjMaps.AssignKeysValues | model.js:58-60 | copying a list of keys sets exactly those keys to the source's values and changes no other key |
| ObjMaps.AssignKeysOrder | model.js:58-60 | copying a list of distinct keys appends only the keys not yet present, in the list's order |
| Strings.JoinLength | roundsql.js:161 | joining n parts adds exactly n - 1 separators and nothing else |
| Strings.JoinSnoc | roundsql.js:155-161 | pushing one more part and joining again appends one separator and that part |
| Strings.JoinWrapped | roundsql.js:33 | the glue idiom `"'" + names.join("','") + "'"` equals joining the individually quoted names |
| Strings.IntToStringRoundTrip | model.js:132 | the decimal text that string concatenation gives an integer reads back as the same integer |
| NativeTypes.MapType | roundsql.js:332-406 | the mapper returns the error string `Unrecognized data type <name>` exactly for names outside its 30 cases; the four date-like names map to NVarChar(30) |
| NativeTypes.MapTypeUsesTypeFieldsOnly | roundsql.js:332-406 | the native type depends only on the type name and the length, precision and scale fields, never on the column name, table, constraint or ordinal |
| NativeTypes.MaxWidthIffMinusOne | roundsql.js:334-368 | varchar, nvarchar and varbinary take the MAX variant if and only if the maximum length is -1; otherwise varbinary takes the octet length and the other two take the character length |
| NativeTypes.FixedCharTakesCharLength | roundsql.js:344-386 | char and nchar always take the character length, even -1 |
| NativeTypes.ScaledTypesCarryScale | roundsql.js:362-382 | decimal and numeric carry precision and scale; time and datetimeoffset carry the scale |
| NativeTypes.TranslateColumnsKeys | roundsql.js:417-425 | translation has one entry per distinct column name, in order of first appearance |
| NativeTypes.TranslateColumnsDomain | roundsql.js:417-425 | a name has an entry if and only if some catalog row carries it |
| NativeTypes.TranslateColumnsLastRowWins | roundsql.js:419-423 | each entry is built from the last row carrying its name |
| NativeTypes.DistinctRowsGiveOneKeyEach | roundsql.js:417-425 | rows with pairwise different names give exactly one key per row, in row order |
| NativeTypes.FullDistinctNames | roundsql.js:417-425 | conversely, when no name is dropped the row names were pairwise different |
| NativeTypes.PrimaryKeyFlagFromConstraint | roundsql.js:421-422 | a column is flagged as primary key if and only if its row's constraint type is `PRIMARY KEY`; its type is the mapper's |
| WhereClause.ParseWhereByPredicate | roundsql.js:152-162 | no predicates render as `""`; one predicate renders as `[col] op @col`; each further predicate adds exactly one ` AND ` and its own clause, with `=` when no operator is given |
| WhereClause.ParseWhereLength | roundsql.js:152-162 | N predicates give N clauses and exactly N - 1 separators |
| WhereClause.WhereIsValidForQuerySpec | roundsql.js:242-256 | corrected: a null entry is reported as not an object where the source throws (see Findings); a predicate map passes if and only if every entry is an object with `value` and `type`; otherwise the message is the complaint about the first offending key, and every earlier key is fine |
| WhereClause.CheckFromSpec | roundsql.js:243-255 | the check from position i passes if and only if every entry from i on is fine, and a failure reports the first bad one |
| WhereClause.NullEntryThrowsAsWritten | roundsql.js:244-247 | as written, `{k: null}` throws inside `Object.keys`; the corrected check reports that the entry is not an object |
| WhereClause.AsWrittenAgreesWithoutNull | roundsql.js:242-256 | without null entries the corrected check returns what the source returns |
| WhereClause.PreparedBindingsSpec | roundsql.js:196-202 | the flat binding map has exactly the predicate map's keys, in order, each bound to its predicate's `value`; a missing map gives `{}` |
| WhereClause.BindKeysSpec | roundsql.js:199-200 | binding a list of new keys appends them in order with their values and keeps the existing bindings |
| WhereClause.InputsSpec | roundsql.js:175-180 | a validated map declares one typed input per key, in key order, named by the key and carrying that predicate's type |
| WhereClause.ValidHasNoNullish | roundsql.js:242-256 | a map that passed validation holds only objects with a value and a type |
| Executor.Query | roundsql.js:270-320 | over the corrected validator (a null entry is rejected, not thrown): an invalid map is rejected with the validator's message and nothing runs; a non-empty binding map takes the prepared path with exactly those bindings, anything else the simple path; driver errors are passed on; the prepared path resolves with the rows; the simple path resolves with the rows if there are any, else with the affected-row count |
| Records.PkScanSpec | model.js:26-31 | the scan keeps its key when nothing later is flagged, and otherwise ends on the last flagged column |
| Records.PrimaryKeySpec | model.js:25-31 | the primary key is the last column flagged as one, and there is none exactly when no column is flagged |
| Records.Construct | model.js:17-32 | a new instance's data fields are exactly the schema columns, in schema order, each `null`; reading any other name from them gives `undefined` (the constructor's bookkeeping properties are kept apart, see Left out) |
| Records.New | model.js:71-73 | `new()` gives an instance of the same model with every schema field `null` |
| Records.HydrateRowSpec | model.js:57-62 | hydrating a row sets every row key to the row's value and keeps every other field; new keys follow the existing fields in the row's order |
| Records.HydrateRoundTrip | model.js:48-63 | reading a field back from a hydrated fresh record gives the row's value when the row has that key, and `null` otherwise |
| Records.HydrateSpec | model.js:48-63 | n rows hydrate into n fresh instances of the same model, the i-th filled from the i-th row; a non-array result returns the receiver itself |
| Statements.NonKeyColumnsSpec | model.js:154-157 | the non-key columns are the schema keys with the primary key's position cut out (all of them when there is no key): each column once, in schema order, never the key |
| Statements.FieldNamesSpec | model.js:151-159 | the field list has one entry per non-key column, in schema order, each behind the prefix; with no prefix it is the bare names |
| Statements.InsertParamsSpec | model.js:169-182 | the insert parameters have exactly the prefixed field names as keys, in field order, each bound to the field's current value and its column type |
| Statements.UpdateParamsKeys | model.js:169-182 | the update parameters list the non-key columns in schema order, then the primary key last |
| Statements.UpdateParamsValues | model.js:169-182 | the update parameters bind every schema column, and nothing else, to its current value and its column type |
| Statements.InsertUpdateParamsValid | model.js:169-182 | every parameter entry carries a value and a type, so the map always passes the query validator |
| Statements.InsertSqlSpec | model.js:189-205 | the INSERT lists the non-key columns as `[c]` separated by commas and binds them as `@c` in the same order; unless omitted, it selects the new identity under the key's name; the key itself is never inserted |
| Statements.InsertSqlNoFields | model.js:189-205 | a table whose only column is the key gives `INSERT INTO [T] ([]) VALUES ();` followed by the identity select unless omitted |
| Statements.UpdateSqlSpec | model.js:212-224 | the UPDATE assigns `[c] = @c` for every non-key column in schema order and restricts by `[pk] = @pk`; the key is never among the assignments |
| Statements.DeleteAndUpdateShareRestriction | model.js:275 | the DELETE opens `DELETE FROM T` and, like the UPDATE of model.js:222, ends with `WHERE [pk] = @pk`, so both pick out the record's row |
| Statements.EffectiveLimit | model.js:129-130 | the row limit is never 0, and it is 9 when none is given |
| Statements.SelectSqlLimit | model.js:132 | the SELECT opens with `SELECT TOP `, then a numeral without spaces that reads back as the limit, then ` * FROM [` |
| Statements.SelectSqlWhere | model.js:131-132 | without predicates the SELECT ends after the table name and two spaces; with predicates it continues `WHERE ` and the rendered clauses |
| Statements.FieldCheckFromSpec | model.js:87-91 | the field check passes if and only if every key is an own schema column; otherwise it names the first key that is not one (names inherited from `Object.prototype` are not columns here, see Left out) |
| Statements.WhereIsValidForModelSpec | model.js:81-93 | over the corrected generic check (a null entry is rejected, not thrown): a map is valid for the model if and only if it passes the generic check and names only own schema columns (see Left out); a generic failure is reported unchanged, and otherwise the message names the first key that is not a column |
| Statements.AddTypesFromSpec | model.js:107-110 | with own schema columns only and each predicate a separate value (see Left out): the typing loop throws exactly when it reaches the first column key holding a bare scalar; every entry it passed is typed and every other entry is as it was |
| Statements.AddTypesThrowLeavesPrefixTyped | model.js:107-110 | with own schema columns only and each predicate a separate value (see Left out): after a throw the caller's map is left half typed: the entries before the first bare scalar at a column key carry their column's type, and the rest are unchanged |
| Statements.AddTypesToWhere | model.js:106-111 | with own schema columns only and each predicate a separate value (see Left out): typing completes exactly when no column's predicate is a bare scalar; then the key order is kept, every column's entry carries the column's type and every other entry is unchanged |
| Statements.AddTypesThenValid | model.js:106-124 | predicates that name only columns and are objects with a value always type successfully and pass the model check |
| Persistence.TypedValidIffAcceptable | model.js:122-128 | with own schema columns only (see Left out): typing succeeds and the typed map passes the model check if and only if every key is a column and every entry is an object with a value |
| Persistence.FindAllGate | model.js:120-128 | over the corrected generic check and own schema columns only (see Left out): `findAll` throws exactly when a column's predicate is a bare scalar, queries exactly when the predicates are acceptable, and otherwise rejects before anything runs |
| Persistence.FindAllSql | model.js:129-135 | the issued statement is the SELECT over the typed predicates at the effective limit |
| Persistence.FindAllLimit | model.js:129-132 | the limit in the issued SELECT reads back as the given limit, or 9 when none or 0 is given |
| Persistence.FindAllResults | model.js:135-140 | a run resolves with one hydrated record per row, or with the receiver itself when a query without predicates found nothing; driver errors are passed on |
| Persistence.Save | model.js:231-262 | a completed save returns a valid instance of the same model; a throw before any statement only happens on the update path |
| Persistence.SaveChoosesStatement | model.js:231-262 | `save` inserts exactly when the key value is falsy and otherwise updates by key, binding the key's current value; a missing key column throws; driver errors are passed on |
| Persistence.SaveInsertStoresKey | model.js:241-243 | a successful insert stores the first returned row's key value under the key and changes no other field |
| Persistence.SaveTwiceUpdates | model.js:234-250 | after an insert stores a truthy key, saving again issues the UPDATE by that key instead of another INSERT |
| Persistence.DelSpec | model.js:270-289 | `del` rejects a record with a falsy key without issuing anything; otherwise it issues the DELETE binding only the key's value, resolves with true on success and passes driver errors on with the record unchanged |
| Persistence.DelAsWrittenKeepsKey | model.js:281-283 | as written, a model keyed by anything but `RecordId` keeps its key value after a successful delete, and a second `del` issues the same DELETE again |
| Persistence.DelClearsKey | model.js:270-289 | with the key cleared after a successful delete, a second `del` rejects without a query and `save` inserts afresh |
| Procs.InsertByOrderSpec | roundsql.js:78-80 | inserting into an ordinal-sorted list keeps it sorted and adds exactly the one declaration |
| Procs.SortByOrderSpec | roundsql.js:78-80 | sorting puts the declarations in ordinal order and neither loses nor adds any |
| Procs.ConvertProcValuesSpec | roundsql.js:75-87 | conversion succeeds if and only if there are no more arguments than declarations; it then gives one binding per argument, in order, named and typed after the declaration of the same ordinal rank |
| Procs.ValidArityBindsEveryDeclaration | roundsql.js:58-87 | with the arity that `procParamsAreValid` accepts, every declared parameter is bound exactly once |
| Procs.StripFirstAtRemovesFirst | roundsql.js:106 | `replace(/\@/, '')` removes exactly the first `@` and keeps every other character in place |
| Procs.StripFirstAtNoAt | roundsql.js:106 | a name without `@` is left unchanged |
| Procs.ProcInputs | roundsql.js:104-107 | inputs are declared exactly when there are no more arguments than declarations, one per argument |
| Procs.ProcInputsSpec | roundsql.js:104-107 | each input is the same-rank declaration's name without its first `@`, with its native type and the argument in that position |
| Discovery.ColumnsSqlSpec | roundsql.js:22-38 | several tables are matched with `IN` over the individually quoted names, and one table with `= N'name'`, after the fixed catalog query head |
| Discovery.DiscoverModel | roundsql.js:446-475 | discovery always issues the catalog query for the given tables |
| Discovery.DiscoverModelSpec | roundsql.js:446-475 | corrected: an empty catalog result is rejected where the source resolves (see Findings); discovery rejects when the catalog query fails, returns no rows, or the arguments disagree in shape, with that precedence; it resolves if and only if none of these holds, and then with the models built from the translated rows |
| Discovery.SingleTableModel | roundsql.js:464-467 | a single table yields exactly one model, keyed by the model name (`undefined` when none is given), over that table |
| Discovery.ManyTablesModels | roundsql.js:459-461 | with distinct model names, several tables yield one model per table, keyed by model name in argument order, each over its own table name |
| Discovery.DiscoveredModelsShareColumns | roundsql.js:454-461 | every discovered model carries the columns translated from the whole catalog result, so with several tables each schema is the merge of all of them |
| Discovery.EmptyCatalogAcceptedAsWritten | roundsql.js:450-453 | as written, an empty catalog result is not rejected and discovery resolves with a model without columns; the corrected discovery rejects with the no-column-data message |
| Discovery.DiscoverAgreesOnRows | roundsql.js:446-475 | the as-written and corrected discoveries agree whenever the catalog returns rows or fails |
| Scenarios.TextTypeExamples | spec/roundsql-spec.js:41-49 | a `char` of width 1 maps to Char(1) and a `varchar` of width 20 maps to VarChar(20) |
| Scenarios.AccountMasterTranslation | spec/roundsql-spec.js:153-156 | the fourteen `A01_AccountMaster` catalog rows translate into fourteen columns, in catalog order |
| Scenarios.AccountMasterColumnTypes | spec/roundsql-spec.js:157 | FirstName translates to VarChar(20) |
| Scenarios.ResponderKey | spec/roundsql-spec.js:175-179 | the Responder model discovered over that catalog has RecordId as its primary key |
| Scenarios.ResponderNonKey | spec/roundsql-spec.js:193 | the Responder's non-key columns are the thirteen columns after RecordId, in catalog order |
| Scenarios.ResponderInsertSql | spec/roundsql-spec.js:193 | the Responder INSERT lists and binds those thirteen columns in order, and selects the identity back as RecordId |
| Scenarios.ResponderUpdateSql | spec/roundsql-spec.js:215 | the Responder UPDATE assigns those thirteen columns in order and restricts by RecordId |
| Scenarios.ResponderParamKeys | spec/roundsql-spec.js:194-219 | the insert parameters of a Responder are keyed by the thirteen non-key columns in order; the update parameters add RecordId last |
| Scenarios.NameQueryRendering | spec/roundsql-spec.js:68-75 | the FirstName/LastName predicate map renders as `[FirstName] = @FirstName AND [LastName] <> @LastName` |
| Scenarios.NameQueryBindings | spec/roundsql-spec.js:111-122 | the FirstName/LastName predicate map flattens to `{FirstName: 'Jonathan', LastName: 'Watson'}` |

## Left out

- Driver calls are out of scope. That covers `Request`, `PreparedStatement` prepare/input/execute/unprepare and `request.execute`. The database is an oracle reply passed in. `Executor.Query` returns the statement and declared inputs it would hand over.
- The `q` deferreds and `.bind` chains are not modelled. Each call is one pure transition to an outcome. A `Crashed` outcome inside a `then` handler stands for a promise that never settles.
- `unprepare` timing in `runPreparedStatement` is left out: it is asynchronous ordering, not data.
- `getSessionId`, `setDebug` and console logging are left out; they are fixed calls and diagnostics.
- The text of `getStoredProcParameters` is not modelled. Its rows are the `CatalogRow` values that `Procs` takes as input.
- `proc` does not stop after its arity rejection. The model states only the `procParamsAreValid` result and the conversion. It claims no short-circuit.
- Procs.ConvertProcValuesSpec: the sort is stated as ordinal order plus a permutation. The order among equal ordinals is not stated, since parameter ids are unique per procedure. The model sorts a copy where the source sorts `defs` in place.
- The `!this.columns` branch of `whereIsValidForModel` is not modelled. Every model is constructed with a column map, so the branch cannot be reached.
- Executor.Query: stated over the corrected validator of the first row under Findings. In the source, `query(sql, {k: null})` throws from `Object.keys(null)` where the model rejects with "value of where.k is not an object". `WhereClause.NullEntryThrowsAsWritten` exhibits the throw, and `WhereClause.AsWrittenAgreesWithoutNull` shows that nothing else differs.
- Statements.WhereIsValidForModelSpec: stated over the same corrected generic check. In the source, `whereIsValidForModel({k: null})` throws where the model reports the entry as not an object. Its field check is the own-key test of `Statements.FieldCheckFromSpec`: the source also accepts keys inherited from `Object.prototype` such as `toString`.
- Persistence.FindAllGate: stated over the same corrected check. In the source, `findAll({Nope: null})` with `Nope` not a column also throws: typing skips non-columns, and validation then reaches `Object.keys(null)`. The model rejects that map instead. It also treats only own schema columns as columns: in the source `findAll({toString: {value: 'x'}})` types the entry with `undefined`, passes both checks and issues `SELECT TOP 9 * FROM [T] WHERE [toString] = @toString`, and `findAll({toString: 5})` throws; the model rejects both. Predicates are values, so a predicate object shared by two keys is not modelled (see `Statements.AddTypesToWhere`).
- Statements.FieldCheckFromSpec: a key counts as a column only when it is an own key of the schema. In the source `this.columns[i]` also finds the names `Object.prototype` supplies (`toString`, `constructor`, `hasOwnProperty`, …), because the column map is a plain object, so `typeof this.columns[i] == 'undefined'` is false for them and such a key passes the field check; the model names it as not a valid field.
- Statements.AddTypesFromSpec: the loop's column test is the own-key test. In the source `this.columns[i]` also finds the names `Object.prototype` supplies (`toString`, `constructor`, `hasOwnProperty`, …), because the column map is a plain object, and they are truthy: an object under such a key gets an own `type` holding `undefined`, and a bare scalar under it throws on assignment in strict mode. The model skips such keys. Predicates are also values here, where the source writes `type` into the predicate object itself: with `{A: p, B: p}` both keys end up with B's column type, while the model gives each key its own column's type.
- Statements.AddTypesThrowLeavesPrefixTyped: stated under the same two simplifications. "The rest are unchanged" does not hold in the source when a later key shares its predicate object with a typed one, and a throw can also come from an inherited name such as `toString`.
- Statements.AddTypesToWhere: stated under the same two simplifications. The throw condition ignores inherited names, and "every column's entry carries the column's type" does not hold in the source for a predicate object shared by two columns of different types.
- Persistence.TypedValidIffAcceptable: "every key is a column" means an own schema column. The source also types and accepts `{toString: {value: 'x'}}`, whose key is inherited from `Object.prototype`.
- Persistence.FindAll: `addTypesToWhere` updates the caller's map in place. The outcome does not carry that map. Its state after typing, including the half-typed map left by a throw, is stated by `Statements.AddTypesFromSpec` and `Statements.AddTypesThrowLeavesPrefixTyped`.
- Records.Construct: the constructor's eight bookkeeping properties (`round`, `mssql`, `connection`, `debug`, `tableName`, `modelName`, `columns`, `primaryKey`) are kept in `ModelDef`, apart from the data fields. In the source they share one namespace with the columns. That is why the test counts 22 own keys for 14 columns. A column or row key with one of those names overwrites the property; a row key `tableName`, say, changes the table of later statements. This sharing is not modelled.
- Native types are an abstract datatype carrying their width, precision and scale arguments. `parseInt` of a catalog number is the number itself, and null becomes NaN.
- JavaScript numbers are integers in the model. Floats, NaN values and the reordering of integer-like property keys are not modelled.
- SQL quoting is not modelled: table names and predicate keys are pasted into the text unescaped, as in the source. No property is stated about injection.
- Scenarios.ResponderInsertSql: the test's INSERT string is stated as its literal pieces joined with `Join` over the thirteen column names, not as one literal string. Each piece is the test's text.
- Scenarios.ResponderUpdateSql: stated the same way, with the SET list as `Join` over the thirteen assignments.
- Scenarios.ResponderParamKeys: states the parameter keys and their order. The test's JSON text also depends on live row values, which are left out.
- Scenarios.AccountMasterTranslation: the catalog rows keep only the fields the mapper and translation read.
- Persistence.Save: its own contract is weak. The insert/update choice and the stored key are stated by `SaveChoosesStatement`, `SaveInsertStoresKey` and `SaveTwiceUpdates`.
- Discovery.DiscoverModel: its own contract states only the issued query. The outcomes are stated by `DiscoverModelSpec`.

## Findings

| source | as written | input that shows it | evidently intended | confidence | as-written member | corrected member |
|---|---|---|---|---|---|---|
| roundsql.js:244-247 | the guard `where[i] !== null && typeof where[i] != 'object'` lets a null entry through, then `Object.keys(null)` throws a TypeError | `whereIsValidForQuery({k: null})` | report "value of where.k is not an object" | not executed | WhereClause.NullEntryThrowsAsWritten | WhereClause.WhereIsValidForQuerySpec |
| roundsql.js:450-453 | an empty catalog result reaches the handler as the affected-row count, a number without `length`, so `cols.length == 0` never holds and discovery resolves with a model without columns | `discoverModel('NoSuchTable', 'M')` with the catalog returning no rows | reject with "No column data returned for table [NoSuchTable]…" | not executed | Discovery.EmptyCatalogAcceptedAsWritten | Discovery.DiscoverModelSpec |
| model.js:282 | after a successful DELETE, `del` clears the field `RecordId` whatever the primary key is called | a model keyed by `Id` with `Id = 5`: after `del()` resolves, `Id` is still 5 and a second `del()` deletes again | clear the primary-key field | not executed | Persistence.DelAsWrittenKeepsKey | Persistence.DelClearsKey |
