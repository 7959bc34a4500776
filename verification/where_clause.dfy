/** Predicate maps (`{col: {value, type, operator}}`): validation, rendering to a
    WHERE fragment, and flattening into the value map a prepared statement binds. */
module WhereClause {
  import opened Js
  import opened Strings
  import opened ObjMaps
  import opened NativeTypes

  /** A predicate object; each of its three properties may be absent. */
  datatype PredObj = PredObj(value: Option<Value>, sqlType: Option<MappedType>, operator: Option<string>)

  /** One entry of a predicate map: a plain object, or a bare scalar (null and
      undefined included) where an object was expected. */
  datatype Entry = Scalar(v: Value) | Object(p: PredObj)

  /** Column name -> predicate, in insertion order. */
  type Where = Obj<Entry>

  predicate Nullish(e: Entry) {
    e == Scalar(Null) || e == Scalar(Undefined)
  }

  /** No entry is null or undefined, so reading a property of an entry cannot throw. */
  predicate NoNullish(w: Where) {
    forall k :: k in w.vals ==> !Nullish(w.vals[k])
  }

  /** The comparison operator of an entry: its `operator` when that is truthy, else `=`. */
  function Operator(e: Entry): string {
    if e.Object? && e.p.operator.Some? && e.p.operator.value != "" then e.p.operator.value else "="
  }

  function Clause(k: string, e: Entry): string {
    "[" + k + "] " + Operator(e) + " @" + k
  }

  /** One clause per key, in key order. */
  function Clauses(w: Where): (cs: seq<string>)
    requires Wf(w)
    ensures |cs| == |w.keys|
  {
    seq(|w.keys|, i requires 0 <= i < |w.keys| => Clause(w.keys[i], w.vals[w.keys[i]]))
  }

  /** `parseWhere`: the clauses joined with ` AND `. */
  function ParseWhere(w: Where): string
    requires Wf(w) && NoNullish(w)
  {
    Join(Clauses(w), " AND ")
  }

  /** Rendering is determined predicate by predicate: no predicates render as the
      empty string, one predicate as its clause `[col] op @col`, and each further
      predicate adds exactly one ` AND ` followed by its own clause. */
  lemma ParseWhereByPredicate(w: Where, k: string, e: Entry)
    requires Wf(w) && NoNullish(w) && !Nullish(e) && k !in w.vals
    ensures |w.keys| == 0 ==> ParseWhere(w) == ""
    ensures |w.keys| == 0 ==> ParseWhere(Put(w, k, e)) == "[" + k + "] " + Operator(e) + " @" + k
    ensures |w.keys| > 0 ==> ParseWhere(Put(w, k, e)) == ParseWhere(w) + " AND " + ("[" + k + "] " + Operator(e) + " @" + k)
  {
    var w' := Put(w, k, e);
    assert Clauses(w') == Clauses(w) + [Clause(k, e)];
    if |w.keys| == 0 {
      assert Clauses(w') == [Clause(k, e)];
    } else {
      JoinSnoc(Clauses(w), Clause(k, e), " AND ");
    }
  }

  /** N predicates render as N clauses and exactly N - 1 separators. */
  lemma ParseWhereLength(w: Where)
    requires Wf(w) && NoNullish(w) && |w.keys| > 0
    ensures |ParseWhere(w)| == TotalLength(Clauses(w)) + (|w.keys| - 1) * |" AND "|
  {
    JoinLength(Clauses(w), " AND ");
  }

  /** Outcome of a validation: the source returns `true` or a message string. */
  datatype Check = Valid | Invalid(message: string)

  /** The complaint about one entry, if any. */
  function EntryProblem(k: string, e: Entry): Option<string> {
    match e
    case Scalar(_) => Some("value of where." + k + " is not an object")
    case Object(p) =>
      if p.value.None? then Some("Where clause " + k + " does not have a value property.")
      else if p.sqlType.None? then Some("Where clause " + k + " does not have a type property.")
      else None
  }

  predicate EntryOk(k: string, e: Entry) {
    EntryProblem(k, e).None?
  }

  function CheckFrom(w: Where, i: nat): Check
    requires Wf(w) && i <= |w.keys|
    decreases |w.keys| - i
  {
    if i == |w.keys| then Valid
    else match EntryProblem(w.keys[i], w.vals[w.keys[i]])
      case Some(m) => Invalid(m)
      case None => CheckFrom(w, i + 1)
  }

  /** `whereIsValidForQuery`, with a null entry reported as not an object. A
      missing map (null or undefined) has no entries and is valid. */
  function WhereIsValidForQuery(params: Option<Where>): Check
    requires params.Some? ==> Wf(params.value)
  {
    match params
    case None => Valid
    case Some(w) => CheckFrom(w, 0)
  }

  lemma {:induction false} CheckFromSpec(w: Where, i: nat)
    requires Wf(w) && i <= |w.keys|
    ensures CheckFrom(w, i) == Valid <==> forall j :: i <= j < |w.keys| ==> EntryOk(w.keys[j], w.vals[w.keys[j]])
    ensures CheckFrom(w, i).Invalid? ==>
      exists j :: i <= j < |w.keys|
        && EntryProblem(w.keys[j], w.vals[w.keys[j]]) == Some(CheckFrom(w, i).message)
        && forall l :: i <= l < j ==> EntryOk(w.keys[l], w.vals[w.keys[l]])
    decreases |w.keys| - i
  {
    if i < |w.keys| {
      CheckFromSpec(w, i + 1);
    }
  }

  /** A predicate map passes exactly when every entry is an object with both a
      `value` and a `type` property; otherwise the message is the complaint about
      the first offending key, and every key before it is fine. */
  lemma WhereIsValidForQuerySpec(w: Where)
    requires Wf(w)
    ensures WhereIsValidForQuery(Some(w)) == Valid <==> forall k :: k in w.vals ==> EntryOk(k, w.vals[k])
    ensures WhereIsValidForQuery(Some(w)).Invalid? ==>
      exists j :: 0 <= j < |w.keys|
        && EntryProblem(w.keys[j], w.vals[w.keys[j]]) == Some(WhereIsValidForQuery(Some(w)).message)
        && forall l :: 0 <= l < j ==> EntryOk(w.keys[l], w.vals[w.keys[l]])
  {
    CheckFromSpec(w, 0);
    if forall j :: 0 <= j < |w.keys| ==> EntryOk(w.keys[j], w.vals[w.keys[j]]) {
      forall k | k in w.vals ensures EntryOk(k, w.vals[k]) {
        var j :| 0 <= j < |w.keys| && w.keys[j] == k;
      }
    }
  }

  /** `whereIsValidForQuery` as written: a null entry slips past the guard
      `where[i] !== null && typeof where[i] != 'object'` and `Object.keys(null)`
      then throws. `None` stands for that TypeError. */
  function CheckFromAsWritten(w: Where, i: nat): Option<Check>
    requires Wf(w) && i <= |w.keys|
    decreases |w.keys| - i
  {
    if i == |w.keys| then Some(Valid)
    else if w.vals[w.keys[i]] == Scalar(Null) then None
    else match EntryProblem(w.keys[i], w.vals[w.keys[i]])
      case Some(m) => Some(Invalid(m))
      case None => CheckFromAsWritten(w, i + 1)
  }

  function WhereIsValidForQueryAsWritten(params: Option<Where>): Option<Check>
    requires params.Some? ==> Wf(params.value)
  {
    match params
    case None => Some(Valid)
    case Some(w) => CheckFromAsWritten(w, 0)
  }

  /** The as-written check throws on `{k: null}` where the corrected one reports
      that the entry is not an object. */
  lemma NullEntryThrowsAsWritten(k: string)
    ensures WhereIsValidForQueryAsWritten(Some(Obj([k], map[k := Scalar(Null)]))) == None
    ensures WhereIsValidForQuery(Some(Obj([k], map[k := Scalar(Null)]))) == Invalid("value of where." + k + " is not an object")
  {
  }

  lemma {:induction false} CheckFromAgrees(w: Where, i: nat)
    requires Wf(w) && i <= |w.keys|
    requires forall k :: k in w.vals ==> w.vals[k] != Scalar(Null)
    ensures CheckFromAsWritten(w, i) == Some(CheckFrom(w, i))
    decreases |w.keys| - i
  {
    if i < |w.keys| {
      CheckFromAgrees(w, i + 1);
    }
  }

  /** Without null entries the corrected check returns what the source returns. */
  lemma AsWrittenAgreesWithoutNull(w: Where)
    requires Wf(w)
    requires forall k :: k in w.vals ==> w.vals[k] != Scalar(Null)
    ensures WhereIsValidForQueryAsWritten(Some(w)) == Some(WhereIsValidForQuery(Some(w)))
  {
    CheckFromAgrees(w, 0);
  }

  /** `where[i].value`, which is `undefined` on a non-object or a missing property. */
  function ValueOf(e: Entry): Value
    requires !Nullish(e)
  {
    match e
    case Scalar(_) => Undefined
    case Object(p) => p.value.GetOr(Undefined)
  }

  /** `where[i].type`. */
  function TypeOf(e: Entry): Option<MappedType>
    requires !Nullish(e)
  {
    match e
    case Scalar(_) => None
    case Object(p) => p.sqlType
  }

  function BindKeys(w: Where, ks: seq<string>, acc: Obj<Value>): (b: Obj<Value>)
    requires Wf(w) && NoNullish(w) && Wf(acc)
    requires forall k :: k in ks ==> k in w.vals
    ensures Wf(b)
    decreases |ks|
  {
    if ks == [] then acc else BindKeys(w, ks[1..], Put(acc, ks[0], ValueOf(w.vals[ks[0]])))
  }

  /** `getWhereForPreparedStatement`: `w[i] = where[i].value` for each key; a
      missing map gives `{}`. */
  function PreparedBindings(params: Option<Where>): (b: Obj<Value>)
    requires params.Some? ==> Wf(params.value) && NoNullish(params.value)
    ensures Wf(b)
  {
    match params
    case None => Empty()
    case Some(w) => BindKeys(w, w.keys, Empty())
  }

  lemma {:induction false} BindKeysSpec(w: Where, ks: seq<string>, acc: Obj<Value>)
    requires Wf(w) && NoNullish(w) && Wf(acc)
    requires forall k :: k in ks ==> k in w.vals
    requires Distinct(acc.keys + ks)
    ensures BindKeys(w, ks, acc).keys == acc.keys + ks
    ensures forall k :: k in BindKeys(w, ks, acc).vals <==> k in acc.vals || k in ks
    ensures forall k :: k in ks ==> BindKeys(w, ks, acc).vals[k] == ValueOf(w.vals[k])
    ensures forall k :: k in acc.vals && k !in ks ==> BindKeys(w, ks, acc).vals[k] == acc.vals[k]
    decreases |ks|
  {
    if ks != [] {
      var acc' := Put(acc, ks[0], ValueOf(w.vals[ks[0]]));
      assert ks[0] !in acc.keys by {
        assert (acc.keys + ks)[|acc.keys|] == ks[0];
        forall i | 0 <= i < |acc.keys| ensures acc.keys[i] != ks[0] {
          assert (acc.keys + ks)[i] == acc.keys[i];
        }
      }
      assert acc'.keys == acc.keys + [ks[0]];
      assert acc'.keys + ks[1..] == acc.keys + ks;
      assert forall k :: k in ks[1..] ==> k in ks;
      BindKeysSpec(w, ks[1..], acc');
      assert forall k :: k in ks ==> k == ks[0] || k in ks[1..];
      assert ks[0] !in ks[1..] by {
        forall i | 0 <= i < |ks[1..]| ensures ks[1..][i] != ks[0] {
          assert (acc.keys + ks)[|acc.keys|] == ks[0];
          assert (acc.keys + ks)[|acc.keys| + 1 + i] == ks[1..][i];
        }
      }
    }
  }

  /** The flat binding map has exactly the keys of the predicate map, in the same
      order, and maps each key to its predicate's `value`; no map gives `{}`. */
  lemma PreparedBindingsSpec(params: Option<Where>)
    requires params.Some? ==> Wf(params.value) && NoNullish(params.value)
    ensures params.None? ==> PreparedBindings(params).keys == []
    ensures params.Some? ==> PreparedBindings(params).keys == params.value.keys
    ensures params.Some? ==> forall k :: k in params.value.vals ==>
      k in PreparedBindings(params).vals && PreparedBindings(params).vals[k] == ValueOf(params.value.vals[k])
  {
    if params.Some? {
      var w := params.value;
      assert Empty<Value>().keys + w.keys == w.keys;
      BindKeysSpec(w, w.keys, Empty());
    }
  }

  /** `setPreparedStatementInputs`: one declared input per key, named by the key
      and typed by the entry's `type`. */
  function Inputs(w: Where): (ins: seq<(string, Option<MappedType>)>)
    requires Wf(w) && NoNullish(w)
    ensures |ins| == |w.keys|
  {
    seq(|w.keys|, i requires 0 <= i < |w.keys| => (w.keys[i], TypeOf(w.vals[w.keys[i]])))
  }

  /** A validated map declares one input per key, in key order, each named by
      its key and carrying that predicate's type. */
  lemma InputsSpec(w: Where)
    requires Wf(w) && WhereIsValidForQuery(Some(w)) == Valid
    ensures NoNullish(w)
    ensures |Inputs(w)| == |w.keys|
    ensures forall i :: 0 <= i < |w.keys| ==>
      Inputs(w)[i].0 == w.keys[i] && Inputs(w)[i].1.Some? && Inputs(w)[i].1 == w.vals[w.keys[i]].p.sqlType
  {
    ValidHasNoNullish(w);
  }

  /** A map that passed validation holds only objects, so nothing in it is null. */
  lemma ValidHasNoNullish(w: Where)
    requires Wf(w) && WhereIsValidForQuery(Some(w)) == Valid
    ensures NoNullish(w)
    ensures forall k :: k in w.vals ==> w.vals[k].Object? && w.vals[k].p.value.Some? && w.vals[k].p.sqlType.Some?
  {
    WhereIsValidForQuerySpec(w);
  }
}
