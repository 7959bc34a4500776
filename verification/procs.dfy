/** Stored-procedure arguments: the arity check, the ordinal sort of the declared
    parameters, positional binding, and the input names handed to the driver. */
module Procs {
  import opened Js
  import opened NativeTypes

  /** `procParamsAreValid`: one argument per declared parameter. */
  predicate ProcParamsAreValid(args: seq<Value>, defs: seq<CatalogRow>) {
    |args| == |defs|
  }

  predicate SortedByOrder(defs: seq<CatalogRow>) {
    forall i, j :: 0 <= i < j < |defs| ==> defs[i].order <= defs[j].order
  }

  function InsertByOrder(d: CatalogRow, sorted: seq<CatalogRow>): seq<CatalogRow>
  {
    if sorted == [] || d.order <= sorted[0].order then [d] + sorted
    else [sorted[0]] + InsertByOrder(d, sorted[1..])
  }

  /** `defs.sort((a, b) => a.ORDER - b.ORDER)`, a stable sort by ordinal. */
  function SortByOrder(defs: seq<CatalogRow>): seq<CatalogRow>
  {
    if defs == [] then [] else InsertByOrder(defs[0], SortByOrder(defs[1..]))
  }

  /** Inserting adds exactly the one declaration. */
  lemma {:induction false} InsertByOrderPerm(d: CatalogRow, sorted: seq<CatalogRow>)
    ensures multiset(InsertByOrder(d, sorted)) == multiset(sorted) + multiset{d}
  {
    if sorted != [] && d.order > sorted[0].order {
      InsertByOrderPerm(d, sorted[1..]);
      assert sorted == [sorted[0]] + sorted[1..];
    }
  }

  /** Every declaration of a sorted list ranks at least as high as its head. */
  lemma HeadIsLeast(sorted: seq<CatalogRow>, x: CatalogRow)
    requires SortedByOrder(sorted) && sorted != [] && x in multiset(sorted)
    ensures sorted[0].order <= x.order
  {
    var k :| 0 <= k < |sorted| && sorted[k] == x;
  }

  /** A declaration ranked no higher than every member of a sorted list can lead it. */
  lemma ConsSorted(x: CatalogRow, s: seq<CatalogRow>)
    requires SortedByOrder(s)
    requires forall j :: 0 <= j < |s| ==> x.order <= s[j].order
    ensures SortedByOrder([x] + s)
  {
    var r := [x] + s;
    forall i, j | 0 <= i < j < |r| ensures r[i].order <= r[j].order {
      assert r[j] == s[j - 1];
      if i > 0 {
        assert r[i] == s[i - 1];
      }
    }
  }

  /** Inserting into a sorted list keeps it sorted. */
  lemma {:induction false} InsertByOrderSorted(d: CatalogRow, sorted: seq<CatalogRow>)
    requires SortedByOrder(sorted)
    ensures SortedByOrder(InsertByOrder(d, sorted))
  {
    if sorted == [] || d.order <= sorted[0].order {
      forall j | 0 <= j < |sorted| ensures d.order <= sorted[j].order {
        HeadIsLeast(sorted, sorted[j]);
      }
      ConsSorted(d, sorted);
    } else {
      var head := sorted[0];
      var rest := InsertByOrder(d, sorted[1..]);
      InsertByOrderSorted(d, sorted[1..]);
      InsertByOrderPerm(d, sorted[1..]);
      assert sorted == [head] + sorted[1..];
      forall j | 0 <= j < |rest| ensures head.order <= rest[j].order {
        assert rest[j] in multiset(rest);
        if rest[j] != d {
          assert rest[j] in multiset(sorted[1..]);
          HeadIsLeast(sorted, rest[j]);
        }
      }
      ConsSorted(head, rest);
    }
  }

  lemma InsertByOrderSpec(d: CatalogRow, sorted: seq<CatalogRow>)
    requires SortedByOrder(sorted)
    ensures SortedByOrder(InsertByOrder(d, sorted))
    ensures multiset(InsertByOrder(d, sorted)) == multiset(sorted) + multiset{d}
  {
    InsertByOrderPerm(d, sorted);
    InsertByOrderSorted(d, sorted);
  }

  /** Sorting puts the parameters in ordinal order and loses or adds none. */
  lemma {:induction false} SortByOrderSpec(defs: seq<CatalogRow>)
    ensures SortedByOrder(SortByOrder(defs))
    ensures multiset(SortByOrder(defs)) == multiset(defs)
  {
    if defs != [] {
      SortByOrderSpec(defs[1..]);
      InsertByOrderSpec(defs[0], SortByOrder(defs[1..]));
      assert defs == [defs[0]] + defs[1..];
    }
  }

  /** A bound stored-procedure argument. */
  datatype ProcParam = ProcParam(name: string, value: Value, sqlType: MappedType)

  /** `convertProcValuesToParams`: sort the declarations by ordinal, then pair
      `args[i]` with the i-th declaration. Reading past the last declaration
      throws; `None` stands for that TypeError. */
  function ConvertProcValuesToParams(args: seq<Value>, defs: seq<CatalogRow>): (r: Option<seq<ProcParam>>)
  {
    var sorted := SortByOrder(defs);
    if |args| > |defs| then None
    else
      SortByOrderSpec(defs);
      assert |sorted| == |multiset(sorted)| == |multiset(defs)| == |defs|;
      Some(seq(|args|, i requires 0 <= i < |args| =>
        ProcParam(sorted[i].columnName, args[i], MapType(sorted[i]))))
  }

  /** Conversion succeeds exactly when there are no more arguments than
      declarations, and then gives one binding per argument, in argument order,
      named and typed after the declaration of the same ordinal rank. */
  lemma ConvertProcValuesSpec(args: seq<Value>, defs: seq<CatalogRow>)
    ensures ConvertProcValuesToParams(args, defs).Some? <==> |args| <= |defs|
    ensures ConvertProcValuesToParams(args, defs).Some? ==>
      var ps := ConvertProcValuesToParams(args, defs).value;
      var sorted := SortByOrder(defs);
      && |ps| == |args|
      && |sorted| == |defs|
      && SortedByOrder(sorted)
      && forall i :: 0 <= i < |ps| ==>
        ps[i] == ProcParam(sorted[i].columnName, args[i], MapType(sorted[i]))
  {
    SortByOrderSpec(defs);
    assert |SortByOrder(defs)| == |multiset(SortByOrder(defs))| == |multiset(defs)| == |defs|;
  }

  /** With a valid arity every declared parameter is bound exactly once. */
  lemma ValidArityBindsEveryDeclaration(args: seq<Value>, defs: seq<CatalogRow>)
    requires ProcParamsAreValid(args, defs)
    ensures ConvertProcValuesToParams(args, defs).Some?
    ensures var ps := ConvertProcValuesToParams(args, defs).value;
      multiset(seq(|ps|, i requires 0 <= i < |ps| => ps[i].name)) == multiset(Names(defs))
  {
    ConvertProcValuesSpec(args, defs);
    var ps := ConvertProcValuesToParams(args, defs).value;
    var sorted := SortByOrder(defs);
    SortByOrderSpec(defs);
    var names := seq(|ps|, i requires 0 <= i < |ps| => ps[i].name);
    assert names == Names(sorted);
    SortKeepsNames(defs);
  }

  function Names(defs: seq<CatalogRow>): (ns: seq<string>)
    ensures |ns| == |defs|
    ensures forall i :: 0 <= i < |defs| ==> ns[i] == defs[i].columnName
  {
    seq(|defs|, i requires 0 <= i < |defs| => defs[i].columnName)
  }

  lemma {:induction false} InsertKeepsNames(d: CatalogRow, sorted: seq<CatalogRow>)
    ensures multiset(Names(InsertByOrder(d, sorted))) == multiset(Names(sorted)) + multiset{d.columnName}
  {
    if sorted == [] || d.order <= sorted[0].order {
      assert Names([d] + sorted) == [d.columnName] + Names(sorted);
    } else {
      InsertKeepsNames(d, sorted[1..]);
      assert Names(InsertByOrder(d, sorted)) == [sorted[0].columnName] + Names(InsertByOrder(d, sorted[1..]));
      assert Names(sorted) == [sorted[0].columnName] + Names(sorted[1..]);
    }
  }

  lemma {:induction false} SortKeepsNames(defs: seq<CatalogRow>)
    ensures multiset(Names(SortByOrder(defs))) == multiset(Names(defs))
  {
    if defs != [] {
      SortKeepsNames(defs[1..]);
      InsertKeepsNames(defs[0], SortByOrder(defs[1..]));
      assert Names(defs) == [defs[0].columnName] + Names(defs[1..]);
    }
  }

  /** `name.replace(/\@/, '')`: drops the first `@`, wherever it is. */
  function StripFirstAt(s: string): string
  {
    if s == [] then []
    else if s[0] == '@' then s[1..]
    else [s[0]] + StripFirstAt(s[1..])
  }

  /** Without an `@` the name is unchanged. */
  lemma {:induction false} StripFirstAtNoAt(s: string)
    requires '@' !in s
    ensures StripFirstAt(s) == s
  {
    if s != [] {
      assert '@' !in s[1..];
      StripFirstAtNoAt(s[1..]);
    }
  }

  /** With an `@` exactly the first one is removed, every other character
      staying in place. */
  lemma {:induction false} StripFirstAtRemovesFirst(s: string, i: nat)
    requires i < |s| && s[i] == '@' && '@' !in s[..i]
    ensures StripFirstAt(s) == s[..i] + s[i + 1..]
  {
    if i > 0 {
      assert s[0] == s[..i][0];
      assert s[1..][..i - 1] == s[1..i];
      assert '@' !in s[1..][..i - 1];
      StripFirstAtRemovesFirst(s[1..], i - 1);
      assert s[..i] == [s[0]] + s[1..][..i - 1];
      assert s[i + 1..] == s[1..][i..];
    }
  }

  /** The driver inputs `proc` declares after conversion: the parameter name
      without its `@`, its native type and the argument value. */
  function ProcInputs(args: seq<Value>, defs: seq<CatalogRow>): (ins: Option<seq<(string, MappedType, Value)>>)
    ensures ins.Some? <==> |args| <= |defs|
    ensures ins.Some? ==> |ins.value| == |args|
  {
    ConvertProcValuesSpec(args, defs);
    match ConvertProcValuesToParams(args, defs)
    case None => None
    case Some(ps) =>
      Some(seq(|ps|, i requires 0 <= i < |ps| => (StripFirstAt(ps[i].name), ps[i].sqlType, ps[i].value)))
  }

  /** Each declared input is the declaration of the same ordinal rank, its name
      stripped of the first `@`, with that declaration's native type and the
      argument in the same position. */
  lemma ProcInputsSpec(args: seq<Value>, defs: seq<CatalogRow>)
    requires |args| <= |defs|
    ensures ProcInputs(args, defs).Some?
    ensures |SortByOrder(defs)| == |defs|
    ensures forall i :: 0 <= i < |args| ==>
      ProcInputs(args, defs).value[i] ==
        (StripFirstAt(SortByOrder(defs)[i].columnName), MapType(SortByOrder(defs)[i]), args[i])
  {
    ConvertProcValuesSpec(args, defs);
  }
}
