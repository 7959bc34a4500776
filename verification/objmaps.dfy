/** JavaScript plain objects with string keys. Property enumeration (`for..in`,
    `Object.keys`) follows insertion order, so an object is its key sequence plus
    the value of each key. Assigning to an existing key keeps its position;
    assigning to a new key puts it last. */
module ObjMaps {
  import opened Js

  datatype Obj<V> = Obj(keys: seq<string>, vals: map<string, V>)

  predicate Distinct(s: seq<string>) {
    forall i, j :: 0 <= i < j < |s| ==> s[i] != s[j]
  }

  /** Every key listed once, and exactly the listed keys carry a value. */
  predicate Wf<V>(o: Obj<V>) {
    && Distinct(o.keys)
    && (forall k :: k in o.vals ==> k in o.keys)
    && (forall k :: k in o.keys ==> k in o.vals)
  }

  function Empty<V>(): (o: Obj<V>)
    ensures Wf(o) && |o.keys| == 0
  {
    Obj([], map[])
  }

  /** `o[k]`, which is `undefined` for a missing key. */
  function Lookup(o: Obj<Value>, k: string): Value {
    if k in o.vals then o.vals[k] else Undefined
  }

  /** `o[k] = v`. */
  function Put<V>(o: Obj<V>, k: string, v: V): (r: Obj<V>)
    requires Wf(o)
    ensures Wf(r)
    ensures r.vals == o.vals[k := v]
    ensures k in o.vals ==> r.keys == o.keys
    ensures k !in o.vals ==> r.keys == o.keys + [k]
  {
    if k in o.vals then Obj(o.keys, o.vals[k := v]) else Obj(o.keys + [k], o.vals[k := v])
  }

  /** The keys of `ks` not already in `present`, in the order of `ks`. */
  function Fresh(ks: seq<string>, present: seq<string>): seq<string>
  {
    if ks == [] then []
    else (if ks[0] in present then [] else [ks[0]]) + Fresh(ks[1..], present)
  }

  /** Copies `src[k]` onto `t[k]` for each `k` of `ks`, in order. */
  function AssignKeys<V>(t: Obj<V>, src: Obj<V>, ks: seq<string>): (r: Obj<V>)
    requires Wf(t)
    requires forall k :: k in ks ==> k in src.vals
    ensures Wf(r)
    decreases |ks|
  {
    if ks == [] then t else AssignKeys(Put(t, ks[0], src.vals[ks[0]]), src, ks[1..])
  }

  /** `for (var i in src) t[i] = src[i];` */
  function Assign<V>(t: Obj<V>, src: Obj<V>): (r: Obj<V>)
    requires Wf(t) && Wf(src)
    ensures Wf(r)
  {
    AssignKeys(t, src, src.keys)
  }

  lemma {:induction false} FreshIgnoresAbsent(ks: seq<string>, present: seq<string>, k: string)
    requires k !in ks
    ensures Fresh(ks, present + [k]) == Fresh(ks, present)
    decreases |ks|
  {
    if ks != [] {
      FreshIgnoresAbsent(ks[1..], present, k);
    }
  }

  lemma TailDistinct(ks: seq<string>)
    requires |ks| > 0 && Distinct(ks)
    ensures Distinct(ks[1..]) && ks[0] !in ks[1..]
  {
    forall i, j | 0 <= i < j < |ks[1..]| ensures ks[1..][i] != ks[1..][j] {
      assert ks[1..][i] == ks[i + 1] && ks[1..][j] == ks[j + 1];
    }
    forall i | 0 <= i < |ks[1..]| ensures ks[1..][i] != ks[0] {
      assert ks[1..][i] == ks[i + 1];
    }
  }

  /** Copying keys: each copied key holds the source's value and every other key
      keeps its old value. */
  lemma {:induction false} AssignKeysValues<V>(t: Obj<V>, src: Obj<V>, ks: seq<string>)
    requires Wf(t)
    requires forall k :: k in ks ==> k in src.vals
    ensures forall k :: k in AssignKeys(t, src, ks).vals <==> k in t.vals || k in ks
    ensures forall k :: k in ks ==> AssignKeys(t, src, ks).vals[k] == src.vals[k]
    ensures forall k :: k in t.vals && k !in ks ==> AssignKeys(t, src, ks).vals[k] == t.vals[k]
    decreases |ks|
  {
    if ks != [] {
      var t' := Put(t, ks[0], src.vals[ks[0]]);
      assert forall k :: k in ks[1..] ==> k in ks;
      AssignKeysValues(t', src, ks[1..]);
      assert AssignKeys(t, src, ks) == AssignKeys(t', src, ks[1..]);
      assert forall k :: k in ks ==> k == ks[0] || k in ks[1..];
    }
  }

  /** The key sequence after assigning the keys `ks` one at a time. */
  function KeysAfter(present: seq<string>, ks: seq<string>): seq<string>
    decreases |ks|
  {
    if ks == [] then present
    else KeysAfter(if ks[0] in present then present else present + [ks[0]], ks[1..])
  }

  lemma {:induction false} AssignKeysKeys<V>(t: Obj<V>, src: Obj<V>, ks: seq<string>)
    requires Wf(t)
    requires forall k :: k in ks ==> k in src.vals
    ensures AssignKeys(t, src, ks).keys == KeysAfter(t.keys, ks)
    decreases |ks|
  {
    if ks != [] {
      var t' := Put(t, ks[0], src.vals[ks[0]]);
      assert forall k :: k in ks[1..] ==> k in ks;
      AssignKeysKeys(t', src, ks[1..]);
    }
  }

  lemma {:induction false} KeysAfterFresh(present: seq<string>, ks: seq<string>)
    requires Distinct(ks)
    ensures KeysAfter(present, ks) == present + Fresh(ks, present)
    decreases |ks|
  {
    if ks != [] {
      TailDistinct(ks);
      if ks[0] in present {
        KeysAfterFresh(present, ks[1..]);
      } else {
        KeysAfterFresh(present + [ks[0]], ks[1..]);
        FreshIgnoresAbsent(ks[1..], present, ks[0]);
        assert Fresh(ks, present) == [ks[0]] + Fresh(ks[1..], present);
      }
    }
  }

  /** Copying keys: old keys keep their positions and the new ones follow in the
      source's order. */
  lemma AssignKeysOrder<V>(t: Obj<V>, src: Obj<V>, ks: seq<string>)
    requires Wf(t)
    requires Distinct(ks)
    requires forall k :: k in ks ==> k in src.vals
    ensures AssignKeys(t, src, ks).keys == t.keys + Fresh(ks, t.keys)
  {
    AssignKeysKeys(t, src, ks);
    KeysAfterFresh(t.keys, ks);
  }

  lemma AssignSpec<V>(t: Obj<V>, src: Obj<V>)
    requires Wf(t) && Wf(src)
    ensures forall k :: k in Assign(t, src).vals <==> k in t.vals || k in src.vals
    ensures forall k :: k in src.vals ==> Assign(t, src).vals[k] == src.vals[k]
    ensures forall k :: k in t.vals && k !in src.vals ==> Assign(t, src).vals[k] == t.vals[k]
    ensures Assign(t, src).keys == t.keys + Fresh(src.keys, t.keys)
  {
    AssignKeysValues(t, src, src.keys);
    AssignKeysOrder(t, src, src.keys);
  }
}
