/**
  The field lists of the configuration file: `getFields`, which picks a
  file's field list and drops duplicate keys, and `reorderFields`, which
  puts a file's fields in a requested order.
 */
module FieldConfig {
  import opened Wrappers
  import opened OrderedMaps
  import opened Text

  /** One configured field: its key and its other attributes. */
  datatype Field = Field(key: string, attrs: OMap<string, string>)

  /** The decoded configuration file: file name to field list. */
  type ConfigData = map<string, seq<Field>>

  /** The field list `getFields` starts from: process shards share one
      schema (with a legacy fallback); any other file has its own list. */
  function SchemaFields(data: ConfigData, file: string): (fields: seq<Field>)
    ensures ((Occurs("Base_de_Processos", file) || Occurs("Base_processos", file) || file == "Processos") &&
             "Base_processos_schema" in data) ==> fields == data["Base_processos_schema"]
    ensures ((Occurs("Base_de_Processos", file) || Occurs("Base_processos", file) || file == "Processos") &&
             "Base_processos_schema" !in data) ==>
            fields == if "Base_processosatual.txt" in data then data["Base_processosatual.txt"] else []
    ensures !(Occurs("Base_de_Processos", file) || Occurs("Base_processos", file) || file == "Processos") ==>
            fields == if file in data then data[file] else []
  {
    if Occurs("Base_de_Processos", file) || Occurs("Base_processos", file) || file == "Processos" then
      if "Base_processos_schema" in data then data["Base_processos_schema"]
      else if "Base_processosatual.txt" in data then data["Base_processosatual.txt"]
      else []
    else if file in data then data[file] else []
  }

  /** A process file: one whose fields come from the shared schema. */
  predicate IsProcessFile(file: string) {
    Occurs("Base_de_Processos", file) || Occurs("Base_processos", file) || file == "Processos"
  }

  /** Every process file, whatever its shard name, gets the field list of
      `Processos`: the shared schema, else the legacy list, else none. */
  lemma ProcessFilesShareSchema(data: ConfigData, file: string)
    requires IsProcessFile(file)
    ensures SchemaFields(data, file) == SchemaFields(data, "Processos")
    ensures SchemaFields(data, file) == []
            || ("Base_processos_schema" in data && SchemaFields(data, file) == data["Base_processos_schema"])
            || ("Base_processosatual.txt" in data && SchemaFields(data, file) == data["Base_processosatual.txt"])
  {
  }

  /** The assignments `$unique[mb_strtoupper($f['key'])] = $f`. */
  function UpperPairs(fields: seq<Field>): (ps: seq<(string, Field)>)
    ensures |ps| == |fields|
    ensures forall i :: 0 <= i < |fields| ==> ps[i] == (Upper(fields[i].key), fields[i])
  {
    seq(|fields|, i requires 0 <= i < |fields| => (Upper(fields[i].key), fields[i]))
  }

  /** `getFields`: the file's fields with duplicate keys (ignoring case)
      dropped, each key at its first position with its last definition. */
  function GetFields(data: ConfigData, file: string): seq<Field> {
    Values(Assign(UpperPairs(SchemaFields(data, file))))
  }

  /** The last field of `fields` whose key is `k` up to case. */
  function LastWithKey(fields: seq<Field>, k: string): (r: Option<Field>)
    ensures r.Some? ==> r.value in fields && Upper(r.value.key) == k
    ensures r.None? ==> forall f :: f in fields ==> Upper(f.key) != k
    decreases |fields|
  {
    if fields == [] then None
    else
      var n := |fields| - 1;
      assert fields == fields[..n] + [fields[n]];
      if Upper(fields[n].key) == k then Some(fields[n]) else LastWithKey(fields[..n], k)
  }

  lemma {:induction false} LastWithKeyAssigned(fields: seq<Field>, k: string)
    ensures LastAssigned(UpperPairs(fields), k) == LastWithKey(fields, k)
    decreases |fields|
  {
    if fields != [] {
      var n := |fields| - 1;
      assert UpperPairs(fields)[..n] == UpperPairs(fields[..n]);
      LastWithKeyAssigned(fields[..n], k);
    }
  }

  /** `getFields` keeps one field per key up to case: the last definition,
      at the position of the key's first occurrence. */
  lemma GetFieldsDedupe(data: ConfigData, file: string, k: string)
    ensures var unique := Assign(UpperPairs(SchemaFields(data, file)));
      UniqueKeys(unique) &&
      Keys(unique) == AppendNew([], Keys(UpperPairs(SchemaFields(data, file)))) &&
      Get(unique, k) == LastWithKey(SchemaFields(data, file), k)
  {
    var ps := UpperPairs(SchemaFields(data, file));
    AssignLastWins(ps, k);
    AssignKeys(ps);
    LastWithKeyAssigned(SchemaFields(data, file), k);
  }

  // ---------------------------------------------------------------------
  // reorderFields
  // ---------------------------------------------------------------------

  /** The assignments `$fieldMap[strtolower($f['key'])] = $f`. */
  function LowerPairs(fields: seq<Field>): (ps: seq<(string, Field)>)
    ensures |ps| == |fields|
    ensures forall i :: 0 <= i < |fields| ==> ps[i] == (Lower(fields[i].key), fields[i])
  {
    seq(|fields|, i requires 0 <= i < |fields| => (Lower(fields[i].key), fields[i]))
  }

  /** Every entry is filed under its own lower-cased key. */
  ghost predicate FiledByKey(m: OMap<string, Field>) {
    forall i :: 0 <= i < |m| ==> m[i].0 == Lower(m[i].1.key)
  }

  lemma {:induction false} FieldMapFiled(fields: seq<Field>)
    ensures FiledByKey(Assign(LowerPairs(fields)))
    decreases |fields|
  {
    if fields != [] {
      var n := |fields| - 1;
      var ps := LowerPairs(fields);
      assert ps[..n] == LowerPairs(fields[..n]);
      FieldMapFiled(fields[..n]);
      var before := Assign(ps[..n]);
      var after := Put(before, ps[n].0, ps[n].1);
      assert Assign(ps) == after;
      forall i | 0 <= i < |after| ensures after[i].0 == Lower(after[i].1.key) {
        if after[i] != ps[n] {
          PutOtherEntry(before, ps[n].0, ps[n].1, i);
        }
      }
    }
  }

  lemma PutOtherEntry(m: OMap<string, Field>, k: string, v: Field, i: nat)
    requires i < |Put(m, k, v)| && Put(m, k, v)[i] != (k, v)
    ensures i < |m| && Put(m, k, v)[i] == m[i]
  {
  }

  /** The first position in `order` whose lower-cased key is `k`. */
  function Mention(order: seq<string>, k: string): (r: Option<nat>)
    ensures r.Some? ==> r.value < |order| && Lower(order[r.value]) == k
    ensures r.Some? ==> forall j :: 0 <= j < r.value ==> Lower(order[j]) != k
    ensures r.None? ==> forall j :: 0 <= j < |order| ==> Lower(order[j]) != k
    decreases |order|
  {
    if order == [] then None
    else
      var n := |order| - 1;
      var before := Mention(order[..n], k);
      assert forall j :: 0 <= j < n ==> order[..n][j] == order[j];
      if before.Some? then before
      else if Lower(order[n]) == k then Some(n)
      else None
  }

  /** The requested fields, in order of first request, and the fields no
      key of `order` names, in their old order.  Fields are looked up and
      taken out of `m` one key of `order` at a time. */
  function Chosen(m: OMap<string, Field>, order: seq<string>): (r: (seq<Field>, OMap<string, Field>))
    decreases |order|
  {
    if order == [] then ([], m)
    else
      var n := |order| - 1;
      var (picked, rest) := Chosen(m, order[..n]);
      var k := Lower(order[n]);
      match Get(rest, k)
      case Some(f) => (picked + [f], Remove(rest, k))
      case None => (picked, rest)
  }

  /** Taking fields out never loses one and never invents one, and what is
      left is named by no key of `order`. */
  lemma {:induction false} ChosenSpec(m: OMap<string, Field>, order: seq<string>)
    requires UniqueKeys(m) && FiledByKey(m)
    ensures UniqueKeys(Chosen(m, order).1)
    ensures FiledByKey(Chosen(m, order).1)
    ensures multiset(Chosen(m, order).0) + multiset(Values(Chosen(m, order).1)) == multiset(Values(m))
    ensures forall i :: 0 <= i < |Chosen(m, order).1| ==> Mention(order, Chosen(m, order).1[i].0).None?
    decreases |order|
  {
    if order != [] {
      var n := |order| - 1;
      var (picked, rest) := Chosen(m, order[..n]);
      ChosenSpec(m, order[..n]);
      var k := Lower(order[n]);
      if Get(rest, k).Some? {
        var i := IndexOf(rest, k).value;
        TakeOut(rest, k, i);
        var rest' := Remove(rest, k);
        forall j | 0 <= j < |rest'| ensures Mention(order, rest'[j].0).None? {
          assert rest'[j] in rest;
        }
      }
    }
  }

  /** The requested fields come out in the order of their first request. */
  lemma {:induction false} ChosenOrder(m: OMap<string, Field>, order: seq<string>)
    requires UniqueKeys(m) && FiledByKey(m)
    ensures forall i :: 0 <= i < |Chosen(m, order).0| ==> Mention(order, Lower(Chosen(m, order).0[i].key)).Some?
    ensures forall i, j :: 0 <= i < j < |Chosen(m, order).0| ==>
              Mention(order, Lower(Chosen(m, order).0[i].key)).value <
              Mention(order, Lower(Chosen(m, order).0[j].key)).value
    decreases |order|
  {
    if order != [] {
      var n := |order| - 1;
      var (picked, rest) := Chosen(m, order[..n]);
      ChosenOrder(m, order[..n]);
      ChosenSpec(m, order[..n]);
      var k := Lower(order[n]);
      if Get(rest, k).Some? {
        var i := IndexOf(rest, k).value;
        assert Lower(rest[i].1.key) == k;
        assert Mention(order[..n], k).None?;
      }
    }
  }

  /** Taking the field at `i` out of the map: what is left is a proper,
      correctly filed map without `k`, and together with the field taken it
      is what there was. */
  lemma TakeOut(m: OMap<string, Field>, k: string, i: nat)
    requires UniqueKeys(m) && FiledByKey(m) && i < |m| && m[i].0 == k
    ensures UniqueKeys(Remove(m, k)) && FiledByKey(Remove(m, k))
    ensures multiset(Values(Remove(m, k))) + multiset{m[i].1} == multiset(Values(m))
    ensures forall j :: 0 <= j < |Remove(m, k)| ==> Remove(m, k)[j] in m && Remove(m, k)[j].0 != k
  {
    RemoveSplit(m, k, i);
    CutEntries(m, i);
    CutValues(m, i);
  }

  /** The entries of `m` without its `i`-th come from `m`, avoid its key,
      and keep `m`'s keys unique and filed. */
  lemma CutEntries(m: OMap<string, Field>, i: nat)
    requires UniqueKeys(m) && FiledByKey(m) && i < |m|
    ensures var r := m[..i] + m[i + 1..];
      UniqueKeys(r) && FiledByKey(r) && forall j :: 0 <= j < |r| ==> r[j] in m && r[j].0 != m[i].0
  {
    var r := m[..i] + m[i + 1..];
    forall x, y | 0 <= x < y < |r| ensures r[x].0 != r[y].0 {
      var x' := if x < i then x else x + 1;
      var y' := if y < i then y else y + 1;
      assert r[x] == m[x'] && r[y] == m[y'];
    }
    forall j | 0 <= j < |r| ensures r[j] in m && r[j].0 != m[i].0 && r[j].0 == Lower(r[j].1.key) {
      var j' := if j < i then j else j + 1;
      assert r[j] == m[j'];
    }
  }

  lemma CutValues(m: OMap<string, Field>, i: nat)
    requires i < |m|
    ensures multiset(Values(m[..i] + m[i + 1..])) + multiset{m[i].1} == multiset(Values(m))
  {
    var a := m[..i];
    var b := m[i + 1..];
    assert m == (a + [m[i]]) + b;
    ValuesAppend(a + [m[i]], b);
    ValuesAppend(a, [m[i]]);
    ValuesAppend(a, b);
    MultisetCut(Values(a), m[i].1, Values(b));
  }

  lemma MultisetCut<V>(va: seq<V>, x: V, vb: seq<V>)
    ensures multiset(va + vb) + multiset{x} == multiset(va + [x] + vb)
  {
  }

  lemma ValuesAppend(a: OMap<string, Field>, b: OMap<string, Field>)
    ensures Values(a + b) == Values(a) + Values(b)
  {
  }

  /** `reorderFields` on one field list: the requested fields first, in the
      order first requested, then the rest in their configured order, with
      duplicate keys (ignoring case) collapsed to their last definition. */
  method ReorderFields(current: seq<Field>, newOrderKeys: seq<string>) returns (newFields: seq<Field>)
    ensures var m := Assign(LowerPairs(current));
      newFields == Chosen(m, newOrderKeys).0 + Values(Chosen(m, newOrderKeys).1)
    ensures multiset(newFields) == multiset(Values(Assign(LowerPairs(current))))
  {
    var fieldMap: OMap<string, Field> := [];
    for i := 0 to |current|
      invariant fieldMap == Assign(LowerPairs(current)[..i])
    {
      AssignStep(LowerPairs(current), i);
      fieldMap := Put(fieldMap, Lower(current[i].key), current[i]);
    }
    assert LowerPairs(current)[..|current|] == LowerPairs(current);
    ghost var m := fieldMap;
    newFields := [];
    for i := 0 to |newOrderKeys|
      invariant (newFields, fieldMap) == Chosen(m, newOrderKeys[..i])
    {
      assert newOrderKeys[..i + 1][..i] == newOrderKeys[..i];
      var lookupKey := Lower(newOrderKeys[i]);
      match Get(fieldMap, lookupKey)
      case Some(f) =>
        newFields := newFields + [f];
        fieldMap := Remove(fieldMap, lookupKey);
      case None =>
    }
    assert newOrderKeys[..|newOrderKeys|] == newOrderKeys;
    newFields := newFields + Values(fieldMap);
    AssignLastWins(LowerPairs(current), "");
    FieldMapFiled(current);
    ChosenSpec(m, newOrderKeys);
    ChosenOrder(m, newOrderKeys);
  }
}
