/**
  Merge-on-import: the keyed upsert shared by `importProcessData` (period
  shards of processes), the JSON branch of `importExcelData` and its
  spreadsheet branch. Each reads the stored rows into a dictionary keyed by
  the key column, folds the incoming rows into it (merging into a stored row
  on a key hit, inserting otherwise) and writes the dictionary's values back.
 */
module Importer {
  import opened Wrappers
  import opened OrderedMaps
  import opened Text
  import opened Documents
  import ExcelCodec

  /** The key column of the process shards. */
  const PROCESS_KEY := "Numero_Portabilidade"

  /** Header row used when a spreadsheet has none yet. */
  const DEFAULT_HEADERS: seq<string> :=
    ["STATUS", "NUMERO_DEPOSITO", "DATA_DEPOSITO", "VALOR_DEPOSITO_PRINCIPAL", "TEXTO_PAGAMENTO",
     "PORTABILIDADE", "CERTIFICADO", "STATUS_2", "CPF", "AG"]

  /** The three import branches, which differ in how they key, merge and insert. */
  datatype Branch =
    | ProcessShard
    | JsonImport(keyCol: string)
    | TableImport(keyCol: string, headers: seq<string>)

  /** The key column `importExcelData` picks from the file name. */
  function KeyColumnFor(file: string): (col: string)
    ensures OccursCI("agenc", file) ==> col == "AG"
    ensures !OccursCI("agenc", file) && OccursCI("client", file) ==> col == "CPF"
    ensures !OccursCI("agenc", file) && !OccursCI("client", file) ==> col == "PORTABILIDADE"
  {
    if OccursCI("agenc", file) then "AG"
    else if OccursCI("client", file) then "CPF"
    else "PORTABILIDADE"
  }

  /** The headers the spreadsheet branch writes: the stored ones, or the
      default row for a sheet without headers. */
  function ImportHeaders(stored: seq<string>): (hs: seq<string>)
    ensures stored != [] ==> hs == stored
    ensures stored == [] ==> hs == DEFAULT_HEADERS
  {
    if stored != [] then stored else DEFAULT_HEADERS
  }

  function TruthyKey(v: string): Option<string> {
    if Truthy(v) then Some(v) else None
  }

  /** The key a stored row is indexed under, if any. The JSON branches index
      rows whose case-insensitive key read is truthy; the spreadsheet branch
      indexes every row where the exact key field is set, even when blank. */
  function StoredKey(b: Branch, row: Doc): Option<string> {
    match b
    case ProcessShard => TruthyKey(GetValueCI(row, PROCESS_KEY))
    case JsonImport(col) => TruthyKey(GetValueCI(row, col))
    case TableImport(col, _) => Get(row, col)
  }

  /** The key an incoming row is merged under; rows without one are skipped. */
  function IncomingKey(b: Branch, row: Doc): (r: Option<string>)
    ensures r.Some? ==> Truthy(r.value)
    ensures b.TableImport? ==> (r.Some? <==> HasKey(row, b.keyCol) && Truthy(Get(row, b.keyCol).value))
  {
    match b
    case ProcessShard => TruthyKey(GetValueCI(row, PROCESS_KEY))
    case JsonImport(col) => TruthyKey(GetValueCI(row, col))
    case TableImport(col, _) =>
      match Get(row, col)
      case Some(v) => TruthyKey(v)
      case None => None
  }

  /** The fields of `row` whose value is not blank (`array_filter` with a
      `trim(...) !== ''` test), in their order. */
  function NonBlankFields(row: Doc): Doc
    decreases |row|
  {
    if row == [] then []
    else
      var rest := NonBlankFields(row[1..]);
      if Trim(row[0].1) != "" then [row[0]] + rest else rest
  }

  /** The filter keeps exactly the fields whose value is not blank. */
  lemma {:induction false} NonBlankFieldsSpec(row: Doc)
    ensures forall f :: f in NonBlankFields(row) <==> f in row && Trim(f.1) != ""
    decreases |row|
  {
    if row != [] {
      NonBlankFieldsSpec(row[1..]);
      assert row == [row[0]] + row[1..];
    }
  }

  /** `array_merge($stored, $row)` for string keys: the row's fields overwrite
      equally spelled stored fields in place, new spellings are appended. */
  function ArrayMerge(stored: Doc, row: Doc): Doc {
    Assign(stored + row)
  }

  /** What a key hit does to the stored row. */
  function Merge(b: Branch, stored: Doc, row: Doc): Doc {
    match b
    case ProcessShard => MergeCI(stored, NonBlankFields(row))
    case JsonImport(_) => MergeCI(stored, row)
    case TableImport(_, _) => ArrayMerge(stored, row)
  }

  /** What a key miss inserts: the spreadsheet branch fills one field per
      header, read exactly from the incoming row or "" when absent. */
  function Fresh(b: Branch, row: Doc): Doc {
    match b
    case TableImport(_, headers) => Assign(ExcelCodec.Projection(headers, row))
    case _ => row
  }

  /** The stored rows that get indexed, paired with their keys, in file order. */
  function StoredPairs(b: Branch, existing: seq<Doc>): (p: seq<(string, Doc)>)
    ensures |p| <= |existing|
    decreases |existing|
  {
    if existing == [] then []
    else
      var n := |existing| - 1;
      var p := StoredPairs(b, existing[..n]);
      match StoredKey(b, existing[n])
      case Some(k) => p + [(k, existing[n])]
      case None => p
  }

  /** The dictionary built from the stored rows: `$dataMap[$key] = $row`. */
  function Index(b: Branch, existing: seq<Doc>): OMap<string, Doc> {
    Assign(StoredPairs(b, existing))
  }

  /** One incoming row folded into the dictionary. */
  function ImportStep(b: Branch, m: OMap<string, Doc>, row: Doc): OMap<string, Doc> {
    match IncomingKey(b, row)
    case None => m
    case Some(k) =>
      match Get(m, k)
      case Some(stored) => Put(m, k, Merge(b, stored, row))
      case None => Put(m, k, Fresh(b, row))
  }

  /** The incoming rows folded into the dictionary in order. */
  function ImportAll(b: Branch, m: OMap<string, Doc>, rows: seq<Doc>): OMap<string, Doc>
    decreases |rows|
  {
    if rows == [] then m
    else ImportStep(b, ImportAll(b, m, rows[..|rows| - 1]), rows[|rows| - 1])
  }

  /** The dictionary written back to the file. */
  function Merged(b: Branch, existing: seq<Doc>, incoming: seq<Doc>): OMap<string, Doc> {
    ImportAll(b, Index(b, existing), incoming)
  }

  /** The keys of the incoming rows that have one, in order (with repeats). */
  function IncomingKeys(b: Branch, rows: seq<Doc>): (ks: seq<string>)
    ensures |ks| <= |rows|
    ensures forall i :: 0 <= i < |ks| ==> Truthy(ks[i])
    decreases |rows|
  {
    if rows == [] then []
    else
      var n := |rows| - 1;
      var ks := IncomingKeys(b, rows[..n]);
      match IncomingKey(b, rows[n])
      case Some(k) => ks + [k]
      case None => ks
  }

  lemma PutSize<K, V>(m: OMap<K, V>, k: K, v: V)
    ensures |Put(m, k, v)| == if HasKey(m, k) then |m| else |m| + 1
  {
    assert |Keys(Put(m, k, v))| == |Put(m, k, v)|;
  }

  lemma StoredPairsStep(b: Branch, existing: seq<Doc>, i: nat)
    requires i < |existing|
    ensures Assign(StoredPairs(b, existing[..i + 1])) ==
      match StoredKey(b, existing[i])
      case Some(k) => Put(Assign(StoredPairs(b, existing[..i])), k, existing[i])
      case None => Assign(StoredPairs(b, existing[..i]))
  {
    assert existing[..i + 1][..i] == existing[..i];
    var p := StoredPairs(b, existing[..i]);
    match StoredKey(b, existing[i])
    case Some(k) =>
      assert (p + [(k, existing[i])])[..|p|] == p;
    case None =>
  }

  lemma ImportAllStep(b: Branch, m: OMap<string, Doc>, rows: seq<Doc>, i: nat)
    requires i < |rows|
    ensures ImportAll(b, m, rows[..i + 1]) == ImportStep(b, ImportAll(b, m, rows[..i]), rows[i])
    ensures IncomingKeys(b, rows[..i + 1]) ==
      match IncomingKey(b, rows[i])
      case Some(k) => IncomingKeys(b, rows[..i]) + [k]
      case None => IncomingKeys(b, rows[..i])
  {
    assert rows[..i + 1][..i] == rows[..i];
  }

  /** A keyed row adds an entry exactly when its key is new. */
  lemma ImportStepSize(b: Branch, m: OMap<string, Doc>, row: Doc)
    ensures |ImportStep(b, m, row)| ==
      if IncomingKey(b, row).Some? && Get(m, IncomingKey(b, row).value).None? then |m| + 1 else |m|
  {
    match IncomingKey(b, row)
    case None =>
    case Some(k) =>
      match Get(m, k)
      case Some(stored) => PutSize(m, k, Merge(b, stored, row));
      case None => PutSize(m, k, Fresh(b, row));
  }

  /** The dictionary of the stored rows, built by a loop. */
  method BuildIndex(b: Branch, existing: seq<Doc>) returns (dataMap: OMap<string, Doc>)
    ensures dataMap == Index(b, existing)
  {
    dataMap := [];
    for i := 0 to |existing|
      invariant dataMap == Assign(StoredPairs(b, existing[..i]))
    {
      StoredPairsStep(b, existing, i);
      var row := existing[i];
      var key := StoredKey(b, row);
      if key.Some? {
        dataMap := Put(dataMap, key.value, row);
      }
    }
    assert existing[..|existing|] == existing;
  }

  /** The fold over the incoming rows, as a method with the two counters:
      every keyed incoming row counts once, as an insertion when its key is
      new and as an update otherwise. */
  method ImportRows(b: Branch, existing: seq<Doc>, incoming: seq<Doc>)
    returns (rows: seq<Doc>, inserted: nat, updated: nat)
    ensures rows == Values(Merged(b, existing, incoming))
    ensures inserted == |rows| - |Index(b, existing)|
    ensures inserted + updated == |IncomingKeys(b, incoming)|
  {
    var dataMap := BuildIndex(b, existing);
    ghost var index := dataMap;
    inserted, updated := 0, 0;
    for i := 0 to |incoming|
      invariant dataMap == ImportAll(b, index, incoming[..i])
      invariant inserted == |dataMap| - |index|
      invariant inserted + updated == |IncomingKeys(b, incoming[..i])|
    {
      ImportAllStep(b, index, incoming, i);
      var row := incoming[i];
      ImportStepSize(b, dataMap, row);
      var key := IncomingKey(b, row);
      if key.Some? {
        var k := key.value;
        var hit := Get(dataMap, k);
        if hit.Some? {
          dataMap := Put(dataMap, k, Merge(b, hit.value, row));
          updated := updated + 1;
        } else {
          dataMap := Put(dataMap, k, Fresh(b, row));
          inserted := inserted + 1;
        }
      }
    }
    assert incoming[..|incoming|] == incoming;
    rows := Values(dataMap);
  }

  // ---------------------------------------------------------------------
  // What the rewritten file holds
  // ---------------------------------------------------------------------

  /** The row a keyed incoming row leaves under its key. */
  function StepValue(b: Branch, m: OMap<string, Doc>, k: string, row: Doc): Doc {
    match Get(m, k)
    case Some(stored) => Merge(b, stored, row)
    case None => Fresh(b, row)
  }

  lemma ImportStepPut(b: Branch, m: OMap<string, Doc>, row: Doc)
    requires IncomingKey(b, row).Some?
    ensures var k := IncomingKey(b, row).value;
      ImportStep(b, m, row) == Put(m, k, StepValue(b, m, k, row))
  {
  }

  /** The keys of the fold are the dictionary's keys followed by the new
      incoming keys in order of first appearance; no key occurs twice. */
  lemma {:induction false} ImportAllKeys(b: Branch, m: OMap<string, Doc>, rows: seq<Doc>)
    requires UniqueKeys(m)
    ensures UniqueKeys(ImportAll(b, m, rows))
    ensures Keys(ImportAll(b, m, rows)) == AppendNew(Keys(m), IncomingKeys(b, rows))
    decreases |rows|
  {
    if rows != [] {
      var n := |rows| - 1;
      var a := ImportAll(b, m, rows[..n]);
      ImportAllKeys(b, m, rows[..n]);
      var key := IncomingKey(b, rows[n]);
      if key.Some? {
        var k := key.value;
        var v := StepValue(b, a, k, rows[n]);
        ImportStepPut(b, a, rows[n]);
        PutKeysAppend(a, k, v, IncomingKeys(b, rows[..n]), Keys(m));
        PutValue(a, k, v, k);
      }
    }
  }

  /** The incoming rows carrying key `k`, in order. */
  function KeyedRows(b: Branch, rows: seq<Doc>, k: string): (r: seq<Doc>)
    ensures |r| <= |rows|
    decreases |rows|
  {
    if rows == [] then []
    else
      var n := |rows| - 1;
      if IncomingKey(b, rows[n]) == Some(k) then KeyedRows(b, rows[..n], k) + [rows[n]]
      else KeyedRows(b, rows[..n], k)
  }

  /** The stored row for one key after its incoming rows: the first one is
      inserted when the key is new, each later one merged into the result. */
  function Upsert(b: Branch, current: Option<Doc>, rows: seq<Doc>): (r: Option<Doc>)
    ensures rows != [] ==> r.Some?
    ensures rows == [] ==> r == current
    decreases |rows|
  {
    if rows == [] then current
    else
      var n := |rows| - 1;
      match Upsert(b, current, rows[..n])
      case Some(d) => Some(Merge(b, d, rows[n]))
      case None => Some(Fresh(b, rows[n]))
  }

  /** Keys do not interfere: the row under `k` after the import depends only
      on the stored row under `k` and the incoming rows keyed `k`. */
  lemma {:induction false} ImportAllPerKey(b: Branch, m: OMap<string, Doc>, rows: seq<Doc>, k: string)
    requires UniqueKeys(m)
    ensures Get(ImportAll(b, m, rows), k) == Upsert(b, Get(m, k), KeyedRows(b, rows, k))
    decreases |rows|
  {
    if rows != [] {
      var n := |rows| - 1;
      var a := ImportAll(b, m, rows[..n]);
      ImportAllPerKey(b, m, rows[..n], k);
      ImportAllKeys(b, m, rows[..n]);
      var ks := KeyedRows(b, rows[..n], k);
      var key := IncomingKey(b, rows[n]);
      if key.Some? {
        var k' := key.value;
        if k' == k {
          assert (ks + [rows[n]])[..|ks|] == ks;
        }
        ImportStepPut(b, a, rows[n]);
        PutValue(a, k', StepValue(b, a, k', rows[n]), k);
      }
    }
  }

  /** The rewritten file of an import: one row per distinct key, stored keys
      first at the position of their first stored occurrence, then the new
      incoming keys in order of appearance; a key no incoming row names keeps
      the last stored row carrying it; every other key holds the upsert of its
      incoming rows into its stored row. Stored rows without a key are gone. */
  lemma ImportShard(b: Branch, existing: seq<Doc>, incoming: seq<Doc>, k: string)
    ensures UniqueKeys(Merged(b, existing, incoming))
    ensures Keys(Merged(b, existing, incoming)) ==
            AppendNew(AppendNew([], Keys(StoredPairs(b, existing))), IncomingKeys(b, incoming))
    ensures Get(Merged(b, existing, incoming), k) ==
            Upsert(b, LastAssigned(StoredPairs(b, existing), k), KeyedRows(b, incoming, k))
  {
    var p := StoredPairs(b, existing);
    AssignLastWins(p, k);
    AssignKeys(p);
    ImportAllKeys(b, Assign(p), incoming);
    ImportAllPerKey(b, Assign(p), incoming, k);
  }

  /** Every stored pair comes from a stored row that has a key. */
  lemma {:induction false} StoredPairsKeyed(b: Branch, existing: seq<Doc>)
    ensures forall i :: 0 <= i < |StoredPairs(b, existing)| ==>
      var e := StoredPairs(b, existing)[i];
      e.1 in existing && StoredKey(b, e.1) == Some(e.0)
    decreases |existing|
  {
    if existing != [] {
      var n := |existing| - 1;
      StoredPairsKeyed(b, existing[..n]);
      var p := StoredPairs(b, existing[..n]);
      forall i | 0 <= i < |p| ensures p[i].1 in existing {
        assert p[i].1 in existing[..n];
      }
    }
  }

  // ---------------------------------------------------------------------
  // Merging into a stored row
  // ---------------------------------------------------------------------

  /** The case-insensitive merge only ever writes patch values: each stored
      field keeps its spelling and either its value or takes a patch value,
      and each appended field carries a patch value. */
  lemma {:induction false} MergeKeepsOrPatches(d: Doc, patch: Doc, ok: string -> bool)
    requires UniqueKeys(d)
    requires forall p :: 0 <= p < |patch| ==> ok(patch[p].1)
    ensures var r := MergeCI(d, patch);
      && |d| <= |r|
      && (forall i :: 0 <= i < |d| ==> r[i] == d[i] || (r[i].0 == d[i].0 && ok(r[i].1)))
      && (forall j :: |d| <= j < |r| ==> ok(r[j].1))
    decreases |patch|
  {
    if patch != [] {
      var d1 := MergeField(d, patch[0]);
      var r := MergeCI(d, patch);
      MergeFieldEffect(d, patch[0]);
      forall p | 0 <= p < |patch| - 1 ensures ok(patch[1..][p].1) {
        assert patch[1..][p] == patch[p + 1];
      }
      MergeKeepsOrPatches(d1, patch[1..], ok);
      assert r == MergeCI(d1, patch[1..]);
      assert ok(patch[0].1);
      forall i | 0 <= i < |d| ensures r[i] == d[i] || (r[i].0 == d[i].0 && ok(r[i].1)) {
        assert d1[i] == d[i] || d1[i] == (d[i].0, patch[0].1);
      }
      forall j | |d| <= j < |r| ensures ok(r[j].1) {
        if j < |d1| {
          assert d1[j] == patch[0];
        }
      }
    }
  }

  /** `importProcessData` never lets a blank incoming value replace a stored
      one: after the merge each stored field holds its old value or a
      non-blank one, and every field the merge adds is non-blank. */
  lemma BlankNeverOverwrites(stored: Doc, row: Doc)
    requires UniqueKeys(stored)
    ensures var r := Merge(ProcessShard, stored, row);
      && |stored| <= |r|
      && (forall i :: 0 <= i < |stored| ==> r[i] == stored[i] || (r[i].0 == stored[i].0 && Trim(r[i].1) != ""))
      && (forall j :: |stored| <= j < |r| ==> Trim(r[j].1) != "")
  {
    NonBlankFieldsSpec(row);
    MergeKeepsOrPatches(stored, NonBlankFields(row), v => Trim(v) != "");
  }

  /** The two field names of the examples below differ however they are cased. */
  lemma SampleNames()
    ensures SameFieldName("PORTABILIDADE", "PORTABILIDADE")
    ensures SameFieldName("STATUS", "STATUS")
    ensures !SameFieldName("PORTABILIDADE", "STATUS")
  {
  }

  /** One field merged into the stored sample record. */
  lemma SampleMergeField(v: string)
    ensures var stored := [("PORTABILIDADE", "7"), ("STATUS", "PAGO")];
      && MergeField(stored, ("PORTABILIDADE", "7")) == stored
      && MergeField(stored, ("STATUS", v)) == [("PORTABILIDADE", "7"), ("STATUS", v)]
  {
    var stored := [("PORTABILIDADE", "7"), ("STATUS", "PAGO")];
    SampleNames();
    assert CiIndex(stored, "PORTABILIDADE") == Some(0);
    assert CiIndex(stored[1..], "STATUS") == Some(0);
    assert CiIndex(stored, "STATUS") == Some(1);
  }

  /** The JSON branch of `importExcelData` has no blank filter: an incoming
      blank replaces the stored value. */
  lemma JsonImportOverwritesWithBlank()
    ensures var stored := [("PORTABILIDADE", "7"), ("STATUS", "PAGO")];
            var row := [("PORTABILIDADE", "7"), ("STATUS", "")];
      Merge(JsonImport("PORTABILIDADE"), stored, row) == [("PORTABILIDADE", "7"), ("STATUS", "")]
  {
    var stored := [("PORTABILIDADE", "7"), ("STATUS", "PAGO")];
    var row := [("PORTABILIDADE", "7"), ("STATUS", "")];
    SampleMergeField("");
    assert MergeCI(stored, row) == MergeCI(stored, row[1..]);
    assert row[1..][1..] == [];
  }

  /** On the same record and row `importProcessData` keeps the stored value. */
  lemma ProcessImportKeepsStoredValue()
    ensures var stored := [("PORTABILIDADE", "7"), ("STATUS", "PAGO")];
            var row := [("PORTABILIDADE", "7"), ("STATUS", "")];
      Merge(ProcessShard, stored, row) == stored
  {
    var stored := [("PORTABILIDADE", "7"), ("STATUS", "PAGO")];
    SampleNonBlank();
    SampleMergeField("");
    assert MergeCI(stored, [("PORTABILIDADE", "7")]) == MergeCI(stored, []);
  }

  /** The blank filter drops the blank status of the sample row. */
  lemma SampleNonBlank()
    ensures NonBlankFields([("PORTABILIDADE", "7"), ("STATUS", "")]) == [("PORTABILIDADE", "7")]
  {
    var a, b := ("PORTABILIDADE", "7"), ("STATUS", "");
    SampleTrims();
    NonBlankCons(b, []);
    NonBlankCons(a, [b]);
    assert [a, b] == [a] + [b];
  }

  lemma SampleTrims()
    ensures Trim("") == "" && Trim("7") != ""
  {
    assert !IsTrimChar("7"[0]);
  }

  lemma NonBlankCons(f: (string, string), rest: Doc)
    ensures NonBlankFields([f] + rest) == if Trim(f.1) != "" then [f] + NonBlankFields(rest) else NonBlankFields(rest)
  {
    assert ([f] + rest)[1..] == rest;
  }

  /** The spreadsheet branch merges with `array_merge`: the incoming row's
      fields win under their exact spelling, other stored fields stay. */
  lemma TableMergeFields(stored: Doc, row: Doc, k: string)
    requires UniqueKeys(row)
    ensures UniqueKeys(ArrayMerge(stored, row))
    ensures Get(ArrayMerge(stored, row), k) == if HasKey(row, k) then Get(row, k) else LastAssigned(stored, k)
  {
    AssignLastWins(stored + row, k);
    LastAssignedAppend(stored, row, k);
    AssignDistinct(row);
    AssignLastWins(row, k);
  }

  /** ... and, unlike the JSON branches, it is case-sensitive: a field that
      differs from a stored one only in case is added beside it. */
  lemma TableMergeIsCaseSensitive()
    ensures ArrayMerge([("CPF", "1")], [("cpf", "2")]) == [("CPF", "1"), ("cpf", "2")]
  {
    var s := [("CPF", "1"), ("cpf", "2")];
    assert [("CPF", "1")] + [("cpf", "2")] == s;
    assert s[..1] == [("CPF", "1")];
    assert s[..1][..0] == [];
    assert Assign(s[..1]) == [("CPF", "1")];
  }

  /** A row the spreadsheet branch inserts holds exactly the header fields,
      in header order, each read from the incoming row or "". */
  lemma TableFreshRow(headers: seq<string>, row: Doc, h: string)
    ensures Keys(Fresh(TableImport("", headers), row)) == AppendNew([], headers)
    ensures h in headers ==> Get(Fresh(TableImport("", headers), row), h) == Some(ValueOrEmpty(row, h))
    ensures h !in headers ==> Get(Fresh(TableImport("", headers), row), h) == None
  {
    var p := ExcelCodec.Projection(headers, row);
    AssignKeys(p);
    assert Keys(p) == headers;
    AssignLastWins(p, h);
    if h in headers {
      var j :| 0 <= j < |headers| && headers[j] == h;
      assert p[j].0 == h;
    }
  }

  // ---------------------------------------------------------------------
  // Importing the same batch twice
  // ---------------------------------------------------------------------

  /** A batch of the JSON branches in which every row has a truthy key, no
      two rows share a key, and no row holds two fields equal up to case. */
  ghost predicate KeyedBatch(b: Branch, batch: seq<Doc>) {
    && (b.ProcessShard? || b.JsonImport?)
    && (forall i :: 0 <= i < |batch| ==>
          IncomingKey(b, batch[i]).Some? && UniqueKeys(batch[i]) && CiUnique(batch[i]))
    && (forall i, j :: 0 <= i < j < |batch| ==>
          IncomingKey(b, batch[i]).value != IncomingKey(b, batch[j]).value)
  }

  /** Merging a row into itself gives the row back: the process branch's
      patch is a part of the row, the JSON branch's is the whole row. */
  lemma MergeIntoItself(b: Branch, row: Doc)
    requires b.ProcessShard? || b.JsonImport?
    requires UniqueKeys(row) && CiUnique(row)
    ensures Merge(b, row, row) == row
  {
    NonBlankFieldsSpec(row);
    MergeSelf(row, if b.ProcessShard? then NonBlankFields(row) else row);
  }

  /** Into an empty file a keyed batch goes in row by row: the stored rows,
      the dictionary and the re-read index are the batch keyed in order. */
  lemma {:induction false} FirstImport(b: Branch, batch: seq<Doc>, n: nat)
    requires KeyedBatch(b, batch) && n <= |batch|
    ensures var p := StoredPairs(b, batch[..n]);
      && |p| == n
      && (forall j :: 0 <= j < n ==> p[j] == (IncomingKey(b, batch[j]).value, batch[j]))
      && ImportAll(b, [], batch[..n]) == p
      && Assign(p) == p
      && |IncomingKeys(b, batch[..n])| == n
    decreases n
  {
    if n > 0 {
      var m := n - 1;
      FirstImport(b, batch, m);
      assert batch[..n][..m] == batch[..m];
      var p := StoredPairs(b, batch[..m]);
      var k := IncomingKey(b, batch[m]).value;
      assert StoredKey(b, batch[m]) == Some(k);
      assert StoredPairs(b, batch[..n]) == p + [(k, batch[m])];
      assert !HasKey(p, k);
      PutAbsent(p, k, batch[m]);
      ImportAllStep(b, [], batch, m);
      var p' := p + [(k, batch[m])];
      forall j | 0 <= j < n
        ensures p'[j] == (IncomingKey(b, batch[j]).value, batch[j])
      {
        if j < m { assert p'[j] == p[j]; }
      }
    }
  }

  /** Importing the batch into the file it produced touches every key and
      changes no row. */
  lemma {:induction false} SecondImport(b: Branch, batch: seq<Doc>, p: OMap<string, Doc>, n: nat)
    requires n <= |batch| == |p| && UniqueKeys(p)
    requires forall j :: 0 <= j < |batch| ==>
      IncomingKey(b, batch[j]) == Some(p[j].0) && p[j].1 == batch[j] && Merge(b, batch[j], batch[j]) == batch[j]
    ensures ImportAll(b, p, batch[..n]) == p
    decreases n
  {
    if n > 0 {
      var m := n - 1;
      SecondImport(b, batch, p, m);
      ImportAllStep(b, p, batch, m);
      ReimportStep(b, p, batch[m], m);
    }
  }

  /** A stored row imported again under its own key leaves the dictionary
      as it was. */
  lemma ReimportStep(b: Branch, p: OMap<string, Doc>, row: Doc, m: nat)
    requires m < |p| && UniqueKeys(p)
    requires IncomingKey(b, row) == Some(p[m].0) && p[m].1 == row && Merge(b, row, row) == row
    ensures ImportStep(b, p, row) == p
  {
    UniqueIndex(p, p[m].0, m);
    assert Get(p, p[m].0) == Some(row);
  }

  /** The dictionary of a keyed batch re-read from the file it produced is
      the batch keyed in order, and each row merges into itself. */
  lemma StoredBatch(b: Branch, batch: seq<Doc>)
    requires KeyedBatch(b, batch)
    ensures var p := StoredPairs(b, batch);
      && |batch| == |p| && UniqueKeys(p) && Assign(p) == p
      && ImportAll(b, [], batch) == p
      && |IncomingKeys(b, batch)| == |batch|
      && forall j :: 0 <= j < |batch| ==>
           IncomingKey(b, batch[j]) == Some(p[j].0) && p[j].1 == batch[j] && Merge(b, batch[j], batch[j]) == batch[j]
  {
    FirstImport(b, batch, |batch|);
    assert batch[..|batch|] == batch;
    forall j | 0 <= j < |batch| ensures Merge(b, batch[j], batch[j]) == batch[j] {
      MergeIntoItself(b, batch[j]);
    }
  }

  /** Merge idempotence of the JSON branches: importing a keyed batch into an
      empty file inserts every row and updates none, and importing it again
      into the result updates every row, inserts none and leaves the stored
      rows as they were. */
  method ImportBatchTwice(b: Branch, batch: seq<Doc>)
    returns (first: seq<Doc>, inserted1: nat, updated1: nat,
             second: seq<Doc>, inserted2: nat, updated2: nat)
    requires KeyedBatch(b, batch)
    ensures first == batch && inserted1 == |batch| && updated1 == 0
    ensures second == first && inserted2 == 0 && updated2 == |batch|
  {
    StoredBatch(b, batch);
    SecondImport(b, batch, StoredPairs(b, batch), |batch|);
    assert batch[..|batch|] == batch;
    first, inserted1, updated1 := ImportRows(b, [], batch);
    second, inserted2, updated2 := ImportRows(b, first, batch);
  }
}
