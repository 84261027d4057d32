/**
  The `Database` class: a directory of data files, each a `.json` list of
  documents or a `.xls` SpreadsheetML table, and the operations that read a
  file, apply the record-level logic of `Store` or `Importer` to its rows and
  write it back whole. The directory is modelled by two maps from path to
  content: the documents of each `.json` file and the cell grid of each
  `.xls` file's worksheet. A path in neither map is a file that does not
  exist.
 */
module DataFiles {
  import opened Wrappers
  import opened OrderedMaps
  import opened Text
  import opened Documents
  import opened ExcelCodec
  import opened Store
  import opened Importer
  import opened ProcessImport
  import opened Query

  // ---------------------------------------------------------------------
  // File names
  // ---------------------------------------------------------------------

  /** The text after the last occurrence of `c` in `s`, if `c` occurs. Its
      properties are stated apart, in `AfterLastSpec`, so that a proof that
      only tells file kinds apart does not unfold them. */
  function AfterLast(c: char, s: string): Option<string>
    decreases |s|
  {
    if s == [] then None
    else if s[|s| - 1] == c then Some([])
    else
      match AfterLast(c, s[..|s| - 1])
      case None => None
      case Some(t) => Some(t + [s[|s| - 1]])
  }

  lemma {:induction false} AfterLastSpec(c: char, s: string)
    ensures var r := AfterLast(c, s);
      (r.None? <==> c !in s) &&
      (r.Some? ==> c !in r.value && |r.value| < |s| && s[|s| - |r.value| - 1] == c &&
                   r.value == s[|s| - |r.value|..])
    decreases |s|
  {
    if s != [] && s[|s| - 1] != c {
      var n := |s| - 1;
      assert s == s[..n] + [s[n]];
      AfterLastSpec(c, s[..n]);
    }
  }

  /** The last segment of a path: what follows the last '/'. */
  function BaseName(file: string): string {
    match AfterLast('/', file)
    case Some(b) => b
    case None => file
  }

  /** `pathinfo($file, PATHINFO_EXTENSION)`: what follows the last '.' of the
      last path segment, or "" when that segment has no '.'. */
  function Extension(file: string): string {
    match AfterLast('.', BaseName(file))
    case Some(e) => e
    case None => ""
  }

  /** A non-empty extension is the tail of the file name after a '.', and
      holds neither '.' nor '/'. */
  lemma ExtensionSuffix(file: string)
    ensures var e := Extension(file);
      '.' !in e && '/' !in e &&
      (e != "" ==> |e| < |file| && e == file[|file| - |e|..] && file[|file| - |e| - 1] == '.')
  {
    var b := BaseName(file);
    AfterLastSpec('/', file);
    AfterLastSpec('.', b);
    assert '/' !in b && |b| <= |file| && b == file[|file| - |b|..];
    match AfterLast('.', b)
    case Some(e) =>
      assert b[|b| - |e|..] == file[|file| - |e|..];
      assert b[|b| - |e| - 1] == file[|file| - |e| - 1];
    case None =>
  }

  /** `isJSON`: the extension is "json" in any case. */
  predicate IsJson(file: string) {
    Lower(Extension(file)) == "json"
  }

  /** `isExcel`: the extension is "xls" in any case. */
  predicate IsExcel(file: string) {
    Lower(Extension(file)) == "xls"
  }

  /** `rtrim($s, '/')` */
  function TrimSlashes(s: string): (r: string)
    ensures r <= s && (r == [] || r[|r| - 1] != '/')
    ensures forall i :: |r| <= i < |s| ==> s[i] == '/'
    decreases |s|
  {
    if s != [] && s[|s| - 1] == '/' then TrimSlashes(s[..|s| - 1]) else s
  }

  /** The path of the shard of a period under the data directory. */
  function ShardPath(dataDir: string): Period -> string {
    (p: Period) => dataDir + Sanitized(PeriodFile(p.0, p.1))
  }

  /** The period of a row, for a given date parser and current period. */
  function PeriodFn(parse: string -> Option<Period>, now: Period): Doc -> Period {
    (row: Doc) => PeriodOf(parse, now, row)
  }

  /** `importProcessData`/`importExcelData` report how many rows went in new
      and how many were merged. */
  datatype ImportCounts = ImportCounts(inserted: nat, updated: nat)

  lemma ImportShardsStep(files: map<string, seq<Doc>>, fileOf: Period -> string,
                         groups: OMap<Period, seq<Doc>>, i: nat)
    requires i < |groups|
    ensures ImportShards(files, fileOf, groups[..i + 1]) ==
            ImportGroup(ImportShards(files, fileOf, groups[..i]), fileOf, groups[i])
    ensures KeyedTotal(ProcessShard, groups[..i + 1]) ==
            KeyedTotal(ProcessShard, groups[..i]) + |IncomingKeys(ProcessShard, groups[i].1)|
  {
    assert groups[..i + 1][..i] == groups[..i];
  }

  /** The spreadsheet branch of `importExcelData` for a `.xls` file: the
      stored headers, or the default ones for a file without headers, select
      and order the columns written back. */
  function SheetBranch(sheets: map<string, seq<seq<XmlCell>>>, path: string, keyCol: string): (b: Branch)
    ensures b.TableImport? && b.keyCol == keyCol
    ensures b.headers == if SheetIn(sheets, path).headers == [] then DEFAULT_HEADERS
                         else Values(SheetIn(sheets, path).headers)
  {
    TableImport(keyCol, ImportHeaders(Values(SheetIn(sheets, path).headers)))
  }

  /** `file_exists($path)` */
  predicate ExistsIn(json: map<string, seq<Doc>>, sheets: map<string, seq<seq<XmlCell>>>, path: string) {
    path in json || path in sheets
  }

  /** `readExcelXML($path)`: the stored table, empty for a missing file. */
  function SheetIn(sheets: map<string, seq<seq<XmlCell>>>, path: string): Table {
    if path in sheets then TableOf(sheets[path]) else Table([], [])
  }

  /** `getHeaders($file)` for a `.xls` file: the header names in column order. */
  function HeadersIn(json: map<string, seq<Doc>>, sheets: map<string, seq<seq<XmlCell>>>, path: string): seq<string> {
    if ExistsIn(json, sheets, path) then Values(SheetIn(sheets, path).headers) else []
  }

  /** The rows of a data file: the documents of a `.json` file, the data
      rows of a `.xls` file. */
  function RowsIn(json: map<string, seq<Doc>>, sheets: map<string, seq<seq<XmlCell>>>, path: string, file: string): seq<Doc> {
    if IsJson(file) then Stored(json, path) else SheetIn(sheets, path).data
  }

  /** Some row's key read is `keyVal`. */
  predicate HasKeyValue(rows: seq<Doc>, keyCol: string, keyVal: string) {
    exists i :: 0 <= i < |rows| && KeyValue(rows[i], keyCol) == keyVal
  }

  /** Some row's key read is one of `keyValues`. */
  predicate HasKeyIn(rows: seq<Doc>, keyCol: string, keyValues: seq<string>) {
    exists i :: 0 <= i < |rows| && KeyValue(rows[i], keyCol) in keyValues
  }

  /** `importExcelData` hands a process file that does not exist yet to
      the process import, which writes period shards instead. */
  predicate ToShards(file: string, present: bool) {
    (file == "Processos" || Occurs("Base_processos", file)) && !present
  }

  /** The header names `select` takes from one existing file: the keys of
      the first document of a `.json` file, the header row of a `.xls` file. */
  function FileHeaders(json: map<string, seq<Doc>>, sheets: map<string, seq<seq<XmlCell>>>,
                       path: string, file: string): seq<string> {
    if IsJson(file) then
      var rows := Stored(json, path);
      if rows == [] then [] else Keys(rows[0])
    else Values(SheetIn(sheets, path).headers)
  }

  /** What one listed file contributes to `select`: its rows that pass
      every filter, or nothing when the file does not exist. */
  function FileLines(json: map<string, seq<Doc>>, sheets: map<string, seq<seq<XmlCell>>>,
                     dataDir: string, f: string, filters: seq<Filter>): seq<Doc>
  {
    var path := dataDir + Sanitized(f);
    if ExistsIn(json, sheets, path) then Where(RowsIn(json, sheets, path, f), MatchesAll(filters)) else []
  }

  /** The contributions of the listed files, in list order. */
  function Concat(files: seq<string>, lines: string -> seq<Doc>): seq<Doc>
    decreases |files|
  {
    if files == [] then [] else Concat(files[..|files| - 1], lines) + lines(files[|files| - 1])
  }

  lemma ConcatStep(files: seq<string>, lines: string -> seq<Doc>, i: nat)
    requires i < |files|
    ensures Concat(files[..i + 1], lines) == Concat(files[..i], lines) + lines(files[i])
  {
    assert files[..i + 1][..i] == files[..i];
  }

  /** A row is in the concatenation exactly when some listed file contributes it. */
  lemma {:induction false} ConcatMembers(files: seq<string>, lines: string -> seq<Doc>, x: Doc)
    ensures x in Concat(files, lines) <==> exists k :: 0 <= k < |files| && x in lines(files[k])
    decreases |files|
  {
    if files != [] {
      var n := |files| - 1;
      ConcatMembers(files[..n], lines, x);
      InAppend(Concat(files[..n], lines), lines(files[n]), x);
      if x in Concat(files[..n], lines) {
        var k :| 0 <= k < n && x in lines(files[..n][k]);
        assert files[..n][k] == files[k];
      }
      if exists k :: 0 <= k < |files| && x in lines(files[k]) {
        var k :| 0 <= k < |files| && x in lines(files[k]);
        if k < n {
          assert files[..n][k] == files[k];
        }
      }
    }
  }

  /** The rows of the listed files that pass every filter, file by file in
      list order. */
  function Collected(json: map<string, seq<Doc>>, sheets: map<string, seq<seq<XmlCell>>>,
                     dataDir: string, files: seq<string>, filters: seq<Filter>): seq<Doc>
  {
    Concat(files, f => FileLines(json, sheets, dataDir, f, filters))
  }

  /** A file contributes exactly its passing rows. */
  lemma FileLinesMembers(json: map<string, seq<Doc>>, sheets: map<string, seq<seq<XmlCell>>>,
                         dataDir: string, f: string, filters: seq<Filter>, x: Doc)
    ensures x in FileLines(json, sheets, dataDir, f, filters) <==>
      var path := dataDir + Sanitized(f);
      ExistsIn(json, sheets, path) && x in RowsIn(json, sheets, path, f) && Matches(filters, x)
  {
    var path := dataDir + Sanitized(f);
    if ExistsIn(json, sheets, path) {
      var rows := RowsIn(json, sheets, path, f);
      WhereMembers(rows, MatchesAll(filters));
      if x in rows && Matches(filters, x) {
        var i :| 0 <= i < |rows| && rows[i] == x;
        assert MatchesAll(filters)(rows[i]);
      }
    }
  }

  /** Only rows that pass every filter are collected, and every passing row
      of an existing listed file is. */
  lemma CollectedSpec(json: map<string, seq<Doc>>, sheets: map<string, seq<seq<XmlCell>>>,
                      dataDir: string, files: seq<string>, filters: seq<Filter>, x: Doc)
    ensures x in Collected(json, sheets, dataDir, files, filters) ==> Matches(filters, x)
    ensures (exists k :: 0 <= k < |files| && ExistsIn(json, sheets, dataDir + Sanitized(files[k])) &&
                         x in RowsIn(json, sheets, dataDir + Sanitized(files[k]), files[k]) && Matches(filters, x))
            ==> x in Collected(json, sheets, dataDir, files, filters)
  {
    var lines := f => FileLines(json, sheets, dataDir, f, filters);
    ConcatMembers(files, lines, x);
    if x in Collected(json, sheets, dataDir, files, filters) {
      var k :| 0 <= k < |files| && x in lines(files[k]);
      FileLinesMembers(json, sheets, dataDir, files[k], filters, x);
    }
    if exists k :: 0 <= k < |files| && ExistsIn(json, sheets, dataDir + Sanitized(files[k])) &&
                   x in RowsIn(json, sheets, dataDir + Sanitized(files[k]), files[k]) && Matches(filters, x) {
      var k :| 0 <= k < |files| && ExistsIn(json, sheets, dataDir + Sanitized(files[k])) &&
               x in RowsIn(json, sheets, dataDir + Sanitized(files[k]), files[k]) && Matches(filters, x);
      FileLinesMembers(json, sheets, dataDir, files[k], filters, x);
    }
  }

  /** The headers `select` resolves `sortBy` against: those of the first
      existing file that has any. */
  function CollectedHeaders(json: map<string, seq<Doc>>, sheets: map<string, seq<seq<XmlCell>>>,
                            dataDir: string, files: seq<string>): seq<string>
    decreases |files|
  {
    if files == [] then []
    else
      var n := |files| - 1;
      var before := CollectedHeaders(json, sheets, dataDir, files[..n]);
      var path := dataDir + Sanitized(files[n]);
      if before == [] && ExistsIn(json, sheets, path) then FileHeaders(json, sheets, path, files[n])
      else before
  }

  lemma InAppend(a: seq<Doc>, b: seq<Doc>, x: Doc)
    ensures x in a + b <==> x in a || x in b
  {
  }

  class Database {
    const dataDir: string
    /** The documents of each existing `.json` file, by path. */
    var json: map<string, seq<Doc>>
    /** The worksheet cells of each existing `.xls` file, by path. */
    var sheets: map<string, seq<seq<XmlCell>>>

    /** `new Database($dir)` over a directory holding the given files. */
    constructor(dir: string, jsonFiles: map<string, seq<Doc>>, sheetFiles: map<string, seq<seq<XmlCell>>>)
      ensures dataDir == TrimSlashes(dir) + "/"
      ensures json == jsonFiles && sheets == sheetFiles
    {
      dataDir := TrimSlashes(dir) + "/";
      json := jsonFiles;
      sheets := sheetFiles;
    }

    /** `getPath($file)` */
    function PathOf(file: string): string {
      dataDir + Sanitized(file)
    }

    // -------------------------------------------------------------------
    // Reads
    // -------------------------------------------------------------------

    /** `findMany`: nothing for a missing file or no values; for a `.xls`
        file, nothing unless some header names the column up to case. */
    method FindMany(file: string, col: string, values: seq<string>) returns (res: seq<Doc>)
      requires IsJson(file) || IsExcel(file)
      ensures var path := PathOf(file);
        res == if !ExistsIn(json, sheets, path) || values == [] then []
               else if IsJson(file) then Store.FindMany(Stored(json, path), col, values)
               else if HeaderKey(HeadersIn(json, sheets, path), col).None? then []
               else Store.FindMany(SheetIn(sheets, path).data, col, values)
    {
      var path := GetPath(dataDir, file);
      if !ExistsIn(json, sheets, path) || values == [] {
        return [];
      }
      if IsJson(file) {
        return Store.FindMany(Stored(json, path), col, values);
      }
      if HeaderKey(HeadersIn(json, sheets, path), col).None? {
        return [];
      }
      res := Store.FindMany(SheetIn(sheets, path).data, col, values);
    }

    /** `find`: the first row `findMany` returns for the single value. */
    method Find(file: string, col: string, value: string) returns (res: Option<Doc>)
      requires IsJson(file) || IsExcel(file)
      ensures var path := PathOf(file);
        res == if !ExistsIn(json, sheets, path) then None
               else if IsJson(file) then Store.Find(Stored(json, path), col, value)
               else if HeaderKey(HeadersIn(json, sheets, path), col).None? then None
               else Store.Find(SheetIn(sheets, path).data, col, value)
    {
      var many := FindMany(file, col, [value]);
      res := if many != [] then Some(many[0]) else None;
    }

    /** `findReverse`, with the case-insensitive fallback read it intends. */
    method FindReverse(file: string, col: string, value: string) returns (res: Option<Doc>)
      requires IsJson(file) || IsExcel(file)
      ensures var path := PathOf(file);
        res == if !ExistsIn(json, sheets, path) then None
               else if IsJson(file) then Store.FindReverse(Stored(json, path), col, value)
               else if HeaderKey(HeadersIn(json, sheets, path), col).None? then None
               else Store.FindReverse(SheetIn(sheets, path).data, col, value)
    {
      var path := GetPath(dataDir, file);
      if !ExistsIn(json, sheets, path) {
        return None;
      }
      if IsJson(file) {
        return Store.FindReverse(Stored(json, path), col, value);
      }
      if HeaderKey(HeadersIn(json, sheets, path), col).None? {
        return None;
      }
      res := Store.FindReverse(SheetIn(sheets, path).data, col, value);
    }

    /** `getUniqueValues` */
    method GetUniqueValues(file: string, col: string) returns (vals: seq<string>)
      requires IsJson(file) || IsExcel(file)
      ensures var path := PathOf(file);
        vals == if !ExistsIn(json, sheets, path) then []
                else if IsJson(file) then UniqueValues(Stored(json, path), col)
                else if HeaderKey(HeadersIn(json, sheets, path), col).None? then []
                else UniqueValues(SheetIn(sheets, path).data, col)
    {
      var path := GetPath(dataDir, file);
      if !ExistsIn(json, sheets, path) {
        return [];
      }
      if IsJson(file) {
        return UniqueValues(Stored(json, path), col);
      }
      if HeaderKey(HeadersIn(json, sheets, path), col).None? {
        return [];
      }
      vals := UniqueValues(SheetIn(sheets, path).data, col);
    }

    /** `select`: the filtered rows of the listed files, arranged by the
        sort dispatch and cut to the requested page. */
    method Select(files: seq<string>, filters: seq<Filter>, page: int, limit: int,
                  sortBy: string, desc: bool, norm: string -> int) returns (result: Option<Page>)
      requires forall i :: 0 <= i < |files| ==> IsJson(files[i]) || IsExcel(files[i])
      ensures result == Paginate(Arrange(Collected(json, sheets, dataDir, files, filters),
                                         CollectedHeaders(json, sheets, dataDir, files), sortBy, desc, norm),
                                 page, limit)
    {
      var lines: seq<Doc> := [];
      var headers: seq<string> := [];
      for i := 0 to |files|
        invariant lines == Collected(json, sheets, dataDir, files[..i], filters)
        invariant headers == CollectedHeaders(json, sheets, dataDir, files[..i])
      {
        assert files[..i + 1][..i] == files[..i];
        ghost var js, sh := json, sheets;
        ConcatStep(files, f => FileLines(js, sh, dataDir, f, filters), i);
        var path := GetPath(dataDir, files[i]);
        if !ExistsIn(json, sheets, path) {
          continue;
        }
        var rows := RowsIn(json, sheets, path, files[i]);
        if headers == [] {
          headers := FileHeaders(json, sheets, path, files[i]);
        }
        lines := lines + Where(rows, MatchesAll(filters));
      }
      assert files[..|files|] == files;
      result := Paginate(Arrange(lines, headers, sortBy, desc, norm), page, limit);
    }

    // -------------------------------------------------------------------
    // Writes
    // -------------------------------------------------------------------

    /** `insert`: a `.json` file gets the document appended as given (the
        file is created if missing); a `.xls` file gets the document cut to
        its headers, matched up to case and trimmed. */
    method Insert(file: string, data: Doc) returns (ok: bool)
      requires IsJson(file) || IsExcel(file)
      modifies this
      ensures ok
      ensures IsJson(file) ==>
        json == old(json)[PathOf(file) := Stored(old(json), PathOf(file)) + [data]] && sheets == old(sheets)
      ensures !IsJson(file) ==> json == old(json)
      ensures !IsJson(file) ==>
        var hs := HeadersIn(old(json), old(sheets), PathOf(file));
        sheets == old(sheets)[PathOf(file) := WriteGrid(hs, SheetIn(old(sheets), PathOf(file)).data + [InsertRow(hs, data)])]
    {
      var path := GetPath(dataDir, file);
      ok := true;
      if IsJson(file) {
        json := json[path := Stored(json, path) + [data]];
      } else {
        var headers := HeadersIn(json, sheets, path);
        var rows := SheetIn(sheets, path).data;
        sheets := sheets[path := WriteGrid(headers, rows + [InsertRow(headers, data)])];
      }
    }

    /** `update`: every row whose key read is `keyVal` is merged with
        `newData` (case-insensitively in a `.json` file, onto the headers in a
        `.xls` file); the file is rewritten only if some row matched, which
        is what the result reports. */
    method Update(file: string, keyCol: string, keyVal: string, newData: Doc) returns (ok: bool)
      requires IsJson(file) || IsExcel(file)
      modifies this
      ensures ok <==> ExistsIn(old(json), old(sheets), PathOf(file)) &&
                      HasKeyValue(RowsIn(old(json), old(sheets), PathOf(file), file), keyCol, keyVal)
      ensures ok && IsJson(file) ==>
        json == old(json)[PathOf(file) := UpdatedRows(Stored(old(json), PathOf(file)), keyCol, keyVal, MergeChange(newData))]
      ensures ok && !IsJson(file) ==>
        var hs := HeadersIn(old(json), old(sheets), PathOf(file));
        sheets == old(sheets)[PathOf(file) :=
          WriteGrid(hs, UpdatedRows(SheetIn(old(sheets), PathOf(file)).data, keyCol, keyVal, PatchChange(hs, newData)))]
      ensures !ok || !IsJson(file) ==> json == old(json)
      ensures !ok || IsJson(file) ==> sheets == old(sheets)
    {
      var path := GetPath(dataDir, file);
      if !ExistsIn(json, sheets, path) {
        return false;
      }
      var change := if IsJson(file) then MergeChange(newData) else PatchChange(HeadersIn(json, sheets, path), newData);
      var newRows, updated := UpdateRows(RowsIn(json, sheets, path, file), keyCol, keyVal, change);
      ok := updated;
      if ok && IsJson(file) {
        json := json[path := newRows];
      } else if ok {
        sheets := sheets[path := WriteGrid(HeadersIn(json, sheets, path), newRows)];
      }
    }

    /** `deleteMany`: the rows whose key read is one of `keyValues` are
        removed; the file is rewritten only if some row went. */
    method DeleteMany(file: string, keyCol: string, keyValues: seq<string>) returns (ok: bool)
      requires IsJson(file) || IsExcel(file)
      modifies this
      ensures ok <==> ExistsIn(old(json), old(sheets), PathOf(file)) &&
                      HasKeyIn(RowsIn(old(json), old(sheets), PathOf(file), file), keyCol, keyValues)
      ensures ok && IsJson(file) ==>
        json == old(json)[PathOf(file) := Where(Stored(old(json), PathOf(file)), KeyNotIn(keyCol, keyValues))]
      ensures ok && !IsJson(file) ==>
        sheets == old(sheets)[PathOf(file) := WriteGrid(HeadersIn(old(json), old(sheets), PathOf(file)),
                                                        Where(SheetIn(old(sheets), PathOf(file)).data, KeyNotIn(keyCol, keyValues)))]
      ensures !ok || !IsJson(file) ==> json == old(json)
      ensures !ok || IsJson(file) ==> sheets == old(sheets)
    {
      var path := GetPath(dataDir, file);
      if !ExistsIn(json, sheets, path) {
        return false;
      }
      var newRows, deleted := DeleteRows(RowsIn(json, sheets, path, file), keyCol, keyValues);
      ok := deleted > 0;
      if ok && IsJson(file) {
        json := json[path := newRows];
      } else if ok {
        sheets := sheets[path := WriteGrid(HeadersIn(json, sheets, path), newRows)];
      }
    }

    /** `addColumn`: every `.json` row without the column gets it empty; a
        `.xls` file gets a new header unless one already matches up to case. */
    method AddColumn(file: string, col: string) returns (ok: bool)
      requires IsJson(file) || IsExcel(file)
      modifies this
      ensures ok <==> ExistsIn(old(json), old(sheets), PathOf(file)) &&
                      (IsJson(file) || AddColumnHeaders(HeadersIn(old(json), old(sheets), PathOf(file)), col).Some?)
      ensures ok && IsJson(file) ==>
        json == old(json)[PathOf(file) := AddColumnRows(Stored(old(json), PathOf(file)), col)]
      ensures ok && !IsJson(file) ==>
        sheets == old(sheets)[PathOf(file) := WriteGrid(HeadersIn(old(json), old(sheets), PathOf(file)) + [col],
                                                        SheetIn(old(sheets), PathOf(file)).data)]
      ensures !ok || !IsJson(file) ==> json == old(json)
      ensures !ok || IsJson(file) ==> sheets == old(sheets)
    {
      var path := GetPath(dataDir, file);
      if !ExistsIn(json, sheets, path) {
        return false;
      }
      if IsJson(file) {
        json := json[path := AddColumnRows(Stored(json, path), col)];
        return true;
      }
      var headers := AddColumnHeaders(HeadersIn(json, sheets, path), col);
      if headers.None? {
        return false;
      }
      sheets := sheets[path := WriteGrid(headers.value, SheetIn(sheets, path).data)];
      ok := true;
    }

    /** `removeDuplicates`: a `.json` file keeps one row per distinct truthy
        value of the column, ordered by value; a `.xls` file is refused. */
    method RemoveDuplicates(file: string, col: string) returns (ok: bool)
      requires IsJson(file) || IsExcel(file)
      modifies this
      ensures ok <==> ExistsIn(old(json), old(sheets), PathOf(file)) && IsJson(file)
      ensures ok ==> json == old(json)[PathOf(file) := Store.RemoveDuplicates(Stored(old(json), PathOf(file)), col)]
      ensures !ok ==> json == old(json)
      ensures sheets == old(sheets)
    {
      var path := GetPath(dataDir, file);
      if !ExistsIn(json, sheets, path) || !IsJson(file) {
        return false;
      }
      json := json[path := Store.RemoveDuplicates(Stored(json, path), col)];
      ok := true;
    }

    // -------------------------------------------------------------------
    // Imports
    // -------------------------------------------------------------------

    /** `ensurePeriodStructure`: the shard of a period, created empty if it
        does not exist yet. */
    method EnsurePeriodStructure(year: string, month: int) returns (file: string)
      modifies this
      ensures file == PeriodFile(year, month)
      ensures json == if ExistsIn(old(json), old(sheets), PathOf(file)) then old(json) else old(json)[PathOf(file) := []]
      ensures sheets == old(sheets)
      ensures Stored(json, PathOf(file)) == Stored(old(json), PathOf(file))
    {
      file := PeriodFile(year, month);
      var path := GetPath(dataDir, file);
      if !ExistsIn(json, sheets, path) {
        json := json[path := []];
      }
    }

    /** One turn of the loop of `importProcessData`: the rows of one period
        are merged into that period's shard. */
    method ImportPeriod(period: Period, group: seq<Doc>) returns (inserted: nat, updated: nat)
      modifies this
      ensures json == ImportGroup(old(json), ShardPath(dataDir), (period, group))
      ensures inserted + updated == |IncomingKeys(ProcessShard, group)|
      ensures sheets == old(sheets)
    {
      var file := EnsurePeriodStructure(period.0, period.1);
      var path := GetPath(dataDir, file);
      assert path == ShardPath(dataDir)(period);
      var rows;
      rows, inserted, updated := ImportRows(ProcessShard, Stored(json, path), group);
      json := json[path := rows];
    }

    /** `importProcessData`: each group of rows of one period is merged into
        its shard in turn, and every keyed row is counted once. */
    method ImportProcessData(parse: string -> Option<Period>, now: Period, newData: seq<Doc>)
      returns (counts: ImportCounts)
      modifies this
      ensures json == ImportShards(old(json), ShardPath(dataDir), Groups(PeriodFn(parse, now), newData))
      ensures counts.inserted + counts.updated == |IncomingKeys(ProcessShard, newData)|
      ensures sheets == old(sheets)
    {
      var groups := Groups(PeriodFn(parse, now), newData);
      var inserted, updated := 0, 0;
      for i := 0 to |groups|
        invariant json == ImportShards(old(json), ShardPath(dataDir), groups[..i])
        invariant inserted + updated == KeyedTotal(ProcessShard, groups[..i])
        invariant sheets == old(sheets)
      {
        ImportShardsStep(old(json), ShardPath(dataDir), groups, i);
        var ins, upd := ImportPeriod(groups[i].0, groups[i].1);
        inserted, updated := inserted + ins, updated + upd;
      }
      assert groups[..|groups|] == groups;
      GroupsKeepKeyedRows(ProcessShard, PeriodFn(parse, now), newData);
      counts := ImportCounts(inserted, updated);
    }

    /** The keyed upsert of `importExcelData` into a `.json` file. */
    method ImportJsonFile(path: string, keyCol: string, newData: seq<Doc>) returns (c: ImportCounts)
      modifies this
      ensures json == old(json)[path := Values(Merged(JsonImport(keyCol), Stored(old(json), path), newData))]
      ensures c.inserted + c.updated == |IncomingKeys(JsonImport(keyCol), newData)|
      ensures sheets == old(sheets)
    {
      var rows, ins, upd := ImportRows(JsonImport(keyCol), Stored(json, path), newData);
      json := json[path := rows];
      c := ImportCounts(ins, upd);
    }

    /** The keyed upsert of `importExcelData` into a `.xls` file: the stored
        headers, or the default ones for a file without headers, select and
        order the columns written back. */
    method ImportSheetFile(path: string, keyCol: string, newData: seq<Doc>) returns (c: ImportCounts)
      modifies this
      ensures var b := SheetBranch(old(sheets), path, keyCol);
        sheets == old(sheets)[path := WriteGrid(b.headers, Values(Merged(b, SheetIn(old(sheets), path).data, newData)))]
      ensures c.inserted + c.updated == |IncomingKeys(SheetBranch(old(sheets), path, keyCol), newData)|
      ensures json == old(json)
    {
      var b := SheetBranch(sheets, path, keyCol);
      var rows, ins, upd := ImportRows(b, SheetIn(sheets, path).data, newData);
      sheets := sheets[path := WriteGrid(b.headers, rows)];
      c := ImportCounts(ins, upd);
    }

    /** `importExcelData`: the process import for a process file that does
        not exist yet; otherwise a keyed upsert on the key column the file
        name selects, with the JSON merge or the spreadsheet merge; None for
        a file that is neither. */
    method ImportExcelData(parse: string -> Option<Period>, now: Period, file: string, newData: seq<Doc>)
      returns (r: Option<ImportCounts>)
      modifies this
      ensures r.None? <==> !ToShards(file, ExistsIn(old(json), old(sheets), PathOf(file))) &&
                           !IsJson(file) && !IsExcel(file)
      ensures ToShards(file, ExistsIn(old(json), old(sheets), PathOf(file))) ==>
        json == ImportShards(old(json), ShardPath(dataDir), Groups(PeriodFn(parse, now), newData)) &&
        r.value.inserted + r.value.updated == |IncomingKeys(ProcessShard, newData)|
      ensures !ToShards(file, ExistsIn(old(json), old(sheets), PathOf(file))) && IsJson(file) ==>
        var b := JsonImport(KeyColumnFor(file));
        json == old(json)[PathOf(file) := Values(Merged(b, Stored(old(json), PathOf(file)), newData))] &&
        r.value.inserted + r.value.updated == |IncomingKeys(b, newData)|
      ensures !ToShards(file, ExistsIn(old(json), old(sheets), PathOf(file))) && !IsJson(file) && IsExcel(file) ==>
        var b := SheetBranch(old(sheets), PathOf(file), KeyColumnFor(file));
        sheets == old(sheets)[PathOf(file) := WriteGrid(b.headers, Values(Merged(b, SheetIn(old(sheets), PathOf(file)).data, newData)))] &&
        r.value.inserted + r.value.updated == |IncomingKeys(b, newData)|
      ensures ToShards(file, ExistsIn(old(json), old(sheets), PathOf(file))) || IsJson(file) || !IsExcel(file) ==>
        sheets == old(sheets)
      ensures !ToShards(file, ExistsIn(old(json), old(sheets), PathOf(file))) && !IsJson(file) ==>
        json == old(json)
    {
      var path := GetPath(dataDir, file);
      if ToShards(file, ExistsIn(json, sheets, path)) {
        var counts := ImportProcessData(parse, now, newData);
        return Some(counts);
      }
      var keyCol := KeyColumnFor(file);
      if IsJson(file) {
        var counts := ImportJsonFile(path, keyCol, newData);
        return Some(counts);
      }
      if !IsExcel(file) {
        return None;
      }
      var counts := ImportSheetFile(path, keyCol, newData);
      r := Some(counts);
    }
  }
}
