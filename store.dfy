/**
  The record-level logic of the `Database` class: path sanitising, the three
  ways its operations read a key column, and what `find`, `findMany`,
  `findReverse`, `insert`, `update`, `deleteMany`, `addColumn`,
  `removeDuplicates` and `getUniqueValues` do to the rows of one file.
  Reading and writing the files is the business of the `DataFiles` module.
 */
module Store {
  import opened Wrappers
  import opened OrderedMaps
  import opened Text
  import opened Documents
  import opened Sorting

  // ---------------------------------------------------------------------
  // getPath
  // ---------------------------------------------------------------------

  /** `str_replace('..', '', $s)`: occurrences are removed left to right. */
  function RemoveDotDot(s: string): (r: string)
    ensures |r| <= |s|
    ensures Occurs("..", s) ==> |r| < |s|
    decreases |s|
  {
    if |s| >= 2 && s[0] == '.' && s[1] == '.' then RemoveDotDot(s[2..])
    else if s == [] then []
    else [s[0]] + RemoveDotDot(s[1..])
  }

  /** One pass changes nothing when there is no "..", and removes only dots. */
  lemma {:induction false} RemoveDotDotSpec(s: string)
    ensures !Occurs("..", s) ==> RemoveDotDot(s) == s
    ensures forall c :: c != '.' ==> multiset(RemoveDotDot(s))[c] == multiset(s)[c]
    decreases |s|
  {
    if |s| >= 2 && s[0] == '.' && s[1] == '.' {
      assert s == s[..2] + s[2..];
      RemoveDotDotSpec(s[2..]);
    } else if s != [] {
      assert s == [s[0]] + s[1..];
      RemoveDotDotSpec(s[1..]);
    }
  }

  /** The file name `getPath` keeps: passes are repeated while ".." remains. */
  function Sanitized(file: string): string
    decreases |file|
  {
    if Occurs("..", file) then Sanitized(RemoveDotDot(file)) else file
  }

  /** The sanitised name never contains "..", only dots were removed, and a
      name without ".." is kept as it is. */
  lemma {:induction false} SanitizedSpec(file: string)
    ensures !Occurs("..", Sanitized(file))
    ensures !Occurs("..", file) ==> Sanitized(file) == file
    ensures forall c :: c != '.' ==> multiset(Sanitized(file))[c] == multiset(file)[c]
    decreases |file|
  {
    if Occurs("..", file) {
      RemoveDotDotSpec(file);
      SanitizedSpec(RemoveDotDot(file));
    }
  }

  /** `Database::getPath`: the sanitised name under the data directory. */
  method GetPath(dataDir: string, file: string) returns (path: string)
    ensures path == dataDir + Sanitized(file)
  {
    var f := file;
    while Occurs("..", f)
      invariant Sanitized(f) == Sanitized(file)
      decreases |f|
    {
      f := RemoveDotDot(f);
    }
    path := dataDir + f;
  }

  // ---------------------------------------------------------------------
  // Reading a key column
  // ---------------------------------------------------------------------

  /** `getCaseInsensitiveKey` followed by a read, or "" (`insert`). */
  function CiValue(row: Doc, name: string): string {
    match CiKey(row, name)
    case Some(k) => ValueOrEmpty(row, k)
    case None => ""
  }

  /** The key read of `find`/`findMany`: the exact field unless its value is
      falsy, then the first case-insensitive match if its name is truthy. */
  function FindValue(row: Doc, col: string): string {
    var v := ValueOrEmpty(row, col);
    if Truthy(v) then v
    else
      match CiKey(row, col)
      case Some(k) => if Truthy(k) then ValueOrEmpty(row, k) else ""
      case None => ""
  }

  /** The key read of `update`, `deleteMany` and `getUniqueValues`: the exact
      field unless it is "", then the first case-insensitive match if its name
      is truthy. */
  function KeyValue(row: Doc, col: string): string {
    var v := ValueOrEmpty(row, col);
    if v != "" then v
    else
      match CiKey(row, col)
      case Some(k) => if Truthy(k) then ValueOrEmpty(row, k) else v
      case None => v
  }

  lemma UpperZero(s: string)
    requires Upper(s) == "0"
    ensures s == "0"
  {
    assert |s| == 1 && UpperChar(s[0]) == '0';
  }

  /** A field that matches `col` only case-insensitively has a truthy name. */
  lemma CiMatchTruthy(row: Doc, col: string, k: string)
    requires SameFieldName(k, col) && k != col
    ensures Truthy(k)
  {
    if k == "0" { UpperZero(col); }
  }

  /** On a document with no two fields equal up to case, both key reads agree
      with `get_value_ci` (the `find` read for every truthy column name). */
  lemma LookupsAgree(row: Doc, col: string)
    requires UniqueKeys(row) && CiUnique(row)
    ensures KeyValue(row, col) == GetValueCI(row, col)
    ensures Truthy(col) ==> FindValue(row, col) == GetValueCI(row, col)
  {
    GetValueCISpec(row, col);
    match CiIndex(row, col)
    case None =>
    case Some(i) =>
      var k := row[i].0;
      UniqueIndex(row, k, i);
      if HasKey(row, col) {
        var j := IndexOf(row, col).value;
        assert SameFieldName(row[j].0, col);
        assert i == j;
      } else {
        CiMatchTruthy(row, col, k);
      }
  }

  /** The key read of `findReverse` as written: its fallback looks up the
      case-insensitive key but then reads an unset variable, so the fallback
      always yields "". */
  function FindReverseValueAsWritten(row: Doc, col: string): string {
    var v := ValueOrEmpty(row, col);
    if Truthy(v) then v else ""
  }

  // ---------------------------------------------------------------------
  // Scans
  // ---------------------------------------------------------------------

  /** The rows satisfying `p`, in order. */
  function Where(rows: seq<Doc>, p: Doc -> bool): (r: seq<Doc>)
    ensures |r| <= |rows|
    decreases |rows|
  {
    if rows == [] then []
    else (if p(rows[0]) then [rows[0]] else []) + Where(rows[1..], p)
  }

  /** The filter keeps exactly the rows that pass. */
  lemma {:induction false} WhereMembers(rows: seq<Doc>, p: Doc -> bool)
    ensures forall x :: x in Where(rows, p) ==> x in rows && p(x)
    ensures forall i :: 0 <= i < |rows| && p(rows[i]) ==> rows[i] in Where(rows, p)
    decreases |rows|
  {
    if rows != [] {
      WhereMembers(rows[1..], p);
      assert rows == [rows[0]] + rows[1..];
    }
  }

  lemma {:induction false} WhereSnoc(rows: seq<Doc>, x: Doc, p: Doc -> bool)
    ensures Where(rows + [x], p) == Where(rows, p) + (if p(x) then [x] else [])
    decreases |rows|
  {
    if rows != [] {
      assert (rows + [x])[1..] == rows[1..] + [x];
      WhereSnoc(rows[1..], x, p);
    }
  }

  /** The rows failing `p` and the rows passing it split the input. */
  lemma {:induction false} WherePartition(rows: seq<Doc>, p: Doc -> bool)
    ensures |Where(rows, p)| + |Where(rows, x => !p(x))| == |rows|
    ensures multiset(Where(rows, p)) + multiset(Where(rows, x => !p(x))) == multiset(rows)
    decreases |rows|
  {
    if rows != [] {
      WherePartition(rows[1..], p);
      assert rows == [rows[0]] + rows[1..];
    }
  }

  /** The first row satisfying `p`. */
  function FirstWhere(rows: seq<Doc>, p: Doc -> bool): (r: Option<Doc>)
    ensures r.Some? ==> exists i :: 0 <= i < |rows| && rows[i] == r.value && p(rows[i]) &&
                                    forall j :: 0 <= j < i ==> !p(rows[j])
    ensures r.None? <==> forall i :: 0 <= i < |rows| ==> !p(rows[i])
    decreases |rows|
  {
    if rows == [] then None
    else if p(rows[0]) then Some(rows[0])
    else
      var r := FirstWhere(rows[1..], p);
      assert forall i :: 1 <= i < |rows| ==> rows[i] == rows[1..][i - 1];
      r
  }

  /** The last row satisfying `p` (`array_reverse`, then the first match). */
  function LastWhere(rows: seq<Doc>, p: Doc -> bool): (r: Option<Doc>)
    ensures r.Some? ==> exists i :: 0 <= i < |rows| && rows[i] == r.value && p(rows[i]) &&
                                    forall j :: i < j < |rows| ==> !p(rows[j])
    ensures r.None? <==> forall i :: 0 <= i < |rows| ==> !p(rows[i])
    decreases |rows|
  {
    if rows == [] then None
    else if p(rows[|rows| - 1]) then Some(rows[|rows| - 1])
    else LastWhere(rows[..|rows| - 1], p)
  }

  /** The first element of a filter is the first match. */
  lemma {:induction false} WhereHead(rows: seq<Doc>, p: Doc -> bool)
    ensures Where(rows, p) == [] <==> FirstWhere(rows, p).None?
    ensures Where(rows, p) != [] ==> Where(rows, p)[0] == FirstWhere(rows, p).value
    decreases |rows|
  {
    if rows != [] && !p(rows[0]) {
      WhereHead(rows[1..], p);
    }
  }

  // ---------------------------------------------------------------------
  // find / findMany / findReverse
  // ---------------------------------------------------------------------

  /** `findMany` over the rows of a file: the rows whose key read is one of
      `values`, in file order; nothing at all for an empty `values`. */
  function FindMany(rows: seq<Doc>, col: string, values: seq<string>): seq<Doc> {
    if values == [] then [] else Where(rows, row => FindValue(row, col) in values)
  }

  /** `find`: the first row of `findMany` with the single value. */
  function Find(rows: seq<Doc>, col: string, value: string): Option<Doc> {
    var res := FindMany(rows, col, [value]);
    if res != [] then Some(res[0]) else None
  }

  /** `find` returns the first row whose key read equals the value, and
      nothing exactly when no row's does. */
  lemma FindIsFirstMatch(rows: seq<Doc>, col: string, value: string)
    ensures Find(rows, col, value) == FirstWhere(rows, row => FindValue(row, col) == value)
  {
    var p := row => FindValue(row, col) in [value];
    var q := row => FindValue(row, col) == value;
    WhereHead(rows, p);
    assert forall row :: p(row) == q(row);
    FirstWhereExt(rows, p, q);
  }

  lemma {:induction false} FirstWhereExt(rows: seq<Doc>, p: Doc -> bool, q: Doc -> bool)
    requires forall row :: p(row) == q(row)
    ensures FirstWhere(rows, p) == FirstWhere(rows, q)
    decreases |rows|
  {
    if rows != [] { FirstWhereExt(rows[1..], p, q); }
  }

  /** `findReverse` as written: the last row whose exact field equals the
      value; a row holding the key under another case is never found. */
  function FindReverseAsWritten(rows: seq<Doc>, col: string, value: string): Option<Doc> {
    LastWhere(rows, row => FindReverseValueAsWritten(row, col) == value)
  }

  /** `findReverse` as intended: the last row whose `find` key read equals the
      value. */
  function FindReverse(rows: seq<Doc>, col: string, value: string): Option<Doc> {
    LastWhere(rows, row => FindValue(row, col) == value)
  }

  /** A file with one row keyed "cpf": `findMany` finds it by "CPF", the
      corrected `findReverse` too, `findReverse` as written does not. */
  lemma FindReverseMissesCaseVariant()
    ensures var rows := [[("cpf", "123")]];
      && FindMany(rows, "CPF", ["123"]) == rows
      && FindReverse(rows, "CPF", "123") == Some(rows[0])
      && FindReverseAsWritten(rows, "CPF", "123") == None
  {
    var row: Doc := [("cpf", "123")];
    assert !HasKey(row, "CPF");
    assert SameFieldName("cpf", "CPF") by {
      assert Upper("cpf") == "CPF";
    }
    assert CiIndex(row, "CPF") == Some(0);
    assert FindValue(row, "CPF") == "123";
    assert FindReverseValueAsWritten(row, "CPF") == "";
  }

  // ---------------------------------------------------------------------
  // insert
  // ---------------------------------------------------------------------

  function InsertPairs(headers: seq<string>, data: Doc): (p: seq<(string, string)>)
    ensures |p| == |headers|
    ensures forall i :: 0 <= i < |headers| ==> p[i] == (headers[i], Trim(CiValue(data, headers[i])))
  {
    seq(|headers|, i requires 0 <= i < |headers| => (headers[i], Trim(CiValue(data, headers[i]))))
  }

  /** The row `insert` appends to a `.xls` table: for each header, the
      trimmed value of the first field of `data` matching it up to case. */
  function InsertRow(headers: seq<string>, data: Doc): Doc {
    Assign(InsertPairs(headers, data))
  }

  /** With distinct headers, the inserted row has exactly the headers as
      keys, in order, each holding the trimmed case-insensitive value. */
  lemma InsertRowSpec(headers: seq<string>, data: Doc)
    requires forall i, j :: 0 <= i < j < |headers| ==> headers[i] != headers[j]
    ensures Keys(InsertRow(headers, data)) == headers
    ensures forall i :: 0 <= i < |headers| ==>
      InsertRow(headers, data)[i].1 == Trim(CiValue(data, headers[i]))
    ensures forall i :: 0 <= i < |headers| ==>
      Trim(InsertRow(headers, data)[i].1) == InsertRow(headers, data)[i].1
  {
    var p := InsertPairs(headers, data);
    assert UniqueKeys(p);
    AssignDistinct(p);
    forall i | 0 <= i < |headers| ensures Trim(p[i].1) == p[i].1 {
      TrimTwice(CiValue(data, headers[i]));
    }
  }

  lemma TrimTwice(s: string)
    ensures Trim(Trim(s)) == Trim(s)
  {
    var t := Trim(s);
    assert t == [] || (!IsTrimChar(t[0]) && !IsTrimChar(t[|t| - 1]));
  }

  // ---------------------------------------------------------------------
  // update
  // ---------------------------------------------------------------------

  /** The `foreach ($rows as &$row)` loop of `update`: every row whose key read
      equals `keyVal` is replaced by `change(row)`, the others are kept, and
      `updated` tells whether any row matched. */
  method UpdateRows(rows: seq<Doc>, keyCol: string, keyVal: string, change: Doc -> Doc)
    returns (newRows: seq<Doc>, updated: bool)
    ensures |newRows| == |rows|
    ensures forall i :: 0 <= i < |rows| ==>
      newRows[i] == if KeyValue(rows[i], keyCol) == keyVal then change(rows[i]) else rows[i]
    ensures updated <==> exists i :: 0 <= i < |rows| && KeyValue(rows[i], keyCol) == keyVal
    ensures newRows == UpdatedRows(rows, keyCol, keyVal, change)
  {
    newRows := rows;
    updated := false;
    for i := 0 to |rows|
      invariant |newRows| == |rows|
      invariant forall j :: 0 <= j < i ==>
        newRows[j] == if KeyValue(rows[j], keyCol) == keyVal then change(rows[j]) else rows[j]
      invariant forall j :: i <= j < |rows| ==> newRows[j] == rows[j]
      invariant updated <==> exists j :: 0 <= j < i && KeyValue(rows[j], keyCol) == keyVal
    {
      var row := rows[i];
      if KeyValue(row, keyCol) == keyVal {
        newRows := newRows[i := change(row)];
        updated := true;
      }
    }
  }

  /** The rows after `update`: each row whose key read is `keyVal` changed. */
  function UpdatedRows(rows: seq<Doc>, keyCol: string, keyVal: string, change: Doc -> Doc): (r: seq<Doc>)
    ensures |r| == |rows|
  {
    seq(|rows|, i requires 0 <= i < |rows| =>
      if KeyValue(rows[i], keyCol) == keyVal then change(rows[i]) else rows[i])
  }

  /** What `update` does to a matching row of a `.json` file. */
  function MergeChange(newData: Doc): Doc -> Doc {
    row => MergeCI(row, newData)
  }

  /** What `update` does to a matching row of a `.xls` file. */
  function PatchChange(headers: seq<string>, newData: Doc): Doc -> Doc {
    row => PatchTableRow(headers, row, newData)
  }

  /** The first header whose name equals `name` up to case
      (`getCaseInsensitiveKey(array_flip($headers), $name)`). */
  function HeaderKey(headers: seq<string>, name: string): (r: Option<string>)
    ensures r.Some? ==> r.value in headers && SameFieldName(r.value, name)
    ensures r.Some? ==> exists i :: FirstHeader(headers, name, i) && headers[i] == r.value
    ensures r.None? <==> forall i :: 0 <= i < |headers| ==> !SameFieldName(headers[i], name)
    decreases |headers|
  {
    if headers == [] then None
    else if SameFieldName(headers[0], name) then
      assert FirstHeader(headers, name, 0);
      Some(headers[0])
    else
      var r := HeaderKey(headers[1..], name);
      assert forall i :: 1 <= i < |headers| ==> headers[i] == headers[1..][i - 1];
      if r.Some? then
        var i :| FirstHeader(headers[1..], name, i) && headers[1..][i] == r.value;
        assert FirstHeader(headers, name, i + 1);
        r
      else r
  }

  /** `headers[i]` is the first header equal to `name` up to case, the one
      `getCaseInsensitiveKey` returns. */
  predicate FirstHeader(headers: seq<string>, name: string, i: int) {
    0 <= i < |headers| && SameFieldName(headers[i], name)
    && forall j :: 0 <= j < i ==> !SameFieldName(headers[j], name)
  }

  /** There is at most one first match. */
  lemma FirstHeaderUnique(headers: seq<string>, name: string, i: int, j: int)
    requires FirstHeader(headers, name, i) && FirstHeader(headers, name, j)
    ensures i == j
  {
  }

  /** One patch field of the `.xls` `update`: written under the matching
      header's spelling, or under its own name if that is a header; a field
      naming no header is ignored. */
  function PatchTableField(headers: seq<string>, row: Doc, f: (string, string)): Doc {
    match HeaderKey(headers, f.0)
    case Some(h) =>
      if Truthy(h) then Put(row, h, f.1)
      else if f.0 in headers then Put(row, f.0, f.1) else row
    case None =>
      if f.0 in headers then Put(row, f.0, f.1) else row
  }

  function PatchTableRow(headers: seq<string>, row: Doc, patch: Doc): Doc
    decreases |patch|
  {
    if patch == [] then row
    else PatchTableRow(headers, PatchTableField(headers, row, patch[0]), patch[1..])
  }

  /** Unlike the `.json` merge, the `.xls` update never adds a field that is
      not a header: every field of the result was in the row or is a header. */
  lemma {:induction false} PatchTableRowKeys(headers: seq<string>, row: Doc, patch: Doc)
    ensures forall k :: HasKey(PatchTableRow(headers, row, patch), k) ==> HasKey(row, k) || k in headers
    decreases |patch|
  {
    if patch != [] {
      var row1 := PatchTableField(headers, row, patch[0]);
      PatchTableRowKeys(headers, row1, patch[1..]);
      forall k | HasKey(row1, k) ensures HasKey(row, k) || k in headers {
        PutKeys(row, k);
      }
    }
  }

  lemma PutKeys(row: Doc, k: string)
    ensures forall h, v :: HasKey(Put(row, h, v), k) ==> HasKey(row, k) || k == h
  {
    forall h, v | HasKey(Put(row, h, v), k) ensures HasKey(row, k) || k == h {
      var r := Put(row, h, v);
      var i :| 0 <= i < |r| && r[i].0 == k;
      assert Keys(r)[i] == k;
      if !HasKey(row, h) && i == |row| {
        assert Keys(r) == Keys(row) + [h];
      } else {
        assert Keys(row)[i] == k;
      }
    }
  }

  // ---------------------------------------------------------------------
  // deleteMany
  // ---------------------------------------------------------------------

  /** The rows `deleteMany` drops: their key read is one of `keyValues`. */
  function KeyIn(keyCol: string, keyValues: seq<string>): Doc -> bool {
    row => KeyValue(row, keyCol) in keyValues
  }

  /** The rows `deleteMany` keeps. */
  function KeyNotIn(keyCol: string, keyValues: seq<string>): Doc -> bool {
    row => KeyValue(row, keyCol) !in keyValues
  }

  /** The rows `deleteMany` drops and the rows it keeps make up the file,
      and it drops some exactly when some key read is listed. */
  lemma DeletedCount(rows: seq<Doc>, keyCol: string, keyValues: seq<string>)
    ensures |Where(rows, KeyIn(keyCol, keyValues))| + |Where(rows, KeyNotIn(keyCol, keyValues))| == |rows|
    ensures |Where(rows, KeyIn(keyCol, keyValues))| > 0 <==>
            exists i :: 0 <= i < |rows| && KeyValue(rows[i], keyCol) in keyValues
  {
    var keep := KeyNotIn(keyCol, keyValues);
    var drop := KeyIn(keyCol, keyValues);
    WherePartition(rows, drop);
    assert forall row :: keep(row) == !drop(row);
    WhereExt(rows, keep, row => !drop(row));
    WhereNonEmpty(rows, drop);
  }

  /** The filter keeps some row exactly when some row passes. */
  lemma WhereNonEmpty(rows: seq<Doc>, p: Doc -> bool)
    ensures |Where(rows, p)| > 0 <==> exists i :: 0 <= i < |rows| && p(rows[i])
  {
    WhereMembers(rows, p);
    if |Where(rows, p)| > 0 {
      assert Where(rows, p)[0] in Where(rows, p);
    }
  }

  lemma WhereStep(rows: seq<Doc>, i: nat, p: Doc -> bool)
    requires i < |rows|
    ensures Where(rows[..i + 1], p) == Where(rows[..i], p) + (if p(rows[i]) then [rows[i]] else [])
  {
    assert rows[..i + 1] == rows[..i] + [rows[i]];
    WhereSnoc(rows[..i], rows[i], p);
  }

  /** The loop of `deleteMany`: rows whose key read is one of `keyValues` are
      dropped and counted, the others kept in order. */
  method DeleteRows(rows: seq<Doc>, keyCol: string, keyValues: seq<string>)
    returns (newRows: seq<Doc>, deletedCount: nat)
    ensures newRows == Where(rows, KeyNotIn(keyCol, keyValues))
    ensures deletedCount + |newRows| == |rows|
    ensures deletedCount > 0 <==> exists i :: 0 <= i < |rows| && KeyValue(rows[i], keyCol) in keyValues
  {
    var keep := KeyNotIn(keyCol, keyValues);
    var drop := KeyIn(keyCol, keyValues);
    newRows := [];
    deletedCount := 0;
    for i := 0 to |rows|
      invariant newRows == Where(rows[..i], keep)
      invariant deletedCount == |Where(rows[..i], drop)|
    {
      WhereStep(rows, i, keep);
      WhereStep(rows, i, drop);
      var val := KeyValue(rows[i], keyCol);
      if val in keyValues {
        deletedCount := deletedCount + 1;
        continue;
      }
      newRows := newRows + [rows[i]];
    }
    assert rows[..|rows|] == rows;
    DeletedCount(rows, keyCol, keyValues);
  }

  lemma {:induction false} WhereExt(rows: seq<Doc>, p: Doc -> bool, q: Doc -> bool)
    requires forall row :: p(row) == q(row)
    ensures Where(rows, p) == Where(rows, q)
    decreases |rows|
  {
    if rows != [] { WhereExt(rows[1..], p, q); }
  }

  // ---------------------------------------------------------------------
  // addColumn
  // ---------------------------------------------------------------------

  /** `addColumn` on a `.json` file: a row with no field matching `col` up to
      case gets `col => ''` appended. */
  function AddColumnRows(rows: seq<Doc>, col: string): (r: seq<Doc>)
    ensures |r| == |rows|
  {
    seq(|rows|, i requires 0 <= i < |rows| =>
      if CiKey(rows[i], col).None? then Put(rows[i], col, "") else rows[i])
  }

  /** Afterwards every row has the column, existing fields keep their place
      and value, and only rows that lacked it grew, by one empty field. */
  lemma AddColumnRowsSpec(rows: seq<Doc>, col: string)
    ensures forall i :: 0 <= i < |rows| ==> CiKey(AddColumnRows(rows, col)[i], col).Some?
    ensures forall i :: 0 <= i < |rows| ==>
      var r := AddColumnRows(rows, col)[i];
      if CiKey(rows[i], col).None? then r == rows[i] + [(col, "")] else r == rows[i]
  {
    forall i | 0 <= i < |rows|
      ensures CiKey(AddColumnRows(rows, col)[i], col).Some?
      ensures var r := AddColumnRows(rows, col)[i];
        if CiKey(rows[i], col).None? then r == rows[i] + [(col, "")] else r == rows[i]
    {
      var row := rows[i];
      var r := AddColumnRows(rows, col)[i];
      if CiKey(row, col).None? {
        assert SameFieldName(col, col);
        assert r == row + [(col, "")];
        assert SameFieldName(r[|row|].0, col);
      }
    }
  }

  /** `addColumn` on a `.xls` file: refused (None) when a header already
      matches `col` up to case, else the header list with `col` appended. */
  function AddColumnHeaders(headers: seq<string>, col: string): (r: Option<seq<string>>)
    ensures r.None? <==> exists i :: 0 <= i < |headers| && SameFieldName(headers[i], col)
    ensures r.Some? ==> r.value == headers + [col]
  {
    if HeaderKey(headers, col).Some? then None else Some(headers + [col])
  }

  // ---------------------------------------------------------------------
  // removeDuplicates
  // ---------------------------------------------------------------------

  /** The truthy exact values of `col`, each with its row, in file order. */
  function ValuedRows(rows: seq<Doc>, col: string): (p: seq<(string, Doc)>)
    ensures forall j :: 0 <= j < |p| ==> Truthy(p[j].0) && p[j].1 in rows && ValueOrEmpty(p[j].1, col) == p[j].0
    ensures forall i :: 0 <= i < |rows| && Truthy(ValueOrEmpty(rows[i], col)) ==>
      (ValueOrEmpty(rows[i], col), rows[i]) in p
    decreases |rows|
  {
    if rows == [] then []
    else
      var n := |rows| - 1;
      var v := ValueOrEmpty(rows[n], col);
      ValuedRows(rows[..n], col) + (if Truthy(v) then [(v, rows[n])] else [])
  }

  /** `ksort`: entries ordered by key under the byte order of `strcmp`. */
  function KeyLe(a: (string, Doc), b: (string, Doc)): bool {
    a.0 == b.0 || LexLess(a.0, b.0)
  }

  lemma KeyLeTotalPreorder()
    ensures TotalPreorder(KeyLe)
  {
    forall a: (string, Doc), b: (string, Doc) ensures KeyLe(a, b) || KeyLe(b, a) {
      LexLessTotal(a.0, b.0);
    }
    forall a: (string, Doc), b: (string, Doc), c: (string, Doc) | KeyLe(a, b) && KeyLe(b, c)
      ensures KeyLe(a, c)
    {
      if a.0 != b.0 && b.0 != c.0 { LexLessTransitive(a.0, b.0, c.0); }
    }
  }

  /** `removeDuplicates` on a `.json` file: one row per distinct truthy
      value of `col` (the last row holding it), ordered by that value. */
  function RemoveDuplicates(rows: seq<Doc>, col: string): seq<Doc> {
    Values(SortBy(Assign(ValuedRows(rows, col)), KeyLe))
  }

  /** An entry of a run of assignments holds the last value assigned to its key. */
  lemma AssignedEntry<K, V>(s: seq<(K, V)>, e: (K, V))
    requires e in Assign(s)
    ensures LastAssigned(s, e.0) == Some(e.1)
  {
    AssignLastWins(s, e.0);
    var i :| 0 <= i < |Assign(s)| && Assign(s)[i] == e;
    UniqueIndex(Assign(s), e.0, i);
  }

  /** What `removeDuplicates` keeps: the values strictly increase, so no two
      kept rows share one; each kept row is the last row holding its value;
      and every truthy value of the file is kept. */
  lemma RemoveDuplicatesSpec(rows: seq<Doc>, col: string)
    ensures var kept := SortBy(Assign(ValuedRows(rows, col)), KeyLe);
      && (forall i, j :: 0 <= i < j < |kept| ==> LexLess(kept[i].0, kept[j].0))
      && (forall i :: 0 <= i < |kept| ==> Truthy(kept[i].0) && ValueOrEmpty(kept[i].1, col) == kept[i].0)
      && (forall i :: 0 <= i < |kept| ==> LastAssigned(ValuedRows(rows, col), kept[i].0) == Some(kept[i].1))
      && (forall i :: 0 <= i < |rows| && Truthy(ValueOrEmpty(rows[i], col)) ==>
            exists j :: 0 <= j < |kept| && kept[j].0 == ValueOrEmpty(rows[i], col))
  {
    var pairs := ValuedRows(rows, col);
    var m := Assign(pairs);
    var kept := SortBy(m, KeyLe);
    KeyLeTotalPreorder();
    SortBySorted(m, KeyLe);
    AssignLastWins(pairs, "");
    SortByDistinct(m, KeyLe);
    forall i | 0 <= i < |kept|
      ensures LastAssigned(pairs, kept[i].0) == Some(kept[i].1)
      ensures Truthy(kept[i].0) && ValueOrEmpty(kept[i].1, col) == kept[i].0
    {
      assert kept[i] in multiset(m);
      AssignedEntry(pairs, kept[i]);
    }
    forall i | 0 <= i < |rows| && Truthy(ValueOrEmpty(rows[i], col))
      ensures exists j :: 0 <= j < |kept| && kept[j].0 == ValueOrEmpty(rows[i], col)
    {
      var v := ValueOrEmpty(rows[i], col);
      assert (v, rows[i]) in pairs;
      AssignLastWins(pairs, v);
      var j :| 0 <= j < |m| && m[j] == (v, Get(m, v).value);
      assert m[j] in multiset(kept);
    }
  }

  // ---------------------------------------------------------------------
  // getUniqueValues
  // ---------------------------------------------------------------------

  /** The key reads of `getUniqueValues`, trimmed, in file order. */
  function TrimmedReads(rows: seq<Doc>, col: string): (vals: seq<string>)
    ensures |vals| == |rows|
    ensures forall i :: 0 <= i < |rows| ==> vals[i] == Trim(KeyValue(rows[i], col))
  {
    seq(|rows|, i requires 0 <= i < |rows| => Trim(KeyValue(rows[i], col)))
  }

  /** `$values[$v] = true` for each non-blank value, in order. */
  function NonBlankEntries(vals: seq<string>): (p: seq<(string, bool)>)
    ensures forall j :: 0 <= j < |p| ==> p[j].0 != "" && p[j].1 && p[j].0 in vals
    decreases |vals|
  {
    if vals == [] then []
    else
      var n := |vals| - 1;
      NonBlankEntries(vals[..n]) + (if vals[n] != "" then [(vals[n], true)] else [])
  }

  lemma {:induction false} NonBlankEntriesComplete(vals: seq<string>, i: nat)
    requires i < |vals| && vals[i] != ""
    ensures (vals[i], true) in NonBlankEntries(vals)
    decreases |vals|
  {
    var n := |vals| - 1;
    if i < n {
      assert vals[..n][i] == vals[i];
      NonBlankEntriesComplete(vals[..n], i);
    }
  }

  /** `array_keys` of the set: the distinct non-blank values, in order of
      first occurrence. */
  function DistinctNonBlank(vals: seq<string>): seq<string> {
    Keys(Assign(NonBlankEntries(vals)))
  }

  /** The distinct values are distinct, non-blank, and are exactly the
      non-blank values given. */
  lemma DistinctNonBlankSpec(vals: seq<string>)
    ensures var u := DistinctNonBlank(vals);
      && (forall i, j :: 0 <= i < j < |u| ==> u[i] != u[j])
      && (forall i :: 0 <= i < |u| ==> u[i] != "" && u[i] in vals)
      && (forall r :: 0 <= r < |vals| && vals[r] != "" ==> vals[r] in u)
  {
    var u := DistinctNonBlank(vals);
    AssignLastWins(NonBlankEntries(vals), "");
    forall i | 0 <= i < |u| ensures u[i] != "" && u[i] in vals {
      DistinctNonBlankSound(vals, i);
    }
    forall r | 0 <= r < |vals| && vals[r] != "" ensures vals[r] in u {
      DistinctNonBlankComplete(vals, r);
    }
  }

  lemma DistinctNonBlankSound(vals: seq<string>, i: nat)
    requires i < |DistinctNonBlank(vals)|
    ensures DistinctNonBlank(vals)[i] != "" && DistinctNonBlank(vals)[i] in vals
  {
    var m := Assign(NonBlankEntries(vals));
    AssignedEntry(NonBlankEntries(vals), m[i]);
  }

  lemma DistinctNonBlankComplete(vals: seq<string>, r: nat)
    requires r < |vals| && vals[r] != ""
    ensures vals[r] in DistinctNonBlank(vals)
  {
    var p := NonBlankEntries(vals);
    var m := Assign(p);
    NonBlankEntriesComplete(vals, r);
    AssignLastWins(p, vals[r]);
    var i :| 0 <= i < |m| && m[i] == (vals[r], true);
    assert DistinctNonBlank(vals)[i] == vals[r];
  }

  /** `getUniqueValues` on a `.json` file. */
  function UniqueValues(rows: seq<Doc>, col: string): seq<string> {
    DistinctNonBlank(TrimmedReads(rows, col))
  }

  // ---------------------------------------------------------------------
  // Period shards
  // ---------------------------------------------------------------------

  /** `getPortugueseMonth`: month 1-12 by name, anything else "Janeiro". */
  function MonthName(month: int): string {
    if month == 1 then "Janeiro" else if month == 2 then "Fevereiro"
    else if month == 3 then "Mar\U{e7}o" else if month == 4 then "Abril"
    else if month == 5 then "Maio" else if month == 6 then "Junho"
    else if month == 7 then "Julho" else if month == 8 then "Agosto"
    else if month == 9 then "Setembro" else if month == 10 then "Outubro"
    else if month == 11 then "Novembro" else if month == 12 then "Dezembro"
    else "Janeiro"
  }

  /** `resolvePeriodFile`: the shard of a (year, month). */
  function PeriodFile(year: string, month: int): string {
    "Processos/" + year + "/" + MonthName(month) + ".json"
  }

  /** The month a shard name stands for, 0 for none. */
  function MonthNumber(name: string): int {
    if name == "Janeiro" then 1 else if name == "Fevereiro" then 2
    else if name == "Mar\U{e7}o" then 3 else if name == "Abril" then 4
    else if name == "Maio" then 5 else if name == "Junho" then 6
    else if name == "Julho" then 7 else if name == "Agosto" then 8
    else if name == "Setembro" then 9 else if name == "Outubro" then 10
    else if name == "Novembro" then 11 else if name == "Dezembro" then 12
    else 0
  }

  /** Month names are read back to their month, so different months of the
      year name different shards; an out-of-range month falls back to
      January's. */
  lemma MonthNameRoundTrip(month: int)
    ensures 1 <= month <= 12 ==> MonthNumber(MonthName(month)) == month
    ensures !(1 <= month <= 12) ==> MonthName(month) == "Janeiro"
  {
  }

  /** The text before the first '/', or all of it. */
  function Segment(s: string): (r: string)
    ensures r <= s && '/' !in r
    decreases |s|
  {
    if s == [] || s[0] == '/' then [] else [s[0]] + Segment(s[1..])
  }

  lemma {:induction false} SegmentOf(y: string, rest: string)
    requires '/' !in y
    ensures Segment(y + "/" + rest) == y
    decreases |y|
  {
    if y != [] {
      assert (y + "/" + rest)[1..] == y[1..] + "/" + rest;
      SegmentOf(y[1..], rest);
    }
  }

  lemma PrefixCancel(pre: string, x1: string, x2: string)
    requires pre + x1 == pre + x2
    ensures x1 == x2
  {
    assert x1 == (pre + x1)[|pre|..];
  }

  lemma SplitShardName(y1: string, n1: string, y2: string, n2: string)
    requires '/' !in y1 && '/' !in y2
    requires "Processos/" + y1 + "/" + n1 + ".json" == "Processos/" + y2 + "/" + n2 + ".json"
    ensures y1 == y2 && n1 == n2
  {
    var rest1 := n1 + ".json";
    var rest2 := n2 + ".json";
    var x1 := y1 + "/" + rest1;
    var x2 := y2 + "/" + rest2;
    assert "Processos/" + y1 + "/" + n1 + ".json" == "Processos/" + x1;
    assert "Processos/" + y2 + "/" + n2 + ".json" == "Processos/" + x2;
    PrefixCancel("Processos/", x1, x2);
    SegmentOf(y1, rest1);
    SegmentOf(y2, rest2);
    PrefixCancel(y1 + "/", rest1, rest2);
    assert n1 == rest1[..|rest1| - 5];
    assert n2 == rest2[..|rest2| - 5];
  }

  /** Shards of different periods are different files, for years written
      without '/' (as `DateTime::format('Y')` writes them). */
  lemma PeriodFileInjective(y1: string, m1: int, y2: string, m2: int)
    requires '/' !in y1 && '/' !in y2
    requires 1 <= m1 <= 12 && 1 <= m2 <= 12
    requires PeriodFile(y1, m1) == PeriodFile(y2, m2)
    ensures y1 == y2 && m1 == m2
  {
    SplitShardName(y1, MonthName(m1), y2, MonthName(m2));
    MonthNameRoundTrip(m1);
    MonthNameRoundTrip(m2);
  }
}
