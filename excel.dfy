/**
  The spreadsheet codecs of the store.

  `ExcelParser` reads the first sheet of an `.xlsx` archive: every cell
  reference such as "AB12" is turned into a zero-based column index, the
  cells of a row are assigned to their columns, and the row is filled up to
  its highest column with "".

  `Database::readExcelXML` / `writeExcelXML` read and write the
  SpreadsheetML "XML spreadsheet 2003" files the store keeps as `.xls`: the
  first row holds the headers, every later row becomes a document keyed by
  header, and rows whose header cells are all empty are dropped.

  Both codecs are modelled on the document tree (rows of cells); ZIP, XML
  text and DOM traversal are not part of the model.
 */
module ExcelCodec {
  import opened Wrappers
  import opened OrderedMaps
  import opened Text
  import opened Documents

  // ---------------------------------------------------------------------
  // Column references
  // ---------------------------------------------------------------------

  /** The bijective base-26 value of a column reference ("A" = 1, "Z" = 26,
      "AA" = 27), each character counted as its upper-cased code minus 64. */
  function ColValue(col: string): int
    decreases |col|
  {
    if col == [] then 0
    else ColValue(col[..|col| - 1]) * 26 + (AsciiUpperChar(col[|col| - 1]) as int - 64)
  }

  /** `ExcelParser::colToIndex`: zero-based column index of a reference. */
  method ColToIndex(col: string) returns (idx: int)
    ensures idx == ColValue(col) - 1
  {
    var acc := 0;
    for i := 0 to |col|
      invariant acc == ColValue(col[..i])
    {
      assert col[..i + 1][..i] == col[..i];
      acc := acc * 26 + (AsciiUpperChar(col[i]) as int - 64);
    }
    assert col[..|col|] == col;
    idx := acc - 1;
  }

  /** A column reference as Excel writes it: non-empty, letters A-Z only. */
  predicate IsColumnRef(s: string) {
    |s| > 0 && forall i :: 0 <= i < |s| ==> 'A' <= s[i] <= 'Z'
  }

  /** The column reference of the zero-based index `n` ("A", …, "Z", "AA", …). */
  function ColumnName(n: nat): (s: string)
    decreases n
  {
    if n < 26 then [(65 + n) as char]
    else ColumnName(n / 26 - 1) + [(65 + n % 26) as char]
  }

  /** `colToIndex` inverts `ColumnName`: every index is read back. */
  lemma {:induction false} ColumnNameRoundTrip(n: nat)
    ensures IsColumnRef(ColumnName(n))
    ensures ColValue(ColumnName(n)) - 1 == n
    decreases n
  {
    var s := ColumnName(n);
    if n >= 26 {
      var p := ColumnName(n / 26 - 1);
      ColumnNameRoundTrip(n / 26 - 1);
      assert s[..|s| - 1] == p;
    }
  }

  /** ... and `ColumnName` inverts `colToIndex` on well-formed references, so
      the two are a bijection between references and indices. */
  lemma {:induction false} ColValueRoundTrip(s: string)
    requires IsColumnRef(s)
    ensures ColValue(s) >= 1
    ensures ColumnName(ColValue(s) - 1) == s
    decreases |s|
  {
    var n := |s| - 1;
    var d := s[n] as int - 64;
    if n == 0 {
      assert s == [s[0]];
    } else {
      var p := s[..n];
      ColValueRoundTrip(p);
      var v := ColValue(p) * 26 + d;
      assert (v - 1) / 26 - 1 == ColValue(p) - 1 && (v - 1) % 26 == d - 1;
      assert s == p + [s[n]];
    }
  }

  /** `preg_replace('/[0-9]+/', '', $ref)`: the reference without its digits. */
  function StripDigits(s: string): (r: string)
    ensures forall i :: 0 <= i < |r| ==> !('0' <= r[i] <= '9')
    decreases |s|
  {
    if s == [] then []
    else if '0' <= s[0] <= '9' then StripDigits(s[1..])
    else [s[0]] + StripDigits(s[1..])
  }

  predicate IsDigits(s: string) {
    forall i :: 0 <= i < |s| ==> '0' <= s[i] <= '9'
  }

  /** A cell reference such as "AB12" names the column of its letters. */
  lemma {:induction false} StripCellRef(col: string, rowNumber: string)
    requires IsColumnRef(col) && IsDigits(rowNumber)
    ensures StripDigits(col + rowNumber) == col
    decreases |col|
  {
    if col == [] {
      StripAllDigits(rowNumber);
    } else {
      assert (col + rowNumber)[1..] == col[1..] + rowNumber;
      if |col| == 1 {
        assert col[1..] + rowNumber == rowNumber;
        StripAllDigits(rowNumber);
        assert col == [col[0]];
      } else {
        StripCellRef(col[1..], rowNumber);
        assert col == [col[0]] + col[1..];
      }
    }
  }

  lemma {:induction false} StripAllDigits(s: string)
    requires IsDigits(s)
    ensures StripDigits(s) == []
    decreases |s|
  {
    if s != [] { StripAllDigits(s[1..]); }
  }

  // ---------------------------------------------------------------------
  // `.xlsx` rows: cell placement and the dense fill
  // ---------------------------------------------------------------------

  /** A cell of the sheet: its reference attribute and its resolved text. */
  datatype SheetCell = SheetCell(ref: string, value: string)

  /** The column each cell of a row is assigned to, in document order. */
  function SheetPlacement(cells: seq<SheetCell>): (p: seq<(int, string)>)
    ensures |p| == |cells|
    ensures forall j :: 0 <= j < |cells| ==>
      p[j] == (ColValue(StripDigits(cells[j].ref)) - 1, cells[j].value)
  {
    seq(|cells|, j requires 0 <= j < |cells| =>
      (ColValue(StripDigits(cells[j].ref)) - 1, cells[j].value))
  }

  /** The text a row ends up with in column `i`: the last cell assigned to
      it, or "" when none was. */
  function SheetCellAt(cells: seq<SheetCell>, i: int): string {
    match LastAssigned(SheetPlacement(cells), i)
    case Some(v) => v
    case None => ""
  }

  /** `max(array_keys($rowCells))` */
  function MaxKey<V>(m: OMap<int, V>): (r: int)
    requires m != []
    ensures HasKey(m, r)
    ensures forall i :: 0 <= i < |m| ==> m[i].0 <= r
    decreases |m|
  {
    if |m| == 1 then m[0].0
    else
      var t := MaxKey(m[1..]);
      assert forall i :: 1 <= i < |m| ==> m[i] == m[1..][i - 1];
      if m[0].0 >= t then m[0].0 else t
  }

  /** `$rowCells[$i] ?? ''` on an integer-keyed array. */
  function CellOr(m: OMap<int, string>, i: int): string {
    match Get(m, i)
    case Some(v) => v
    case None => ""
  }

  /** The cell loop of `ExcelParser::parseXLSX`: `$rowCells[$colIndex] = $val`. */
  method AssignCells(cells: seq<SheetCell>) returns (rowCells: OMap<int, string>)
    ensures rowCells == Assign(SheetPlacement(cells))
  {
    ghost var placement := SheetPlacement(cells);
    rowCells := [];
    for j := 0 to |cells|
      invariant rowCells == Assign(placement[..j])
    {
      var colIndex := ColToIndex(StripDigits(cells[j].ref));
      assert colIndex == placement[j].0;
      AssignStep(placement, j);
      rowCells := Put(rowCells, colIndex, cells[j].value);
    }
    assert placement[..|cells|] == placement;
  }

  /** The dense fill of `ExcelParser::parseXLSX`: positions 0 to the highest
      key, "" where no cell was assigned. */
  method DenseFill(rowCells: OMap<int, string>) returns (row: seq<string>)
    ensures rowCells == [] ==> row == []
    ensures rowCells != [] ==> |row| == if MaxKey(rowCells) < 0 then 0 else MaxKey(rowCells) + 1
    ensures forall i :: 0 <= i < |row| ==> row[i] == CellOr(rowCells, i)
  {
    row := [];
    if rowCells != [] {
      var maxIdx := MaxKey(rowCells);
      var i := 0;
      while i <= maxIdx
        invariant 0 <= i && (i <= maxIdx + 1 || i == 0)
        invariant |row| == i
        invariant forall k :: 0 <= k < i ==> row[k] == CellOr(rowCells, k)
      {
        row := row + [CellOr(rowCells, i)];
        i := i + 1;
      }
    }
  }

  /** One row of `ExcelParser::parseXLSX`. The row is exactly as wide as its
      highest referenced column, and every position holds the last text
      written to that column, or "". */
  method ParseSheetRow(cells: seq<SheetCell>) returns (row: seq<string>)
    ensures forall j :: 0 <= j < |cells| ==> ColValue(StripDigits(cells[j].ref)) - 1 < |row|
    ensures |row| > 0 ==> exists j :: 0 <= j < |cells| && ColValue(StripDigits(cells[j].ref)) - 1 == |row| - 1
    ensures forall i :: 0 <= i < |row| ==> row[i] == SheetCellAt(cells, i)
  {
    var rowCells := AssignCells(cells);
    row := DenseFill(rowCells);
    ghost var placement := SheetPlacement(cells);
    forall k | 0 <= k < |row| ensures row[k] == SheetCellAt(cells, k) {
      AssignLastWins(placement, k);
    }
    forall j | 0 <= j < |cells| ensures placement[j].0 < |row| {
      AssignLastWins(placement, placement[j].0);
      assert HasKey(rowCells, placement[j].0);
    }
    if |row| > 0 {
      AssignLastWins(placement, MaxKey(rowCells));
    }
  }

  // ---------------------------------------------------------------------
  // SpreadsheetML (`.xls`) tables
  // ---------------------------------------------------------------------

  /** A `<Cell>` element: its optional 1-based `ss:Index` attribute (already
      cast to an integer) and the text of its `<Data>` child ("" if none). */
  datatype XmlCell = XmlCell(index: Option<int>, value: string)

  /** The table a `.xls` file holds: headers by column index, and documents. */
  datatype Table = Table(headers: OMap<int, string>, data: seq<Doc>)

  /** The column cell `j` of a row lands in: its `ss:Index` minus one when it
      has one, otherwise one past the column of the cell before it. */
  function Column(cells: seq<XmlCell>, j: nat): int
    requires j < |cells|
    decreases j
  {
    match cells[j].index
    case Some(k) => k - 1
    case None => if j == 0 then 0 else Column(cells, j - 1) + 1
  }

  function Placement(cells: seq<XmlCell>): (p: seq<(int, string)>)
    ensures |p| == |cells|
    ensures forall j :: 0 <= j < |cells| ==> p[j] == (Column(cells, j), cells[j].value)
  {
    seq(|cells|, j requires 0 <= j < |cells| => (Column(cells, j), cells[j].value))
  }

  /** The cells of one `<Row>` assigned to their columns, last write winning. */
  function RowData(cells: seq<XmlCell>): OMap<int, string> {
    Assign(Placement(cells))
  }

  /** The cells of a row land on distinct columns, each holding the value of
      the last cell placed there. */
  lemma RowDataSpec(cells: seq<XmlCell>)
    ensures UniqueKeys(RowData(cells))
    ensures forall c :: Get(RowData(cells), c) == LastAssigned(Placement(cells), c)
  {
    forall c ensures Get(RowData(cells), c) == LastAssigned(Placement(cells), c) {
      AssignLastWins(Placement(cells), c);
    }
    AssignLastWins(Placement(cells), 0);
  }

  /** One cell of the loop: the running index is the cell's column, and the
      assignment extends the run. */
  lemma PlaceStep(cells: seq<XmlCell>, j: nat, colIndex: int)
    requires j < |cells|
    requires colIndex == if j == 0 then 0 else Column(cells, j - 1) + 1
    ensures var col := if cells[j].index.Some? then cells[j].index.value - 1 else colIndex;
      col == Column(cells, j) &&
      Assign(Placement(cells)[..j + 1]) == Put(Assign(Placement(cells)[..j]), col, cells[j].value)
  {
    AssignStep(Placement(cells), j);
  }

  /** The inner loop of `readExcelXML`: the running column index. */
  method PlaceCells(cells: seq<XmlCell>) returns (rowData: OMap<int, string>)
    ensures rowData == RowData(cells)
    ensures UniqueKeys(rowData)
    ensures forall c :: Get(rowData, c) == LastAssigned(Placement(cells), c)
  {
    rowData := [];
    var colIndex := 0;
    for j := 0 to |cells|
      invariant rowData == Assign(Placement(cells)[..j])
      invariant colIndex == if j == 0 then 0 else Column(cells, j - 1) + 1
    {
      PlaceStep(cells, j, colIndex);
      if cells[j].index.Some? {
        colIndex := cells[j].index.value - 1;
      }
      rowData := Put(rowData, colIndex, cells[j].value);
      colIndex := colIndex + 1;
    }
    assert Placement(cells)[..|cells|] == Placement(cells);
    RowDataSpec(cells);
  }

  function TrimmedPairs(rowData: OMap<int, string>): (p: seq<(int, string)>)
    ensures |p| == |rowData|
    ensures forall k :: 0 <= k < |rowData| ==> p[k] == (rowData[k].0, Trim(rowData[k].1))
  {
    seq(|rowData|, k requires 0 <= k < |rowData| => (rowData[k].0, Trim(rowData[k].1)))
  }

  /** The headers the first row defines: its cells, trimmed. */
  function HeaderRow(rowData: OMap<int, string>): OMap<int, string> {
    Assign(TrimmedPairs(rowData))
  }

  /** The header loop of `readExcelXML`. */
  method ReadHeaders(rowData: OMap<int, string>) returns (headers: OMap<int, string>)
    ensures headers == HeaderRow(rowData)
    ensures forall k :: 0 <= k < |headers| ==> Trim(headers[k].1) == headers[k].1
  {
    ghost var pairs := TrimmedPairs(rowData);
    headers := [];
    for k := 0 to |rowData|
      invariant headers == Assign(pairs[..k])
      invariant forall i :: 0 <= i < |headers| ==> Trim(headers[i].1) == headers[i].1
    {
      assert pairs[k] == (rowData[k].0, Trim(rowData[k].1));
      AssignStep(pairs, k);
      TrimIdempotent(rowData[k].1);
      PutKeepsTrimmed(headers, rowData[k].0, Trim(rowData[k].1));
      headers := Put(headers, rowData[k].0, Trim(rowData[k].1));
    }
    assert pairs[..|rowData|] == pairs;
  }

  lemma PutKeepsTrimmed(headers: OMap<int, string>, c: int, v: string)
    requires forall i :: 0 <= i < |headers| ==> Trim(headers[i].1) == headers[i].1
    requires Trim(v) == v
    ensures forall i :: 0 <= i < |Put(headers, c, v)| ==> Trim(Put(headers, c, v)[i].1) == Put(headers, c, v)[i].1
  {
    forall i | 0 <= i < |Put(headers, c, v)| ensures Trim(Put(headers, c, v)[i].1) == Put(headers, c, v)[i].1 {
      PutEntry(headers, c, v, i);
    }
  }

  lemma TrimIdempotent(s: string)
    ensures Trim(Trim(s)) == Trim(s)
  {
    var t := Trim(s);
    assert t == [] || (!IsTrimChar(t[0]) && !IsTrimChar(t[|t| - 1]));
  }

  function MappedPairs(headers: OMap<int, string>, rowData: OMap<int, string>): (p: seq<(string, string)>)
    ensures |p| == |headers|
    ensures forall i :: 0 <= i < |headers| ==> p[i] == (headers[i].1, CellOr(rowData, headers[i].0))
  {
    seq(|headers|, i requires 0 <= i < |headers| => (headers[i].1, CellOr(rowData, headers[i].0)))
  }

  /** The document a data row maps to: header name to the text in that
      header's column, or "" (a later header with a repeated name wins). */
  function MappedRow(headers: OMap<int, string>, rowData: OMap<int, string>): Doc {
    Assign(MappedPairs(headers, rowData))
  }

  /** Some of the first `n` headers' columns holds a non-empty text. */
  predicate HasDataBefore(headers: OMap<int, string>, rowData: OMap<int, string>, n: int) {
    exists i :: 0 <= i < n && i < |headers| && CellOr(rowData, headers[i].0) != ""
  }

  /** Some header's column holds a non-empty text. */
  predicate HasData(headers: OMap<int, string>, rowData: OMap<int, string>) {
    HasDataBefore(headers, rowData, |headers|)
  }

  /** The data-row loop of `readExcelXML`. */
  method MapRow(headers: OMap<int, string>, rowData: OMap<int, string>)
    returns (mapped: Doc, hasData: bool)
    ensures mapped == MappedRow(headers, rowData)
    ensures hasData <==> HasData(headers, rowData)
  {
    ghost var pairs := MappedPairs(headers, rowData);
    mapped := [];
    hasData := false;
    for i := 0 to |headers|
      invariant mapped == Assign(pairs[..i])
      invariant hasData == HasDataBefore(headers, rowData, i)
    {
      var val := CellOr(rowData, headers[i].0);
      assert pairs[i] == (headers[i].1, val);
      AssignStep(pairs, i);
      mapped := Put(mapped, headers[i].1, val);
      if val != "" {
        hasData := true;
        assert HasDataBefore(headers, rowData, i + 1) by {
          assert CellOr(rowData, headers[i].0) != "";
        }
      } else if hasData {
        var k :| 0 <= k < i && k < |headers| && CellOr(rowData, headers[k].0) != "";
        assert HasDataBefore(headers, rowData, i + 1);
      }
    }
    assert pairs[..|headers|] == pairs;
  }

  /** The documents the rows after the header row yield, blank rows dropped. */
  function DataRows(headers: OMap<int, string>, rows: seq<seq<XmlCell>>): seq<Doc>
    decreases |rows|
  {
    if rows == [] then []
    else
      var last := RowData(rows[|rows| - 1]);
      DataRows(headers, rows[..|rows| - 1]) +
      (if HasData(headers, last) then [MappedRow(headers, last)] else [])
  }

  /** The table a document with the rows `grid` holds. */
  function TableOf(grid: seq<seq<XmlCell>>): Table {
    if grid == [] then Table([], [])
    else
      var headers := HeaderRow(RowData(grid[0]));
      Table(headers, DataRows(headers, grid[1..]))
  }

  lemma DataRowsStep(headers: OMap<int, string>, grid: seq<seq<XmlCell>>, r: nat)
    requires 1 <= r < |grid|
    ensures DataRows(headers, grid[1..r + 1]) ==
      DataRows(headers, grid[1..r]) +
      (if HasData(headers, RowData(grid[r])) then [MappedRow(headers, RowData(grid[r]))] else [])
  {
    assert grid[1..r + 1][..r - 1] == grid[1..r];
    assert grid[1..r + 1][r - 1] == grid[r];
  }

  /** `readExcelXML` on a parsed document: the first row gives the headers,
      every other row becomes a document unless it is blank. */
  method ReadTable(grid: seq<seq<XmlCell>>) returns (t: Table)
    ensures t == TableOf(grid)
  {
    t := Table([], []);
    for r := 0 to |grid|
      invariant r == 0 ==> t == Table([], [])
      invariant r > 0 ==> t.headers == HeaderRow(RowData(grid[0])) && t.data == DataRows(t.headers, grid[1..r])
    {
      var rowData := PlaceCells(grid[r]);
      if r == 0 {
        var headers := ReadHeaders(rowData);
        t := Table(headers, []);
      } else {
        var mapped, hasData := MapRow(t.headers, rowData);
        DataRowsStep(t.headers, grid, r);
        if hasData {
          t := t.(data := t.data + [mapped]);
        }
      }
    }
    if |grid| > 0 {
      assert grid[1..|grid|] == grid[1..];
    }
  }

  /** `writeExcelXML($path, $headers, $data)` on the document level: a header
      row, then for each document one row of `$row[$h] ?? ''` per header. */
  function WriteGrid(headers: seq<string>, data: seq<Doc>): (g: seq<seq<XmlCell>>)
    ensures |g| == |data| + 1
  {
    [HeaderCells(headers)] + seq(|data|, r requires 0 <= r < |data| => DataCells(headers, data[r]))
  }

  function HeaderCells(headers: seq<string>): seq<XmlCell> {
    seq(|headers|, i requires 0 <= i < |headers| => XmlCell(None, headers[i]))
  }

  function DataCells(headers: seq<string>, row: Doc): seq<XmlCell> {
    seq(|headers|, i requires 0 <= i < |headers| => XmlCell(None, ValueOrEmpty(row, headers[i])))
  }

  predicate Distinct(s: seq<string>) {
    forall i, j :: 0 <= i < j < |s| ==> s[i] != s[j]
  }

  /** Header names as `writeExcelXML` receives them back from a read. */
  predicate CleanHeaders(headers: seq<string>) {
    Distinct(headers) && forall i :: 0 <= i < |headers| ==> Trim(headers[i]) == headers[i]
  }

  /** The headers as a read returns them: column index to name. */
  function Indexed(headers: seq<string>): (m: OMap<int, string>)
    ensures |m| == |headers|
    ensures forall i :: 0 <= i < |headers| ==> m[i] == (i, headers[i])
  {
    seq(|headers|, i requires 0 <= i < |headers| => (i, headers[i]))
  }

  /** A document cut down to the headers, in header order. */
  function Projection(headers: seq<string>, row: Doc): (p: Doc)
    ensures |p| == |headers|
    ensures forall i :: 0 <= i < |headers| ==> p[i] == (headers[i], ValueOrEmpty(row, headers[i]))
  {
    seq(|headers|, i requires 0 <= i < |headers| => (headers[i], ValueOrEmpty(row, headers[i])))
  }

  /** With distinct headers, the projection reads every header as the
      document does (missing fields as ""), has no other key, and
      projecting it again changes nothing. */
  lemma ProjectionReads(headers: seq<string>, row: Doc)
    requires Distinct(headers)
    ensures UniqueKeys(Projection(headers, row))
    ensures forall i :: 0 <= i < |headers| ==>
      Get(Projection(headers, row), headers[i]) == Some(ValueOrEmpty(row, headers[i]))
    ensures forall k :: HasKey(Projection(headers, row), k) <==> k in headers
    ensures Projection(headers, Projection(headers, row)) == Projection(headers, row)
  {
    var p := Projection(headers, row);
    forall i | 0 <= i < |headers|
      ensures Get(p, headers[i]) == Some(ValueOrEmpty(row, headers[i]))
    {
      UniqueIndex(p, headers[i], i);
    }
    forall k | k in headers
      ensures HasKey(p, k)
    {
      var i :| 0 <= i < |headers| && headers[i] == k;
      assert p[i].0 == k;
    }
    assert forall i :: 0 <= i < |headers| ==> ValueOrEmpty(p, headers[i]) == ValueOrEmpty(row, headers[i]);
  }

  predicate NonBlank(headers: seq<string>, row: Doc) {
    exists i :: 0 <= i < |headers| && ValueOrEmpty(row, headers[i]) != ""
  }

  /** The projections of the documents that have a non-empty header field. */
  function Surviving(headers: seq<string>, data: seq<Doc>): seq<Doc>
    decreases |data|
  {
    if data == [] then []
    else
      var last := data[|data| - 1];
      Surviving(headers, data[..|data| - 1]) +
      (if NonBlank(headers, last) then [Projection(headers, last)] else [])
  }

  /** Cells written without `ss:Index` land in consecutive columns. */
  lemma {:induction false} ConsecutiveColumns(cells: seq<XmlCell>, j: nat)
    requires forall k :: 0 <= k < |cells| ==> cells[k].index.None?
    requires j < |cells|
    ensures Column(cells, j) == j
    decreases j
  {
    if j > 0 { ConsecutiveColumns(cells, j - 1); }
  }

  lemma WrittenRowData(cells: seq<XmlCell>)
    requires forall k :: 0 <= k < |cells| ==> cells[k].index.None?
    ensures RowData(cells) == seq(|cells|, i requires 0 <= i < |cells| => (i, cells[i].value))
  {
    var p := Placement(cells);
    forall j | 0 <= j < |cells| ensures p[j] == (j, cells[j].value) {
      ConsecutiveColumns(cells, j);
    }
    AssignDistinct(p);
  }

  /** Each column of a written data row holds that header's value. */
  lemma WrittenCells(headers: seq<string>, row: Doc)
    ensures forall i :: 0 <= i < |headers| ==>
              CellOr(RowData(DataCells(headers, row)), i) == ValueOrEmpty(row, headers[i])
  {
    var cells := DataCells(headers, row);
    var rd := RowData(cells);
    WrittenRowData(cells);
    forall i | 0 <= i < |headers| ensures CellOr(rd, i) == ValueOrEmpty(row, headers[i]) {
      UniqueIndex(rd, i, i);
    }
  }

  /** Reading a written data row gives the row's projection on the headers. */
  lemma WrittenDataRow(headers: seq<string>, row: Doc)
    requires Distinct(headers)
    ensures MappedRow(Indexed(headers), RowData(DataCells(headers, row))) == Projection(headers, row)
    ensures HasData(Indexed(headers), RowData(DataCells(headers, row))) <==> NonBlank(headers, row)
  {
    var rd := RowData(DataCells(headers, row));
    WrittenCells(headers, row);
    var pairs := MappedPairs(Indexed(headers), rd);
    assert pairs == Projection(headers, row);
    AssignDistinct(pairs);
  }

  lemma {:induction false} WrittenDataRows(headers: seq<string>, data: seq<Doc>)
    requires Distinct(headers)
    ensures DataRows(Indexed(headers), WriteGrid(headers, data)[1..]) == Surviving(headers, data)
    decreases |data|
  {
    var rows := WriteGrid(headers, data)[1..];
    if data != [] {
      var n := |data| - 1;
      WrittenDataRows(headers, data[..n]);
      assert rows[..n] == WriteGrid(headers, data[..n])[1..];
      WrittenDataRow(headers, data[n]);
    }
  }

  /** Writing a table and reading it back yields the headers by column, and
      each document cut down to the headers, except documents whose header
      fields are all empty, which are lost. */
  lemma TableRoundTrip(headers: seq<string>, data: seq<Doc>)
    requires CleanHeaders(headers)
    ensures TableOf(WriteGrid(headers, data)) == Table(Indexed(headers), Surviving(headers, data))
  {
    var g := WriteGrid(headers, data);
    WrittenRowData(g[0]);
    var h := Indexed(headers);
    assert TrimmedPairs(RowData(g[0])) == h;
    AssignDistinct(h);
    WrittenDataRows(headers, data);
  }

  /** A document whose keys are exactly the headers, in order, and that has
      some non-empty field survives the round trip unchanged. */
  lemma {:induction false} SurvivingExact(headers: seq<string>, data: seq<Doc>)
    requires Distinct(headers)
    requires forall r :: 0 <= r < |data| ==> ExactRow(headers, data[r])
    ensures Surviving(headers, data) == data
    decreases |data|
  {
    if data != [] {
      var n := |data| - 1;
      SurvivingSnoc(headers, data);
      ExactPrefix(headers, data, data[..n]);
      SurvivingExact(headers, data[..n]);
      ExactSurvives(headers, data[n]);
      LastSplit(data);
    }
  }

  lemma ExactPrefix(headers: seq<string>, data: seq<Doc>, prefix: seq<Doc>)
    requires data != [] && prefix == data[..|data| - 1]
    requires forall r :: 0 <= r < |data| ==> ExactRow(headers, data[r])
    ensures forall r :: 0 <= r < |prefix| ==> ExactRow(headers, prefix[r])
    ensures ExactRow(headers, data[|data| - 1])
  {
  }

  lemma ExactSurvives(headers: seq<string>, row: Doc)
    requires Distinct(headers) && ExactRow(headers, row)
    ensures NonBlank(headers, row) && Projection(headers, row) == row
  {
    ProjectionOfExact(headers, row);
  }

  lemma LastSplit<T>(s: seq<T>)
    requires s != []
    ensures s == s[..|s| - 1] + [s[|s| - 1]]
  {
  }

  lemma SurvivingSnoc(headers: seq<string>, data: seq<Doc>)
    requires data != []
    ensures var n := |data| - 1;
      Surviving(headers, data) == Surviving(headers, data[..n]) +
        (if NonBlank(headers, data[n]) then [Projection(headers, data[n])] else [])
  {
  }

  /** A document keyed by exactly the headers, in order, with some value set. */
  predicate ExactRow(headers: seq<string>, row: Doc) {
    Keys(row) == headers && NonBlank(headers, row)
  }

  lemma ProjectionOfExact(headers: seq<string>, row: Doc)
    requires Distinct(headers) && Keys(row) == headers
    ensures Projection(headers, row) == row
  {
    assert UniqueKeys(row) by {
      forall i, j | 0 <= i < j < |row| ensures row[i].0 != row[j].0 {
        assert Keys(row)[i] == row[i].0 && Keys(row)[j] == row[j].0;
      }
    }
    forall i | 0 <= i < |headers| ensures Projection(headers, row)[i] == row[i] {
      assert Keys(row)[i] == row[i].0;
      UniqueIndex(row, headers[i], i);
    }
  }

  /** Hence a table of such documents is read back exactly as written. */
  lemma TableRoundTripExact(headers: seq<string>, data: seq<Doc>)
    requires CleanHeaders(headers)
    requires forall r :: 0 <= r < |data| ==> ExactRow(headers, data[r])
    ensures TableOf(WriteGrid(headers, data)) == Table(Indexed(headers), data)
  {
    TableRoundTrip(headers, data);
    SurvivingExact(headers, data);
  }
}
