/**
  The query layer of `select`: the AND-ed row filters, the comparator of the
  sort (blank values last, then the attendant ordering or the normalised
  value ordering), the choice between sorting, reversing and leaving the rows
  alone, and the `array_slice` pagination.
 */
module Query {
  import opened Wrappers
  import opened OrderedMaps
  import opened Text
  import opened Documents
  import opened Sorting
  import opened Store

  // ---------------------------------------------------------------------
  // Filters
  // ---------------------------------------------------------------------

  /** One entry of the `$filters` array: the `global` substring search, the
      `callback` predicate, or a field compared with a value. */
  datatype Filter =
    | Global(needle: string)
    | Callback(accept: Doc -> bool)
    | Field(name: string, value: string)

  /** Whether a row passes one filter. A field filter compares the value of
      the first field whose name matches up to case; a row without such a
      field (or whose matching field name is falsy) passes only the empty
      value. */
  predicate Passes(f: Filter, row: Doc) {
    match f
    case Global(needle) => exists i :: 0 <= i < |row| && OccursCI(needle, row[i].1)
    case Callback(accept) => accept(row)
    case Field(name, value) =>
      match CiKey(row, name)
      case Some(k) => if Truthy(k) then ValueOrEmpty(row, k) == value else value == ""
      case None => value == ""
  }

  /** A row is kept when it passes every filter. */
  predicate Matches(filters: seq<Filter>, row: Doc) {
    forall i :: 0 <= i < |filters| ==> Passes(filters[i], row)
  }

  function MatchesAll(filters: seq<Filter>): Doc -> bool {
    row => Matches(filters, row)
  }

  /** On a row whose field names do not collide up to case, and whose field
      matching `name` has a truthy name, a field filter keeps the row exactly
      when `get_value_ci` reads the filter's value there (a missing field
      reads as ""). */
  lemma FieldFilterReadsValueCI(row: Doc, name: string, value: string)
    requires CiUnique(row)
    requires CiKey(row, name).Some? ==> Truthy(CiKey(row, name).value)
    ensures Passes(Field(name, value), row) <==> GetValueCI(row, name) == value
  {
    ExactIsFirstMatch(row, name);
    assert UniqueKeys(row) by {
      forall i, j | 0 <= i < j < |row| ensures row[i].0 != row[j].0 {
        assert !SameFieldName(row[i].0, row[j].0);
      }
    }
    if CiIndex(row, name).Some? {
      var i := CiIndex(row, name).value;
      UniqueIndex(row, row[i].0, i);
    }
  }

  /** The global filter keeps a row exactly when some value contains the
      needle, at some position, up to ASCII case. */
  lemma GlobalFilterFindsValue(row: Doc, needle: string)
    ensures Passes(Global(needle), row) <==>
            exists i, j :: 0 <= i < |row| && MatchAt(Lower(needle), Lower(row[i].1), j)
  {
    forall i | 0 <= i < |row| {
      OccursAt(Lower(needle), Lower(row[i].1));
    }
  }

  // ---------------------------------------------------------------------
  // The comparator
  // ---------------------------------------------------------------------

  /** `trim((string)get_value_ci($row, $sortKey)) === ''` */
  predicate Blank(row: Doc, key: string) {
    Trim(GetValueCI(row, key)) == ""
  }

  /** -1 when the first sorts first, in ascending or descending order. */
  function Ordered(less: bool, desc: bool): (c: int)
    ensures c == -1 || c == 1
    ensures (c == -1) <==> (less != desc)
  {
    if less then (if desc then 1 else -1) else (if desc then -1 else 1)
  }

  /** `strtolower(trim($raw))`: the attendant name compared first. */
  function NameOf(row: Doc, key: string): string {
    Lower(Trim(GetValueCI(row, key)))
  }

  /** `$row['Ultima_Alteracao'] ?? ($row['DATA'] ?? '')` */
  function ChangedAt(row: Doc): string {
    match Get(row, "Ultima_Alteracao")
    case Some(v) => v
    case None => ValueOrEmpty(row, "DATA")
  }

  /** What the comparator looks at in a row: whether the sort field is
      blank, the attendant name, the normalised change date and the
      normalised sort value. */
  datatype SortView = SortView(blank: bool, name: string, stamp: int, value: int)

  /** `norm` stands for the normalisation of dates, currency and digit
      strings: an ordered key per value. */
  function ViewOf(key: string, norm: string -> int, row: Doc): (v: SortView)
    ensures v.blank == Blank(row, key)
  {
    SortView(Blank(row, key), NameOf(row, key), norm(ChangedAt(row)), norm(GetValueCI(row, key)))
  }

  /** The comparison of two views: blanks last and equal among themselves;
      then, for an attendant column, by name (in the requested direction) and
      by change date (always most recent first); otherwise by normalised
      value in the requested direction. */
  function CompareViews(attendant: bool, desc: bool, x: SortView, y: SortView): (c: int)
    ensures -1 <= c <= 1
    ensures x.blank && !y.blank ==> c == 1
    ensures !x.blank && y.blank ==> c == -1
    ensures x.blank && y.blank ==> c == 0
  {
    if x.blank && !y.blank then 1
    else if !x.blank && y.blank then -1
    else if x.blank && y.blank then 0
    else if attendant then
      if x.name != y.name then Ordered(LexLess(x.name, y.name), desc)
      else if x.stamp == y.stamp then 0
      else if x.stamp < y.stamp then 1 else -1
    else if x.value == y.value then 0
    else Ordered(x.value < y.value, desc)
  }

  /** The `usort` callback of `select`. */
  function Compare(key: string, desc: bool, norm: string -> int, a: Doc, b: Doc): (c: int)
    ensures -1 <= c <= 1
    ensures Blank(a, key) && !Blank(b, key) ==> c == 1
    ensures !Blank(a, key) && Blank(b, key) ==> c == -1
    ensures Blank(a, key) && Blank(b, key) ==> c == 0
  {
    CompareViews(OccursCI("atendente", key), desc, ViewOf(key, norm, a), ViewOf(key, norm, b))
  }

  lemma CompareViewsAntisymmetric(attendant: bool, desc: bool, x: SortView, y: SortView)
    ensures CompareViews(attendant, desc, x, y) == -CompareViews(attendant, desc, y, x)
  {
    LexLessTotal(x.name, y.name);
    LexLessAsymmetric(x.name, y.name);
  }

  lemma CompareViewsTransitive(attendant: bool, desc: bool, x: SortView, y: SortView, z: SortView)
    requires CompareViews(attendant, desc, x, y) <= 0 && CompareViews(attendant, desc, y, z) <= 0
    ensures CompareViews(attendant, desc, x, z) <= 0
  {
    if !x.blank && !y.blank && !z.blank && attendant {
      LexLessTotal(x.name, y.name);
      LexLessTotal(y.name, z.name);
      LexLessTotal(x.name, z.name);
      LexLessAsymmetric(x.name, y.name);
      LexLessAsymmetric(y.name, z.name);
      LexLessAsymmetric(x.name, z.name);
      if LexLess(x.name, y.name) && LexLess(y.name, z.name) {
        LexLessTransitive(x.name, y.name, z.name);
      }
      if LexLess(z.name, y.name) && LexLess(y.name, x.name) {
        LexLessTransitive(z.name, y.name, x.name);
      }
    }
  }

  /** Swapping the arguments negates the comparison. */
  lemma CompareAntisymmetric(key: string, desc: bool, norm: string -> int, a: Doc, b: Doc)
    ensures Compare(key, desc, norm, a, b) == -Compare(key, desc, norm, b, a)
  {
    CompareViewsAntisymmetric(OccursCI("atendente", key), desc, ViewOf(key, norm, a), ViewOf(key, norm, b));
  }

  /** "Sorts no later than" is transitive. */
  lemma CompareTransitive(key: string, desc: bool, norm: string -> int, a: Doc, b: Doc, c: Doc)
    requires Compare(key, desc, norm, a, b) <= 0 && Compare(key, desc, norm, b, c) <= 0
    ensures Compare(key, desc, norm, a, c) <= 0
  {
    CompareViewsTransitive(OccursCI("atendente", key), desc,
                           ViewOf(key, norm, a), ViewOf(key, norm, b), ViewOf(key, norm, c));
  }

  /** The relation `usort` sorts by: `a` may come before `b`. */
  function SortLe(key: string, desc: bool, norm: string -> int): (Doc, Doc) -> bool {
    (a: Doc, b: Doc) => Compare(key, desc, norm, a, b) <= 0
  }

  /** The comparator is a total preorder, so a stable sort by it has exactly
      one result. */
  lemma SortLeTotalPreorder(key: string, desc: bool, norm: string -> int)
    ensures TotalPreorder(SortLe(key, desc, norm))
  {
    var le := SortLe(key, desc, norm);
    forall a, b ensures le(a, b) || le(b, a) {
      CompareAntisymmetric(key, desc, norm, a, b);
    }
    forall a, b, c | le(a, b) && le(b, c) ensures le(a, c) {
      CompareTransitive(key, desc, norm, a, b, c);
    }
  }

  /** In rows sorted by the comparator, in either direction, no row with a
      value comes after a row whose value is blank. */
  lemma BlanksLast(rows: seq<Doc>, key: string, desc: bool, norm: string -> int)
    requires Sorted(rows, SortLe(key, desc, norm))
    ensures forall i, j :: 0 <= i < j < |rows| && Blank(rows[i], key) ==> Blank(rows[j], key)
  {
    forall i, j | 0 <= i < j < |rows| && Blank(rows[i], key) ensures Blank(rows[j], key) {
      var a, b := rows[i], rows[j];
      assert SortLe(key, desc, norm)(a, b);
      BlankSortsOnlyBeforeBlank(key, desc, norm, a, b);
    }
  }

  lemma BlankSortsOnlyBeforeBlank(key: string, desc: bool, norm: string -> int, a: Doc, b: Doc)
    requires Compare(key, desc, norm, a, b) <= 0 && Blank(a, key)
    ensures Blank(b, key)
  {
  }

  // ---------------------------------------------------------------------
  // Sort dispatch
  // ---------------------------------------------------------------------

  /** `array_reverse` */
  function Reverse<T>(s: seq<T>): (r: seq<T>)
    ensures |r| == |s| && forall i :: 0 <= i < |s| ==> r[i] == s[|s| - 1 - i]
    decreases |s|
  {
    if s == [] then [] else [s[|s| - 1]] + Reverse(s[..|s| - 1])
  }

  lemma {:induction false} ReversePermutes<T>(s: seq<T>)
    ensures multiset(Reverse(s)) == multiset(s)
    decreases |s|
  {
    if s != [] {
      ReversePermutes(s[..|s| - 1]);
      assert s == s[..|s| - 1] + [s[|s| - 1]];
    }
  }

  /** The key `select` sorts by: the first header matching `sortBy` up to
      case, when `sortBy` is truthy and that header name is truthy. */
  function SortKey(headers: seq<string>, sortBy: string): (k: Option<string>)
    ensures k.Some? ==> Truthy(sortBy) && Truthy(k.value) && k.value in headers && SameFieldName(k.value, sortBy)
    ensures k.Some? ==> exists i :: FirstHeader(headers, sortBy, i) && headers[i] == k.value
    ensures Truthy(sortBy) && (exists i :: FirstHeader(headers, sortBy, i) && Truthy(headers[i])) ==> k.Some?
    ensures Truthy(sortBy) && (forall i :: 0 <= i < |headers| && SameFieldName(headers[i], sortBy) ==> !Truthy(headers[i]))
            ==> k.None?
  {
    if !Truthy(sortBy) then None
    else match HeaderKey(headers, sortBy)
      case Some(h) =>
        if Truthy(h) then Some(h)
        else
          assert forall i :: FirstHeader(headers, sortBy, i) ==> headers[i] == h by {
            forall i | FirstHeader(headers, sortBy, i)
              ensures headers[i] == h
            {
              var i' :| FirstHeader(headers, sortBy, i') && headers[i'] == h;
              FirstHeaderUnique(headers, sortBy, i, i');
            }
          }
          None
      case None => None
  }

  /** The order `select` returns the filtered rows in: sorted by the
      comparator when a sort key resolves, reversed when `sortBy` is falsy,
      as collected otherwise. */
  function Arrange(lines: seq<Doc>, headers: seq<string>, sortBy: string, desc: bool, norm: string -> int): (r: seq<Doc>)
    ensures multiset(r) == multiset(lines)
    ensures SortKey(headers, sortBy).Some? ==> Sorted(r, SortLe(SortKey(headers, sortBy).value, desc, norm))
    ensures !Truthy(sortBy) ==> |r| == |lines| && forall i :: 0 <= i < |lines| ==> r[i] == lines[|lines| - 1 - i]
    ensures Truthy(sortBy) && SortKey(headers, sortBy).None? ==> r == lines
  {
    if !Truthy(sortBy) then
      ReversePermutes(lines);
      Reverse(lines)
    else match SortKey(headers, sortBy)
      case Some(k) =>
        SortLeTotalPreorder(k, desc, norm);
        SortBySorted(lines, SortLe(k, desc, norm));
        SortBy(lines, SortLe(k, desc, norm))
      case None => lines
  }

  // ---------------------------------------------------------------------
  // Pagination
  // ---------------------------------------------------------------------

  function Min(a: int, b: int): int { if a <= b then a else b }
  function Max(a: int, b: int): int { if a >= b then a else b }

  /** `array_slice($s, $offset, $length)`: a negative offset counts from the
      end, a negative length stops that many elements before the end. */
  function ArraySlice<T>(s: seq<T>, offset: int, length: int): (r: seq<T>)
    ensures offset >= 0 && length >= 0 ==> |r| <= length
    ensures offset >= 0 && length >= 0 ==> r == s[Min(offset, |s|)..Min(offset + length, |s|)]
    ensures offset >= |s| ==> r == []
  {
    var start := if offset >= 0 then Min(offset, |s|) else Max(|s| + offset, 0);
    var end := if length >= 0 then Min(start + length, |s|) else Max(|s| + length, start);
    s[start..end]
  }

  /** `ceil($total / $limit)` for a non-zero limit. */
  function Ceil(total: nat, limit: int): (p: int)
    requires limit != 0
    ensures limit > 0 ==> ((p - 1) * limit < total <= p * limit || (total == 0 && p == 0))
  {
    if limit > 0 then (total + limit - 1) / limit else -(total / -limit)
  }

  /** What `select` returns. */
  datatype Page = Page(data: seq<Doc>, total: nat, page: int, pages: int)

  /** The page `select` returns; None when `limit` is 0, where the
      division `$total / $limit` throws `DivisionByZeroError`. */
  function Paginate(lines: seq<Doc>, page: int, limit: int): (r: Option<Page>)
    ensures r.None? <==> limit == 0
    ensures r.Some? ==> r.value.total == |lines| && r.value.page == page
  {
    if limit == 0 then None
    else Some(Page(ArraySlice(lines, (page - 1) * limit, limit), |lines|, page, Ceil(|lines|, limit)))
  }

  /** With a positive page and limit, a page holds the rows from
      (page-1)*limit on, at most `limit` of them; a page past the end is
      empty; `pages` pages of `limit` rows cover the rows. */
  lemma PaginateSpec(lines: seq<Doc>, page: int, limit: int)
    requires page >= 1 && limit >= 1
    ensures var r := Paginate(lines, page, limit).value; var off := (page - 1) * limit;
      && 0 <= off
      && |r.data| <= limit
      && r.data == lines[Min(off, |lines|)..Min(off + limit, |lines|)]
      && (off >= |lines| ==> r.data == [])
      && ((r.pages - 1) * limit < |lines| <= r.pages * limit || (|lines| == 0 && r.pages == 0))
  {
    PageOffset(page, limit);
    var r := Paginate(lines, page, limit).value;
    assert r.data == ArraySlice(lines, (page - 1) * limit, limit);
    assert r.pages == Ceil(|lines|, limit);
  }

  lemma PageOffset(page: int, limit: int)
    requires page >= 1 && limit >= 1
    ensures 0 <= (page - 1) * limit
  {
  }

  /** Every row is on exactly the page its position says, at the place its
      position says. */
  lemma RowOnItsPage(lines: seq<Doc>, limit: int, i: nat)
    requires limit >= 1 && i < |lines|
    ensures var r := Paginate(lines, i / limit + 1, limit).value;
      i % limit < |r.data| && r.data[i % limit] == lines[i]
  {
    var q := i / limit;
    DivBounds(i, limit);
    var off := q * limit;
    assert (q + 1 - 1) * limit == off;
    var data := Paginate(lines, q + 1, limit).value.data;
    assert data == lines[off..Min(off + limit, |lines|)];
  }

  lemma DivBounds(i: nat, limit: int)
    requires limit >= 1
    ensures 0 <= (i / limit) * limit <= i < (i / limit) * limit + limit
    ensures i % limit == i - (i / limit) * limit
  {
  }
}
