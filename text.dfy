/**
  String primitives of PHP that the store relies on: truthiness of a string,
  `trim`, `mb_strtoupper`, `strtolower`, `strpos`/`stripos` and the byte-wise
  order of `strcmp`.
 */
module Text {

  /** A PHP string is falsy exactly when it is "" or "0". */
  predicate Truthy(s: string) {
    s != "" && s != "0"
  }

  /** The characters PHP's `trim` strips by default: " \t\n\r\0\x0B". */
  predicate IsTrimChar(c: char) {
    c == ' ' || c == '\t' || c == '\n' || c == '\r' || c == '\0' || c == '\U{0B}'
  }

  function TrimLeft(s: string): (r: string)
    ensures |r| <= |s| && r == s[|s| - |r|..]
    ensures r == [] || !IsTrimChar(r[0])
    ensures forall i :: 0 <= i < |s| - |r| ==> IsTrimChar(s[i])
  {
    if |s| > 0 && IsTrimChar(s[0]) then TrimLeft(s[1..]) else s
  }

  function TrimRight(s: string): (r: string)
    ensures |r| <= |s| && r == s[..|r|]
    ensures r == [] || !IsTrimChar(r[|r| - 1])
    ensures forall i :: |r| <= i < |s| ==> IsTrimChar(s[i])
  {
    if |s| > 0 && IsTrimChar(s[|s| - 1]) then TrimRight(s[..|s| - 1]) else s
  }

  /** PHP `trim($s)` */
  function Trim(s: string): (r: string)
    ensures r == [] || (!IsTrimChar(r[0]) && !IsTrimChar(r[|r| - 1]))
    ensures r == "" <==> forall i :: 0 <= i < |s| ==> IsTrimChar(s[i])
  {
    TrimRight(TrimLeft(s))
  }

  /** The upper-case mapping `mb_strtoupper($s, 'UTF-8')` applies to one
      character, for ASCII and the Latin-1 supplement (which covers the
      accented letters of Portuguese field names). */
  function UpperChar(c: char): char {
    if 'a' <= c <= 'z' then (c as int - 32) as char
    else if '\U{E0}' <= c <= '\U{FE}' && c != '\U{F7}' then (c as int - 32) as char
    else if c == '\U{FF}' then '\U{178}'
    else if c == '\U{B5}' then '\U{39C}'
    else c
  }

  function Upper(s: string): (r: string)
    ensures |r| == |s| && forall i :: 0 <= i < |s| ==> r[i] == UpperChar(s[i])
  {
    seq(|s|, i requires 0 <= i < |s| => UpperChar(s[i]))
  }

  /** An upper-cased name has no ASCII lower-case letter left, and
      upper-casing it again changes nothing, so a key stored upper-cased is
      its own case-insensitive form. */
  lemma UpperIdempotent(s: string)
    ensures forall i :: 0 <= i < |Upper(s)| ==> !('a' <= Upper(s)[i] <= 'z')
    ensures Upper(Upper(s)) == Upper(s)
  {
  }

  /** Case-insensitive equality of field names as the store tests it. */
  predicate SameFieldName(a: string, b: string) {
    Upper(a) == Upper(b)
  }

  /** `strtoupper`: ASCII only. */
  function AsciiUpperChar(c: char): char {
    if 'a' <= c <= 'z' then (c as int - 32) as char else c
  }

  /** `strtolower`: ASCII only. */
  function LowerChar(c: char): char {
    if 'A' <= c <= 'Z' then (c as int + 32) as char else c
  }

  function Lower(s: string): (r: string)
    ensures |r| == |s| && forall i :: 0 <= i < |s| ==> r[i] == LowerChar(s[i])
    ensures forall i :: 0 <= i < |r| ==> !('A' <= r[i] <= 'Z')
    ensures forall i :: 0 <= i < |s| && !('A' <= s[i] <= 'Z') ==> r[i] == s[i]
  {
    seq(|s|, i requires 0 <= i < |s| => LowerChar(s[i]))
  }

  /** Two names that `strtolower` makes equal are the same field name up to
      case, so a lower-cased lookup never joins two different fields. */
  lemma LowerSameFieldName(a: string, b: string)
    requires Lower(a) == Lower(b)
    ensures SameFieldName(a, b)
  {
    assert forall i :: 0 <= i < |a| ==> UpperChar(a[i]) == UpperChar(b[i]) by {
      forall i | 0 <= i < |a|
        ensures UpperChar(a[i]) == UpperChar(b[i])
      {
        assert LowerChar(a[i]) == LowerChar(b[i]);
      }
    }
  }

  /** `strpos($hay, $needle) !== false` (PHP 8: the empty needle occurs everywhere). */
  predicate Occurs(needle: string, hay: string)
    decreases |hay|
  {
    needle <= hay || (|hay| > 0 && Occurs(needle, hay[1..]))
  }

  /** `needle` occurs in `hay` starting at position `i`. */
  predicate MatchAt(needle: string, hay: string, i: int) {
    0 <= i <= |hay| - |needle| && hay[i..i + |needle|] == needle
  }

  lemma {:induction false} OccursAt(needle: string, hay: string)
    ensures Occurs(needle, hay) <==> exists i :: MatchAt(needle, hay, i)
    decreases |hay|
  {
    if needle <= hay {
      assert MatchAt(needle, hay, 0);
    } else if |hay| > 0 {
      OccursAt(needle, hay[1..]);
      if Occurs(needle, hay[1..]) {
        var i :| MatchAt(needle, hay[1..], i);
        assert hay[i + 1..i + 1 + |needle|] == hay[1..][i..i + |needle|];
        assert MatchAt(needle, hay, i + 1);
      }
      if exists i :: MatchAt(needle, hay, i) {
        var i :| MatchAt(needle, hay, i);
        if i > 0 {
          assert hay[1..][i - 1..i - 1 + |needle|] == hay[i..i + |needle|];
          assert MatchAt(needle, hay[1..], i - 1);
        }
      }
    }
  }

  /** `stripos($hay, $needle) !== false` */
  predicate OccursCI(needle: string, hay: string) {
    Occurs(Lower(needle), Lower(hay))
  }

  /** Byte-wise string order of `strcmp` (UTF-8 byte order is code point order). */
  predicate LexLess(a: string, b: string) {
    if a == [] then b != []
    else if b == [] then false
    else if a[0] != b[0] then a[0] < b[0]
    else LexLess(a[1..], b[1..])
  }

  lemma {:induction false} LexLessIrreflexive(a: string)
    ensures !LexLess(a, a)
  {
    if a != [] { LexLessIrreflexive(a[1..]); }
  }

  lemma {:induction false} LexLessTotal(a: string, b: string)
    ensures a == b || LexLess(a, b) || LexLess(b, a)
  {
    if a != [] && b != [] && a[0] == b[0] {
      LexLessTotal(a[1..], b[1..]);
      if a[1..] == b[1..] {
        assert a == [a[0]] + a[1..] && b == [b[0]] + b[1..];
      }
    }
  }

  lemma {:induction false} LexLessAsymmetric(a: string, b: string)
    ensures !(LexLess(a, b) && LexLess(b, a))
  {
    if a != [] && b != [] && a[0] == b[0] {
      LexLessAsymmetric(a[1..], b[1..]);
    }
  }

  lemma {:induction false} LexLessTransitive(a: string, b: string, c: string)
    requires LexLess(a, b) && LexLess(b, c)
    ensures LexLess(a, c)
  {
    if a != [] && b != [] && c != [] && a[0] == b[0] && b[0] == c[0] {
      LexLessTransitive(a[1..], b[1..], c[1..]);
    }
  }
}
