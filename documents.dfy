/**
  Documents: ordered maps from field name to string value, and the
  case-insensitive field resolution the store uses everywhere
  (`getCaseInsensitiveKey`, `get_value_ci`, `mergeCaseInsensitive`).
 */
module Documents {
  import opened Wrappers
  import opened OrderedMaps
  import opened Text

  type Doc = OMap<string, string>

  /** No two field names of `d` are equal once upper-cased. */
  ghost predicate CiUnique(d: Doc) {
    forall i, j :: 0 <= i < j < |d| ==> !SameFieldName(d[i].0, d[j].0)
  }

  /** Position of the first field whose name equals `name` once upper-cased. */
  function CiIndex(d: Doc, name: string): (r: Option<nat>)
    ensures r.Some? ==> r.value < |d| && SameFieldName(d[r.value].0, name)
    ensures r.Some? ==> forall j :: 0 <= j < r.value ==> !SameFieldName(d[j].0, name)
    ensures r.None? <==> forall j :: 0 <= j < |d| ==> !SameFieldName(d[j].0, name)
  {
    if |d| == 0 then None
    else if SameFieldName(d[0].0, name) then Some(0)
    else
      match CiIndex(d[1..], name)
      case None => None
      case Some(i) => Some(i + 1)
  }

  /** `getCaseInsensitiveKey($d, $name)`: the stored spelling of the first
      field matching `name`, or null. */
  function CiKey(d: Doc, name: string): (r: Option<string>)
    ensures r.Some? ==> SameFieldName(r.value, name) && HasKey(d, r.value)
    ensures r.None? <==> forall j :: 0 <= j < |d| ==> !SameFieldName(d[j].0, name)
  {
    match CiIndex(d, name)
    case None => None
    case Some(i) => Some(d[i].0)
  }

  /** `$d[$name] ?? ''` */
  function ValueOrEmpty(d: Doc, name: string): (r: string)
    ensures HasKey(d, name) ==> exists i :: 0 <= i < |d| && d[i] == (name, r)
    ensures !HasKey(d, name) ==> r == ""
  {
    match Get(d, name)
    case Some(v) => v
    case None => ""
  }

  /** `get_value_ci($d, $name)` */
  function GetValueCI(d: Doc, name: string): string {
    match Get(d, name)
    case Some(v) => v
    case None =>
      match CiIndex(d, name)
      case Some(i) => d[i].1
      case None => ""
  }

  /** `get_value_ci` returns the value of the exact key when present, else the
      value of the first field equal to `name` under upper-casing, else "". */
  lemma GetValueCISpec(d: Doc, name: string)
    requires UniqueKeys(d)
    ensures forall i :: 0 <= i < |d| && d[i].0 == name ==> GetValueCI(d, name) == d[i].1
    ensures !HasKey(d, name) ==> forall i ::
      0 <= i < |d| && SameFieldName(d[i].0, name) &&
      (forall j :: 0 <= j < i ==> !SameFieldName(d[j].0, name))
      ==> GetValueCI(d, name) == d[i].1
    ensures (forall i :: 0 <= i < |d| ==> !SameFieldName(d[i].0, name)) ==> GetValueCI(d, name) == ""
  {
    forall i | 0 <= i < |d| && d[i].0 == name ensures GetValueCI(d, name) == d[i].1 {
      UniqueIndex(d, name, i);
    }
  }

  /** When no two fields collide under upper-casing, every spelling of a field
      name resolves to the same value ("cpf", "CPF" and "Cpf" agree). */
  lemma GetValueCIIgnoresCase(d: Doc, a: string, b: string)
    requires CiUnique(d)
    requires SameFieldName(a, b)
    ensures GetValueCI(d, a) == GetValueCI(d, b)
  {
    ExactIsFirstMatch(d, a);
    ExactIsFirstMatch(d, b);
  }

  /** Under `CiUnique`, an exact key is also the first case-insensitive match. */
  lemma ExactIsFirstMatch(d: Doc, name: string)
    requires CiUnique(d)
    ensures GetValueCI(d, name) == match CiIndex(d, name) case Some(i) => d[i].1 case None => ""
  {
    if HasKey(d, name) {
      var i := IndexOf(d, name).value;
      var c := CiIndex(d, name).value;
      assert SameFieldName(d[i].0, name);
      assert c == i;
    }
  }

  /** One step of `mergeCaseInsensitive`: `$original[$existingKey ?? $k] = $v`. */
  function MergeField(d: Doc, f: (string, string)): Doc {
    match CiKey(d, f.0)
    case Some(ek) => Put(d, ek, f.1)
    case None => Put(d, f.0, f.1)
  }

  /** `mergeCaseInsensitive($original, $new)`: the patch's fields applied in order. */
  function MergeCI(d: Doc, patch: Doc): Doc
    decreases |patch|
  {
    if patch == [] then d else MergeCI(MergeField(d, patch[0]), patch[1..])
  }

  /** The value the last patch entry naming `name` (case-insensitively) gives,
      or `dflt` when the patch never names it. */
  function LastNamed(patch: Doc, name: string, dflt: string): string
    decreases |patch|
  {
    if patch == [] then dflt
    else if SameFieldName(patch[|patch| - 1].0, name) then patch[|patch| - 1].1
    else LastNamed(patch[..|patch| - 1], name, dflt)
  }

  lemma {:induction false} LastNamedFirst(p: (string, string), rest: Doc, name: string, dflt: string)
    ensures LastNamed([p] + rest, name, dflt) ==
            LastNamed(rest, name, if SameFieldName(p.0, name) then p.1 else dflt)
    decreases |rest|
  {
    if rest != [] {
      assert ([p] + rest)[..|rest|] == [p] + rest[..|rest| - 1];
      LastNamedFirst(p, rest[..|rest| - 1], name, dflt);
    }
  }

  lemma MergeFieldEffect(d: Doc, f: (string, string))
    requires UniqueKeys(d)
    ensures UniqueKeys(MergeField(d, f))
    ensures CiIndex(d, f.0).None? ==> MergeField(d, f) == d + [f]
    ensures CiIndex(d, f.0).Some? ==>
      var i := CiIndex(d, f.0).value; MergeField(d, f) == d[i := (d[i].0, f.1)]
  {
    match CiIndex(d, f.0)
    case None =>
      PutValue(d, f.0, f.1, f.0);
    case Some(i) =>
      UniqueIndex(d, d[i].0, i);
      PutValue(d, d[i].0, f.1, f.0);
  }

  lemma MergeFieldCiUnique(d: Doc, f: (string, string))
    requires UniqueKeys(d) && CiUnique(d)
    ensures CiUnique(MergeField(d, f))
  {
    MergeFieldEffect(d, f);
  }

  /** `mergeCaseInsensitive` keeps every stored field where it was, under its
      stored spelling, leaves untouched each field the patch does not name, and
      only appends fields that match no stored field. */
  lemma MergeKeepsStored(d: Doc, patch: Doc)
    requires UniqueKeys(d)
    ensures var r := MergeCI(d, patch);
      && UniqueKeys(r)
      && |d| <= |r|
      && (forall i :: 0 <= i < |d| ==> r[i].0 == d[i].0)
      && (forall i :: 0 <= i < |d| &&
            (forall p :: 0 <= p < |patch| ==> !SameFieldName(patch[p].0, d[i].0))
            ==> r[i] == d[i])
      && (forall j :: |d| <= j < |r| ==>
            (exists p :: 0 <= p < |patch| && patch[p].0 == r[j].0) &&
            (forall i :: 0 <= i < |d| ==> !SameFieldName(d[i].0, r[j].0)))
  {
    var r := MergeCI(d, patch);
    MergeKeepsKeys(d, patch);
    forall i | 0 <= i < |d| &&
          (forall p :: 0 <= p < |patch| ==> !SameFieldName(patch[p].0, d[i].0))
      ensures r[i] == d[i]
    {
      MergeKeepsUnnamed(d, patch, i);
    }
    forall j | |d| <= j < |r|
      ensures (exists p :: 0 <= p < |patch| && patch[p].0 == r[j].0)
      ensures (forall i :: 0 <= i < |d| ==> !SameFieldName(d[i].0, r[j].0))
    {
      MergeAddsOnlyNew(d, patch, j);
    }
  }

  lemma {:induction false} MergeKeepsKeys(d: Doc, patch: Doc)
    requires UniqueKeys(d)
    ensures UniqueKeys(MergeCI(d, patch))
    ensures |d| <= |MergeCI(d, patch)|
    ensures forall i :: 0 <= i < |d| ==> MergeCI(d, patch)[i].0 == d[i].0
    decreases |patch|
  {
    if patch != [] {
      var d1 := MergeField(d, patch[0]);
      MergeFieldEffect(d, patch[0]);
      MergeKeepsKeys(d1, patch[1..]);
      assert MergeCI(d, patch) == MergeCI(d1, patch[1..]);
    }
  }

  lemma {:induction false} MergeKeepsUnnamed(d: Doc, patch: Doc, i: nat)
    requires UniqueKeys(d) && i < |d|
    requires forall p :: 0 <= p < |patch| ==> !SameFieldName(patch[p].0, d[i].0)
    ensures i < |MergeCI(d, patch)| && MergeCI(d, patch)[i] == d[i]
    decreases |patch|
  {
    if patch != [] {
      var d1 := MergeField(d, patch[0]);
      MergeFieldEffect(d, patch[0]);
      assert !SameFieldName(patch[0].0, d[i].0);
      assert d1[i] == d[i];
      forall p | 0 <= p < |patch| - 1 ensures !SameFieldName(patch[1..][p].0, d1[i].0) {
        assert patch[1..][p] == patch[p + 1];
      }
      MergeKeepsUnnamed(d1, patch[1..], i);
      assert MergeCI(d, patch) == MergeCI(d1, patch[1..]);
    }
  }

  lemma MergeAddsOnlyNew(d: Doc, patch: Doc, j: nat)
    requires UniqueKeys(d) && |d| <= j < |MergeCI(d, patch)|
    ensures exists p :: 0 <= p < |patch| && patch[p].0 == MergeCI(d, patch)[j].0
    ensures forall i :: 0 <= i < |d| ==> !SameFieldName(d[i].0, MergeCI(d, patch)[j].0)
  {
    MergeAddsFromPatch(d, patch, j);
    MergeAddsUnmatched(d, patch, j);
  }

  lemma {:induction false} MergeAddsFromPatch(d: Doc, patch: Doc, j: nat)
    requires UniqueKeys(d) && |d| <= j < |MergeCI(d, patch)|
    ensures exists p :: 0 <= p < |patch| && patch[p].0 == MergeCI(d, patch)[j].0
    decreases |patch|
  {
    var r := MergeCI(d, patch);
    assert patch != [];
    var d1 := MergeField(d, patch[0]);
    MergeFieldEffect(d, patch[0]);
    MergeKeepsKeys(d1, patch[1..]);
    assert r == MergeCI(d1, patch[1..]);
    if j < |d1| {
      assert d1 == d + [patch[0]];
      assert r[j].0 == patch[0].0;
    } else {
      MergeAddsFromPatch(d1, patch[1..], j);
      var p :| 0 <= p < |patch| - 1 && patch[1..][p].0 == r[j].0;
      assert patch[p + 1].0 == r[j].0;
    }
  }

  lemma {:induction false} MergeAddsUnmatched(d: Doc, patch: Doc, j: nat)
    requires UniqueKeys(d) && |d| <= j < |MergeCI(d, patch)|
    ensures forall i :: 0 <= i < |d| ==> !SameFieldName(d[i].0, MergeCI(d, patch)[j].0)
    decreases |patch|
  {
    var r := MergeCI(d, patch);
    assert patch != [];
    var d1 := MergeField(d, patch[0]);
    MergeFieldEffect(d, patch[0]);
    MergeKeepsKeys(d1, patch[1..]);
    assert r == MergeCI(d1, patch[1..]);
    if j < |d1| {
      assert d1 == d + [patch[0]];
      assert r[j].0 == patch[0].0;
    } else {
      MergeAddsUnmatched(d1, patch[1..], j);
      forall i | 0 <= i < |d| ensures !SameFieldName(d[i].0, r[j].0) {
        assert d1[i].0 == d[i].0;
      }
    }
  }

  /** With no two stored fields colliding under upper-casing, each stored field
      ends up holding the value of the last patch entry that names it (or its
      own value when none does), under its stored spelling. */
  lemma {:induction false} MergeOverwritesNamed(d: Doc, patch: Doc)
    requires UniqueKeys(d) && CiUnique(d)
    ensures var r := MergeCI(d, patch);
      |d| <= |r| &&
      forall i :: 0 <= i < |d| ==> r[i] == (d[i].0, LastNamed(patch, d[i].0, d[i].1))
    decreases |patch|
  {
    if patch != [] {
      var d1 := MergeField(d, patch[0]);
      var r := MergeCI(d, patch);
      MergeFieldEffect(d, patch[0]);
      MergeFieldCiUnique(d, patch[0]);
      MergeOverwritesNamed(d1, patch[1..]);
      assert r == MergeCI(d1, patch[1..]);
      forall i | 0 <= i < |d| ensures r[i] == (d[i].0, LastNamed(patch, d[i].0, d[i].1)) {
        MergeFieldAt(d, patch[0], i);
        MergeNamedStep(patch, d[i].0, d[i].1);
      }
    }
  }

  /** With no two stored fields colliding under upper-casing, a field the
      merge appends holds the value of the last patch entry naming it up to
      case. */
  lemma MergeAppendsLastValue(d: Doc, patch: Doc)
    requires UniqueKeys(d) && CiUnique(d)
    ensures var r := MergeCI(d, patch);
      forall j :: |d| <= j < |r| ==> r[j].1 == LastNamed(patch, r[j].0, "")
  {
    forall j | |d| <= j < |MergeCI(d, patch)|
      ensures MergeCI(d, patch)[j].1 == LastNamed(patch, MergeCI(d, patch)[j].0, "")
    {
      MergeAppendedAt(d, patch, j);
    }
  }

  lemma {:induction false} MergeAppendedAt(d: Doc, patch: Doc, j: nat)
    requires UniqueKeys(d) && CiUnique(d) && |d| <= j < |MergeCI(d, patch)|
    ensures MergeCI(d, patch)[j].1 == LastNamed(patch, MergeCI(d, patch)[j].0, "")
    decreases |patch|
  {
    var r := MergeCI(d, patch);
    assert patch != [];
    var d1 := MergeField(d, patch[0]);
    MergeFieldEffect(d, patch[0]);
    MergeFieldCiUnique(d, patch[0]);
    MergeKeepsKeys(d1, patch[1..]);
    assert r == MergeCI(d1, patch[1..]);
    MergeNamedStep(patch, r[j].0, "");
    if j < |d1| {
      assert d1 == d + [patch[0]];
      MergeOverwritesNamed(d1, patch[1..]);
      assert r[j] == (patch[0].0, LastNamed(patch[1..], patch[0].0, patch[0].1));
    } else {
      MergeAppendedAt(d1, patch[1..], j);
      MergeAddsUnmatched(d1, patch[1..], j);
      MergeFieldNames(d, patch[0]);
      var c := CiIndex(d1, patch[0].0).value;
      assert !SameFieldName(d1[c].0, r[j].0);
      assert !SameFieldName(patch[0].0, r[j].0);
    }
  }

  /** Merging a patch whose every entry is already stored changes nothing. */
  lemma {:induction false} MergeSelf(d: Doc, patch: Doc)
    requires UniqueKeys(d) && CiUnique(d)
    requires forall e :: e in patch ==> e in d
    ensures MergeCI(d, patch) == d
    decreases |patch|
  {
    if patch != [] {
      assert patch[0] in d;
      var i :| 0 <= i < |d| && d[i] == patch[0];
      MergeFieldEffect(d, patch[0]);
      var c := CiIndex(d, patch[0].0).value;
      assert SameFieldName(d[c].0, d[i].0);
      assert c == i;
      assert MergeField(d, patch[0]) == d;
      assert forall e :: e in patch[1..] ==> e in patch;
      MergeSelf(d, patch[1..]);
    }
  }

  /** The first patch entry only changes the default the rest of the patch
      falls back on. */
  lemma MergeNamedStep(patch: Doc, name: string, dflt: string)
    requires patch != []
    ensures LastNamed(patch, name, dflt) ==
            LastNamed(patch[1..], name, if SameFieldName(patch[0].0, name) then patch[0].1 else dflt)
  {
    assert patch == [patch[0]] + patch[1..];
    LastNamedFirst(patch[0], patch[1..], name, dflt);
  }

  lemma MergeFieldAt(d: Doc, f: (string, string), i: nat)
    requires UniqueKeys(d) && CiUnique(d) && i < |d|
    ensures |d| <= |MergeField(d, f)|
    ensures MergeField(d, f)[i] == (d[i].0, if SameFieldName(f.0, d[i].0) then f.1 else d[i].1)
  {
    MergeFieldEffect(d, f);
    if SameFieldName(f.0, d[i].0) {
      var c := CiIndex(d, f.0).value;
      assert SameFieldName(d[c].0, d[i].0);
    }
  }

  /** After the merge every patch field name resolves case-insensitively. */
  lemma {:induction false} MergeNamesEveryPatchField(d: Doc, patch: Doc)
    requires UniqueKeys(d)
    ensures var r := MergeCI(d, patch);
      forall p :: 0 <= p < |patch| ==> CiIndex(r, patch[p].0).Some?
    decreases |patch|
  {
    if patch != [] {
      var d1 := MergeField(d, patch[0]);
      var r := MergeCI(d, patch);
      MergeFieldEffect(d, patch[0]);
      MergeFieldNames(d, patch[0]);
      MergeNamesEveryPatchField(d1, patch[1..]);
      NamedStaysNamed(d1, patch[1..], patch[0].0);
      assert r == MergeCI(d1, patch[1..]);
      forall p | 1 <= p < |patch| ensures CiIndex(r, patch[p].0).Some? {
        assert patch[1..][p - 1] == patch[p];
      }
    }
  }

  /** After one merge step the field's name resolves. */
  lemma MergeFieldNames(d: Doc, f: (string, string))
    requires UniqueKeys(d)
    ensures CiIndex(MergeField(d, f), f.0).Some?
  {
    MergeFieldEffect(d, f);
    var d1 := MergeField(d, f);
    match CiIndex(d, f.0)
    case None => assert SameFieldName(d1[|d|].0, f.0);
    case Some(i) => assert SameFieldName(d1[i].0, f.0);
  }

  /** A name that resolves keeps resolving after a merge. */
  lemma NamedStaysNamed(d: Doc, patch: Doc, name: string)
    requires UniqueKeys(d) && CiIndex(d, name).Some?
    ensures CiIndex(MergeCI(d, patch), name).Some?
  {
    var c := CiIndex(d, name).value;
    MergeKeepsKeys(d, patch);
    assert SameFieldName(MergeCI(d, patch)[c].0, name);
  }
}
