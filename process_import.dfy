/**
  `importProcessData`: the incoming process rows are grouped by the (year,
  month) of their `DATA` field, and each group is merged into the shard file
  of its period with the process-shard policy of the import module.
 */
module ProcessImport {
  import opened Wrappers
  import opened OrderedMaps
  import opened Documents
  import opened Importer

  /** A period: the year as `DateTime::format('Y')` writes it, and the month. */
  type Period = (string, int)

  /** The period of a row: its `DATA` field parsed as day/month/year by
      `parse`, or `now` when it does not parse. */
  function PeriodOf(parse: string -> Option<Period>, now: Period, row: Doc): (p: Period)
    ensures parse(GetValueCI(row, "DATA")).Some? ==> p == parse(GetValueCI(row, "DATA")).value
    ensures parse(GetValueCI(row, "DATA")).None? ==> p == now
  {
    match parse(GetValueCI(row, "DATA"))
    case Some(p) => p
    case None => now
  }

  /** The rows of period `key`, in input order. */
  function InPeriod(period: Doc -> Period, rows: seq<Doc>, key: Period): (r: seq<Doc>)
    ensures |r| <= |rows|
    decreases |rows|
  {
    if rows == [] then []
    else
      var n := |rows| - 1;
      if period(rows[n]) == key then InPeriod(period, rows[..n], key) + [rows[n]]
      else InPeriod(period, rows[..n], key)
  }

  /** The periods of the rows, in input order (with repeats). */
  function Periods(period: Doc -> Period, rows: seq<Doc>): (ps: seq<Period>)
    ensures |ps| == |rows|
    ensures forall i :: 0 <= i < |rows| ==> ps[i] == period(rows[i])
  {
    seq(|rows|, i requires 0 <= i < |rows| => period(rows[i]))
  }

  lemma PeriodsStep(period: Doc -> Period, rows: seq<Doc>)
    requires rows != []
    ensures Periods(period, rows) == Periods(period, rows[..|rows| - 1]) + [period(rows[|rows| - 1])]
  {
  }

  /** `$groups[$key][] = $row` for each row in turn. */
  function Groups(period: Doc -> Period, rows: seq<Doc>): OMap<Period, seq<Doc>>
    decreases |rows|
  {
    if rows == [] then []
    else
      var n := |rows| - 1;
      var g := Groups(period, rows[..n]);
      var p := period(rows[n]);
      match Get(g, p)
      case Some(rs) => Put(g, p, rs + [rows[n]])
      case None => Put(g, p, [rows[n]])
  }

  /** The group a row joins: its period's group so far, extended by it. */
  function Joined(g: OMap<Period, seq<Doc>>, p: Period, row: Doc): seq<Doc> {
    match Get(g, p)
    case Some(rs) => rs + [row]
    case None => [row]
  }

  lemma GroupsStep(period: Doc -> Period, rows: seq<Doc>)
    requires rows != []
    ensures var n := |rows| - 1; var g := Groups(period, rows[..n]); var p := period(rows[n]);
      Groups(period, rows) == Put(g, p, Joined(g, p, rows[n]))
  {
  }

  /** The grouping has one group per period, in order of first appearance. */
  lemma {:induction false} GroupsKeys(period: Doc -> Period, rows: seq<Doc>)
    ensures UniqueKeys(Groups(period, rows))
    ensures Keys(Groups(period, rows)) == AppendNew([], Periods(period, rows))
    decreases |rows|
  {
    if rows != [] {
      var n := |rows| - 1;
      var g := Groups(period, rows[..n]);
      var p := period(rows[n]);
      GroupsKeys(period, rows[..n]);
      GroupsStep(period, rows);
      PutUnique(g, p, Joined(g, p, rows[n]));
      PeriodsStep(period, rows);
      PutKeysAppend(g, p, Joined(g, p, rows[n]), Periods(period, rows[..n]), []);
    }
  }

  /** The group of a period holds exactly the rows of that period, in input
      order, and a period without rows has no group. */
  lemma {:induction false} GroupsSpec(period: Doc -> Period, rows: seq<Doc>, key: Period)
    ensures Get(Groups(period, rows), key) ==
            if InPeriod(period, rows, key) == [] then None else Some(InPeriod(period, rows, key))
    decreases |rows|
  {
    if rows != [] {
      var n := |rows| - 1;
      var g := Groups(period, rows[..n]);
      var p := period(rows[n]);
      var before := InPeriod(period, rows[..n], key);
      GroupsSpec(period, rows[..n], key);
      GroupsKeys(period, rows[..n]);
      GroupsStep(period, rows);
      PutValue(g, p, Joined(g, p, rows[n]), key);
      if p == key {
        assert InPeriod(period, rows, key) == before + [rows[n]];
        assert Joined(g, p, rows[n]) == before + [rows[n]];
      } else {
        assert InPeriod(period, rows, key) == before;
      }
    }
  }

  /** How many incoming rows of a sequence of groups carry a key. */
  function KeyedTotal(b: Branch, groups: OMap<Period, seq<Doc>>): nat
    decreases |groups|
  {
    if groups == [] then 0
    else KeyedTotal(b, groups[..|groups| - 1]) + |IncomingKeys(b, groups[|groups| - 1].1)|
  }

  lemma {:induction false} KeyedTotalUpdate(b: Branch, groups: OMap<Period, seq<Doc>>, i: nat, e: (Period, seq<Doc>))
    requires i < |groups|
    ensures KeyedTotal(b, groups[i := e]) ==
            KeyedTotal(b, groups) - |IncomingKeys(b, groups[i].1)| + |IncomingKeys(b, e.1)|
    decreases |groups|
  {
    var n := |groups| - 1;
    var u := groups[i := e];
    if i == n {
      assert u[..n] == groups[..n];
    } else {
      assert u[..n] == groups[..n][i := e];
      KeyedTotalUpdate(b, groups[..n], i, e);
    }
  }

  lemma KeyedTotalAppend(b: Branch, groups: OMap<Period, seq<Doc>>, e: (Period, seq<Doc>))
    ensures KeyedTotal(b, groups + [e]) == KeyedTotal(b, groups) + |IncomingKeys(b, e.1)|
  {
    assert (groups + [e])[..|groups|] == groups;
  }

  lemma KeyedSnoc(b: Branch, rows: seq<Doc>, x: Doc)
    ensures |IncomingKeys(b, rows + [x])| ==
            |IncomingKeys(b, rows)| + if IncomingKey(b, x).Some? then 1 else 0
  {
    assert (rows + [x])[..|rows|] == rows;
  }

  /** Grouping loses and duplicates no keyed row: the keyed rows over all
      groups are as many as the keyed rows of the input. */
  lemma {:induction false} GroupsKeepKeyedRows(b: Branch, period: Doc -> Period, rows: seq<Doc>)
    ensures KeyedTotal(b, Groups(period, rows)) == |IncomingKeys(b, rows)|
    decreases |rows|
  {
    if rows != [] {
      var n := |rows| - 1;
      var x := rows[n];
      var g := Groups(period, rows[..n]);
      var p := period(x);
      var d := if IncomingKey(b, x).Some? then 1 else 0;
      assert |IncomingKeys(b, rows)| == |IncomingKeys(b, rows[..n])| + d;
      GroupsKeepKeyedRows(b, period, rows[..n]);
      assert KeyedTotal(b, Groups(period, rows)) == KeyedTotal(b, g) + d by {
        GroupsStep(period, rows);
        GroupJoin(b, g, p, x);
      }
    }
  }

  /** Adding a row to its group adds its key count to the total. */
  lemma GroupJoin(b: Branch, g: OMap<Period, seq<Doc>>, p: Period, x: Doc)
    ensures KeyedTotal(b, Put(g, p, Joined(g, p, x))) ==
            KeyedTotal(b, g) + if IncomingKey(b, x).Some? then 1 else 0
  {
    match IndexOf(g, p)
    case Some(i) =>
      var rs := g[i].1;
      assert Joined(g, p, x) == rs + [x];
      KeyedSnoc(b, rs, x);
      KeyedTotalUpdate(b, g, i, (p, rs + [x]));
    case None =>
      KeyedTotalAppend(b, g, (p, [x]));
      KeyedSnoc(b, [], x);
  }

  // ---------------------------------------------------------------------
  // Writing the shards
  // ---------------------------------------------------------------------

  /** The rows a file holds, or none when it does not exist (`readJSON`). */
  function Stored(files: map<string, seq<Doc>>, f: string): seq<Doc> {
    if f in files then files[f] else []
  }

  /** The files after each group in turn has been merged into the file
      `fileOf` names for its period. */
  function ImportShards(files: map<string, seq<Doc>>, fileOf: Period -> string,
                        groups: OMap<Period, seq<Doc>>): map<string, seq<Doc>>
    decreases |groups|
  {
    if groups == [] then files
    else ImportGroup(ImportShards(files, fileOf, groups[..|groups| - 1]), fileOf, groups[|groups| - 1])
  }

  /** One group merged into the file `fileOf` names for its period. */
  function ImportGroup(files: map<string, seq<Doc>>, fileOf: Period -> string,
                       g: (Period, seq<Doc>)): map<string, seq<Doc>> {
    var f := fileOf(g.0);
    files[f := Values(Merged(ProcessShard, Stored(files, f), g.1))]
  }

  /** When distinct periods go to distinct files, each group's file ends up
      holding that group merged into what the file held before, and every
      other file is unchanged. */
  lemma ImportShardsSpec(files: map<string, seq<Doc>>, fileOf: Period -> string,
                         groups: OMap<Period, seq<Doc>>, f: string)
    requires forall i, j :: 0 <= i < j < |groups| ==> fileOf(groups[i].0) != fileOf(groups[j].0)
    ensures (forall i :: 0 <= i < |groups| ==> fileOf(groups[i].0) != f) ==>
            Stored(ImportShards(files, fileOf, groups), f) == Stored(files, f)
    ensures forall i :: 0 <= i < |groups| && fileOf(groups[i].0) == f ==>
            Stored(ImportShards(files, fileOf, groups), f) ==
            Values(Merged(ProcessShard, Stored(files, f), groups[i].1))
  {
    if forall i :: 0 <= i < |groups| ==> fileOf(groups[i].0) != f {
      ImportShardsUntouched(files, fileOf, groups, f);
    }
    forall i | 0 <= i < |groups| && fileOf(groups[i].0) == f
      ensures Stored(ImportShards(files, fileOf, groups), f) ==
              Values(Merged(ProcessShard, Stored(files, f), groups[i].1))
    {
      ImportShardsAt(files, fileOf, groups, f, i);
    }
  }

  /** The last group rewrites its own file only. */
  lemma ImportShardsLast(files: map<string, seq<Doc>>, fileOf: Period -> string,
                         groups: OMap<Period, seq<Doc>>, f: string)
    requires groups != []
    ensures var n := |groups| - 1; var fs := ImportShards(files, fileOf, groups[..n]);
      Stored(ImportShards(files, fileOf, groups), f) ==
        if fileOf(groups[n].0) == f then Values(Merged(ProcessShard, Stored(fs, f), groups[n].1))
        else Stored(fs, f)
  {
  }

  lemma {:induction false} ImportShardsUntouched(files: map<string, seq<Doc>>, fileOf: Period -> string,
                                                 groups: OMap<Period, seq<Doc>>, f: string)
    requires forall i :: 0 <= i < |groups| ==> fileOf(groups[i].0) != f
    ensures Stored(ImportShards(files, fileOf, groups), f) == Stored(files, f)
    decreases |groups|
  {
    if groups != [] {
      var n := |groups| - 1;
      ImportShardsLast(files, fileOf, groups, f);
      forall i | 0 <= i < n ensures fileOf(groups[..n][i].0) != f {
        assert groups[..n][i] == groups[i];
      }
      ImportShardsUntouched(files, fileOf, groups[..n], f);
    }
  }

  lemma {:induction false} ImportShardsAt(files: map<string, seq<Doc>>, fileOf: Period -> string,
                                          groups: OMap<Period, seq<Doc>>, f: string, i: nat)
    requires forall a, b :: 0 <= a < b < |groups| ==> fileOf(groups[a].0) != fileOf(groups[b].0)
    requires i < |groups| && fileOf(groups[i].0) == f
    ensures Stored(ImportShards(files, fileOf, groups), f) ==
            Values(Merged(ProcessShard, Stored(files, f), groups[i].1))
    decreases |groups|
  {
    var n := |groups| - 1;
    var prefix := groups[..n];
    ImportShardsLast(files, fileOf, groups, f);
    if i == n {
      forall a | 0 <= a < n ensures fileOf(prefix[a].0) != f {
        assert prefix[a] == groups[a];
        assert fileOf(groups[a].0) != fileOf(groups[n].0);
      }
      ImportShardsUntouched(files, fileOf, prefix, f);
    } else {
      assert fileOf(groups[i].0) != fileOf(groups[n].0);
      forall a, b | 0 <= a < b < n ensures fileOf(prefix[a].0) != fileOf(prefix[b].0) {
        assert prefix[a] == groups[a] && prefix[b] == groups[b];
      }
      assert prefix[i] == groups[i];
      ImportShardsAt(files, fileOf, prefix, f, i);
    }
  }

  /** `importProcessData` on the files: the shard of every period that
      occurs among the incoming rows holds the stored rows of that shard
      merged with exactly the incoming rows of that period, provided that
      distinct periods name distinct files (see `Store.PeriodFileInjective`). */
  lemma ProcessImportShard(files: map<string, seq<Doc>>, fileOf: Period -> string,
                           period: Doc -> Period, rows: seq<Doc>, key: Period)
    requires forall i, j :: 0 <= i < |rows| && 0 <= j < |rows| && period(rows[i]) != period(rows[j]) ==>
               fileOf(period(rows[i])) != fileOf(period(rows[j]))
    requires InPeriod(period, rows, key) != []
    ensures Stored(ImportShards(files, fileOf, Groups(period, rows)), fileOf(key)) ==
            Values(Merged(ProcessShard, Stored(files, fileOf(key)), InPeriod(period, rows, key)))
  {
    var g := Groups(period, rows);
    GroupsKeys(period, rows);
    GroupsSpec(period, rows, key);
    var ps := Periods(period, rows);
    forall i, j | 0 <= i < j < |g| ensures fileOf(g[i].0) != fileOf(g[j].0) {
      assert g[i].0 in Keys(g) && g[j].0 in Keys(g);
      var a :| 0 <= a < |rows| && ps[a] == g[i].0;
      var c :| 0 <= c < |rows| && ps[c] == g[j].0;
    }
    var i := IndexOf(g, key).value;
    ImportShardsSpec(files, fileOf, g, fileOf(key));
  }
}
