/**
  `ProcessIndexer`: a persistent map from portability number to the shard
  file that holds the process, loaded lazily from its index file and written
  through on every change.
 */
module Indexer {
  import opened Wrappers
  import opened OrderedMaps
  import opened Text
  import opened Documents
  import opened Store
  import opened DataFiles

  /** The key field of a process row. */
  const PORT_FIELD := "Numero_Portabilidade"

  /** The index as the object sees it after `load()`: unchanged when already
      loaded, else the stored file's contents, or empty when there is none. */
  function Loaded(loaded: bool, index: OMap<string, string>, stored: Option<OMap<string, string>>)
    : (r: OMap<string, string>)
    ensures loaded ==> r == index
    ensures !loaded && stored.Some? ==> r == stored.value
    ensures !loaded && stored.None? ==> r == []
  {
    if loaded then index else if stored.Some? then stored.value else []
  }

  /** Some row of `rows` has key `k`. */
  predicate HasPort(rows: seq<Doc>, k: string) {
    exists r :: r in rows && GetValueCI(r, PORT_FIELD) == k
  }

  lemma HasPortSnoc(rows: seq<Doc>, k: string)
    requires rows != []
    ensures HasPort(rows, k) <==>
      HasPort(rows[..|rows| - 1], k) || GetValueCI(rows[|rows| - 1], PORT_FIELD) == k
  {
    var n := |rows| - 1;
    assert rows == rows[..n] + [rows[n]];
  }

  /** The assignments `$this->index[$port] = $f` one shard's rows make, in
      row order: one per row with a truthy key. */
  function ShardPairs(rows: seq<Doc>, f: string): (ps: seq<(string, string)>)
    ensures forall p :: p in ps ==> p.1 == f && Truthy(p.0)
    ensures forall p :: p in ps ==> HasPort(rows, p.0)
    decreases |rows|
  {
    if rows == [] then []
    else
      var n := |rows| - 1;
      var port := GetValueCI(rows[n], PORT_FIELD);
      var before := ShardPairs(rows[..n], f);
      assert forall r :: r in rows[..n] ==> r in rows;
      if Truthy(port) then before + [(port, f)] else before
  }

  /** The rows of shard `f`, or none when its file does not exist. */
  function ShardRows(json: map<string, seq<Doc>>, dataDir: string, f: string): seq<Doc> {
    var path := dataDir + Sanitized(f);
    if path in json then json[path] else []
  }

  /** All assignments of a rebuild over the listed shards, in order. */
  function RebuildPairs(json: map<string, seq<Doc>>, dataDir: string, files: seq<string>)
    : (ps: seq<(string, string)>)
    ensures forall p :: p in ps ==> p.1 in files && Truthy(p.0)
    decreases |files|
  {
    if files == [] then []
    else
      var n := |files| - 1;
      RebuildPairs(json, dataDir, files[..n]) + ShardPairs(ShardRows(json, dataDir, files[n]), files[n])
  }

  /** Shard `f` exists and has a row whose key is `k`. */
  predicate Holds(json: map<string, seq<Doc>>, dataDir: string, f: string, k: string) {
    HasPort(ShardRows(json, dataDir, f), k)
  }

  /** The last listed shard holding key `k`. */
  function LastHolder(json: map<string, seq<Doc>>, dataDir: string, files: seq<string>, k: string)
    : (r: Option<string>)
    ensures r.Some? ==> r.value in files && Holds(json, dataDir, r.value, k)
    ensures r.None? ==> forall f :: f in files ==> !Holds(json, dataDir, f, k)
    decreases |files|
  {
    if files == [] then None
    else
      var n := |files| - 1;
      assert files == files[..n] + [files[n]];
      if Holds(json, dataDir, files[n], k) then Some(files[n])
      else LastHolder(json, dataDir, files[..n], k)
  }

  lemma {:induction false} ShardPairsLast(rows: seq<Doc>, f: string, k: string)
    requires Truthy(k)
    ensures LastAssigned(ShardPairs(rows, f), k) == if HasPort(rows, k) then Some(f) else None
    decreases |rows|
  {
    if rows != [] {
      var n := |rows| - 1;
      ShardPairsLast(rows[..n], f, k);
      HasPortSnoc(rows, k);
      var before := ShardPairs(rows[..n], f);
      var port := GetValueCI(rows[n], PORT_FIELD);
      if Truthy(port) {
        LastAssignedSnoc(before, (port, f), k);
      }
    }
  }

  /** `rebuild` is last-shard-wins: a truthy key maps to the last listed
      shard holding it, and a key no shard holds is absent. */
  lemma {:induction false} RebuildLastShardWins(json: map<string, seq<Doc>>, dataDir: string,
                                                files: seq<string>, k: string)
    requires Truthy(k)
    ensures LastAssigned(RebuildPairs(json, dataDir, files), k) == LastHolder(json, dataDir, files, k)
    decreases |files|
  {
    if files != [] {
      var n := |files| - 1;
      var rows := ShardRows(json, dataDir, files[n]);
      RebuildLastShardWins(json, dataDir, files[..n], k);
      ShardPairsLast(rows, files[n], k);
      LastAssignedAppend(RebuildPairs(json, dataDir, files[..n]), ShardPairs(rows, files[n]), k);
    }
  }

  /** Falsy keys are never indexed. */
  lemma RebuildSkipsFalsy(json: map<string, seq<Doc>>, dataDir: string, files: seq<string>, k: string)
    requires !Truthy(k)
    ensures LastAssigned(RebuildPairs(json, dataDir, files), k) == None
  {
  }

  /** The index after `set(id, f)` maps `id` to `f` and every other key as
      before. */
  lemma IndexAfterSet(index: OMap<string, string>, id: string, f: string, k: string)
    requires UniqueKeys(index)
    ensures UniqueKeys(Put(index, id, f))
    ensures OrderedMaps.Get(Put(index, id, f), k) == if k == id then Some(f) else OrderedMaps.Get(index, k)
  {
    PutValue(index, id, f, k);
  }

  /** The index after `delete(id)` has no `id` and every other key as
      before. */
  lemma IndexAfterDelete(index: OMap<string, string>, id: string, k: string)
    requires UniqueKeys(index)
    ensures OrderedMaps.Get(Remove(index, id), k) == if k == id then None else OrderedMaps.Get(index, k)
  {
    var r := Remove(index, id);
    if k != id {
      match OrderedMaps.Get(index, k)
      case Some(v) =>
        var i :| 0 <= i < |index| && index[i] == (k, v);
        assert index[i] in r;
        var w := OrderedMaps.Get(r, k).value;
        var j :| 0 <= j < |r| && r[j] == (k, w);
        assert r[j] in index;
      case None =>
    }
  }

  lemma RebuildPairsStep(json: map<string, seq<Doc>>, dataDir: string, files: seq<string>, i: nat)
    requires i < |files|
    ensures RebuildPairs(json, dataDir, files[..i + 1]) ==
            RebuildPairs(json, dataDir, files[..i]) + ShardPairs(ShardRows(json, dataDir, files[i]), files[i])
  {
    assert files[..i + 1][..i] == files[..i];
  }

  /** One row of the inner rebuild loop: a truthy key is one more assignment. */
  lemma ShardPairsStep(start: seq<(string, string)>, data: seq<Doc>, f: string, j: nat)
    requires j < |data|
    ensures var port := GetValueCI(data[j], PORT_FIELD);
      Assign(start + ShardPairs(data[..j + 1], f)) ==
        if Truthy(port) then Put(Assign(start + ShardPairs(data[..j], f)), port, f)
        else Assign(start + ShardPairs(data[..j], f))
  {
    var port := GetValueCI(data[j], PORT_FIELD);
    assert data[..j + 1][..j] == data[..j];
    if Truthy(port) {
      var s := start + ShardPairs(data[..j], f);
      assert start + ShardPairs(data[..j + 1], f) == s + [(port, f)];
      assert (s + [(port, f)])[..|s|] == s;
    }
  }

  class ProcessIndexer {
    /** The index in memory. */
    var index: OMap<string, string>
    var loaded: bool
    /** The decoded index file; `None` when the file does not exist. */
    var stored: Option<OMap<string, string>>

    constructor(file: Option<OMap<string, string>>)
      ensures index == [] && !loaded && stored == file
    {
      index := [];
      loaded := false;
      stored := file;
    }

    /** The index is a proper PHP array, in memory and on disk. */
    ghost predicate Valid()
      reads this
    {
      UniqueKeys(index) && (stored.Some? ==> UniqueKeys(stored.value))
    }

    method Load()
      modifies this
      ensures loaded && index == Loaded(old(loaded), old(index), old(stored))
      ensures stored == old(stored)
      ensures old(Valid()) ==> Valid()
    {
      if loaded {
        return;
      }
      if stored.Some? {
        index := stored.value;
      } else {
        index := [];
      }
      loaded := true;
    }

    /** `get($id)`: the shard of `id`, or `None`. */
    method Get(id: string) returns (r: Option<string>)
      modifies this
      ensures loaded && index == Loaded(old(loaded), old(index), old(stored))
      ensures stored == old(stored)
      ensures r == OrderedMaps.Get(index, id)
      ensures old(Valid()) ==> Valid()
    {
      Load();
      r := OrderedMaps.Get(index, id);
    }

    /** `set($id, $file)`: record and write through. */
    method Set(id: string, file: string)
      modifies this
      ensures loaded && index == Put(Loaded(old(loaded), old(index), old(stored)), id, file)
      ensures stored == Some(index)
      ensures OrderedMaps.Get(index, id) == Some(file)
      ensures old(Valid()) ==> Valid()
    {
      Load();
      if old(Valid()) {
        IndexAfterSet(index, id, file, id);
      }
      PutGet(index, id, file);
      index := Put(index, id, file);
      stored := Some(index);
    }

    /** `delete($id)`: forget and write through, if present. */
    method Delete(id: string)
      modifies this
      ensures loaded
      ensures var before := Loaded(old(loaded), old(index), old(stored));
        if HasKey(before, id) then index == Remove(before, id) && stored == Some(index)
        else index == before && stored == old(stored)
      ensures OrderedMaps.Get(index, id) == None
      ensures old(Valid()) ==> Valid()
    {
      Load();
      if HasKey(index, id) {
        if old(Valid()) {
          RemoveUnique(index, id);
        }
        index := Remove(index, id);
        stored := Some(index);
      }
    }

    /** `rebuild($db)` over the shard list `files` (`getAllProcessFiles`):
        every truthy key of every existing shard, last shard winning.
        Returns the number of keys. */
    method Rebuild(db: Database, files: seq<string>) returns (count: nat)
      modifies this
      ensures index == Assign(RebuildPairs(db.json, db.dataDir, files))
      ensures loaded && stored == Some(index)
      ensures count == |index|
      ensures Valid()
    {
      index := [];
      for i := 0 to |files|
        invariant index == Assign(RebuildPairs(db.json, db.dataDir, files[..i]))
      {
        var f := files[i];
        var path := GetPath(db.dataDir, f);
        var start := RebuildPairs(db.json, db.dataDir, files[..i]);
        RebuildPairsStep(db.json, db.dataDir, files, i);
        if path in db.json {
          IndexShard(db.json[path], f, start);
        } else {
          assert start + ShardPairs([], f) == start;
        }
      }
      assert files[..|files|] == files;
      AssignLastWins(RebuildPairs(db.json, db.dataDir, files), "");
      stored := Some(index);
      loaded := true;
      count := |index|;
    }

    /** The inner loop of `rebuild`: index the rows of shard `f`. */
    method IndexShard(data: seq<Doc>, f: string, ghost start: seq<(string, string)>)
      modifies this
      requires index == Assign(start)
      ensures index == Assign(start + ShardPairs(data, f))
      ensures loaded == old(loaded) && stored == old(stored)
    {
      assert start + ShardPairs(data[..0], f) == start;
      for j := 0 to |data|
        invariant index == Assign(start + ShardPairs(data[..j], f))
        invariant loaded == old(loaded) && stored == old(stored)
      {
        var port := GetValueCI(data[j], PORT_FIELD);
        ShardPairsStep(start, data, f, j);
        if Truthy(port) {
          index := Put(index, port, f);
        }
      }
      assert data[..|data|] == data;
    }

    /** `ensureIndex($db)`: rebuild only when there is no index file. */
    method EnsureIndex(db: Database, files: seq<string>)
      modifies this
      ensures old(stored).None? ==> index == Assign(RebuildPairs(db.json, db.dataDir, files)) &&
                                    loaded && stored == Some(index)
      ensures old(stored).Some? ==> index == old(index) && loaded == old(loaded) && stored == old(stored)
    {
      if stored.None? {
        var _ := Rebuild(db, files);
      }
    }
  }
}
