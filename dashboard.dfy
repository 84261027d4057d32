/**
  The dashboard's own lock protocol over the same lock file: the acquire and
  release handlers, and the monitor that prunes stale records and lists the
  processes being edited.  Unlike `LockManager` it has no expiry purge on
  acquire, lets anyone take over a lock whose heartbeat is two minutes old,
  and prunes records only after two hours.
 */
module Dashboard {
  import opened Wrappers
  import opened OrderedMaps
  import opened Text
  import opened Sorting
  import Locks

  /** A heartbeat younger than this keeps other users out. */
  const TAKEOVER_AFTER := 120
  /** The monitor drops records idle this long. */
  const PRUNE_AFTER := 7200

  // ---------------------------------------------------------------------
  // ajax_acquire_lock
  // ---------------------------------------------------------------------

  datatype AcquireReply =
    | NoPort                         // falsy `port`
    | Busy(lockedBy: Option<string>) // someone else's live heartbeat
    | Granted

  /** The lock file after the clean-up loop: every record of `user` on a
      port other than `port` is dropped, the rest keep order. */
  function DropOthers(locks: Locks.LockFile, port: string, user: string): (r: Locks.LockFile)
    ensures forall e :: e in r <==> e in locks && !(Locks.UserOr(e.1) == user && e.0 != port)
    decreases |locks|
  {
    if locks == [] then []
    else
      var n := |locks| - 1;
      var before := DropOthers(locks[..n], port, user);
      assert locks == locks[..n] + [locks[n]];
      if Locks.UserOr(locks[n].1) == user && locks[n].0 != port then before else before + [locks[n]]
  }

  /** The clean-up never touches the record of `port` itself. */
  lemma {:induction false} DropOthersKeepsPort(locks: Locks.LockFile, port: string, user: string)
    ensures Get(DropOthers(locks, port, user), port) == Get(locks, port)
    decreases |locks|
  {
    if locks != [] {
      var n := |locks| - 1;
      var prefix := locks[..n];
      var before := DropOthers(prefix, port, user);
      DropOthersKeepsPort(prefix, port, user);
      assert locks == prefix + [locks[n]];
      GetSnoc(prefix, locks[n], port);
      HasKeyKeys(before, port);
      HasKeyKeys(prefix, port);
      assert HasKey(before, port) == HasKey(prefix, port);
      if !(Locks.UserOr(locks[n].1) == user && locks[n].0 != port) {
        GetSnoc(before, locks[n], port);
      }
    }
  }

  /** Another user's heartbeat on the port is younger than two minutes. */
  predicate Contested(locks: Locks.LockFile, port: string, user: string, now: int) {
    Get(locks, port).Some? && Get(locks, port).value.user != Some(user) &&
    now - Get(locks, port).value.timestamp < TAKEOVER_AFTER
  }

  /** The entry time written: the stored one when the user already holds
      the port, a fresh stamp otherwise. */
  function EntryOf(locks: Locks.LockFile, port: string, user: string, stamp: string): (r: Option<string>)
    ensures Get(locks, port).Some? && Get(locks, port).value.user == Some(user) ==>
            r == Get(locks, port).value.datetime
    ensures !(Get(locks, port).Some? && Get(locks, port).value.user == Some(user)) ==> r == Some(stamp)
  {
    match Get(locks, port)
    case Some(rec) => if rec.user == Some(user) then rec.datetime else Some(stamp)
    case None => Some(stamp)
  }

  /** The handler on the decoded lock file; `written` is the file it writes
      back, `None` when it writes nothing. */
  method AcquireHandler(locks: Locks.LockFile, port: string, user: string, now: int, stamp: string)
    returns (reply: AcquireReply, written: Option<Locks.LockFile>)
    ensures reply.NoPort? <==> !Truthy(port)
    ensures reply.Busy? <==> Truthy(port) && Contested(locks, port, user, now)
    ensures reply.Busy? ==> reply.lockedBy == Get(locks, port).value.user
    ensures written.Some? <==> reply.Granted?
    ensures reply.Granted? ==>
              written.value == Put(DropOthers(locks, port, user), port,
                                   Locks.LockRecord(Some(user), now, EntryOf(locks, port, user, stamp), None))
  {
    if !Truthy(port) {
      return NoPort, None;
    }
    var kept: Locks.LockFile := [];
    for i := 0 to |locks|
      invariant kept == DropOthers(locks[..i], port, user)
    {
      var (p, info) := locks[i];
      assert locks[..i + 1][..i] == locks[..i];
      if Locks.UserOr(info) == user && p != port {
        continue;
      }
      kept := kept + [(p, info)];
    }
    assert locks[..|locks|] == locks;
    DropOthersKeepsPort(locks, port, user);
    var current := Get(kept, port);
    var datetime: Option<string> := Some(stamp);
    if current.Some? && current.value.user == Some(user) {
      datetime := current.value.datetime;
    } else if current.Some? && now - current.value.timestamp < TAKEOVER_AFTER {
      return Busy(current.value.user), None;
    }
    reply := Granted;
    written := Some(Put(kept, port, Locks.LockRecord(Some(user), now, datetime, None)));
  }

  /** After a granted acquire the file is a proper PHP array, the user's
      record on the port is the one just written, and the user holds no
      other port. */
  lemma {:induction false} GrantedHoldsOnlyPort(locks: Locks.LockFile, port: string, user: string,
                                                rec: Locks.LockRecord)
    requires UniqueKeys(locks)
    requires rec.user == Some(user)
    ensures var after := Put(DropOthers(locks, port, user), port, rec);
      UniqueKeys(after) && Get(after, port) == Some(rec) &&
      forall i :: 0 <= i < |after| && Locks.UserOr(after[i].1) == user ==> after[i].0 == port
  {
    var kept := DropOthers(locks, port, user);
    DropOthersUnique(locks, port, user);
    PutValue(kept, port, rec, port);
    var after := Put(kept, port, rec);
    forall i | 0 <= i < |after| && Locks.UserOr(after[i].1) == user ensures after[i].0 == port {
      if after[i].0 != port {
        PutOthers(kept, port, rec, i);
      }
    }
  }

  /** An entry of `Put(m, k, v)` under another key comes from `m`. */
  lemma PutOthers(m: Locks.LockFile, k: string, v: Locks.LockRecord, i: nat)
    requires i < |Put(m, k, v)| && Put(m, k, v)[i].0 != k
    ensures Put(m, k, v)[i] == m[i]
  {
  }

  lemma {:induction false} DropOthersUnique(locks: Locks.LockFile, port: string, user: string)
    requires UniqueKeys(locks)
    ensures UniqueKeys(DropOthers(locks, port, user))
    decreases |locks|
  {
    if locks != [] {
      var n := |locks| - 1;
      var prefix := locks[..n];
      var before := DropOthers(prefix, port, user);
      UniquePrefix(locks, n);
      DropOthersUnique(prefix, port, user);
      UniqueLast(locks);
      HasKeyOfSubset(before, prefix, locks[n].0);
      SnocUnique(before, locks[n]);
    }
  }

  /** The same user coming back to a port keeps the stored entry time;
      only the heartbeat is refreshed. */
  lemma SameUserKeepsEntry(locks: Locks.LockFile, port: string, user: string, now: int, stamp: string)
    requires Get(locks, port).Some? && Get(locks, port).value.user == Some(user)
    ensures !Contested(locks, port, user, now)
    ensures EntryOf(locks, port, user, stamp) == Get(locks, port).value.datetime
  {
  }

  /** Another user's stale heartbeat is overwritten with a fresh entry time. */
  lemma StaleLockTakenOver(locks: Locks.LockFile, port: string, user: string, now: int, stamp: string)
    requires Get(locks, port).Some? && Get(locks, port).value.user != Some(user)
    requires now - Get(locks, port).value.timestamp >= TAKEOVER_AFTER
    ensures !Contested(locks, port, user, now)
    ensures EntryOf(locks, port, user, stamp) == Some(stamp)
  {
  }

  // ---------------------------------------------------------------------
  // ajax_release_lock
  // ---------------------------------------------------------------------

  /** The release handler: the file written back, `None` when it writes
      nothing.  Only the owner's record is removed. */
  function ReleaseHandler(locks: Locks.LockFile, port: string, user: string): (written: Option<Locks.LockFile>)
    ensures written.Some? <==> Locks.Owned(locks, port, user)
    ensures written.Some? ==> !HasKey(written.value, port)
    ensures written.Some? ==> forall i :: 0 <= i < |locks| && locks[i].0 != port ==> locks[i] in written.value
    ensures written.Some? ==> forall i :: 0 <= i < |written.value| ==> written.value[i] in locks
  {
    if Locks.Owned(locks, port, user) then Some(Remove(locks, port)) else None
  }

  // ---------------------------------------------------------------------
  // The lock monitor
  // ---------------------------------------------------------------------

  /** Presence by idle time: Online, Ausente, Offline. */
  datatype Status = Online | Away | Offline

  function StatusOf(idle: int): (s: Status)
    ensures s == Online <==> idle <= Locks.TIME_AWAY
    ensures s == Away <==> Locks.TIME_AWAY < idle <= Locks.TIME_OFFLINE
    ensures s == Offline <==> Locks.TIME_OFFLINE < idle
  {
    if idle <= Locks.TIME_AWAY then Online else if idle <= Locks.TIME_OFFLINE then Away else Offline
  }

  /** The sort order of a status. */
  function Rank(s: Status): (r: int)
    ensures 1 <= r <= 3
    ensures r == 1 <==> s == Online
    ensures r == 3 <==> s == Offline
  {
    match s
    case Online => 1
    case Away => 2
    case Offline => 3
  }

  /** One row of the "in edition" panel. */
  datatype ActiveEdit = ActiveEdit(port: string, user: string, rawSeconds: int,
                                   idleSeconds: int, status: Status)

  /** A record the monitor keeps. */
  predicate Recent(info: Locks.LockRecord, now: int) {
    now - info.timestamp < PRUNE_AFTER
  }

  /** The panel row of a record.  `parse` reads a `d/m/Y H:i` entry time and
      `stampNow` is the current time in that format, used for a record
      without one; an entry time that does not parse falls back to the
      heartbeat. */
  function EditOf(port: string, info: Locks.LockRecord, now: int, parse: string -> Option<int>,
                  stampNow: string): (e: ActiveEdit)
    ensures e.port == port
    ensures e.idleSeconds == now - info.timestamp
    ensures e.status == StatusOf(e.idleSeconds)
    ensures info.user.Some? ==> e.user == info.user.value
    ensures info.user.None? ==> e.user == "Desconhecido"
    ensures info.datetime.Some? && parse(info.datetime.value).Some? ==>
            e.rawSeconds == now - parse(info.datetime.value).value
    ensures info.datetime.Some? && parse(info.datetime.value).None? ==> e.rawSeconds == e.idleSeconds
    ensures info.datetime.None? && parse(stampNow).Some? ==> e.rawSeconds == now - parse(stampNow).value
    ensures info.datetime.None? && parse(stampNow).None? ==> e.rawSeconds == e.idleSeconds
  {
    var entry := if info.datetime.Some? then info.datetime.value else stampNow;
    var started := match parse(entry) case Some(t) => t case None => info.timestamp;
    var idle := now - info.timestamp;
    ActiveEdit(port, if info.user.Some? then info.user.value else "Desconhecido",
               now - started, idle, StatusOf(idle))
  }

  /** `$cleanLocks`: the records idle less than two hours, in file order. */
  function Pruned(locks: Locks.LockFile, now: int): (r: Locks.LockFile)
    ensures |r| <= |locks|
    ensures forall e :: e in r <==> e in locks && Recent(e.1, now)
    decreases |locks|
  {
    if locks == [] then []
    else
      var n := |locks| - 1;
      var before := Pruned(locks[..n], now);
      assert locks == locks[..n] + [locks[n]];
      if Recent(locks[n].1, now) then before + [locks[n]] else before
  }

  /** The panel rows of the kept records, before sorting. */
  function Edits(clean: Locks.LockFile, now: int, parse: string -> Option<int>, stampNow: string)
    : (es: seq<ActiveEdit>)
    ensures |es| == |clean|
    ensures forall i :: 0 <= i < |clean| ==> es[i] == EditOf(clean[i].0, clean[i].1, now, parse, stampNow)
  {
    seq(|clean|, i requires 0 <= i < |clean| => EditOf(clean[i].0, clean[i].1, now, parse, stampNow))
  }

  /** The `usort` comparator: lower rank first, then longer work time first. */
  predicate EditLe(a: ActiveEdit, b: ActiveEdit) {
    Rank(a.status) < Rank(b.status) ||
    (Rank(a.status) == Rank(b.status) && a.rawSeconds >= b.rawSeconds)
  }

  /** Among records of the same status, the one whose editor entered
      earlier is listed first. */
  lemma EarlierEntryFirst(pa: string, a: Locks.LockRecord, pb: string, b: Locks.LockRecord, now: int,
                          parse: string -> Option<int>, stampNow: string)
    requires a.datetime.Some? && parse(a.datetime.value).Some?
    requires b.datetime.Some? && parse(b.datetime.value).Some?
    requires parse(a.datetime.value).value < parse(b.datetime.value).value
    requires StatusOf(now - a.timestamp) == StatusOf(now - b.timestamp)
    ensures EditLe(EditOf(pa, a, now, parse, stampNow), EditOf(pb, b, now, parse, stampNow))
    ensures !EditLe(EditOf(pb, b, now, parse, stampNow), EditOf(pa, a, now, parse, stampNow))
  {
  }

  lemma EditLeTotalPreorder()
    ensures TotalPreorder(EditLe)
  {
  }

  /** The monitor: the rows of the panel, sorted, and the pruned file,
      written back (`Some`) only when some record was pruned. */
  method Monitor(locks: Locks.LockFile, now: int, parse: string -> Option<int>, stampNow: string)
    returns (edits: seq<ActiveEdit>, rewrite: Option<Locks.LockFile>)
    requires UniqueKeys(locks)
    ensures rewrite.Some? <==> exists i :: 0 <= i < |locks| && !Recent(locks[i].1, now)
    ensures rewrite.Some? ==> rewrite.value == Pruned(locks, now)
    ensures multiset(edits) == multiset(Edits(Pruned(locks, now), now, parse, stampNow))
    ensures Sorted(edits, EditLe)
    ensures forall i :: 0 <= i < |edits| ==> edits[i].idleSeconds < PRUNE_AFTER
  {
    var clean: Locks.LockFile := [];
    var active: seq<ActiveEdit> := [];
    var hasChanges := false;
    for i := 0 to |locks|
      invariant clean == Pruned(locks[..i], now)
      invariant active == Edits(clean, now, parse, stampNow)
      invariant hasChanges <==> exists j :: 0 <= j < i && !Recent(locks[j].1, now)
    {
      var (port, info) := locks[i];
      PrunedStep(locks, now, parse, stampNow, i);
      if now - info.timestamp < PRUNE_AFTER {
        clean := Put(clean, port, info);
        active := active + [EditOf(port, info, now, parse, stampNow)];
      } else {
        hasChanges := true;
      }
    }
    assert locks[..|locks|] == locks;
    rewrite := if hasChanges then Some(clean) else None;
    edits := SortBy(active, EditLe);
    SortedEdits(locks, now, parse, stampNow);
  }

  /** One step of the monitor loop: a kept record's port is new to
      `$cleanLocks`, so the assignment appends it. */
  lemma PrunedStep(locks: Locks.LockFile, now: int, parse: string -> Option<int>, stampNow: string, i: nat)
    requires UniqueKeys(locks) && i < |locks|
    ensures var clean := Pruned(locks[..i], now);
      Pruned(locks[..i + 1], now) ==
        (if Recent(locks[i].1, now) then Put(clean, locks[i].0, locks[i].1) else clean)
    ensures Recent(locks[i].1, now) ==>
      Edits(Pruned(locks[..i + 1], now), now, parse, stampNow) ==
        Edits(Pruned(locks[..i], now), now, parse, stampNow) + [EditOf(locks[i].0, locks[i].1, now, parse, stampNow)]
    ensures !Recent(locks[i].1, now) ==> Pruned(locks[..i + 1], now) == Pruned(locks[..i], now)
  {
    var clean := Pruned(locks[..i], now);
    assert locks[..i + 1][..i] == locks[..i];
    if Recent(locks[i].1, now) {
      PrunedLacksNext(locks, now, i);
      PutAbsent(clean, locks[i].0, locks[i].1);
      EditsSnoc(clean, locks[i], now, parse, stampNow);
    }
  }

  /** The port of the next record is not among those already kept. */
  lemma PrunedLacksNext(locks: Locks.LockFile, now: int, i: nat)
    requires UniqueKeys(locks) && i < |locks|
    ensures !HasKey(Pruned(locks[..i], now), locks[i].0)
  {
    var clean := Pruned(locks[..i], now);
    forall j | 0 <= j < |clean|
      ensures clean[j].0 != locks[i].0
    {
      assert clean[j] in locks[..i];
    }
  }

  lemma EditsSnoc(clean: Locks.LockFile, e: (string, Locks.LockRecord), now: int,
                  parse: string -> Option<int>, stampNow: string)
    ensures Edits(clean + [e], now, parse, stampNow) ==
      Edits(clean, now, parse, stampNow) + [EditOf(e.0, e.1, now, parse, stampNow)]
  {
  }

  /** The sorted panel rows are ordered by the comparator and all come from
      kept records. */
  lemma SortedEdits(locks: Locks.LockFile, now: int, parse: string -> Option<int>, stampNow: string)
    ensures var edits := SortBy(Edits(Pruned(locks, now), now, parse, stampNow), EditLe);
      Sorted(edits, EditLe) &&
      forall i :: 0 <= i < |edits| ==> edits[i].idleSeconds < PRUNE_AFTER
  {
    var clean := Pruned(locks, now);
    var active := Edits(clean, now, parse, stampNow);
    var edits := SortBy(active, EditLe);
    EditLeTotalPreorder();
    SortBySorted(active, EditLe);
    forall i | 0 <= i < |edits| ensures edits[i].idleSeconds < PRUNE_AFTER {
      assert edits[i] in multiset(active);
      var j :| 0 <= j < |active| && active[j] == edits[i];
      assert clean[j] in clean;
    }
  }
}
