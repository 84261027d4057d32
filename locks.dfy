/**
  The edit locks of `locks.json`: which user holds which process, since when,
  and how recently the holder's heartbeat was seen.  A holder is online for
  `TIME_AWAY` seconds after a heartbeat, away until `TIME_OFFLINE`, and after
  that the lock is expired and anyone may take it.
 */
module Locks {
  import opened Wrappers
  import opened OrderedMaps
  import opened Text

  const TIME_AWAY := 600
  const TIME_OFFLINE := 3600

  /** One entry of the lock file.  A field absent from the file is `None`;
      an absent timestamp reads as 0. */
  datatype LockRecord = LockRecord(user: Option<string>, timestamp: int,
                                   datetime: Option<string>, lastActive: Option<string>)

  /** The lock file: process id to lock record. */
  type LockFile = OMap<string, LockRecord>

  /** `$data['user'] ?? ''` */
  function UserOr(rec: LockRecord): (u: string)
    ensures rec.user.Some? ==> u == rec.user.value
    ensures rec.user.None? ==> u == ""
  {
    if rec.user.Some? then rec.user.value else ""
  }

  /** No heartbeat for more than an hour. */
  predicate Expired(rec: LockRecord, now: int) {
    now - rec.timestamp > TIME_OFFLINE
  }

  /** A record survives the clean-up of `acquireLock` when it is live and
      belongs to someone other than the acquiring user. */
  predicate Kept(rec: LockRecord, user: string, now: int) {
    !Expired(rec, now) && UserOr(rec) != user
  }

  /** The lock file after the clean-up loop of `acquireLock`: expired
      records and every record of `user` are dropped, the rest keep order. */
  function Purge(locks: LockFile, user: string, now: int): (r: LockFile)
    ensures |r| <= |locks|
    ensures forall e :: e in r <==> e in locks && Kept(e.1, user, now)
    decreases |locks|
  {
    if locks == [] then []
    else
      var n := |locks| - 1;
      var before := Purge(locks[..n], user, now);
      assert locks == locks[..n] + [locks[n]];
      if Kept(locks[n].1, user, now) then before + [locks[n]] else before
  }

  /** The entry time remembered by the clean-up loop: the `datetime` of the
      user's own live record for `processId`, if there is one. */
  function Saved(locks: LockFile, processId: string, user: string, now: int): (r: Option<string>)
    ensures r.Some? ==> exists i :: 0 <= i < |locks| && locks[i].0 == processId &&
                                    UserOr(locks[i].1) == user && !Expired(locks[i].1, now) &&
                                    locks[i].1.datetime == r
    decreases |locks|
  {
    if locks == [] then None
    else
      var n := |locks| - 1;
      var e := locks[n];
      if !Expired(e.1, now) && UserOr(e.1) == user && e.0 == processId then e.1.datetime
      else Saved(locks[..n], processId, user, now)
  }

  /** `$savedDatetime ? $savedDatetime : $dataHoraFormatada` */
  function EntryTime(saved: Option<string>, stamp: string): (r: string)
    ensures saved.Some? && Truthy(saved.value) ==> r == saved.value
    ensures !(saved.Some? && Truthy(saved.value)) ==> r == stamp
  {
    if saved.Some? && Truthy(saved.value) then saved.value else stamp
  }

  /** The record `acquireLock` writes for the user. */
  function Fresh(user: string, now: int, entry: string, stamp: string): LockRecord {
    LockRecord(Some(user), now, Some(entry), Some(stamp))
  }

  /** `last_active ?? datetime` */
  function LastSeen(rec: LockRecord): (r: Option<string>)
    ensures rec.lastActive.Some? ==> r == rec.lastActive
    ensures rec.lastActive.None? ==> r == rec.datetime
  {
    if rec.lastActive.Some? then rec.lastActive else rec.datetime
  }

  datatype AcquireResult =
    | Acquired(datetime: string)
    | Refused(lockedBy: Option<string>, since: Option<string>, lastActive: Option<string>)

  datatype Presence = Online | Away

  /** What `checkLock` reports. */
  datatype LockStatus =
    | Unlocked
    | Held(locked: bool, holder: Option<string>, status: Presence, timeDiff: int,
           entryTime: string, lastActive: string)

  /** `checkLock` on a lock file; `fmt` formats a timestamp as `date('d/m/Y H:i')`. */
  function Check(locks: LockFile, processId: string, currentUser: string, now: int,
                 fmt: int -> string): (s: LockStatus)
    ensures s.Unlocked? <==> Get(locks, processId).None? || Expired(Get(locks, processId).value, now)
    ensures s.Held? ==> s.holder == Get(locks, processId).value.user
    ensures s.Held? ==> (s.locked <==> Get(locks, processId).value.user != Some(currentUser))
    ensures s.Held? ==> s.timeDiff == now - Get(locks, processId).value.timestamp <= TIME_OFFLINE
    ensures s.Held? ==> (s.status == Away <==> s.timeDiff > TIME_AWAY)
  {
    match Get(locks, processId)
    case None => Unlocked
    case Some(rec) =>
      var diff := now - rec.timestamp;
      if diff > TIME_OFFLINE then Unlocked
      else
        var entry := if rec.datetime.Some? then rec.datetime.value else fmt(rec.timestamp);
        var last := if rec.lastActive.Some? then rec.lastActive.value else entry;
        Held(rec.user != Some(currentUser), rec.user,
             if diff > TIME_AWAY then Away else Online, diff, entry, last)
  }

  /** `isset($locks[$processId]) && $locks[$processId]['user'] === $user` */
  predicate Owned(locks: LockFile, processId: string, user: string) {
    Get(locks, processId).Some? && Get(locks, processId).value.user == Some(user)
  }

  class LockManager {
    var locks: LockFile

    constructor(initial: LockFile)
      ensures locks == initial
    {
      locks := initial;
    }

    /** Take or renew the lock of `processId` for `user` at time `now`
        (`stamp` is `now` formatted for display).  Expired records and the
        user's other locks are dropped first; the lock is refused, and the
        file left as it was, when someone else holds it live. */
    method AcquireLock(processId: string, user: string, now: int, stamp: string)
      returns (r: AcquireResult)
      modifies this
      ensures r.Refused? <==> HasKey(Purge(old(locks), user, now), processId)
      ensures r.Refused? ==> locks == old(locks)
      ensures r.Refused? ==> var rec := Get(Purge(old(locks), user, now), processId).value;
                             r == Refused(rec.user, rec.datetime, LastSeen(rec))
      ensures r.Acquired? ==> r.datetime == EntryTime(Saved(old(locks), processId, user, now), stamp)
      ensures r.Acquired? ==> locks == Purge(old(locks), user, now) +
                                       [(processId, Fresh(user, now, r.datetime, stamp))]
    {
      var kept: LockFile := [];
      var saved: Option<string> := None;
      for i := 0 to |locks|
        invariant kept == Purge(locks[..i], user, now)
        invariant saved == Saved(locks[..i], processId, user, now)
      {
        var (pid, data) := locks[i];
        assert locks[..i + 1][..i] == locks[..i];
        if now - data.timestamp > TIME_OFFLINE {
          continue;
        }
        if UserOr(data) == user {
          if pid == processId {
            saved := data.datetime;
          }
          continue;
        }
        kept := kept + [(pid, data)];
      }
      assert locks[..|locks|] == locks;
      match Get(kept, processId)
      case Some(current) =>
        r := Refused(current.user, current.datetime, LastSeen(current));
      case None =>
        var entry := EntryTime(saved, stamp);
        locks := kept + [(processId, Fresh(user, now, entry, stamp))];
        r := Acquired(entry);
    }

    /** `checkLock` against the current file. */
    method CheckLock(processId: string, currentUser: string, now: int, fmt: int -> string)
      returns (s: LockStatus)
      ensures s == Check(locks, processId, currentUser, now, fmt)
    {
      s := Check(locks, processId, currentUser, now, fmt);
    }

    /** Give up the lock of `processId`, only if `user` holds it. */
    method ReleaseLock(processId: string, user: string)
      modifies this
      ensures Owned(old(locks), processId, user) ==> locks == Remove(old(locks), processId)
      ensures !Owned(old(locks), processId, user) ==> locks == old(locks)
    {
      if Owned(locks, processId, user) {
        locks := Remove(locks, processId);
      }
    }
  }

  // ---------------------------------------------------------------------
  // Properties
  // ---------------------------------------------------------------------

  /** The clean-up keeps the file a proper PHP array (it only drops entries). */
  lemma {:induction false} PurgeUnique(locks: LockFile, user: string, now: int)
    requires UniqueKeys(locks)
    ensures UniqueKeys(Purge(locks, user, now))
    decreases |locks|
  {
    if locks != [] {
      var n := |locks| - 1;
      var prefix := locks[..n];
      var before := Purge(prefix, user, now);
      UniquePrefix(locks, n);
      PurgeUnique(prefix, user, now);
      if Kept(locks[n].1, user, now) {
        UniqueLast(locks);
        HasKeyOfSubset(before, prefix, locks[n].0);
        SnocUnique(before, locks[n]);
      }
    }
  }

  /** After a successful acquire the file is a proper PHP array, the user
      holds exactly the requested process, and no record in it is expired. */
  lemma AcquireLeavesOneLock(locks: LockFile, processId: string, user: string, now: int,
                             entry: string, stamp: string)
    requires UniqueKeys(locks)
    requires !HasKey(Purge(locks, user, now), processId)
    ensures var after := Purge(locks, user, now) + [(processId, Fresh(user, now, entry, stamp))];
      UniqueKeys(after) &&
      Get(after, processId) == Some(Fresh(user, now, entry, stamp)) &&
      (forall i :: 0 <= i < |after| && UserOr(after[i].1) == user ==> after[i].0 == processId) &&
      (forall i :: 0 <= i < |after| ==> !Expired(after[i].1, now))
  {
    var kept := Purge(locks, user, now);
    var after := kept + [(processId, Fresh(user, now, entry, stamp))];
    PurgeUnique(locks, user, now);
    forall i | 0 <= i < |kept| ensures Kept(kept[i].1, user, now) {
      assert kept[i] in kept;
    }
    UniqueIndex(after, processId, |kept|);
  }

  /** A live lock of another user on the process is the one the clean-up
      keeps, so the acquire is refused and reports that user. */
  lemma {:induction false} OtherLiveLockBlocks(locks: LockFile, processId: string, user: string,
                                               now: int, i: nat)
    requires UniqueKeys(locks)
    requires i < |locks| && locks[i].0 == processId && Kept(locks[i].1, user, now)
    ensures Get(Purge(locks, user, now), processId) == Some(locks[i].1)
  {
    var kept := Purge(locks, user, now);
    PurgeUnique(locks, user, now);
    assert locks[i] in kept;
    var j :| 0 <= j < |kept| && kept[j] == locks[i];
    UniqueIndex(kept, processId, j);
  }

  /** Renewing one's own live lock keeps its entry time: the clean-up
      removes the record, so the acquire succeeds, and remembers its
      `datetime`. */
  lemma {:induction false} RenewKeepsEntryTime(locks: LockFile, processId: string, user: string,
                                               now: int, i: nat)
    requires UniqueKeys(locks)
    requires i < |locks| && locks[i].0 == processId
    requires UserOr(locks[i].1) == user && !Expired(locks[i].1, now)
    ensures !HasKey(Purge(locks, user, now), processId)
    ensures Saved(locks, processId, user, now) == locks[i].1.datetime
  {
    var kept := Purge(locks, user, now);
    if HasKey(kept, processId) {
      var j :| 0 <= j < |kept| && kept[j].0 == processId;
      assert kept[j] in kept;
      var k :| 0 <= k < |locks| && locks[k] == kept[j];
      assert false;
    }
    SavedUnique(locks, processId, user, now, i);
  }

  lemma {:induction false} SavedUnique(locks: LockFile, processId: string, user: string,
                                       now: int, i: nat)
    requires UniqueKeys(locks)
    requires i < |locks| && locks[i].0 == processId
    requires UserOr(locks[i].1) == user && !Expired(locks[i].1, now)
    ensures Saved(locks, processId, user, now) == locks[i].1.datetime
    decreases |locks|
  {
    var n := |locks| - 1;
    if i < n {
      assert locks[n].0 != processId;
      SavedUnique(locks[..n], processId, user, now, i);
    }
  }

  /** Coming back to one's own expired lock starts the clock again: nothing
      is remembered, so the new entry time is the current stamp. */
  lemma {:induction false} ExpiredOwnLockResets(locks: LockFile, processId: string, user: string,
                                                now: int, i: nat)
    requires UniqueKeys(locks)
    requires i < |locks| && locks[i].0 == processId && Expired(locks[i].1, now)
    ensures Saved(locks, processId, user, now) == None
  {
  }

  /** Right after a successful acquire, `checkLock` shows the holder online
      with no idle time, unlocked for the holder and locked for everyone
      else. */
  lemma CheckAfterAcquire(locks: LockFile, processId: string, user: string, other: string,
                          now: int, entry: string, stamp: string, fmt: int -> string)
    requires UniqueKeys(locks)
    requires !HasKey(Purge(locks, user, now), processId)
    ensures var after := Purge(locks, user, now) + [(processId, Fresh(user, now, entry, stamp))];
      Check(after, processId, user, now, fmt) == Held(false, Some(user), Online, 0, entry, stamp) &&
      (other != user ==> Check(after, processId, other, now, fmt).locked)
  {
    AcquireLeavesOneLock(locks, processId, user, now, entry, stamp);
  }

  /** A released lock is gone: `checkLock` reports the process unlocked and
      every other lock is untouched. */
  lemma ReleaseFrees(locks: LockFile, processId: string, user: string, now: int, fmt: int -> string)
    ensures Check(Remove(locks, processId), processId, user, now, fmt) == Unlocked
    ensures forall i :: 0 <= i < |locks| && locks[i].0 != processId ==> locks[i] in Remove(locks, processId)
  {
  }
}
