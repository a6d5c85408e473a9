/**
 * The record locks: one LockInformation per record number, created on first
 * use in the LockManager's table and never removed. Waiting for a held lock
 * is not modelled; locking a held entry is a precondition instead.
 */
module Locking {
  import opened Wrappers
  import opened DbErrors

  /** What a LockInformation holds: whether it is taken and the cookie of its holder. */
  datatype LockEntry = LockEntry(locked: bool, cookie: Int64)

  /** A new LockInformation: not locked, cookie 0; also what a successful unlock leaves. */
  const Unlocked: LockEntry := LockEntry(false, 0)

  /** LockInformation.lock once the entry is free: it is taken under the new cookie. */
  function Acquire(e: LockEntry, newCookie: Int64): (r: LockEntry)
    requires !e.locked
    ensures r.locked && r.cookie == newCookie
  {
    LockEntry(true, newCookie)
  }

  /**
   * LockInformation.unlock: a cookie other than the stored one is refused and
   * nothing changes; the stored one frees the entry. `locked` is not consulted.
   */
  function Release(e: LockEntry, cookie: Int64): (r: (Outcome<DbError>, LockEntry))
    ensures r.0.Pass? <==> e.cookie == cookie
    ensures r.0.Fail? ==> r.0.error == InvalidCookie && r.1 == e
    ensures r.0.Pass? ==> r.1 == Unlocked
  {
    if e.cookie != cookie then (Fail(InvalidCookie), e) else (Pass, Unlocked)
  }

  /** Taking a free entry and releasing it with the cookie it was taken under leaves a fresh entry. */
  lemma AcquireRelease(e: LockEntry, c: Int64)
    requires !e.locked
    ensures Release(Acquire(e, c), c) == (Pass, Unlocked)
  {
  }

  /** Releasing with another cookie than the holder's leaves the entry held by its holder. */
  lemma ReleaseByStranger(e: LockEntry, c: Int64, other: Int64)
    requires !e.locked && other != c
    ensures Release(Acquire(e, c), other) == (Fail(InvalidCookie), Acquire(e, c))
  {
  }

  /** unlock(0) on a fresh entry succeeds, because the cookie of a free entry is 0. */
  lemma ReleaseUnlockedWithZero()
    ensures Release(Unlocked, 0) == (Pass, Unlocked)
  {
  }

  // ------------------------------------------------------------ the table

  /** getLockRecord: the entry stored under `n`, or the fresh one putIfAbsent would store. */
  function EntryOf(t: map<int, LockEntry>, n: int): LockEntry {
    if n in t then t[n] else Unlocked
  }

  /** LockManager.lock on the table: `n`'s entry, created if missing, is taken; no other entry changes. */
  function LockIn(t: map<int, LockEntry>, n: int, newCookie: Int64): (r: map<int, LockEntry>)
    requires !EntryOf(t, n).locked
    ensures r.Keys == t.Keys + {n}
    ensures forall k | k in t && k != n :: r[k] == t[k]
    ensures r[n] == LockEntry(true, newCookie)
  {
    t[n := Acquire(EntryOf(t, n), newCookie)]
  }

  /** LockManager.unlock on the table: `n`'s entry, created if missing, is released or the cookie refused. */
  function UnlockIn(t: map<int, LockEntry>, n: int, cookie: Int64): (r: (Outcome<DbError>, map<int, LockEntry>))
    ensures r.1.Keys == t.Keys + {n}
    ensures forall k | k in t && k != n :: r.1[k] == t[k]
    ensures r.0.Pass? <==> EntryOf(t, n).cookie == cookie
    ensures r.0 == Pass ==> r.1[n] == Unlocked
    ensures r.0 != Pass ==> r.0 == Fail(InvalidCookie) && r.1[n] == EntryOf(t, n)
  {
    var (outcome, e) := Release(EntryOf(t, n), cookie);
    (outcome, t[n := e])
  }

  /**
   * LockManager.checkCookie on the table: an unseen record number gets a
   * fresh entry and the check dereferences the null putIfAbsent returned;
   * otherwise only the cookie is compared, never `locked`.
   */
  function CheckIn(t: map<int, LockEntry>, n: int, cookie: Int64): (r: (Outcome<DbError>, map<int, LockEntry>))
    ensures r.1.Keys == t.Keys + {n}
    ensures forall k | k in t :: r.1[k] == t[k]
    ensures n !in t ==> r == (Fail(NullDereference), t[n := Unlocked])
    ensures n in t ==> r.1 == t && (r.0 == Pass <==> t[n].cookie == cookie)
    ensures r.0 != Pass ==> r.0 == Fail(NullDereference) || r.0 == Fail(InvalidCookie)
  {
    if n !in t then (Fail(NullDereference), t[n := Unlocked])
    else if t[n].cookie != cookie then (Fail(InvalidCookie), t)
    else (Pass, t)
  }

  /** Whoever holds `n`'s lock passes the cookie check that update and delete make. */
  lemma {:induction false} CheckAfterLock(t: map<int, LockEntry>, n: int, c: Int64)
    requires !EntryOf(t, n).locked
    ensures CheckIn(LockIn(t, n, c), n, c) == (Pass, LockIn(t, n, c))
  {
  }

  /** lock then unlock with the returned cookie frees `n` and touches nothing else. */
  lemma LockThenUnlock(t: map<int, LockEntry>, n: int, c: Int64)
    requires !EntryOf(t, n).locked
    ensures UnlockIn(LockIn(t, n, c), n, c) == (Pass, t[n := Unlocked])
  {
    assert LockIn(t, n, c)[n := Unlocked] == t[n := Unlocked];
  }

  /** The holder of `n`'s lock gives it back with its cookie; only `n`'s entry changes. */
  lemma UnlockHeld(t: map<int, LockEntry>, n: int, c: Int64)
    requires n in t && t[n].cookie == c
    ensures UnlockIn(t, n, c) == (Pass, t[n := Unlocked])
  {
  }

  /** Once `n` is unlocked, checkCookie(n, 0) passes although nobody holds the lock. */
  lemma CheckZeroAfterUnlock(t: map<int, LockEntry>, n: int, c: Int64)
    requires UnlockIn(t, n, c).0 == Pass
    ensures CheckIn(UnlockIn(t, n, c).1, n, 0).0 == Pass
  {
  }

  // ------------------------------------------------------------ the classes

  class LockInformation {
    var cookie: Int64
    var locked: bool

    function Entry(): LockEntry
      reads this
    {
      LockEntry(locked, cookie)
    }

    constructor ()
      ensures Entry() == Unlocked
    {
      cookie := 0;
      locked := false;
    }

    /** lock: the wait for a held entry is not modelled, so the entry must be free. */
    method Lock(newCookie: Int64) returns (c: Int64)
      requires !locked
      modifies this
      ensures Entry() == Acquire(old(Entry()), newCookie)
      ensures c == newCookie
    {
      locked := true;
      cookie := newCookie;
      return cookie;
    }

    method Unlock(c: Int64) returns (r: Outcome<DbError>)
      modifies this
      ensures (r, Entry()) == Release(old(Entry()), c)
    {
      if cookie != c {
        return Fail(InvalidCookie);
      }
      locked := false;
      cookie := 0;
      return Pass;
    }

    function GetCookie(): Int64
      reads this
    {
      cookie
    }
  }

  /**
   * The lock table. In the Java code it is a static map shared by every
   * LockManager, so one object of this class stands for all of them.
   */
  class LockManager {
    var lockRecordMap: map<int, LockInformation>

    /** Every record number has its own LockInformation. */
    ghost predicate Valid()
      reads this
    {
      forall j, k | j in lockRecordMap && k in lockRecordMap && j != k :: lockRecordMap[j] != lockRecordMap[k]
    }

    ghost function Table(): map<int, LockEntry>
      reads this, lockRecordMap.Values
    {
      map k | k in lockRecordMap :: lockRecordMap[k].Entry()
    }

    /** A table whose map and entries were left alone holds what it held before. */
    twostate lemma TableUnchanged()
      requires unchanged(this) && forall o | o in lockRecordMap.Values :: old(allocated(o)) && unchanged(o)
      ensures Valid() == old(Valid()) && Table() == old(Table())
    {
    }

    constructor ()
      ensures Valid() && Table() == map[] && lockRecordMap == map[]
    {
      lockRecordMap := map[];
    }

    /** getLockRecord: putIfAbsent of a fresh entry, then the entry stored under `n`. */
    method GetLockRecord(n: int) returns (e: LockInformation)
      requires Valid()
      modifies this
      ensures Valid()
      ensures n in lockRecordMap && e == lockRecordMap[n]
      ensures e.Entry() == EntryOf(old(Table()), n)
      ensures Table() == old(Table())[n := EntryOf(old(Table()), n)]
      ensures n in old(lockRecordMap) ==> lockRecordMap == old(lockRecordMap)
      ensures n !in old(lockRecordMap) ==> fresh(e) && lockRecordMap == old(lockRecordMap)[n := e]
      ensures forall o | o in lockRecordMap.Values :: o in old(lockRecordMap.Values) || fresh(o)
    {
      if n !in lockRecordMap {
        var created := new LockInformation();
        lockRecordMap := lockRecordMap[n := created];
      }
      e := lockRecordMap[n];
      assert Table() == old(Table())[n := e.Entry()];
    }

    method Lock(n: int, newCookie: Int64) returns (c: Int64)
      requires Valid() && !EntryOf(Table(), n).locked
      modifies this, lockRecordMap.Values
      ensures Valid()
      ensures Table() == LockIn(old(Table()), n, newCookie)
      ensures c == newCookie
      ensures forall o | o in lockRecordMap.Values :: o in old(lockRecordMap.Values) || fresh(o)
    {
      var lockRecord := GetLockRecord(n);
      ghost var before := Table();
      assert forall k | k in lockRecordMap && k != n :: lockRecordMap[k] != lockRecord;
      c := lockRecord.Lock(newCookie);
      assert Table() == before[n := lockRecord.Entry()];
    }

    method Unlock(n: int, cookie: Int64) returns (r: Outcome<DbError>)
      requires Valid()
      modifies this, lockRecordMap.Values
      ensures Valid()
      ensures (r, Table()) == UnlockIn(old(Table()), n, cookie)
      ensures forall o | o in lockRecordMap.Values :: o in old(lockRecordMap.Values) || fresh(o)
    {
      var lockRecord := GetLockRecord(n);
      ghost var before := Table();
      assert forall k | k in lockRecordMap && k != n :: lockRecordMap[k] != lockRecord;
      r := lockRecord.Unlock(cookie);
      assert Table() == before[n := lockRecord.Entry()] == old(Table())[n := lockRecord.Entry()];
    }

    method CheckCookie(n: int, cookie: Int64) returns (r: Outcome<DbError>)
      requires Valid()
      modifies this
      ensures Valid()
      ensures (r, Table()) == CheckIn(old(Table()), n, cookie)
      ensures forall o | o in lockRecordMap.Values :: o in old(lockRecordMap.Values) || fresh(o)
    {
      var lockRecord := new LockInformation();
      if n in lockRecordMap {
        var previous := lockRecordMap[n];
        if previous.GetCookie() != cookie {
          return Fail(InvalidCookie);
        }
        return Pass;
      }
      lockRecordMap := lockRecordMap[n := lockRecord];
      assert Table() == old(Table())[n := Unlocked];
      return Fail(NullDereference);
    }
  }
}
