/**
 * The business use cases of the application (class DBService): listing,
 * searching and booking subcontractors through the database.
 */
module Service {
  import opened Wrappers
  import opened DbErrors
  import opened Ascii
  import opened DatabaseSchema
  import opened RecordStates
  import opened Domain
  import opened OrderedKeys
  import opened Locking
  import opened Db

  // ------------------------------------------------------------ search

  /** The criteria array search hands to find: the name, the location and four nulls. */
  function SearchCriteria(name: Option<string>, location: Option<string>): (c: seq<Option<string>>)
    ensures |c| == FieldCount
    ensures c[IndexName] == name && c[IndexLocation] == location
    ensures forall i | IndexLocation < i < FieldCount :: c[i].None?
  {
    [name, location, None, None, None, None]
  }

  /**
   * isExactMatch: each criterion that is set equals its field,
   * case-sensitively. Such a record also matches find's case-insensitive
   * criteria, so the exact filter only ever narrows what find returned.
   */
  function ExactMatch(data: FieldValues, name: Option<string>, location: Option<string>): (r: bool)
    ensures r ==> Matches(data, SearchCriteria(name, location))
  {
    var r := && (name.None? || name.value == data[IndexName])
             && (location.None? || location.value == data[IndexLocation]);
    assert r ==> Matches(data, SearchCriteria(name, location)) by {
      if r {
        var query := SearchCriteria(name, location);
        forall i | 0 <= i < |query| && query[i].Some?
          ensures ContainsIgnoreCase(data[i], query[i].value)
        {
          ContainsSelf(ToLower(data[i]));
        }
      }
    }
    r
  }

  /** The fields search compares and returns: the re-read fields, trimmed again by the Subcontractor constructor. */
  function Reread(r: Record): FieldValues {
    TrimAll(r.data)
  }

  /** The record numbers of `keys` that search keeps, in the order of `keys`. */
  ghost function Kept(snap: map<int, Record>, keys: seq<int>, name: Option<string>, location: Option<string>, exact: bool)
    : (kept: seq<int>)
    requires forall k | k in keys :: k in snap
    ensures forall k | k in kept :: k in keys
  {
    if keys == [] then []
    else
      var last := keys[|keys| - 1];
      Kept(snap, keys[..|keys| - 1], name, location, exact)
      + (if !exact || ExactMatch(Reread(snap[last]), name, location) then [last] else [])
  }

  lemma KeptStep(snap: map<int, Record>, keys: seq<int>, j: nat, name: Option<string>, location: Option<string>, exact: bool)
    requires j < |keys| && forall k | k in keys :: k in snap
    ensures forall k | k in keys[..j + 1] :: k in snap
    ensures Kept(snap, keys[..j + 1], name, location, exact)
            == Kept(snap, keys[..j], name, location, exact)
               + (if !exact || ExactMatch(Reread(snap[keys[j]]), name, location) then [keys[j]] else [])
  {
    assert keys[..j + 1][..j] == keys[..j];
  }

  /** searchSubcontractor as record numbers: find's result, narrowed to the exact matches when asked. */
  ghost function SearchKeys(snap: map<int, Record>, name: Option<string>, location: Option<string>, exact: bool)
    : (keys: seq<int>)
    ensures forall k | k in keys :: k in snap
  {
    var found := FindSpec(snap, Some(SearchCriteria(name, location)));
    FindSpecCharacterised(snap, SearchCriteria(name, location));
    Kept(snap, found, name, location, exact)
  }

  lemma {:induction false} KeptMembers(snap: map<int, Record>, keys: seq<int>, name: Option<string>, location: Option<string>, exact: bool)
    requires forall k | k in keys :: k in snap
    ensures forall k :: k in Kept(snap, keys, name, location, exact) <==>
                        k in keys && (!exact || ExactMatch(Reread(snap[k]), name, location))
  {
    if keys != [] {
      var init := keys[..|keys| - 1];
      assert forall k | k in init :: k in keys;
      KeptMembers(snap, init, name, location, exact);
      assert keys == init + [keys[|keys| - 1]];
    }
  }

  lemma {:induction false} KeptIncreasing(snap: map<int, Record>, keys: seq<int>, name: Option<string>, location: Option<string>, exact: bool)
    requires forall k | k in keys :: k in snap
    requires StrictlyIncreasing(keys)
    ensures StrictlyIncreasing(Kept(snap, keys, name, location, exact))
  {
    if keys != [] {
      var init := keys[..|keys| - 1];
      var last := keys[|keys| - 1];
      assert forall k | k in init :: k in keys;
      assert StrictlyIncreasing(init);
      KeptIncreasing(snap, init, name, location, exact);
      KeptMembers(snap, init, name, location, exact);
      assert forall k | k in init :: k < last;
      AppendIncreasing(Kept(snap, init, name, location, exact), last);
    }
  }

  /** A number above every element of an increasing sequence extends it. */
  lemma AppendIncreasing(q: seq<int>, x: int)
    requires StrictlyIncreasing(q) && forall k | k in q :: k < x
    ensures StrictlyIncreasing(q + [x])
  {
    assert forall i | 0 <= i < |q| :: q[i] in q;
  }

  /**
   * What search returns: ascending record numbers, and a number is there iff
   * its record is present, not deleted, contains the criteria ignoring case
   * and, with the exact filter, equals them case-sensitively.
   */
  lemma SearchKeysCharacterised(snap: map<int, Record>, name: Option<string>, location: Option<string>, exact: bool)
    ensures StrictlyIncreasing(SearchKeys(snap, name, location, exact))
    ensures forall k :: k in SearchKeys(snap, name, location, exact) <==>
                        && k in snap && Selected(snap[k], SearchCriteria(name, location))
                        && (exact ==> ExactMatch(Reread(snap[k]), name, location))
  {
    var query := SearchCriteria(name, location);
    FindSpecCharacterised(snap, query);
    var found := FindSpec(snap, Some(query));
    KeptMembers(snap, found, name, location, exact);
    KeptIncreasing(snap, found, name, location, exact);
  }

  /** Without the exact filter, search is find. */
  lemma {:induction false} KeptAll(snap: map<int, Record>, keys: seq<int>, name: Option<string>, location: Option<string>)
    requires forall k | k in keys :: k in snap
    ensures Kept(snap, keys, name, location, false) == keys
  {
    if keys != [] {
      var init := keys[..|keys| - 1];
      assert forall k | k in init :: k in keys;
      KeptAll(snap, init, name, location);
      assert keys == init + [keys[|keys| - 1]];
    }
  }

  /** retrieveAllSubcontractors lists every record that is not deleted, in ascending record number order. */
  lemma RetrieveAllKeys(snap: map<int, Record>)
    ensures StrictlyIncreasing(SearchKeys(snap, None, None, false))
    ensures forall k :: k in SearchKeys(snap, None, None, false) <==> k in snap && !IsDeleted(snap[k])
  {
    SearchKeysCharacterised(snap, None, None, false);
    FindWithoutCriteria(snap);
    FindSpecCharacterised(snap, SearchCriteria(None, None));
    KeptAll(snap, FindSpec(snap, Some(SearchCriteria(None, None))), None, None);
  }

  /**
   * The Subcontractor objects search returns stand for `keys` in order, each
   * presumed valid and holding its record's fields as re-read.
   */
  ghost predicate Shows(result: seq<Subcontractor>, keys: seq<int>, snap: map<int, Record>)
    reads set s | s in result
  {
    && |result| == |keys|
    && forall i | 0 <= i < |result| ::
         && result[i].recordNumber == keys[i]
         && keys[i] in snap
         && result[i].Value() == Record(Some(Valid), Reread(snap[keys[i]]))
  }

  /** One more Subcontractor for one more record number keeps the correspondence. */
  lemma ShowsAppend(result: seq<Subcontractor>, keys: seq<int>, snap: map<int, Record>, s: Subcontractor, k: int)
    requires Shows(result, keys, snap) && k in snap
    requires s.recordNumber == k && s.Value() == Record(Some(Valid), Reread(snap[k]))
    ensures Shows(result + [s], keys + [k], snap)
  {
  }

  // ------------------------------------------------------------ booking

  /**
   * bookSubcontractor on the lock table and the records: lock, re-read,
   * refuse a record that is already booked, otherwise update it with the
   * customer as owner; the lock is given back on every path, by Data.lock
   * itself when the record does not exist.
   */
  ghost function BookIn(t: map<int, LockEntry>, snap: map<int, Record>, n: int, customerID: string, cookie: Int64)
    : (r: (Outcome<DbError>, map<int, LockEntry>, map<int, Record>))
    requires !EntryOf(t, n).locked
    ensures r.1 == t[n := Unlocked]
    ensures r.2.Keys == snap.Keys
    ensures forall k | k in snap && k != n :: r.2[k] == snap[k]
  {
    LockThenUnlock(t, n, cookie);
    CheckAfterLock(t, n, cookie);
    var held := LockIn(t, n, cookie);
    if n !in snap then (Fail(RecordNotFound), UnlockIn(held, n, cookie).1, snap)
    else
      var current := Reread(snap[n]);
      if current[IndexOwner] != "" then (Fail(RecordAlreadyBooked), UnlockIn(held, n, cookie).1, snap)
      else
        var (written, records) := UpdateIn(held, snap, n, current[IndexOwner := customerID], cookie);
        var checked := CheckIn(held, n, cookie).1;
        (if written == Fail(InvalidCookie) then Pass else written, UnlockIn(checked, n, cookie).1, records)
  }

  /** Re-reading a record and setting its owner, then storing that through setData, trims only the owner. */
  lemma OwnerTrimmed(r: Record, customerID: string)
    ensures TrimAll(Reread(r)[IndexOwner := customerID]) == Reread(r)[IndexOwner := Trim(customerID)]
  {
    TrimAllIdempotent(r.data);
  }

  /**
   * Booking a free record succeeds; it keeps its state and its other fields
   * and its owner becomes the trimmed customer ID. Nothing else changes.
   */
  lemma BookingFree(t: map<int, LockEntry>, snap: map<int, Record>, n: int, customerID: string, cookie: Int64)
    requires !EntryOf(t, n).locked && n in snap && Reread(snap[n])[IndexOwner] == ""
    ensures BookIn(t, snap, n, customerID, cookie).0 == Pass
    ensures BookIn(t, snap, n, customerID, cookie).2
              == snap[n := Record(snap[n].state, Reread(snap[n])[IndexOwner := Trim(customerID)])]
  {
    CheckAfterLock(t, n, cookie);
    OwnerTrimmed(snap[n], customerID);
  }

  /** The outcome of a booking, stated directly: not found, already booked, or done. */
  function BookingOutcome(snap: map<int, Record>, n: int): Outcome<DbError> {
    if n !in snap then Fail(RecordNotFound)
    else if Reread(snap[n])[IndexOwner] != "" then Fail(RecordAlreadyBooked)
    else Pass
  }

  /** The records after a booking, stated directly: only a free record changes, and only its owner. */
  function Booked(snap: map<int, Record>, n: int, customerID: string): map<int, Record> {
    if BookingOutcome(snap, n) == Pass
    then snap[n := Record(snap[n].state, Reread(snap[n])[IndexOwner := Trim(customerID)])]
    else snap
  }

  /** The lock, read, update and unlock calls of bookSubcontractor amount to the direct statement. */
  lemma BookingAgrees(t: map<int, LockEntry>, snap: map<int, Record>, n: int, customerID: string, cookie: Int64)
    requires !EntryOf(t, n).locked
    ensures BookIn(t, snap, n, customerID, cookie) == (BookingOutcome(snap, n), t[n := Unlocked], Booked(snap, n, customerID))
  {
    if BookingOutcome(snap, n) == Pass {
      BookingFree(t, snap, n, customerID, cookie);
    }
  }

  /** An update by the holder of the record's lock passes the cookie check and stores the trimmed fields. */
  lemma UpdateHeld(t: map<int, LockEntry>, snap: map<int, Record>, n: int, data: seq<string>, c: Int64)
    requires n in t && t[n].cookie == c && n in snap && |data| == FieldCount
    ensures UpdateIn(t, snap, n, data, c) == (Pass, snap[n := Record(snap[n].state, TrimAll(data))])
    ensures CheckIn(t, n, c) == (Pass, t)
  {
  }

  /** The fields the list entries of the booked record show afterwards: the re-read ones, with the owner untrimmed. */
  function ShownAfterBooking(r: Record, customerID: string): FieldValues {
    var current := Reread(r);
    if current[IndexOwner] != "" then current else current[IndexOwner := customerID]
  }

  /**
   * A list after updateCurrentSubcontractors: the entries with record number
   * `n` show `data` and keep their state; the others are as they were.
   */
  predicate Refreshed(before: seq<Record>, after: seq<Record>, numbers: seq<int>, n: int, data: FieldValues) {
    && |after| == |before| == |numbers|
    && forall j | 0 <= j < |after| :: after[j] == if numbers[j] == n then Record(before[j].state, data) else before[j]
  }

  // ------------------------------------------------------------ the class

  class DBService {
    const dao: Data

    constructor (dao: Data)
      ensures this.dao == dao
    {
      this.dao := dao;
    }

    /**
     * searchSubcontractor: one new Subcontractor, presumed valid, per record
     * find returns, in find's order; with exactMatchRequired only those whose
     * name and location equal the criteria that are set.
     */
    method SearchSubcontractor(name: Option<string>, location: Option<string>, exactMatchRequired: bool)
      returns (result: seq<Subcontractor>)
      ensures Shows(result, SearchKeys(Snapshot(dao.cache), name, location, exactMatchRequired), Snapshot(dao.cache))
    {
      var searchCriteria := SearchCriteria(name, location);
      var matchingRecords := dao.Find(Some(searchCriteria));
      ghost var snap := Snapshot(dao.cache);
      FindSpecCharacterised(snap, searchCriteria);
      result := [];
      ghost var kept: seq<int> := [];
      for j := 0 to |matchingRecords|
        invariant Snapshot(dao.cache) == snap
        invariant forall k | k in matchingRecords :: k in snap
        invariant kept == Kept(snap, matchingRecords[..j], name, location, exactMatchRequired)
        invariant Shows(result, kept, snap)
      {
        var subContractor := ReadSubcontractor(matchingRecords[j]);
        KeptStep(snap, matchingRecords, j, name, location, exactMatchRequired);
        if !exactMatchRequired || ExactMatch(subContractor.GetData(), name, location) {
          ShowsAppend(result, kept, snap, subContractor, matchingRecords[j]);
          result, kept := result + [subContractor], kept + [matchingRecords[j]];
        }
      }
      assert matchingRecords[..|matchingRecords|] == matchingRecords;
    }

    /** The loop body of searchSubcontractor: read the record and wrap it in a new Subcontractor. */
    method ReadSubcontractor(recordNumber: int) returns (s: Subcontractor)
      requires recordNumber in dao.cache
      ensures fresh(s) && s.recordNumber == recordNumber
      ensures s.Value() == Record(Some(Valid), Reread(Snapshot(dao.cache)[recordNumber]))
    {
      var recordData := dao.Read(recordNumber);
      s := new Subcontractor.WithNumber(recordNumber, recordData);
    }

    /** retrieveAllSubcontractors: a search with no criteria and no exact filter. */
    method RetrieveAllSubcontractors() returns (result: seq<Subcontractor>)
      ensures Shows(result, SearchKeys(Snapshot(dao.cache), None, None, false), Snapshot(dao.cache))
    {
      result := SearchSubcontractor(None, None, false);
    }

    /**
     * bookSubcontractor: lock the record, re-read it, refuse it if it has an
     * owner, otherwise update it with the customer ID as owner; the list
     * entries of the record are then refreshed from the re-read record, and
     * a lock that was taken is given back before returning.
     */
    method BookSubcontractor(subContractor: Subcontractor, subContractors: seq<Subcontractor>, customerID: string, newCookie: Int64)
      returns (r: Outcome<DbError>)
      requires dao.Valid() && dao.lockManager != null && dao.lockManager.Valid()
      requires !EntryOf(dao.lockManager.Table(), subContractor.recordNumber).locked
      requires forall s | s in subContractors :: s !in dao.cache.Values
      modifies dao.lockManager, dao.lockManager.lockRecordMap.Values, dao.cache.Values, subContractors
      ensures dao.lockManager.Valid()
      ensures r == BookingOutcome(old(Snapshot(dao.cache)), subContractor.recordNumber)
      ensures dao.lockManager.Table() == old(dao.lockManager.Table())[subContractor.recordNumber := Unlocked]
      ensures Snapshot(dao.cache) == Booked(old(Snapshot(dao.cache)), subContractor.recordNumber, customerID)
      ensures r == Fail(RecordNotFound) ==> ListValues(subContractors) == old(ListValues(subContractors))
      ensures r != Fail(RecordNotFound) ==>
                Refreshed(old(ListValues(subContractors)), ListValues(subContractors), Numbers(subContractors),
                          subContractor.recordNumber, ShownAfterBooking(old(Snapshot(dao.cache))[subContractor.recordNumber], customerID))
    {
      var recordNumber := subContractor.recordNumber;
      ghost var t := dao.lockManager.Table();
      var locked := AcquireLock(recordNumber, newCookie, subContractors);
      if locked.Failure? {
        return Fail(locked.error);
      }
      r := BookAndRelease(recordNumber, subContractors, customerID, locked.value);
      LockThenUnlock(t, recordNumber, newCookie);
    }

    /**
     * bookSubcontractor once the lock is held: book under the lock, refresh
     * the list entries of the record from the re-read record, then unlock
     * with the lock's cookie.
     */
    method BookAndRelease(recordNumber: int, subContractors: seq<Subcontractor>, customerID: string, lockCookie: Int64)
      returns (r: Outcome<DbError>)
      requires dao.Valid() && dao.lockManager != null && dao.lockManager.Valid()
      requires recordNumber in dao.cache
      requires recordNumber in dao.lockManager.Table() && dao.lockManager.Table()[recordNumber].cookie == lockCookie
      requires forall s | s in subContractors :: s !in dao.cache.Values
      modifies dao.lockManager, dao.lockManager.lockRecordMap.Values, dao.cache.Values, subContractors
      ensures dao.lockManager.Valid()
      ensures r == BookingOutcome(old(Snapshot(dao.cache)), recordNumber)
      ensures dao.lockManager.Table() == old(dao.lockManager.Table())[recordNumber := Unlocked]
      ensures Snapshot(dao.cache) == Booked(old(Snapshot(dao.cache)), recordNumber, customerID)
      ensures Refreshed(old(ListValues(subContractors)), ListValues(subContractors), Numbers(subContractors),
                        recordNumber, ShownAfterBooking(old(Snapshot(dao.cache))[recordNumber], customerID))
    {
      ghost var held := dao.lockManager.Table();
      ghost var values := ListValues(subContractors);
      var updatedSubcontractor;
      r, updatedSubcontractor := BookHeld(recordNumber, customerID, lockCookie);
      assert ListValues(subContractors) == values;
      ghost var booked := Snapshot(dao.cache);
      label refreshing:
      UpdateCurrentSubcontractors(subContractors, updatedSubcontractor);
      SnapshotUnchanged@refreshing(dao.cache);
      dao.lockManager.TableUnchanged@refreshing();
      assert dao.lockManager.Table() == held;
      ReleaseLock(recordNumber, lockCookie, subContractors);
      UnlockHeld(held, recordNumber, lockCookie);
    }

    /**
     * The part of bookSubcontractor that runs while the caller holds the
     * record's lock: re-read the record, refuse it if it is booked,
     * otherwise update its owner. The cookie check inside update passes, so
     * the SecurityException that bookSubcontractor swallows there does not arise.
     * `updatedSubcontractor` is the re-read record as the list shows it.
     */
    method BookHeld(recordNumber: int, customerID: string, lockCookie: Int64)
      returns (r: Outcome<DbError>, updatedSubcontractor: Subcontractor)
      requires dao.Valid() && dao.lockManager != null && dao.lockManager.Valid()
      requires recordNumber in dao.cache
      requires recordNumber in dao.lockManager.Table() && dao.lockManager.Table()[recordNumber].cookie == lockCookie
      modifies dao.lockManager, dao.cache.Values
      ensures dao.lockManager.Valid() && dao.lockManager.Table() == old(dao.lockManager.Table())
      ensures forall o | o in dao.lockManager.lockRecordMap.Values :: o in old(dao.lockManager.lockRecordMap.Values) || fresh(o)
      ensures r == BookingOutcome(old(Snapshot(dao.cache)), recordNumber)
      ensures Snapshot(dao.cache) == Booked(old(Snapshot(dao.cache)), recordNumber, customerID)
      ensures fresh(updatedSubcontractor) && updatedSubcontractor.recordNumber == recordNumber
      ensures updatedSubcontractor.GetData() == ShownAfterBooking(old(Snapshot(dao.cache))[recordNumber], customerID)
    {
      ghost var snap := Snapshot(dao.cache);
      ghost var table := dao.lockManager.Table();
      var booked;
      booked, updatedSubcontractor := PrepareBooking(recordNumber, customerID);
      assert Snapshot(dao.cache) == snap && dao.lockManager.Table() == table;
      if booked {
        return Fail(RecordAlreadyBooked), updatedSubcontractor;
      }
      var shown := updatedSubcontractor.GetData();
      OwnerTrimmed(snap[recordNumber], customerID);
      UpdateUnderLock(recordNumber, shown, lockCookie);
      assert updatedSubcontractor.GetData() == shown;
      r := Pass;
    }

    /**
     * The re-read of bookSubcontractor: a new Subcontractor for the record
     * and whether it is booked; when it is not, its owner is set to the
     * customer ID. Only the new object is changed.
     */
    method PrepareBooking(recordNumber: int, customerID: string) returns (booked: bool, s: Subcontractor)
      requires recordNumber in dao.cache
      ensures fresh(s) && s.recordNumber == recordNumber
      ensures booked <==> BookingOutcome(Snapshot(dao.cache), recordNumber) == Fail(RecordAlreadyBooked)
      ensures s.GetData() == ShownAfterBooking(Snapshot(dao.cache)[recordNumber], customerID)
    {
      s := ReadSubcontractor(recordNumber);
      booked := s.IsBooked();
      if !booked {
        s.SetOwner(customerID);
      }
    }

    /**
     * update called by the holder of the record's lock: the cookie check
     * passes, so the record takes the trimmed fields and keeps its state,
     * and the lock table is left as it was.
     */
    method UpdateUnderLock(recordNumber: int, data: FieldValues, lockCookie: Int64)
      requires dao.Valid() && dao.lockManager != null && dao.lockManager.Valid()
      requires recordNumber in dao.cache
      requires recordNumber in dao.lockManager.Table() && dao.lockManager.Table()[recordNumber].cookie == lockCookie
      modifies dao.lockManager, dao.cache.Values
      ensures dao.lockManager.Valid() && dao.lockManager.Table() == old(dao.lockManager.Table())
      ensures forall o | o in dao.lockManager.lockRecordMap.Values :: o in old(dao.lockManager.lockRecordMap.Values) || fresh(o)
      ensures Snapshot(dao.cache) == old(Snapshot(dao.cache))[recordNumber := Record(old(Snapshot(dao.cache))[recordNumber].state, TrimAll(data))]
    {
      UpdateHeld(dao.lockManager.Table(), Snapshot(dao.cache), recordNumber, data, lockCookie);
      var written := dao.Update(recordNumber, data, lockCookie);
    }

    /**
     * The lock call that opens bookSubcontractor. Only the lock table
     * changes; the records and the Subcontractor objects of `list` are left
     * alone.
     */
    method AcquireLock(recordNumber: int, newCookie: Int64, ghost list: seq<Subcontractor>) returns (r: Result<Int64, DbError>)
      requires dao.lockManager != null && dao.lockManager.Valid() && !EntryOf(dao.lockManager.Table(), recordNumber).locked
      modifies dao.lockManager, dao.lockManager.lockRecordMap.Values
      ensures dao.lockManager.Valid()
      ensures recordNumber in dao.cache ==>
                r == Success(newCookie) && dao.lockManager.Table() == LockIn(old(dao.lockManager.Table()), recordNumber, newCookie)
      ensures recordNumber !in dao.cache ==>
                r == Failure(RecordNotFound) && dao.lockManager.Table() == old(dao.lockManager.Table())[recordNumber := Unlocked]
      ensures forall o | o in dao.lockManager.lockRecordMap.Values :: o in old(dao.lockManager.lockRecordMap.Values) || fresh(o)
      ensures Snapshot(dao.cache) == old(Snapshot(dao.cache))
      ensures ListValues(list) == old(ListValues(list))
    {
      r := dao.Lock(recordNumber, newCookie);
    }

    /**
     * The finally block of bookSubcontractor: unlock the record with the
     * lock's cookie. Only the lock table changes; the records and the
     * Subcontractor objects of `list` are left alone.
     */
    method ReleaseLock(recordNumber: int, lockCookie: Int64, ghost list: seq<Subcontractor>)
      requires dao.lockManager != null && dao.lockManager.Valid()
      modifies dao.lockManager, dao.lockManager.lockRecordMap.Values
      ensures dao.lockManager.Valid()
      ensures dao.lockManager.Table() == UnlockIn(old(dao.lockManager.Table()), recordNumber, lockCookie).1
      ensures forall o | o in dao.lockManager.lockRecordMap.Values :: o in old(dao.lockManager.lockRecordMap.Values) || fresh(o)
      ensures Snapshot(dao.cache) == old(Snapshot(dao.cache))
      ensures ListValues(list) == old(ListValues(list))
    {
      var _ := dao.Unlock(recordNumber, lockCookie);
    }

    /**
     * updateCurrentSubcontractors: every list entry with the record number of
     * `updated` gets its six fields through the setters; no other entry changes.
     */
    static method UpdateCurrentSubcontractors(subContractors: seq<Subcontractor>, updated: Subcontractor)
      requires updated !in subContractors
      modifies subContractors
      ensures Refreshed(old(ListValues(subContractors)), ListValues(subContractors), Numbers(subContractors),
                        updated.recordNumber, updated.GetData())
    {
      var data := updated.GetData();
      for i := 0 to |subContractors|
        invariant updated.GetData() == data
        invariant forall j | 0 <= j < |subContractors| :: subContractors[j].state == old(subContractors[j].state)
        invariant forall j | 0 <= j < i && subContractors[j].recordNumber == updated.recordNumber ::
                    subContractors[j].GetData() == data
        invariant forall j | 0 <= j < |subContractors| && subContractors[j].recordNumber != updated.recordNumber ::
                    subContractors[j].GetData() == old(subContractors[j].GetData())
      {
        var currentSC := subContractors[i];
        if updated.recordNumber == currentSC.recordNumber {
          currentSC.SetName(data[IndexName]);
          currentSC.SetLocation(data[IndexLocation]);
          currentSC.SetSize(data[IndexSize]);
          currentSC.SetSpecialties(data[IndexSpecialties]);
          currentSC.SetRate(data[IndexRate]);
          currentSC.SetOwner(data[IndexOwner]);
          assert currentSC.GetData() == data;
        }
      }
    }
  }
}
