/**
 * The database (class Data): an in-memory index from record number to
 * Subcontractor, loaded from the file on initialize and written back on
 * destroy, with cookie-checked updates and the record locks.
 */
module Db {
  import opened Wrappers
  import opened DbErrors
  import opened Ascii
  import opened DatabaseSchema
  import opened RecordStates
  import opened Domain
  import opened OrderedKeys
  import opened RecordCodec
  import opened FileStore
  import opened Locking

  // ------------------------------------------------------------ record numbers

  /** The record numbers 1..n. */
  function Range(n: nat): set<int> {
    if n == 0 then {} else Range(n - 1) + {n}
  }

  lemma {:induction false} RangeMembers(n: nat)
    ensures forall k :: k in Range(n) <==> 1 <= k <= n
  {
    if n > 0 {
      RangeMembers(n - 1);
    }
  }

  lemma {:induction false} RangeSize(n: nat)
    ensures |Range(n)| == n
  {
    if n > 0 {
      RangeSize(n - 1);
      RangeMembers(n - 1);
      assert n !in Range(n - 1);
    }
  }

  /** The keys of the cache are 1..size(): loading numbers the slots 1, 2, ... and create only reuses or appends. */
  predicate NumberedFromOne(keys: set<int>) {
    keys == Range(|keys|)
  }

  /** putAll of two numbered key sets is numbered: 1..a merged with 1..b is 1..max(a, b). */
  lemma MergeNumbered(a: set<int>, b: set<int>)
    requires NumberedFromOne(a) && NumberedFromOne(b)
    ensures NumberedFromOne(a + b)
  {
    if |a| <= |b| {
      RangeGrows(|a|, |b|);
      assert a + b == b;
    } else {
      RangeGrows(|b|, |a|);
      assert a + b == a;
    }
  }

  lemma {:induction false} RangeGrows(m: nat, n: nat)
    requires m <= n
    ensures Range(m) <= Range(n)
    decreases n
  {
    if m < n {
      RangeGrows(m, n - 1);
    }
  }

  // ------------------------------------------------------------ find

  /** isMatchingSubcontractor: every non-null criterion is contained, ignoring case, in the field at its index. */
  function Matches(data: seq<string>, query: seq<Option<string>>): (r: bool)
    requires |query| <= |data|
    ensures (forall i | 0 <= i < |query| :: query[i].None?) ==> r
    ensures r ==> forall i | 0 <= i < |query| && query[i].Some? :: |query[i].value| <= |data[i]|
  {
    forall i | 0 <= i < |query| :: query[i].Some? ==> ContainsIgnoreCase(data[i], query[i].value)
  }

  /** What find keeps: a record that is not marked deleted (a null state is not) and matches. */
  predicate Selected(r: Record, query: seq<Option<string>>)
    requires |query| == FieldCount
  {
    !IsDeleted(r) && Matches(r.data, query)
  }

  /** The selected keys of `s`, taken from the least key upwards, as find's loop over keySet() visits them. */
  ghost function FindIn(snap: map<int, Record>, s: set<int>, query: seq<Option<string>>): seq<int>
    requires s <= snap.Keys && |query| == FieldCount
    decreases |s|
  {
    if s == {} then []
    else
      var m := Least(s);
      (if Selected(snap[m], query) then [m] else []) + FindIn(snap, s - {m}, query)
  }

  lemma FindInFirst(snap: map<int, Record>, s: set<int>, query: seq<Option<string>>, m: int)
    requires s <= snap.Keys && |query| == FieldCount && IsLeast(m, s)
    ensures FindIn(snap, s, query) == (if Selected(snap[m], query) then [m] else []) + FindIn(snap, s - {m}, query)
  {
    var l := Least(s);
    assert l <= m && m <= l;
  }

  /** find: no result for a null criteria array or one of the wrong length. */
  ghost function FindSpec(snap: map<int, Record>, criteria: Option<seq<Option<string>>>): (r: seq<int>)
    ensures forall k | k in r :: k in snap && !IsDeleted(snap[k])
  {
    if criteria.None? || |criteria.value| != FieldCount then []
    else
      FindInMembers(snap, snap.Keys, criteria.value);
      FindIn(snap, snap.Keys, criteria.value)
  }

  /** find yields exactly the selected keys. */
  lemma {:induction false} FindInMembers(snap: map<int, Record>, s: set<int>, query: seq<Option<string>>)
    requires s <= snap.Keys && |query| == FieldCount
    ensures forall k :: k in FindIn(snap, s, query) <==> k in s && Selected(snap[k], query)
    decreases |s|
  {
    if s != {} {
      var m := Least(s);
      FindInMembers(snap, s - {m}, query);
    }
  }

  /** find yields the keys in ascending order, each once. */
  lemma {:induction false} FindInIncreasing(snap: map<int, Record>, s: set<int>, query: seq<Option<string>>)
    requires s <= snap.Keys && |query| == FieldCount
    ensures StrictlyIncreasing(FindIn(snap, s, query))
    decreases |s|
  {
    if s != {} {
      var m := Least(s);
      var rest := FindIn(snap, s - {m}, query);
      FindInIncreasing(snap, s - {m}, query);
      FindInMembers(snap, s - {m}, query);
      assert forall i | 0 <= i < |rest| :: rest[i] in rest;
    }
  }

  /** find's result for well-formed criteria: ascending, and a key is in it iff it is present, not deleted and matches. */
  lemma FindSpecCharacterised(snap: map<int, Record>, query: seq<Option<string>>)
    requires |query| == FieldCount
    ensures StrictlyIncreasing(FindSpec(snap, Some(query)))
    ensures forall k :: k in FindSpec(snap, Some(query)) <==> k in snap && Selected(snap[k], query)
  {
    FindInMembers(snap, snap.Keys, query);
    FindInIncreasing(snap, snap.Keys, query);
  }

  /** A null criteria array, or one of the wrong length, finds no record rather than failing. */
  lemma FindMalformedCriteria(snap: map<int, Record>, criteria: Option<seq<Option<string>>>)
    requires criteria.None? || |criteria.value| != FieldCount
    ensures FindSpec(snap, criteria) == []
  {
  }

  /** With no criterion set, find returns every record that is not deleted. */
  lemma FindWithoutCriteria(snap: map<int, Record>)
    ensures forall k :: k in FindSpec(snap, Some([None, None, None, None, None, None])) <==> k in snap && !IsDeleted(snap[k])
  {
    FindInMembers(snap, snap.Keys, [None, None, None, None, None, None]);
  }

  // ------------------------------------------------------------ create

  /** The key of the first deleted record in ascending key order, where create's loop breaks. */
  ghost function FirstDeleted(snap: map<int, Record>, s: set<int>): (r: Option<int>)
    requires s <= snap.Keys
    ensures r.Some? ==> r.value in s && IsDeleted(snap[r.value])
    ensures r.Some? ==> forall k | k in s && k < r.value :: !IsDeleted(snap[k])
    ensures r.None? ==> forall k | k in s :: !IsDeleted(snap[k])
    decreases |s|
  {
    if s == {} then None
    else
      var m := Least(s);
      if IsDeleted(snap[m]) then Some(m) else FirstDeleted(snap, s - {m})
  }

  lemma FirstDeletedFirst(snap: map<int, Record>, s: set<int>, m: int)
    requires s <= snap.Keys && IsLeast(m, s)
    ensures FirstDeleted(snap, s) == if IsDeleted(snap[m]) then Some(m) else FirstDeleted(snap, s - {m})
  {
    var l := Least(s);
    assert l <= m && m <= l;
  }

  /** The record number create assigns: the lowest deleted one, else size() + 1. */
  ghost function NewKey(snap: map<int, Record>): (k: int)
    ensures || (k in snap && IsDeleted(snap[k]) && forall j | j in snap && j < k :: !IsDeleted(snap[j]))
            || (k == |snap| + 1 && forall j | j in snap :: !IsDeleted(snap[j]))
  {
    match FirstDeleted(snap, snap.Keys)
    case Some(k) => k
    case None => |snap| + 1
  }

  /** create keeps the record numbers 1..n: it reuses one of them or adds n + 1. */
  lemma CreateKeepsNumbering(snap: map<int, Record>, r: Record)
    requires NumberedFromOne(snap.Keys)
    ensures NumberedFromOne(snap[NewKey(snap) := r].Keys)
    ensures snap[NewKey(snap) := r].Keys == snap.Keys || snap[NewKey(snap) := r].Keys == snap.Keys + {|snap| + 1}
  {
    var k := NewKey(snap);
    if k in snap {
      assert snap[k := r].Keys == snap.Keys;
    } else {
      assert k == |snap| + 1;
      assert snap[k := r].Keys == Range(|snap| + 1);
      RangeSize(|snap| + 1);
    }
  }

  /** The record numbers 1..size() are all positive, as a record number counted from 1 is. */
  lemma NumberedPositive(keys: set<int>)
    requires NumberedFromOne(keys)
    ensures forall k | k in keys :: k >= 1
  {
    RangeMembers(|keys|);
  }

  /** Loading numbers the slots 1..N. */
  lemma RecordMapNumbered(recs: seq<Record>)
    ensures NumberedFromOne(RecordMap(recs).Keys)
  {
    RangeMembers(|recs|);
    assert RecordMap(recs).Keys == Range(|recs|);
    RangeSize(|recs|);
  }

  // ------------------------------------------------------------ update and delete

  /**
   * update on the records: the cookie check comes first; an absent record
   * number is then silently ignored, and a data array of the wrong length
   * is refused by setData.
   */
  function UpdateIn(t: map<int, LockEntry>, snap: map<int, Record>, recNo: int, data: seq<string>, cookie: Int64)
    : (r: (Outcome<DbError>, map<int, Record>))
    ensures r.1.Keys == snap.Keys
    ensures forall k | k in snap && k != recNo :: r.1[k] == snap[k]
    ensures CheckIn(t, recNo, cookie).0.Fail? ==> r == (CheckIn(t, recNo, cookie).0, snap)
    ensures r.0.Pass? && recNo in snap ==> |data| == FieldCount && r.1[recNo] == Record(snap[recNo].state, TrimAll(data))
    ensures r.0.Fail? ==> r.1 == snap
    ensures r.0.Pass? <==> CheckIn(t, recNo, cookie).0.Pass? && (recNo !in snap || |data| == FieldCount)
  {
    var check := CheckIn(t, recNo, cookie).0;
    if check.Fail? then (check, snap)
    else if recNo !in snap then (Pass, snap)
    else if |data| != FieldCount then (Fail(InvalidData), snap)
    else (Pass, snap[recNo := Record(snap[recNo].state, TrimAll(data))])
  }

  /** delete on the records: after the cookie check, a present record is marked deleted and keeps its fields. */
  function DeleteIn(t: map<int, LockEntry>, snap: map<int, Record>, recNo: int, cookie: Int64)
    : (r: (Outcome<DbError>, map<int, Record>))
    ensures r.1.Keys == snap.Keys
    ensures forall k | k in snap && k != recNo :: r.1[k] == snap[k]
    ensures r.0 == CheckIn(t, recNo, cookie).0
    ensures r.0.Pass? && recNo in snap ==> IsDeleted(r.1[recNo]) && r.1[recNo].data == snap[recNo].data
    ensures r.0.Fail? ==> r.1 == snap
  {
    var check := CheckIn(t, recNo, cookie).0;
    if check.Fail? then (check, snap)
    else if recNo !in snap then (Pass, snap)
    else (Pass, snap[recNo := Record(Some(Deleted), snap[recNo].data)])
  }

  /** A record updated under its lock holds the trimmed new fields afterwards. */
  lemma UpdateUnderLock(t: map<int, LockEntry>, snap: map<int, Record>, recNo: int, data: seq<string>, c: Int64)
    requires !EntryOf(t, recNo).locked && recNo in snap && |data| == FieldCount
    ensures UpdateIn(LockIn(t, recNo, c), snap, recNo, data, c) == (Pass, snap[recNo := Record(snap[recNo].state, TrimAll(data))])
  {
    CheckAfterLock(t, recNo, c);
  }

  // ------------------------------------------------------------ the class

  /** Data: the singleton behind the DB interface. */
  class Data {
    var fileAccess: FileAccess?
    var lockManager: LockManager?
    var cache: map<int, Subcontractor>
    /**
     * The lock table is a static map shared by every LockManager, so one
     * LockManager object stands for all of them: each new LockManager() that
     * initialize makes is this object, with whatever locks it already holds.
     */
    const locks: LockManager

    /** Each record number has its own Subcontractor, and the record numbers are 1..size(). */
    ghost predicate Valid()
      reads this
    {
      Injective(cache) && NumberedFromOne(cache.Keys)
    }

    constructor (locks: LockManager)
      ensures Valid() && fileAccess == null && lockManager == null && cache == map[] && this.locks == locks
    {
      this.locks := locks;
      fileAccess := null;
      lockManager := null;
      cache := map[];
    }

    /** This object's FileAccess, if any, is the shared one, and its handle is open. */
    ghost predicate UsesFiles(files: FileAccess)
      reads this, files
    {
      fileAccess == null || (fileAccess == files && files.database != null)
    }

    /**
     * initialize: new FileAccess(location) opens and checks the file through
     * the handle every FileAccess shares (`files`), which is re-pointed at a
     * file that opens even when that file is then rejected; only a file that
     * passes makes this object's FileAccess. Then every record of the file is
     * added to the cache (putAll, so loaded records replace cached ones under
     * the same number) and the lock table, which is shared and outlives this
     * object, is attached.
     */
    method Initialize(disk: Option<seq<uint8>>, files: FileAccess) returns (r: Outcome<DbError>)
      requires Valid() && UsesFiles(files)
      modifies this, files
      ensures Valid() && UsesFiles(files)
      ensures locks.Table() == old(locks.Table())
      ensures disk.None? ==> files.database == old(files.database)
      ensures disk.Some? ==> files.database != null && fresh(files.database) && files.database.content == disk.value
      ensures ValidateDatabase(disk).Fail? ==>
                r == ValidateDatabase(disk) && fileAccess == old(fileAccess) && lockManager == old(lockManager) && cache == old(cache)
      ensures ValidateDatabase(disk).Pass? ==> fileAccess == files
      ensures ValidateDatabase(disk).Pass? && LoadImage(disk.value, ExpectedInitialOffset).Failure? ==>
                r == Fail(DatabaseAccess) && lockManager == old(lockManager) && cache == old(cache)
      ensures ValidateDatabase(disk).Pass? && LoadImage(disk.value, ExpectedInitialOffset).Success? ==>
                && r == Pass && lockManager == locks
                && Snapshot(cache) == old(Snapshot(cache)) + RecordMap(LoadImage(disk.value, ExpectedInitialOffset).value)
    {
      var validated := files.Open(disk);
      if validated.Fail? {
        return validated;
      }
      SnapshotUnchanged(cache);
      r := Load(files);
      locks.TableUnchanged();
    }

    /**
     * initialize over the corrected open: a rejected file leaves the shared
     * handle where it was, so the handle stays on the file the cache came from.
     */
    method InitializeChecked(disk: Option<seq<uint8>>, files: FileAccess) returns (r: Outcome<DbError>)
      requires Valid() && UsesFiles(files)
      modifies this, files
      ensures Valid() && UsesFiles(files)
      ensures locks.Table() == old(locks.Table())
      ensures ValidateDatabase(disk).Fail? ==>
                && r == ValidateDatabase(disk) && files.database == old(files.database)
                && fileAccess == old(fileAccess) && lockManager == old(lockManager) && cache == old(cache)
      ensures ValidateDatabase(disk).Pass? ==>
                fileAccess == files && files.database != null && fresh(files.database) && files.database.content == disk.value
      ensures ValidateDatabase(disk).Pass? && LoadImage(disk.value, ExpectedInitialOffset).Failure? ==>
                r == Fail(DatabaseAccess) && lockManager == old(lockManager) && cache == old(cache)
      ensures ValidateDatabase(disk).Pass? && LoadImage(disk.value, ExpectedInitialOffset).Success? ==>
                && r == Pass && lockManager == locks
                && Snapshot(cache) == old(Snapshot(cache)) + RecordMap(LoadImage(disk.value, ExpectedInitialOffset).value)
    {
      var validated := files.OpenChecked(disk);
      if validated.Fail? {
        return validated;
      }
      SnapshotUnchanged(cache);
      r := Load(files);
      locks.TableUnchanged();
    }

    /**
     * The rest of initialize once the file has passed: this object takes the
     * FileAccess, every record of the file is put into the cache, and the
     * shared lock table is attached.
     */
    method Load(files: FileAccess) returns (r: Outcome<DbError>)
      requires Valid() && files.database != null
      modifies this, files.database
      ensures Valid() && fileAccess == files
      ensures files.database.content == old(files.database.content)
      ensures LoadImage(files.database.content, ExpectedInitialOffset).Failure? ==>
                r == Fail(DatabaseAccess) && lockManager == old(lockManager) && cache == old(cache)
      ensures LoadImage(files.database.content, ExpectedInitialOffset).Success? ==>
                && r == Pass && lockManager == locks
                && Snapshot(cache) == old(Snapshot(cache)) + RecordMap(LoadImage(files.database.content, ExpectedInitialOffset).value)
    {
      fileAccess := files;
      var loaded := fileAccess.GetAllRecords();
      if loaded.Failure? {
        return Fail(loaded.error);
      }
      RecordMapNumbered(LoadImage(files.database.content, ExpectedInitialOffset).value);
      SnapshotUnchanged(cache);
      PutAll(loaded.value);
      label merged:
      lockManager := locks;
      SnapshotUnchanged@merged(cache);
      return Pass;
    }

    /** cache.putAll: every given record is stored, replacing a cached one under the same number. */
    method PutAll(records: map<int, Subcontractor>)
      requires Valid() && Injective(records) && NumberedFromOne(records.Keys)
      requires forall s | s in records.Values :: s !in cache.Values
      modifies this
      ensures Valid() && fileAccess == old(fileAccess) && lockManager == old(lockManager)
      ensures cache == old(cache) + records
      ensures Snapshot(cache) == old(Snapshot(cache)) + old(Snapshot(records))
    {
      MergeNumbered(cache.Keys, records.Keys);
      InjectiveMerge(cache, records);
      ghost var previous := cache;
      cache := cache + records;
      SnapshotMerge(previous, records);
      SnapshotUnchanged(previous);
      SnapshotUnchanged(records);
    }

    /**
     * destroy: saves the cache if a file is open, then forgets the file, the
     * lock manager and the cache whatever the save did.
     */
    method Destroy() returns (r: Outcome<DbError>)
      requires Valid() && (fileAccess != null ==> fileAccess.database != null)
      modifies this, if fileAccess != null then {fileAccess.database} else {}
      ensures Valid() && fileAccess == null && lockManager == null && cache == map[]
      ensures old(fileAccess) == null ==> r == Pass
      ensures old(fileAccess) != null ==>
                && r == SaveOutcome(InKeyOrder(old(Snapshot(cache)), old(cache).Keys))
                && old(fileAccess.database).content
                   == SaveImage(old(fileAccess.database.content), InKeyOrder(old(Snapshot(cache)), old(cache).Keys), ExpectedInitialOffset)
    {
      r := Pass;
      if fileAccess != null {
        r := fileAccess.SaveAllRecords(cache);
      }
      fileAccess := null;
      lockManager := null;
      cache := map[];
    }

    /** read: the fields of a present record, deleted or not; an absent number is dereferenced as null. */
    method Read(recNo: int) returns (data: FieldValues)
      requires recNo in cache
      ensures data == Snapshot(cache)[recNo].data
    {
      data := cache[recNo].GetData();
    }

    method Update(recNo: int, data: seq<string>, lockCookie: Int64) returns (r: Outcome<DbError>)
      requires Valid() && lockManager != null && lockManager.Valid()
      modifies lockManager, cache.Values
      ensures lockManager.Valid()
      ensures lockManager.Table() == CheckIn(old(lockManager.Table()), recNo, lockCookie).1
      ensures forall o | o in lockManager.lockRecordMap.Values :: o in old(lockManager.lockRecordMap.Values) || fresh(o)
      ensures (r, Snapshot(cache)) == UpdateIn(old(lockManager.Table()), old(Snapshot(cache)), recNo, data, lockCookie)
    {
      var checked := lockManager.CheckCookie(recNo, lockCookie);
      SnapshotUnchanged(cache);
      if checked.Fail? {
        return checked;
      }
      if recNo in cache {
        label stored:
        r := StoreFields(recNo, data);
        lockManager.TableUnchanged@stored();
        return r;
      }
      return Pass;
    }

    /** The record step of update: setData on the Subcontractor cached under `recNo`. */
    method StoreFields(recNo: int, data: seq<string>) returns (r: Outcome<DbError>)
      requires Valid() && recNo in cache
      modifies cache[recNo]
      ensures r == (if |data| == FieldCount then Pass else Fail(InvalidData))
      ensures r.Fail? ==> Snapshot(cache) == old(Snapshot(cache))
      ensures r.Pass? ==>
                Snapshot(cache) == old(Snapshot(cache))[recNo := Record(old(Snapshot(cache))[recNo].state, TrimAll(data))]
    {
      ghost var snap := Snapshot(cache);
      ghost var rest := Snapshot(cache - {recNo});
      SnapshotSplit(cache, recNo);
      InjectiveOthers(cache, recNo);
      label stored:
      r := cache[recNo].SetData(data);
      if r.Fail? {
        SnapshotUnchanged@stored(cache);
        return r;
      }
      SnapshotUnchanged@stored(cache - {recNo});
      SnapshotSplit(cache, recNo);
      assert Snapshot(cache) == rest[recNo := Record(snap[recNo].state, TrimAll(data))];
    }

    method Delete(recNo: int, lockCookie: Int64) returns (r: Outcome<DbError>)
      requires Valid() && lockManager != null && lockManager.Valid()
      modifies lockManager, cache.Values
      ensures lockManager.Valid()
      ensures lockManager.Table() == CheckIn(old(lockManager.Table()), recNo, lockCookie).1
      ensures (r, Snapshot(cache)) == DeleteIn(old(lockManager.Table()), old(Snapshot(cache)), recNo, lockCookie)
    {
      var checked := lockManager.CheckCookie(recNo, lockCookie);
      SnapshotUnchanged(cache);
      if checked.Fail? {
        return checked;
      }
      if recNo in cache {
        label stored:
        MarkDeleted(recNo);
        lockManager.TableUnchanged@stored();
      }
      return Pass;
    }

    /** The record step of delete: setState(DELETED) on the Subcontractor cached under `recNo`. */
    method MarkDeleted(recNo: int)
      requires Valid() && recNo in cache
      modifies cache[recNo]
      ensures Snapshot(cache) == old(Snapshot(cache))[recNo := Record(Some(Deleted), old(Snapshot(cache))[recNo].data)]
    {
      ghost var snap := Snapshot(cache);
      ghost var rest := Snapshot(cache - {recNo});
      SnapshotSplit(cache, recNo);
      InjectiveOthers(cache, recNo);
      label stored:
      cache[recNo].SetState(Some(Deleted));
      SnapshotUnchanged@stored(cache - {recNo});
      SnapshotSplit(cache, recNo);
      assert Snapshot(cache) == rest[recNo := Record(Some(Deleted), snap[recNo].data)];
    }

    /** isMatchingSubcontractor: looks at every criterion, remembering any that fails. */
    static method IsMatchingSubcontractor(data: seq<string>, query: seq<Option<string>>) returns (criteriaMatch: bool)
      requires |query| <= |data|
      ensures criteriaMatch == Matches(data, query)
    {
      criteriaMatch := true;
      for i := 0 to |query|
        invariant criteriaMatch <==> Matches(data, query[..i])
      {
        var attribute := query[i];
        if attribute.Some? {
          if !ContainsIgnoreCase(data[i], attribute.value) {
            criteriaMatch := false;
          }
        }
        assert query[..i + 1] == query[..i] + [attribute];
      }
      assert query[..|query|] == query;
    }

    /** find: the keys, in ascending order, of the records that are not deleted and match every criterion. */
    method Find(criteria: Option<seq<Option<string>>>) returns (result: seq<int>)
      ensures result == FindSpec(Snapshot(cache), criteria)
    {
      var matchFound: seq<int> := [];
      if criteria.Some? && |criteria.value| == FieldCount {
        var query := criteria.value;
        ghost var snap := Snapshot(cache);
        var remaining := cache.Keys;
        while remaining != {}
          invariant remaining <= cache.Keys
          invariant matchFound + FindIn(snap, remaining, query) == FindIn(snap, cache.Keys, query)
          decreases |remaining|
        {
          LeastExists(remaining);
          var key :| IsLeast(key, remaining);
          FindInFirst(snap, remaining, query, key);
          var contractor := cache[key];
          ghost var found := matchFound;
          if contractor.state != Some(Deleted) {
            var matching := IsMatchingSubcontractor(contractor.GetData(), query);
            if matching {
              matchFound := matchFound + [key];
            }
          }
          assert matchFound == found + (if Selected(snap[key], query) then [key] else []);
          remaining := remaining - {key};
        }
        assert matchFound + [] == matchFound;
      }
      return matchFound;
    }

    /**
     * The scan at the start of create: the first deleted record met in
     * ascending key order, or size() + 1 when there is none.
     */
    method FreeRecordNumber() returns (availRecordNo: int)
      requires Valid()
      ensures availRecordNo == NewKey(Snapshot(cache))
    {
      ghost var snap := Snapshot(cache);
      availRecordNo := -1;
      var remaining := cache.Keys;
      while remaining != {}
        invariant remaining <= cache.Keys
        invariant FirstDeleted(snap, remaining) == FirstDeleted(snap, cache.Keys)
        invariant availRecordNo == -1
        decreases |remaining|
      {
        LeastExists(remaining);
        var key :| IsLeast(key, remaining);
        FirstDeletedFirst(snap, remaining, key);
        assert snap[key] == cache[key].Value();
        if cache[key].state == Some(Deleted) {
          availRecordNo := key;
          assert FirstDeleted(snap, snap.Keys) == Some(availRecordNo);
          return;
        }
        remaining := remaining - {key};
      }
      assert FirstDeleted(snap, snap.Keys) == None;
      assert |snap| == |snap.Keys| == |cache.Keys| == |cache|;
      availRecordNo := |cache| + 1;
    }

    /**
     * create: the lowest deleted record number if there is one, else
     * size() + 1, now holding a new valid Subcontractor made from `data`.
     */
    method Create(data: seq<string>) returns (r: Result<int, DbError>)
      requires Valid()
      modifies this
      ensures Valid() && fileAccess == old(fileAccess) && lockManager == old(lockManager)
      ensures |data| != FieldCount ==> r == Failure(InvalidData) && cache == old(cache)
      ensures |data| == FieldCount ==>
                && r == Success(NewKey(old(Snapshot(cache))))
                && Snapshot(cache) == old(Snapshot(cache))[r.value := Record(Some(RecordState.Valid), TrimAll(data))]
                && fresh(cache[r.value]) && cache[r.value].recordNumber == NoRecordNumberAssigned
    {
      var availRecordNo := FreeRecordNumber();
      if |data| != FieldCount {
        return Failure(InvalidData);
      }
      ghost var snap := Snapshot(cache);
      var contractor := new Subcontractor.WithState(Some(RecordState.Valid), data);
      ghost var created := contractor.Value();
      assert created == Record(Some(RecordState.Valid), TrimAll(data));
      CreateKeepsNumbering(snap, created);
      ghost var previous := cache;
      cache := cache[availRecordNo := contractor];
      SnapshotPut(previous, availRecordNo, contractor);
      SnapshotUnchanged(previous);
      InjectivePut(previous, availRecordNo, contractor);
      assert cache.Keys == snap[availRecordNo := created].Keys;
      return Success(availRecordNo);
    }

    /**
     * lock: takes `recNo`'s lock; for a number with no record the lock is
     * given back at once and the caller gets not-found.
     */
    method Lock(recNo: int, newCookie: Int64) returns (r: Result<Int64, DbError>)
      requires lockManager != null && lockManager.Valid() && !EntryOf(lockManager.Table(), recNo).locked
      modifies lockManager, lockManager.lockRecordMap.Values
      ensures lockManager.Valid()
      ensures recNo in cache ==> r == Success(newCookie) && lockManager.Table() == LockIn(old(lockManager.Table()), recNo, newCookie)
      ensures recNo !in cache ==> r == Failure(RecordNotFound) && lockManager.Table() == old(lockManager.Table())[recNo := Unlocked]
      ensures forall o | o in lockManager.lockRecordMap.Values :: o in old(lockManager.lockRecordMap.Values) || fresh(o)
      ensures Snapshot(cache) == old(Snapshot(cache))
    {
      ghost var t := lockManager.Table();
      var cookie := lockManager.Lock(recNo, newCookie);
      if recNo !in cache {
        var _ := lockManager.Unlock(recNo, cookie);
        SnapshotUnchanged(cache);
        LockThenUnlock(t, recNo, cookie);
        return Failure(RecordNotFound);
      }
      SnapshotUnchanged(cache);
      return Success(cookie);
    }

    method Unlock(recNo: int, cookie: Int64) returns (r: Outcome<DbError>)
      requires lockManager != null && lockManager.Valid()
      modifies lockManager, lockManager.lockRecordMap.Values
      ensures lockManager.Valid()
      ensures (r, lockManager.Table()) == UnlockIn(old(lockManager.Table()), recNo, cookie)
      ensures forall o | o in lockManager.lockRecordMap.Values :: o in old(lockManager.lockRecordMap.Values) || fresh(o)
      ensures Snapshot(cache) == old(Snapshot(cache))
    {
      r := lockManager.Unlock(recNo, cookie);
      SnapshotUnchanged(cache);
    }
  }

  // ------------------------------------------------------------ the shared handle

  /** The records a database file holds, by record number. */
  ghost function LoadedFrom(good: seq<uint8>): map<int, Record>
    requires LoadImage(good, ExpectedInitialOffset).Success?
  {
    RecordMap(LoadImage(good, ExpectedInitialOffset).value)
  }

  /** The image a save of the records loaded from `good` leaves in `f`. */
  ghost function SavedInto(f: seq<uint8>, good: seq<uint8>): seq<uint8>
    requires LoadImage(good, ExpectedInitialOffset).Success?
  {
    SaveImage(f, InKeyOrder(LoadedFrom(good), LoadedFrom(good).Keys), ExpectedInitialOffset)
  }

  /** A fresh database initialised from `good`, through the open as written or the corrected one. */
  method InitializedFrom(good: seq<uint8>, checked: bool) returns (data: Data, files: FileAccess)
    requires ValidateDatabase(Some(good)) == Pass && LoadImage(good, ExpectedInitialOffset).Success?
    ensures fresh(data) && fresh(files) && files.database != null && fresh(files.database)
    ensures data.Valid() && data.UsesFiles(files) && data.fileAccess == files
    ensures files.database.content == good
    ensures Snapshot(data.cache) == LoadedFrom(good) && data.cache.Keys == LoadedFrom(good).Keys
    ensures data.lockManager == data.locks && fresh(data.locks) && data.locks.lockRecordMap == map[]
    ensures data.locks.Valid() && data.locks.Table() == map[]
  {
    files := new FileAccess();
    var locks := new LockManager();
    data := new Data(locks);
    ghost var loaded := LoadedFrom(good);
    assert map[] + loaded == loaded;
    assert Snapshot(data.cache) == map[];
    var first;
    if checked {
      first := data.InitializeChecked(Some(good), files);
    } else {
      first := data.Initialize(Some(good), files);
    }
    assert Snapshot(data.cache) == map[] + loaded;
  }

  /**
   * The lock table outlives initialize: a record locked before the database
   * is initialised again, from any file or none, is still locked afterwards
   * under the same cookie, so a second lock of it would wait.
   */
  method LockSurvivesInitialize(good: seq<uint8>, disk: Option<seq<uint8>>, n: int, cookie: Int64)
    returns (data: Data, locked: Result<Int64, DbError>, again: Outcome<DbError>)
    requires ValidateDatabase(Some(good)) == Pass && LoadImage(good, ExpectedInitialOffset).Success?
    requires n in LoadedFrom(good)
    ensures locked == Success(cookie)
    ensures data.lockManager == data.locks && EntryOf(data.locks.Table(), n) == LockEntry(true, cookie)
  {
    var files;
    data, files := InitializedFrom(good, false);
    locked := data.Lock(n, cookie);
    assert EntryOf(data.locks.Table(), n) == LockEntry(true, cookie);
    again := data.Initialize(disk, files);
  }

  /**
   * The code as written: a database initialised from `good`, then initialised
   * again from a file `bad` that opens but fails the header check, and then
   * destroyed, saves the records it loaded from `good` into `bad`; `good`
   * gets no save.
   */
  method RejectedFileReceivesSave(good: seq<uint8>, bad: seq<uint8>)
    returns (goodFile: RandomAccessFile, badFile: RandomAccessFile, saved: Outcome<DbError>)
    requires ValidateDatabase(Some(good)) == Pass && LoadImage(good, ExpectedInitialOffset).Success?
    requires ValidateDatabase(Some(bad)).Fail?
    ensures goodFile != badFile
    ensures goodFile.content == good
    ensures badFile.content == SavedInto(bad, good)
  {
    var data, files := InitializedFrom(good, false);
    goodFile := files.database;
    label loaded:
    var second := data.Initialize(Some(bad), files);
    SnapshotUnchanged@loaded(data.cache);
    badFile := files.database;
    ghost var snap, keys := Snapshot(data.cache), data.cache.Keys;
    assert snap == LoadedFrom(good) && keys == LoadedFrom(good).Keys;
    assert data.fileAccess.database == badFile && badFile.content == bad;
    saved := data.Destroy();
    assert badFile.content == SaveImage(bad, InKeyOrder(snap, keys), ExpectedInitialOffset);
  }

  /**
   * The corrected open: the same sequence saves the records back into `good`,
   * the file they were loaded from.
   */
  method RejectedFileLeftAlone(good: seq<uint8>, bad: seq<uint8>)
    returns (goodFile: RandomAccessFile, saved: Outcome<DbError>)
    requires ValidateDatabase(Some(good)) == Pass && LoadImage(good, ExpectedInitialOffset).Success?
    requires ValidateDatabase(Some(bad)).Fail?
    ensures goodFile.content == SavedInto(good, good)
  {
    var data, files := InitializedFrom(good, true);
    goodFile := files.database;
    label loaded:
    var second := data.InitializeChecked(Some(bad), files);
    SnapshotUnchanged@loaded(data.cache);
    ghost var snap, keys := Snapshot(data.cache), data.cache.Keys;
    assert snap == LoadedFrom(good) && keys == LoadedFrom(good).Keys;
    assert data.fileAccess.database == goodFile && goodFile.content == good;
    saved := data.Destroy();
    assert goodFile.content == SaveImage(good, InKeyOrder(snap, keys), ExpectedInitialOffset);
  }
}
