/**
 * The database file and the class that reads and writes it (FileAccess),
 * over an in-memory model of java.io.RandomAccessFile.
 */
module FileStore {
  import opened Wrappers
  import opened DbErrors
  import opened Ascii
  import opened DatabaseSchema
  import opened RecordStates
  import opened Domain
  import opened OrderedKeys
  import opened RecordCodec

  /**
   * The part of java.io.RandomAccessFile the database uses: the bytes of the
   * file and the file pointer. Reading past the end is an EOFException,
   * returned here as None.
   */
  class RandomAccessFile {
    var content: seq<uint8>
    var pointer: nat

    constructor (content: seq<uint8>)
      ensures this.content == content && pointer == 0
    {
      this.content := content;
      pointer := 0;
    }

    function Length(): nat
      reads this
    {
      |content|
    }

    method Seek(pos: nat)
      modifies this
      ensures content == old(content) && pointer == pos
    {
      pointer := pos;
    }

    method ReadByte() returns (r: Option<uint8>)
      modifies this
      ensures content == old(content)
      ensures r.Some? <==> old(pointer) < |content|
      ensures r.Some? ==> r.value == content[old(pointer)] && pointer == old(pointer) + 1
      ensures r.None? ==> pointer == old(pointer)
    {
      if pointer < |content| {
        r := Some(content[pointer]);
        pointer := pointer + 1;
      } else {
        r := None;
      }
    }

    /** readFully: exactly `n` bytes, or EOFException once the end is reached first. */
    method ReadFully(n: nat) returns (r: Option<seq<uint8>>)
      modifies this
      ensures content == old(content)
      ensures r.Some? <==> old(pointer) + n <= |content|
      ensures r.Some? ==> r.value == content[old(pointer)..old(pointer) + n] && pointer == old(pointer) + n
      ensures r.None? ==> pointer == if old(pointer) < |content| then |content| else old(pointer)
    {
      if pointer + n <= |content| {
        r := Some(content[pointer..pointer + n]);
        pointer := pointer + n;
      } else {
        r := None;
        if pointer < |content| {
          pointer := |content|;
        }
      }
    }

    /** readInt: four bytes, high byte first. */
    method ReadInt() returns (r: Option<int>)
      modifies this
      ensures content == old(content)
      ensures r.Some? <==> old(pointer) + 4 <= |content|
      ensures r.Some? ==> r.value == BigEndianInt(content[old(pointer)..old(pointer) + 4])
    {
      var bytes := ReadFully(4);
      if bytes.Some? {
        r := Some(BigEndianInt(bytes.value));
      } else {
        r := None;
      }
    }

    /** writeByte: overwrites the byte at the pointer, or extends the file, and advances. */
    method WriteByte(b: uint8)
      modifies this
      ensures content == WriteAt(old(content), old(pointer), [b])
      ensures pointer == old(pointer) + 1
    {
      content := WriteAt(content, pointer, [b]);
      pointer := pointer + 1;
    }
  }

  /** Prepends the records already read to the outcome of reading the rest of the file. */
  function Prepend(recs: seq<Record>, rest: Result<seq<Record>, DbError>): Result<seq<Record>, DbError> {
    match rest
    case Success(more) => Success(recs + more)
    case Failure(e) => Failure(e)
  }

  lemma PrependSlot(f: seq<uint8>, recs: seq<Record>, pos: nat)
    requires pos + TotalFieldLength <= |f|
    ensures Prepend(recs, LoadImage(f, pos))
         == Prepend(recs + [DecodeRecord(f[pos..pos + TotalFieldLength])], LoadImage(f, pos + TotalFieldLength))
  {
    var rest := LoadImage(f, pos + TotalFieldLength);
    if rest.Success? {
      assert recs + ([DecodeRecord(f[pos..pos + TotalFieldLength])] + rest.value)
          == recs + [DecodeRecord(f[pos..pos + TotalFieldLength])] + rest.value;
    }
  }

  /** Writing the records from the least remaining key on, when its state is set: that key's slot, then the rest. */
  lemma SaveImageFirst(f: seq<uint8>, snap: map<int, Record>, remaining: set<int>, key: int, pos: nat)
    requires remaining <= snap.Keys && IsLeast(key, remaining) && snap[key].state.Some?
    ensures SaveImage(f, InKeyOrder(snap, remaining), pos)
         == SaveImage(WriteAt(f, pos, EncodeRecord(snap[key])), InKeyOrder(snap, remaining - {key}), pos + TotalFieldLength)
    ensures SaveOutcome(InKeyOrder(snap, remaining)) == SaveOutcome(InKeyOrder(snap, remaining - {key}))
  {
    InKeyOrderFirst(snap, remaining, key);
    var rest := InKeyOrder(snap, remaining - {key});
    SaveImageCons(f, snap[key], rest, pos);
    SaveOutcomeCons(snap[key], rest);
  }

  /** Writing the records from the least remaining key on, when its state is null: nothing, and the save fails. */
  lemma SaveImageFirstNull(f: seq<uint8>, snap: map<int, Record>, remaining: set<int>, key: int, pos: nat)
    requires remaining <= snap.Keys && IsLeast(key, remaining) && snap[key].state.None?
    ensures SaveImage(f, InKeyOrder(snap, remaining), pos) == f
    ensures SaveOutcome(InKeyOrder(snap, remaining)) == Fail(NullDereference)
  {
    InKeyOrderFirst(snap, remaining, key);
    var rest := InKeyOrder(snap, remaining - {key});
    SaveImageCons(f, snap[key], rest, pos);
    SaveOutcomeCons(snap[key], rest);
  }

  /**
   * Saving the records of `remaining` in key order from slot `pos` of `f`
   * leads to the image `target` and the outcome `outcome`.
   */
  ghost predicate SavesTo(target: seq<uint8>, outcome: Outcome<DbError>, f: seq<uint8>,
                          snap: map<int, Record>, remaining: set<int>, pos: nat)
  {
    && remaining <= snap.Keys
    && target == SaveImage(f, InKeyOrder(snap, remaining), pos) && outcome == SaveOutcome(InKeyOrder(snap, remaining))
  }

  /**
   * One step of saveAllRecords' loop: once the least remaining key's record
   * is written, the image and outcome the whole save leads to are those of
   * saving the other keys from the next slot.
   */
  lemma SaveStep(target: seq<uint8>, outcome: Outcome<DbError>, f: seq<uint8>, g: seq<uint8>,
                 snap: map<int, Record>, remaining: set<int>, key: int, pos: nat)
    requires remaining <= snap.Keys && IsLeast(key, remaining)
    requires SavesTo(target, outcome, f, snap, remaining, pos)
    requires snap[key].state.Some? && g == WriteAt(f, pos, EncodeRecord(snap[key]))
    ensures SavesTo(target, outcome, g, snap, remaining - {key}, pos + TotalFieldLength)
  {
    SaveImageFirst(f, snap, remaining, key, pos);
  }

  /** The loop of saveAllRecords stops at a null state: nothing more is written and the save fails. */
  lemma SaveStop(target: seq<uint8>, outcome: Outcome<DbError>, f: seq<uint8>,
                 snap: map<int, Record>, remaining: set<int>, key: int, pos: nat)
    requires remaining <= snap.Keys && IsLeast(key, remaining)
    requires SavesTo(target, outcome, f, snap, remaining, pos)
    requires snap[key].state.None?
    ensures target == f
    ensures outcome == Fail(NullDereference)
  {
    SaveImageFirstNull(f, snap, remaining, key, pos);
  }

  /** Once every key is written, the image is complete and the save succeeded. */
  lemma SaveDone(target: seq<uint8>, outcome: Outcome<DbError>, f: seq<uint8>, snap: map<int, Record>, pos: nat)
    requires SavesTo(target, outcome, f, snap, {}, pos)
    ensures target == f
    ensures outcome == Pass
  {
    assert InKeyOrder(snap, {}) == [];
  }

  lemma SnapshotOfRecords(cache: map<int, Subcontractor>, recs: seq<Record>)
    requires forall k :: k in cache <==> 1 <= k <= |recs|
    requires forall k | k in cache :: cache[k].Value() == recs[k - 1]
    ensures Snapshot(cache) == RecordMap(recs)
  {
  }

  lemma PrependNothing(rest: Result<seq<Record>, DbError>)
    ensures Prepend([], rest) == rest
  {
    if rest.Success? {
      assert [] + rest.value == rest.value;
    }
  }

  /** One more field of writeSingleEntry: its padded bytes go right after the flag and the fields before it. */
  lemma FieldWritten(c0: seq<uint8>, pos: nat, flag: uint8, data: FieldValues, i: nat)
    requires i < FieldCount
    ensures FieldOffset(i + 1) == FieldOffset(i) + FieldLengths[i]
    ensures WriteAt(WriteAt(c0, pos, [flag] + EncodeFieldsUpTo(data, i)), pos + 1 + FieldOffset(i),
                    PadBytes(EncodeString(data[i]), FieldLengths[i]))
         == WriteAt(c0, pos, [flag] + EncodeFieldsUpTo(data, i + 1))
  {
    FieldOffsetNext(i);
    var before := [flag] + EncodeFieldsUpTo(data, i);
    WriteAtAppend(c0, pos, before, PadBytes(EncodeString(data[i]), FieldLengths[i]));
    SlotPrefixNext(flag, data, i);
  }

  /** FileAccess: the database file opened for reading and writing. */
  /**
   * FileAccess. Its file handle is a static field shared by every instance,
   * so one object stands for all of them here: `database` is that static
   * handle, null until a file has been opened.
   */
  class FileAccess {
    var database: RandomAccessFile?

    constructor ()
      ensures database == null
    {
      database := null;
    }

    /**
     * new FileAccess(location), i.e. validateDatabase: opens the file (None
     * when it cannot be opened) and reads the magic cookie. The shared handle
     * is pointed at the opened file before the cookie is read, so a file that
     * opens but is rejected still replaces the handle.
     */
    method Open(disk: Option<seq<uint8>>) returns (r: Outcome<DbError>)
      modifies this
      ensures r == ValidateDatabase(disk)
      ensures disk.None? ==> database == old(database)
      ensures disk.Some? ==> database != null && fresh(database) && database.content == disk.value
    {
      if disk.None? {
        return Fail(DatabaseAccess);
      }
      database := new RandomAccessFile(disk.value);
      var magicCookie := database.ReadInt();
      if magicCookie.None? {
        return Fail(DatabaseAccess);
      }
      assert disk.value[..4] == database.content[0..4];
      if magicCookie.value != ExpectedMagicCookieValue {
        return Fail(IncompatibleDatabase);
      }
      return Pass;
    }

    /**
     * validateDatabase as evidently intended: the file is opened and checked
     * on its own, and the shared handle is pointed at it only once it has
     * passed, so a rejected file leaves the handle alone.
     */
    method OpenChecked(disk: Option<seq<uint8>>) returns (r: Outcome<DbError>)
      modifies this
      ensures r == ValidateDatabase(disk)
      ensures r.Fail? ==> database == old(database)
      ensures r.Pass? ==> database != null && fresh(database) && database.content == disk.value
    {
      if disk.None? {
        return Fail(DatabaseAccess);
      }
      var file := new RandomAccessFile(disk.value);
      var magicCookie := file.ReadInt();
      if magicCookie.None? {
        return Fail(DatabaseAccess);
      }
      assert disk.value[..4] == file.content[0..4];
      if magicCookie.value != ExpectedMagicCookieValue {
        return Fail(IncompatibleDatabase);
      }
      database := file;
      return Pass;
    }

    /** SingleRecordReader: reads the six fields one after another, advancing its offset. */
    static method ReadFields(input: seq<uint8>) returns (recordData: FieldValues)
      requires |input| == TotalSchemaLength
      ensures recordData == DecodeFields(input)
    {
      SchemaTotals();
      var offSet := 0;
      var fields: seq<string> := [];
      for i := 0 to FieldCount
        invariant offSet == FieldOffset(i)
        invariant |fields| == i
        invariant forall j | 0 <= j < i :: fields[j] == DecodeFields(input)[j]
      {
        FieldOffsetNext(i);
        fields := fields + [DecodeField(input[offSet..offSet + FieldLengths[i]])];
        offSet := offSet + FieldLengths[i];
      }
      recordData := fields;
    }

    /**
     * readSingleEntry: the slot at `filePosition` as a new Subcontractor with
     * no record number; a slot cut short by the end of the file is an access
     * error.
     */
    method ReadSingleEntry(filePosition: nat) returns (r: Result<Subcontractor, DbError>)
      requires database != null
      modifies database
      ensures database.content == old(database.content)
      ensures r.Success? <==> filePosition + TotalFieldLength <= |database.content|
      ensures r.Failure? ==> r.error == DatabaseAccess
      ensures r.Success? ==> fresh(r.value) && r.value.recordNumber == NoRecordNumberAssigned
      ensures r.Success? ==> r.value.Value() == DecodeRecord(database.content[filePosition..filePosition + TotalFieldLength])
    {
      SchemaTotals();
      database.Seek(filePosition);
      var flagByte := database.ReadByte();
      if flagByte.None? {
        return Failure(DatabaseAccess);
      }
      var input := database.ReadFully(TotalSchemaLength);
      if input.None? {
        return Failure(DatabaseAccess);
      }
      var slot := database.content[filePosition..filePosition + TotalFieldLength];
      assert slot[0] == flagByte.value && slot[1..] == input.value;
      var recordData := ReadFields(input.value);
      TrimAllIdempotent(recordData);
      var flag := flagByte.value as int;
      var subContractor := new Subcontractor.WithState(ForValue(flag), recordData);
      return Success(subContractor);
    }

    /**
     * getAllRecords: every slot from offset 54 to the end of the file, under
     * the keys 1, 2, ... in file order.
     */
    method GetAllRecords() returns (r: Result<map<int, Subcontractor>, DbError>)
      requires database != null
      modifies database
      ensures database.content == old(database.content)
      ensures LoadImage(database.content, ExpectedInitialOffset).Failure? ==> r == Failure(DatabaseAccess)
      ensures LoadImage(database.content, ExpectedInitialOffset).Success? ==>
                r.Success? && Snapshot(r.value) == RecordMap(LoadImage(database.content, ExpectedInitialOffset).value)
      ensures r.Success? ==> Injective(r.value)
      ensures r.Success? ==> forall k | k in r.value :: fresh(r.value[k]) && r.value[k].recordNumber == NoRecordNumberAssigned
    {
      SchemaTotals();
      var result: map<int, Subcontractor> := map[];
      var recNo := 1;
      var filePosition: nat := ExpectedInitialOffset;
      ghost var recs: seq<Record> := [];
      PrependNothing(LoadImage(database.content, filePosition));
      while filePosition < database.Length()
        invariant database.content == old(database.content)
        invariant recNo == |recs| + 1
        invariant LoadImage(database.content, ExpectedInitialOffset) == Prepend(recs, LoadImage(database.content, filePosition))
        invariant forall k :: k in result <==> 1 <= k < recNo
        invariant forall k | k in result :: result[k].Value() == recs[k - 1]
        invariant Injective(result)
        invariant forall k | k in result :: fresh(result[k]) && result[k].recordNumber == NoRecordNumberAssigned
        decreases |database.content| - filePosition
      {
        var entry := ReadSingleEntry(filePosition);
        if entry.Failure? {
          return Failure(DatabaseAccess);
        }
        PrependSlot(database.content, recs, filePosition);
        var subContractor := entry.value;
        result := result[recNo := subContractor];
        recs := recs + [subContractor.Value()];
        recNo := recNo + 1;
        filePosition := filePosition + TotalFieldLength;
      }
      assert recs + [] == recs;
      SnapshotOfRecords(result, recs);
      return Success(result);
    }

    /**
     * The inner loop of writeSingleEntry: `fieldLength` bytes of `fieldValue`,
     * skipping what does not fit and filling up with blanks.
     */
    method WriteField(fieldValue: seq<uint8>, fieldLength: nat)
      requires database != null
      modifies database
      ensures database.content == WriteAt(old(database.content), old(database.pointer), PadBytes(fieldValue, fieldLength))
      ensures database.pointer == old(database.pointer) + fieldLength
    {
      ghost var c0 := database.content;
      ghost var p0 := database.pointer;
      ghost var padded := PadBytes(fieldValue, fieldLength);
      for currentPos := 0 to fieldLength
        invariant database.pointer == p0 + currentPos
        invariant database.content == WriteAt(c0, p0, padded[..currentPos])
      {
        var b: uint8 := if currentPos < |fieldValue| then fieldValue[currentPos] else Blank;
        assert padded[..currentPos + 1] == padded[..currentPos] + [b];
        WriteAtSnoc(c0, p0, padded[..currentPos], b);
        database.WriteByte(b);
      }
      assert padded[..fieldLength] == padded;
    }

    /**
     * writeSingleEntry: seeks to `filePosition`, writes the state's low byte,
     * then each field truncated or padded with blanks to its width. A null
     * state is dereferenced before anything is written.
     */
    method WriteSingleEntry(filePosition: nat, contractor: Subcontractor) returns (r: Outcome<DbError>)
      requires database != null
      modifies database
      ensures contractor.state.None? ==> r == Fail(NullDereference) && database.content == old(database.content)
      ensures contractor.state.Some? ==> r == Pass
      ensures contractor.state.Some? ==>
                database.content == WriteAt(old(database.content), filePosition, EncodeRecord(contractor.Value()))
    {
      ghost var c0 := database.content;
      database.Seek(filePosition);
      if contractor.state.None? {
        return Fail(NullDereference);
      }
      var flagByte := StateByte(contractor.state.value);
      WriteAtSnoc(c0, filePosition, [], flagByte);
      assert [] + [flagByte] == [flagByte];
      database.WriteByte(flagByte);
      WriteFields(c0, filePosition, flagByte, contractor.GetData());
      return Pass;
    }

    /** The field loop of writeSingleEntry, once the flag byte is written at `filePosition`. */
    method WriteFields(ghost c0: seq<uint8>, ghost filePosition: nat, ghost flagByte: uint8, data: FieldValues)
      requires database != null
      requires database.pointer == filePosition + 1
      requires database.content == WriteAt(c0, filePosition, [flagByte])
      modifies database
      ensures database.content == WriteAt(c0, filePosition, [flagByte] + EncodeFields(data))
    {
      assert FieldLengths[..0] == [];
      assert [flagByte] + EncodeFieldsUpTo(data, 0) == [flagByte];
      for i := 0 to FieldCount
        invariant database.pointer == filePosition + 1 + FieldOffset(i)
        invariant database.content == WriteAt(c0, filePosition, [flagByte] + EncodeFieldsUpTo(data, i))
      {
        var fieldLength := FieldLengths[i];
        var fieldValue := EncodeString(data[i]);
        FieldWritten(c0, filePosition, flagByte, data, i);
        WriteField(fieldValue, fieldLength);
      }
    }

    /**
     * One pass of saveAllRecords' loop: the record of the least remaining key
     * is written at `filePosition`, and the position moves on to the next
     * slot. The cached objects are left alone.
     */
    method SaveLeast(cache: map<int, Subcontractor>, remaining: set<int>, filePosition: nat,
                     ghost snap: map<int, Record>, ghost target: seq<uint8>, ghost outcome: Outcome<DbError>)
      returns (r: Outcome<DbError>, remaining': set<int>, filePosition': nat)
      requires database != null
      requires remaining <= cache.Keys && remaining != {} && Snapshot(cache) == snap
      requires SavesTo(target, outcome, database.content, snap, remaining, filePosition)
      modifies database
      ensures remaining' < remaining && Snapshot(cache) == snap
      ensures r.Fail? ==> target == database.content && r == outcome
      ensures r.Pass? ==> SavesTo(target, outcome, database.content, snap, remaining', filePosition')
    {
      LeastExists(remaining);
      var key :| IsLeast(key, remaining);
      var contractor := cache[key];
      ghost var before := database.content;
      r := WriteSingleEntry(filePosition, contractor);
      if r.Fail? {
        SaveStop(target, outcome, before, snap, remaining, key, filePosition);
      } else {
        SaveStep(target, outcome, before, database.content, snap, remaining, key, filePosition);
      }
      remaining', filePosition' := remaining - {key}, filePosition + TotalFieldLength;
    }

    /**
     * saveAllRecords: the cached records in ascending key order, the k-th at
     * offset 54 + (k - 1) * 183 whatever its key; the first null state ends
     * the save with a NullPointerException.
     */
    method SaveAllRecords(cache: map<int, Subcontractor>) returns (r: Outcome<DbError>)
      requires database != null
      modifies database
      ensures r == SaveOutcome(InKeyOrder(Snapshot(cache), cache.Keys))
      ensures database.content
           == SaveImage(old(database.content), InKeyOrder(Snapshot(cache), cache.Keys), ExpectedInitialOffset)
    {
      ghost var snap := Snapshot(cache);
      ghost var target := SaveImage(database.content, InKeyOrder(snap, cache.Keys), ExpectedInitialOffset);
      ghost var outcome := SaveOutcome(InKeyOrder(snap, cache.Keys));
      var filePosition: nat := ExpectedInitialOffset;
      var remaining := cache.Keys;
      while remaining != {}
        invariant remaining <= cache.Keys
        invariant Snapshot(cache) == snap
        invariant SavesTo(target, outcome, database.content, snap, remaining, filePosition)
        decreases remaining
      {
        var written;
        written, remaining, filePosition := SaveLeast(cache, remaining, filePosition, snap, target, outcome);
        if written.Fail? {
          return written;
        }
      }
      SaveDone(target, outcome, database.content, snap, filePosition);
      return Pass;
    }
  }
}
