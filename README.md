# Subcontractor booking database — a Dafny model

This project models the record database of the `suncertify` booking
application. The database is a flat file of fixed-width subcontractor records:
- a 4-byte magic number `0x203`, a header up to byte 54, then one 183-byte slot
  per record;
- each slot holds a state byte (`0x00` valid, `0xFF` deleted) and six US-ASCII
  fields of widths 32, 64, 64, 6, 8 and 8.

The parts modelled, one module each:

- **DatabaseSchema**, **RecordStates**: the layout constants (with the totals
  the static initialiser computes) and the state codes with their lookup
  `forValue`.
- **Domain**: the `Subcontractor` value object as a class with mutable
  fields. `setData` checks the array length and trims each field; the setters
  write one field each. `Record` is the value a `Subcontractor` holds.
- **RecordCodec**: the byte layout as pure functions:
  - the header check;
  - encoding and decoding of fields, slots and whole file images;
  - round-trip lemmas, and the slot arithmetic of saving and loading.
- **FileStore**: `FileAccess` over an in-memory `RandomAccessFile` (bytes and a
  file pointer). It opens and validates the file, loads every slot into a map
  keyed 1..N, and saves the cache back byte by byte. Each of these loops is
  proved against the functions of `RecordCodec`. The file handle is a static
  field of `FileAccess`, so one `FileAccess` object stands for all of them and
  its `database` field is that shared handle; `Data.initialize` is handed it.
- **Locking**: `LockInformation` (the per-record `locked`/`cookie` state) and
  `LockManager` (the lazily filled table). Each is proved against a function
  on a `map<int, LockEntry>`.
- **Db**: the `Data` class, with these operations:
  - `initialize` and `destroy`;
  - `read`, `update`, `delete`;
  - `find` and its matcher;
  - `create`, `lock` and `unlock`.
  
  The cache is a `map<int, Subcontractor>` kept injective and numbered 1..size().
  The lock table is static, so `Data` holds the one `LockManager` that stands
  for every instance (`Data.locks`); each `initialize` attaches that object,
  with the locks it already holds.
- **Service**: `DBService`, with these use cases:
  - search, optionally narrowed by a case-sensitive exact match;
  - listing all records;
  - booking: lock, re-read, refuse if booked, update the owner, refresh the
    list, and always unlock.
- **ClientUi**: the customer-ID check and the guard sequence of the client's
  booking action, with the messages it shows.
- **EntryValidation**: the port-number check (with `Integer.parseInt`) and
  the extension part of the database-location check of the connection panel.

Java `null` becomes `Option`, and exceptions become `Result`/`Outcome` with one
`DbError` datatype. A `NullPointerException` the code can raise is
`NullDereference`. Record numbers are unbounded integers; lock cookies are
Java `long` values (`Int64`).

Where the code and its own comments differ, the model follows the code:
- `find` matches a case-insensitive substring, not a prefix.
- `read` returns deleted records too.
- `invalidPortNumber` returns `false` for a port in range, although its Javadoc
  describes the opposite return value.
- The customer-ID message asks for "an 8 digit number", but any 8 characters
  that are not all ASCII letters are accepted (`ClientUi.CustomerIdAccepted`).

## Model

| member | source | states |
|---|---|---|
| DatabaseSchema.FieldLengthsInSchemaOrder | code/suncertify/domain/DatabaseSchema.java:106-109 | FIELD_LENGTHS has FIELD_COUNT = 6 entries: 32, 64, 64, 6, 8, 8 for name, location, specialties, size, rate, owner |
| DatabaseSchema.SchemaTotals | code/suncertify/domain/DatabaseSchema.java:111-120 | the summing loop gives TOTAL_SCHEMA_LENGTH = 182 and TOTAL_FIELD_LENGTH = 183 (one state byte more); fields start at offsets 0, 32, 96, 160, 166, 174 |
| DatabaseSchema.FieldOffsetNext | code/suncertify/domain/DatabaseSchema.java:111-116 | field i + 1 starts where field i ends |
| RecordStates.RecordState.Code | code/suncertify/domain/RecordState.java:17-19 | valid has code 0x00 and deleted 0xFF; both fit a byte |
| RecordStates.FindByCode | code/suncertify/domain/RecordState.java:50-57 | the loop over values() returns a state with the code, or null only when no state has it |
| RecordStates.ForValue | code/suncertify/domain/RecordState.java:50-57 | forValue returns a state exactly for codes 0x00 and 0xFF, and that state has the code; any other code gives null, not an error |
| RecordStates.ForValueOfCode | code/suncertify/domain/RecordState.java:39-57 | forValue(s.getCode()) == s for both states |
| Ascii.Trim | code/suncertify/domain/Subcontractor.java:298-303 | String.trim leaves no char ≤ U+0020 at either end and leaves a trimmed string alone |
| Ascii.TrimInfix | code/suncertify/domain/Subcontractor.java:298-303 | String.trim returns the piece s[i..j] of its input, every char before i and from j on being ≤ U+0020 |
| Ascii.TrimPadded | code/suncertify/db/FileAccess.java:110-115 | a trimmed string followed by blanks trims back to itself |
| Ascii.ToLower | code/suncertify/db/Data.java:138 | toLowerCase maps each char through the ASCII letter map and keeps the length |
| Ascii.Contains | code/suncertify/db/Data.java:138 | String.contains holds iff the second string occurs in the first at some position |
| Ascii.ContainsIgnoreCase | code/suncertify/db/Data.java:138 | toLowerCase().contains(toLowerCase()) holds iff the criterion occurs at some position when both are folded char by char |
| Ascii.ContainsSelf | code/suncertify/application/DBService.java:110-120 | a string contains itself, so an exact match is also a substring match |
| Ascii.DecodeEncodeChar | code/suncertify/db/FileAccess.java:173 | an ASCII char survives getBytes("US-ASCII") and new String(…, "US-ASCII") |
| Ascii.EncodeChar | code/suncertify/db/FileAccess.java:173 | getBytes("US-ASCII") gives a byte below 0x80, the char's own code for an ASCII char |
| Ascii.DecodeByte | code/suncertify/db/FileAccess.java:111-112 | new String(…, "US-ASCII") gives an ASCII char exactly for a byte below 0x80, and that char encodes back to the byte |
| Domain.TrimAll | code/suncertify/domain/Subcontractor.java:298-303 | setData's element-wise trim keeps the number of fields, leaves every field trimmed, and leaves trimmed fields alone |
| Domain.TrimAllIdempotent | code/suncertify/domain/Subcontractor.java:265-304 | setData(getData()) changes nothing: trimmed fields trim to themselves |
| Domain.Subcontractor.constructor | code/suncertify/domain/Subcontractor.java:73-77 | the record number and state are stored and the fields are the trimmed data |
| Domain.Subcontractor.WithState | code/suncertify/domain/Subcontractor.java:92-94 | record number NO_RECORD_NUMBER_ASSIGNED (-1), the given state, trimmed fields |
| Domain.Subcontractor.WithNumber | code/suncertify/domain/Subcontractor.java:110-112 | the given record number, state valid, trimmed fields |
| Domain.Subcontractor.IsBooked | code/suncertify/domain/Subcontractor.java:283-285 | booked iff getData()'s owner field is not empty |
| Domain.Subcontractor.SetData | code/suncertify/domain/Subcontractor.java:294-304 | a data array whose length is not 6 is refused with the argument error and no field changes; otherwise getData() is the data trimmed element-wise, and the state is kept |
| Domain.Subcontractor.SetState | code/suncertify/domain/Subcontractor.java:140-142 | the state changes and the six fields do not |
| Domain.Subcontractor.SetName | code/suncertify/domain/Subcontractor.java:159-161 | only index 0 of getData() changes, untrimmed |
| Domain.Subcontractor.SetLocation | code/suncertify/domain/Subcontractor.java:178-180 | only index 1 of getData() changes |
| Domain.Subcontractor.SetSpecialties | code/suncertify/domain/Subcontractor.java:197-199 | only index 2 of getData() changes |
| Domain.Subcontractor.SetSize | code/suncertify/domain/Subcontractor.java:216-218 | only index 3 of getData() changes |
| Domain.Subcontractor.SetRate | code/suncertify/domain/Subcontractor.java:235-237 | only index 4 of getData() changes |
| Domain.Subcontractor.SetOwner | code/suncertify/domain/Subcontractor.java:254-256 | only index 5 of getData() changes |
| RecordCodec.BigEndianInt | code/suncertify/db/FileAccess.java:54 | readInt yields a signed 32-bit value |
| RecordCodec.ReadIntOfBytes | code/suncertify/db/FileAccess.java:54 | readInt gives back every 32-bit value written high byte first in two's complement |
| RecordCodec.BytesOfReadInt | code/suncertify/db/FileAccess.java:54 | every four bytes are the high-byte-first two's complement encoding of what readInt makes of them |
| RecordCodec.ValidateDatabase | code/suncertify/db/FileAccess.java:49-63 | a file that cannot be opened or is shorter than 4 bytes is the access error; any other failure is the incompatible-database error |
| RecordCodec.ValidateDatabaseAccepts | code/suncertify/db/FileAccess.java:53-62 | the header is accepted iff the file starts with the bytes 00 00 02 03 |
| RecordCodec.MagicDigits | code/suncertify/domain/DatabaseSchema.java:16 | 0x203 as four unsigned bytes is only 00 00 02 03 |
| RecordCodec.DecodeField | code/suncertify/db/FileAccess.java:110-115 | a decoded field is trimmed |
| RecordCodec.PadBytes | code/suncertify/db/FileAccess.java:180-186 | the padding loop writes exactly `width` bytes |
| RecordCodec.EncodeField | code/suncertify/db/FileAccess.java:171-186 | an encoded field has exactly its width |
| RecordCodec.EncodeFieldTruncates | code/suncertify/db/FileAccess.java:180-182 | a field longer than its width keeps its first `width` characters |
| RecordCodec.EncodeFieldPads | code/suncertify/db/FileAccess.java:180-185 | a shorter field is written, then blanks (0x20) up to the width |
| RecordCodec.DecodeEncodeField | code/suncertify/db/FileAccess.java:110-126 | a storable field (ASCII, trimmed, no wider than its slot) decodes to itself |
| RecordCodec.EncodeFields | code/suncertify/db/FileAccess.java:170-187 | the six fields take 182 bytes |
| RecordCodec.EncodeRecord | code/suncertify/db/FileAccess.java:162-194 | a slot is 183 bytes, starting with the low byte of the state code |
| RecordCodec.DecodeRecord | code/suncertify/db/FileAccess.java:96-134 | the flag byte is read unsigned and looked up with forValue; the fields come back trimmed |
| RecordCodec.StateByte | code/suncertify/db/FileAccess.java:191-194 | the flag byte written for a state is its code, and read back unsigned through forValue it gives the state |
| RecordCodec.DecodeEncodeFieldAt | code/suncertify/db/FileAccess.java:120-126 | field i of an encoded slot decodes back to field i |
| RecordCodec.DecodeEncodeFields | code/suncertify/db/FileAccess.java:110-126 | decoding the encoded fields gives back all six fields |
| RecordCodec.DecodeEncodeRecord | code/suncertify/db/FileAccess.java:96-194 | decoding an encoded storable record gives back its state and fields |
| RecordCodec.WriteAt | code/suncertify/db/FileAccess.java:165-168 | writing extends the file only past its end |
| RecordCodec.WriteAtOutside | code/suncertify/db/FileAccess.java:165-186 | a write leaves every byte outside its range alone |
| RecordCodec.WriteAtInside | code/suncertify/db/FileAccess.java:165-186 | the written range holds exactly the written bytes |
| RecordCodec.SaveImage | code/suncertify/db/FileAccess.java:146-160 | saving never shortens the file |
| RecordCodec.SaveOutcome | code/suncertify/db/FileAccess.java:152-155 | a save fails only by dereferencing a null state |
| RecordCodec.LoadImage | code/suncertify/db/FileAccess.java:74-94 | loading fails only with the access error |
| RecordCodec.SaveImageKeepsPrefix | code/suncertify/db/FileAccess.java:151 | no byte before the first slot's offset changes, so the header survives every save |
| RecordCodec.SaveImageFirstSlot | code/suncertify/db/FileAccess.java:151-155 | the first record lands in the slot at the start offset |
| RecordCodec.SaveImageSlot | code/suncertify/db/FileAccess.java:151-156 | the k-th record in key order lands at offset pos + k * 183, whatever its key |
| RecordCodec.SaveImageLength | code/suncertify/db/FileAccess.java:151-156 | saving n records from pos makes the file pos + n * 183 bytes long when it was no longer |
| RecordCodec.LoadSaveImage | code/suncertify/db/FileAccess.java:74-189 | loading what was saved gives back the storable records, in order |
| RecordCodec.RecordMap | code/suncertify/db/FileAccess.java:77-85 | loading keys the slots 1..N in file order |
| RecordCodec.RecordsInOrder | code/suncertify/db/FileAccess.java:152-153 | the records under a list of keys, in the list's order |
| RecordCodec.InKeyOrderSorted | code/suncertify/db/FileAccess.java:152 | extracting the least key repeatedly visits the keys in ascending order |
| OrderedKeys.SortedKeys | code/suncertify/db/FileAccess.java:152 | keySet() order: every key once, strictly ascending |
| FileStore.RandomAccessFile.Seek | code/suncertify/db/FileAccess.java:102 | seek moves the pointer only |
| FileStore.RandomAccessFile.ReadByte | code/suncertify/db/FileAccess.java:103 | the byte at the pointer, or end of file, and nothing changes |
| FileStore.RandomAccessFile.ReadFully | code/suncertify/db/FileAccess.java:104 | exactly n bytes from the pointer, or end of file when fewer remain |
| FileStore.RandomAccessFile.ReadInt | code/suncertify/db/FileAccess.java:54 | the big-endian int of the next four bytes, or end of file |
| FileStore.RandomAccessFile.WriteByte | code/suncertify/db/FileAccess.java:168 | the byte is written at the pointer and the pointer advances |
| FileStore.FileAccess.constructor | code/suncertify/db/FileAccess.java:31 | no file is open yet: the shared handle is null |
| FileStore.FileAccess.Open | code/suncertify/db/FileAccess.java:45-63 | opening succeeds exactly when the header check passes, else fails with that check's error; a file that opens replaces the shared handle even when it is then rejected, and a file that cannot be opened leaves the handle alone |
| FileStore.FileAccess.OpenChecked | code/suncertify/db/FileAccess.java:45-63 | the corrected open: the same outcome, but the shared handle is replaced only by a file that passes the header check |
| FileStore.FileAccess.ReadFields | code/suncertify/db/FileAccess.java:107-126 | the offset-advancing reader gives the six decoded fields |
| FileStore.FileAccess.ReadSingleEntry | code/suncertify/db/FileAccess.java:96-130 | a whole slot becomes a new Subcontractor with no record number holding the decoded record; a short slot is the access error; the file is unchanged |
| FileStore.FileAccess.GetAllRecords | code/suncertify/db/FileAccess.java:74-94 | the map holds the loaded image under keys 1..N, as new distinct objects, or the access error |
| FileStore.FileAccess.WriteField | code/suncertify/db/FileAccess.java:180-186 | the field's bytes cut or padded to the width are written at the pointer |
| FileStore.FileAccess.WriteFields | code/suncertify/db/FileAccess.java:170-187 | after the flag byte, the encoded fields follow |
| FileStore.FileAccess.WriteSingleEntry | code/suncertify/db/FileAccess.java:162-189 | the encoded record is written at the position; a null state fails before anything is written |
| FileStore.FileAccess.SaveAllRecords | code/suncertify/db/FileAccess.java:146-160 | the file becomes the save image of the cache's records in ascending key order from offset 54, and the outcome is that of the save (null state: stop and fail) |
| Locking.Acquire | code/suncertify/db/lock/LockInformation.java:54-67 | a free entry becomes locked under the new cookie |
| Locking.Release | code/suncertify/db/lock/LockInformation.java:81-97 | a wrong cookie is refused with the security error and the entry is kept; the right one leaves it unlocked with cookie 0 |
| Locking.AcquireRelease | code/suncertify/db/lock/LockInformation.java:54-97 | lock then unlock with the cookie given back leaves a fresh entry |
| Locking.ReleaseByStranger | code/suncertify/db/lock/LockInformation.java:84-86 | another cookie cannot release a held entry |
| Locking.ReleaseUnlockedWithZero | code/suncertify/db/lock/LockInformation.java:84-89 | unlock(0) on a fresh entry succeeds, since `locked` is not consulted |
| Locking.LockIn | code/suncertify/db/lock/LockManager.java:33-38 | the table gains n if missing; n's entry is locked under the new cookie; no other entry changes |
| Locking.UnlockIn | code/suncertify/db/lock/LockManager.java:52-56 | the table gains n if missing; n's entry is released iff its cookie matches, else the security error; no other entry changes |
| Locking.CheckIn | code/suncertify/db/lock/LockManager.java:72-80 | an unseen n gets a fresh entry and fails by a null dereference; otherwise only the cookie is compared and nothing changes |
| Locking.CheckAfterLock | code/suncertify/db/lock/LockManager.java:33-80 | the holder of n's lock passes the cookie check |
| Locking.LockThenUnlock | code/suncertify/db/lock/LockManager.java:33-56 | lock then unlock with the returned cookie frees n and changes nothing else |
| Locking.UnlockHeld | code/suncertify/db/lock/LockManager.java:52-56 | the holder gives the lock back with its cookie |
| Locking.CheckZeroAfterUnlock | code/suncertify/db/lock/LockManager.java:72-80 | after an unlock, checkCookie(n, 0) passes though nobody holds the lock |
| Locking.LockInformation.constructor | code/suncertify/db/lock/LockInformation.java:39-42 | a new entry is unlocked with cookie 0 |
| Locking.LockInformation.Lock | code/suncertify/db/lock/LockInformation.java:54-67 | a free entry is taken under the new cookie, which is returned |
| Locking.LockInformation.Unlock | code/suncertify/db/lock/LockInformation.java:81-97 | the entry and outcome are those of Release |
| Locking.LockManager.constructor | code/suncertify/db/lock/LockManager.java:17 | the table starts empty |
| Locking.LockManager.GetLockRecord | code/suncertify/db/lock/LockManager.java:82-87 | putIfAbsent: n's existing entry, or a new fresh one stored under n; nothing else changes |
| Locking.LockManager.Lock | code/suncertify/db/lock/LockManager.java:33-38 | the table becomes LockIn of the old one |
| Locking.LockManager.Unlock | code/suncertify/db/lock/LockManager.java:52-56 | the table and outcome are those of UnlockIn |
| Locking.LockManager.CheckCookie | code/suncertify/db/lock/LockManager.java:72-80 | the table and outcome are those of CheckIn |
| Db.MergeNumbered | code/suncertify/db/Data.java:54-59 | putAll of two key sets 1..a and 1..b is 1..max(a, b) |
| Db.Matches | code/suncertify/db/Data.java:132-144 | criteria that are all null match any record; a set criterion longer than its field never matches |
| Db.FindSpec | code/suncertify/db/Data.java:112-130 | find only lists keys of present records that are not deleted |
| Db.FindMalformedCriteria | code/suncertify/db/Data.java:112-130 | a null criteria array or one of the wrong length finds nothing rather than failing |
| Db.FindInMembers | code/suncertify/db/Data.java:115-122 | the loop keeps exactly the keys whose records are selected |
| Db.FindInIncreasing | code/suncertify/db/Data.java:115-122 | the loop yields the keys in ascending order |
| Db.FindSpecCharacterised | code/suncertify/db/Data.java:112-144 | find's result is ascending, and a key is in it iff present, not deleted, and every non-null criterion is contained case-insensitively in its field |
| Db.FindWithoutCriteria | code/suncertify/db/Data.java:112-144 | all-null criteria find every record that is not deleted |
| Db.FirstDeleted | code/suncertify/db/Data.java:154-161 | the scan stops at a deleted record with no deleted record before it, or finds none |
| Db.NewKey | code/suncertify/db/Data.java:154-167 | create's key is the lowest deleted one, else size() + 1 with no record deleted |
| Db.CreateKeepsNumbering | code/suncertify/db/Data.java:154-172 | keys 1..n stay 1..n (reuse) or become 1..n+1 |
| Db.NumberedPositive | code/suncertify/db/FileAccess.java:77 | record numbers counted from 1 are positive |
| Db.RecordMapNumbered | code/suncertify/db/FileAccess.java:77-85 | loading numbers the records 1..N |
| Db.UpdateIn | code/suncertify/db/Data.java:87-96 | the cookie check comes first and a failure changes no record; an absent key is ignored; a present one takes the trimmed fields and keeps its state, or the argument error for the wrong length |
| Db.DeleteIn | code/suncertify/db/Data.java:100-108 | after the cookie check, a present record becomes deleted with its fields kept; an absent key is ignored |
| Db.UpdateUnderLock | code/suncertify/db/Data.java:87-96 | an update by the lock's holder passes and stores the trimmed fields |
| Db.Data.constructor | code/suncertify/db/Data.java:40-41 | no file, no lock manager, empty cache; the shared lock table is the one given |
| Db.Data.Initialize | code/suncertify/db/Data.java:54-59 | the open's error, or the load's access error, is reported; a rejected file leaves this object's FileAccess, lock manager and cache as they were, yet the shared handle now points at it; otherwise the loaded records are put over the cache and the shared lock table attached; the lock table is the same before and after, whatever the outcome |
| Db.Data.InitializeChecked | code/suncertify/db/Data.java:54-59 | initialize over the corrected open: the same outcomes, cache and untouched lock table, and a rejected file leaves the shared handle where it was |
| Db.Data.PutAll | code/suncertify/db/Data.java:57 | putAll: the cache holds the given records over the old ones, still injective and numbered 1..size() |
| Db.Data.Destroy | code/suncertify/db/Data.java:63-77 | the cache is saved, through the shared handle, if a FileAccess is held, and the outcome is the save's; then the file, lock manager and cache are cleared |
| Db.RejectedFileReceivesSave | code/suncertify/db/FileAccess.java:53-61 | as written: initialising from a good file, then from a file that opens but is rejected, then destroying, saves the records loaded from the good file into the rejected one, and leaves the good file as it was |
| Db.RejectedFileLeftAlone | code/suncertify/db/Data.java:54-75 | with the corrected open, the same sequence saves the records back into the good file they came from |
| Db.LockSurvivesInitialize | code/suncertify/db/lock/LockManager.java:17 | a record locked before initialize runs again, from any file or none, is still locked under the same cookie afterwards, and the attached manager is the shared table |
| Db.Data.Read | code/suncertify/db/Data.java:81-83 | the fields of a present record, deleted or not |
| Db.Data.Update | code/suncertify/db/Data.java:87-96 | the lock table is that of checkCookie and the records and outcome are those of UpdateIn |
| Db.Data.Delete | code/suncertify/db/Data.java:100-108 | the lock table is that of checkCookie and the records and outcome are those of DeleteIn |
| Db.Data.IsMatchingSubcontractor | code/suncertify/db/Data.java:132-144 | true iff every non-null criterion is contained, ignoring case, in the field at its index |
| Db.Data.Find | code/suncertify/db/Data.java:112-130 | the result is find's specification on the current records |
| Db.Data.FreeRecordNumber | code/suncertify/db/Data.java:154-167 | the scan gives the key create assigns |
| Db.Data.Create | code/suncertify/db/Data.java:148-173 | wrong-length data is the argument error; otherwise the new valid record with trimmed fields is stored under NewKey, which is returned |
| Db.Data.Lock | code/suncertify/db/Data.java:177-188 | a present record (deleted or not) is locked under the new cookie; an absent one is locked, released and reported not found |
| Db.Data.Unlock | code/suncertify/db/Data.java:192-195 | the lock table and outcome are those of UnlockIn; the records are unchanged |
| Service.SearchCriteria | code/suncertify/application/DBService.java:74 | the criteria are {name, location, null × 4} |
| Service.ExactMatch | code/suncertify/application/DBService.java:110-120 | a record equal to the non-null name and location also contains them ignoring case, so the exact filter never keeps what find dropped |
| Service.KeptMembers | code/suncertify/application/DBService.java:88-94 | the exact filter keeps exactly the keys whose record equals every non-null criterion |
| Service.KeptIncreasing | code/suncertify/application/DBService.java:80-94 | the filter keeps find's ascending order |
| Service.KeptAll | code/suncertify/application/DBService.java:92-94 | without the exact filter every found record is kept |
| Service.SearchKeysCharacterised | code/suncertify/application/DBService.java:72-120 | search lists, ascending, exactly the present records that are not deleted, contain the criteria ignoring case and, with the exact filter, equal them |
| Service.RetrieveAllKeys | code/suncertify/application/DBService.java:49-55 | listing all yields every record that is not deleted, ascending |
| Service.BookIn | code/suncertify/application/DBService.java:146-194 | whatever the booking does, the record's lock ends free, no other lock changes, and no other record changes |
| Service.OwnerTrimmed | code/suncertify/application/DBService.java:170-171 | storing the re-read fields with the customer as owner trims only the owner |
| Service.BookingFree | code/suncertify/application/DBService.java:159-172 | booking a free record succeeds and only its owner changes, to the trimmed customer ID |
| Service.BookingAgrees | code/suncertify/application/DBService.java:146-194 | the lock, read, update and unlock steps give not found, already booked or done, with the lock freed |
| Service.UpdateHeld | code/suncertify/application/DBService.java:171 | the update under the booking's lock passes its cookie check |
| Service.DBService.constructor | code/suncertify/application/DBService.java:40-42 | the service keeps its database |
| Service.DBService.SearchSubcontractor | code/suncertify/application/DBService.java:72-108 | one new valid Subcontractor per kept record number, in order, holding that record's re-read fields |
| Service.DBService.ReadSubcontractor | code/suncertify/application/DBService.java:83-87 | read then new Subcontractor(recordNumber, data): a valid record with the re-read fields |
| Service.DBService.RetrieveAllSubcontractors | code/suncertify/application/DBService.java:49-55 | the search with no criteria and no exact filter |
| Service.DBService.BookSubcontractor | code/suncertify/application/DBService.java:146-194 | outcome: not found, already booked or done; the record's lock is free afterwards; only a free record's owner changes; the list entries of the record show the re-read fields unless the record was not found |
| Service.DBService.BookAndRelease | code/suncertify/application/DBService.java:159-191 | once locked: book, refresh the list, and unlock with the lock's cookie |
| Service.DBService.BookHeld | code/suncertify/application/DBService.java:159-175 | under the lock: refuse a booked record without an update, else update the owner; the lock table is unchanged |
| Service.DBService.PrepareBooking | code/suncertify/application/DBService.java:159-170 | the re-read record, whether it is booked, and the customer as its owner when it is not |
| Service.DBService.UpdateUnderLock | code/suncertify/application/DBService.java:171 | the record takes the trimmed fields and keeps its state |
| Service.DBService.AcquireLock | code/suncertify/application/DBService.java:154-157 | Data.lock's outcome; the records and the list are left alone |
| Service.DBService.ReleaseLock | code/suncertify/application/DBService.java:178-191 | the lock table after unlock; the records and the list are left alone |
| Service.DBService.UpdateCurrentSubcontractors | code/suncertify/application/DBService.java:206-218 | entries with the updated record number take its six fields and keep their state; others are unchanged |
| ClientUi.InvalidCustomerID | code/suncertify/ui/client/ClientController.java:68-74 | an ID whose length is not 8 is refused, and an accepted ID has a char that is not an ASCII letter |
| ClientUi.CustomerIdAccepted | code/suncertify/ui/client/ClientController.java:68-74 | an ID is accepted iff it has length 8 and some char is not an ASCII letter |
| ClientUi.CustomerIdExamples | code/suncertify/ui/client/ClientController.java:68-74 | "12345678" and "1234567a" are accepted; "1234567" and "abcdefgh" are not |
| ClientUi.BookingReported | code/suncertify/ui/client/ClientController.java:54-65 | every outcome of the booking is reported as a message or none; no message iff the record was free; a missing record gives the not-found message |
| ClientUi.GuardMessage | code/suncertify/ui/client/ClientController.java:41-52 | no message iff the ID is accepted and a row is selected; a refused ID gives its message whatever the selection |
| ClientUi.OutcomeMessage | code/suncertify/ui/client/ClientController.java:54-65 | a success shows nothing; not found and already booked become messages; any other failure reaches the caller unchanged |
| ClientUi.ClientController.constructor | code/suncertify/ui/client/ClientController.java:34-37 | the controller keeps its service |
| ClientUi.ClientController.BookSubcontractor | code/suncertify/ui/client/ClientController.java:41-66 | an invalid ID, then no selection, give their message and change nothing; otherwise the selected record is booked and the outcome reported |
| EntryValidation.ParseInt | code/suncertify/ui/UserEntryPanel.java:96 | a parsed value lies within int, and the text is non-empty with only digits after its first char |
| EntryValidation.ParseShow | code/suncertify/ui/UserEntryPanel.java:96 | parseInt reads back exactly the rendered numbers that fit in an int |
| EntryValidation.NonDigitRejected | code/suncertify/ui/UserEntryPanel.java:96-103 | a non-digit other than a leading sign makes the text no number |
| EntryValidation.ParseIntExamples | code/suncertify/ui/UserEntryPanel.java:96 | "+80" is 80, "-0" is 0; "", "-" and "+" are no number |
| EntryValidation.InvalidPortNumber | code/suncertify/ui/UserEntryPanel.java:93-105 | an accepted text is non-empty, all digits after an optional sign, and parses to a port in [0, 65535] |
| EntryValidation.PortAccepted | code/suncertify/ui/UserEntryPanel.java:93-105 | a rendered number is accepted iff it lies in [0, 65535] |
| EntryValidation.PortNumberIff | code/suncertify/ui/UserEntryPanel.java:93-105 | a text is accepted iff it parses to an int in [0, 65535] |
| EntryValidation.PortExamples | code/suncertify/ui/UserEntryPanel.java:97-103 | 0, +80 and 65535 are accepted; -1, 65536, "" and "80a" are not |
| EntryValidation.InvalidDbLocation | code/suncertify/ui/UserEntryPanel.java:76-83 | a location is accepted exactly when the file exists and the location ends in "db" |
| EntryValidation.DbLocationAccepted | code/suncertify/ui/UserEntryPanel.java:76-83 | a location passes iff the file exists and its last two chars are "db" |
| EntryValidation.DbLocationExamples | code/suncertify/ui/UserEntryPanel.java:79 | "foodb" passes; "db.txt" does not; a missing file never does |

## Left out

- Concurrency: the blocking wait of `LockInformation.lock` (locking a held entry is a precondition), the read/write lock and `synchronized` blocks of `FileAccess`, and the thread safety of the concurrent maps. Everything runs sequentially.
- The random lock cookie is a parameter of the lock operations.
- RMI transport, the Swing views and `ClientModel`: the table model's booking is folded into `ClientUi.ClientController.BookSubcontractor`, and a communication error cannot arise.
- The file system: the database file is given as its bytes, or `None` when it cannot be opened. The existence of the file for `invalidDbLocation` is a boolean parameter.
- The file system's side of opening a missing path in "rw" mode, which creates an empty file, is not modelled; the caller passes that empty file as `Some([])`, which opens, fails the header check and so replaces the shared handle.
- Bytes between the header and offset 54 that a save writes past the end of a short file are modelled as zero.
- Write failures (`IOException` while saving) are not modelled.
- Characters outside US-ASCII: `toLowerCase` folds only A–Z; `getBytes` maps other chars to '?'; `parseInt` reads only the ASCII digits.
- `null` elements inside a data array are not modelled: the fields are strings.
- Domain.Subcontractor.constructor: the `IllegalArgumentException` that `setData` throws for a data array whose length is not 6 is a precondition (`|data| == 6`). `Db.Data.Create` reports that length as `InvalidData` before it builds the record, and the other callers pass six fields. A `null` data array is not modelled.
- Domain.Subcontractor.WithState: the same length precondition as the three-argument constructor it delegates to; a `null` data array is not modelled.
- Domain.Subcontractor.WithNumber: the same length precondition as the three-argument constructor it delegates to; a `null` data array is not modelled.
- Domain.Subcontractor.SetData: a data array of the wrong length is the `InvalidData` failure, but a `null` data array, which `setData`, `Data.update` and `Data.create` refuse with `IllegalArgumentException`, cannot be passed: data arrays are sequences.
- `Db.Data.Read`: reading an absent record number, which dereferences `null` in `Data.read`, is a precondition.
- `Service.DBService.SearchSubcontractor`: the not-found exception caught while reading a found record cannot arise sequentially, since every found key is in the cache; that the results are new objects is not stated.
- `Service.DBService.BookSubcontractor`: the `SecurityException` swallowed around `update` cannot arise, because the cookie check of the lock's holder passes (`Service.UpdateHeld`).
- `ClientUi.ClientController.BookSubcontractor`: the selected row is -1 or a row of the list, as the table only offers those; `getSubcontractor` out of range is not modelled.
- A deleted record is booked like any other, since `lock` only asks whether its number is in the cache.
- After a booking, the cache holds the trimmed customer ID as owner, while the list entries show it untrimmed (`Service.ShownAfterBooking`).
- The lock table is a static map shared by every `LockManager`: one `LockManager` object, `Data.locks`, stands for all of them, and `new LockManager()` in `initialize` attaches it.
- Record numbers are unbounded integers: the `int` overflow of `recNo` after 2^31 slots is not modelled.
- `find` returns its `int[]` as a sequence.
- `Db.Data.Load`, `Db.Data.PutAll`, `Db.Data.FreeRecordNumber`, `Db.Data.StoreFields`, `Db.Data.MarkDeleted`, `FileStore.FileAccess.WriteFields`, `FileStore.FileAccess.SaveLeast`, `Service.DBService.ReadSubcontractor`, `Service.DBService.PrepareBooking`, `Service.DBService.UpdateUnderLock`, `Service.DBService.AcquireLock`, `Service.DBService.ReleaseLock`, `Service.DBService.BookHeld` and `Service.DBService.BookAndRelease` are steps of the Java methods split out as methods of their own. Each one's contract is stated at its caller's level.
- `DBRemote`'s comment describes `find` as a prefix match; the model follows `Data`'s case-insensitive substring match.
- Configuration persistence, server state handling and process start-up are not part of this model. Restarting the server after a failed start, and the shutdown hook that calls `destroy`, are what lead from `Db.RejectedFileReceivesSave`'s sequence to a real save; the model runs that sequence directly.

## Findings

| source | as written | input that shows it | evidently intended | confidence | as-written member | corrected member |
|---|---|---|---|---|---|---|
| code/suncertify/db/FileAccess.java:53 | the static handle is assigned the new file before its magic number is read and checked | initialize from a valid file, then initialize from an existing file whose first four bytes are 00 00 00 01, then destroy | a rejected file leaves the handle on the database that is open, so destroy saves the cache back into the file it came from | not executed | Db.RejectedFileReceivesSave | Db.RejectedFileLeftAlone |
