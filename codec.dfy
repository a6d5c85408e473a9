/**
 * The byte layout of the database file: the header check, one 183-byte slot
 * per record, and the images of the whole file that loading reads and saving
 * writes.
 */
module RecordCodec {
  import opened Wrappers
  import opened DbErrors
  import opened Ascii
  import opened DatabaseSchema
  import opened RecordStates
  import opened Domain
  import opened OrderedKeys

  /** The padding byte writeSingleEntry appends to a short field. */
  const Blank: uint8 := 0x20

  // ---------------------------------------------------------------- header

  /** RandomAccessFile.readInt: four bytes, high byte first, as a signed 32-bit value. */
  function BigEndianInt(b: seq<uint8>): (v: int)
    requires |b| == 4
    ensures -0x8000_0000 <= v < 0x8000_0000
  {
    var u := b[0] as int * 0x100_0000 + b[1] as int * 0x1_0000 + b[2] as int * 0x100 + b[3] as int;
    if u < 0x8000_0000 then u else u - 0x1_0000_0000
  }

  /** The four bytes, high byte first, of a signed 32-bit value in two's complement (DataOutput.writeInt). */
  function Int32Bytes(v: int): (b: seq<uint8>)
    requires -0x8000_0000 <= v < 0x8000_0000
    ensures |b| == 4
  {
    var u := if v < 0 then v + 0x1_0000_0000 else v;
    [(u / 0x100_0000) as uint8, (u / 0x1_0000 % 0x100) as uint8, (u / 0x100 % 0x100) as uint8, (u % 0x100) as uint8]
  }

  /** readInt reads back every 32-bit value written high byte first. */
  lemma ReadIntOfBytes(v: int)
    requires -0x8000_0000 <= v < 0x8000_0000
    ensures BigEndianInt(Int32Bytes(v)) == v
  {
    var u := if v < 0 then v + 0x1_0000_0000 else v;
    var b := Int32Bytes(v);
    DigitsOfUnsigned(u);
    assert b[0] as int * 0x100_0000 + b[1] as int * 0x1_0000 + b[2] as int * 0x100 + b[3] as int == u;
  }

  /** Every four bytes are the encoding of the value readInt makes of them. */
  lemma BytesOfReadInt(b: seq<uint8>)
    requires |b| == 4
    ensures Int32Bytes(BigEndianInt(b)) == b
  {
    var u := b[0] as int * 0x100_0000 + b[1] as int * 0x1_0000 + b[2] as int * 0x100 + b[3] as int;
    UnsignedOfDigits(b[0] as int, b[1] as int, b[2] as int, b[3] as int);
    var e := Int32Bytes(BigEndianInt(b));
    assert e[0] == b[0] && e[1] == b[1] && e[2] == b[2] && e[3] == b[3];
  }

  /** The base-256 digits of an unsigned 32-bit value combine back to it. */
  lemma DigitsOfUnsigned(u: int)
    requires 0 <= u < 0x1_0000_0000
    ensures (u / 0x100_0000) * 0x100_0000 + (u / 0x1_0000 % 0x100) * 0x1_0000 + (u / 0x100 % 0x100) * 0x100 + u % 0x100 == u
  {
    var q1, q2, q3 := u / 0x100, u / 0x1_0000, u / 0x100_0000;
    assert u == q1 * 0x100 + u % 0x100;
    assert q1 == q2 * 0x100 + q1 % 0x100;
    assert q2 == q3 * 0x100 + q2 % 0x100;
    assert u / 0x100 % 0x100 == q1 % 0x100;
    assert u / 0x1_0000 % 0x100 == q2 % 0x100;
  }

  /** Four base-256 digits are recovered from the value they combine to. */
  lemma UnsignedOfDigits(x0: int, x1: int, x2: int, x3: int)
    requires 0 <= x0 < 256 && 0 <= x1 < 256 && 0 <= x2 < 256 && 0 <= x3 < 256
    ensures var u := x0 * 0x100_0000 + x1 * 0x1_0000 + x2 * 0x100 + x3;
            u / 0x100_0000 == x0 && u / 0x1_0000 % 0x100 == x1 && u / 0x100 % 0x100 == x2 && u % 0x100 == x3
  {
    var q1 := x0 * 0x1_0000 + x1 * 0x100 + x2;
    var q2 := x0 * 0x100 + x1;
    var u := q1 * 0x100 + x3;
    assert u == x0 * 0x100_0000 + x1 * 0x1_0000 + x2 * 0x100 + x3;
    assert u / 0x100 == q1 && u % 0x100 == x3;
    assert q1 == q2 * 0x100 + x2;
    assert q1 % 0x100 == x2 && q1 / 0x100 == q2;
    assert u / 0x1_0000 == q2;
    assert q2 % 0x100 == x1 && q2 / 0x100 == x0;
    assert u / 0x100_0000 == x0;
  }

  /**
   * validateDatabase: a file that cannot be opened or is too short to hold the
   * magic cookie is an access error; any other cookie than 0x203 is an
   * incompatible database.
   */
  function ValidateDatabase(disk: Option<seq<uint8>>): (r: Outcome<DbError>)
    ensures r.Fail? ==> r.error == DatabaseAccess || r.error == IncompatibleDatabase
    ensures r.Fail? && r.error == DatabaseAccess <==> disk.None? || |disk.value| < 4
  {
    if disk.None? || |disk.value| < 4 then Fail(DatabaseAccess)
    else if BigEndianInt(disk.value[..4]) != ExpectedMagicCookieValue then Fail(IncompatibleDatabase)
    else Pass
  }

  /** Four bytes, read as unsigned values, that combine to 0x203 can only be 00 00 02 03. */
  lemma MagicDigits(x0: int, x1: int, x2: int, x3: int)
    requires 0 <= x0 < 256 && 0 <= x1 < 256 && 0 <= x2 < 256 && 0 <= x3 < 256
    requires x0 * 0x100_0000 + x1 * 0x1_0000 + x2 * 0x100 + x3 == 0x203
    ensures x0 == 0 && x1 == 0 && x2 == 2 && x3 == 3
  {
  }

  /** The only header accepted is the four bytes 00 00 02 03. */
  lemma ValidateDatabaseAccepts(disk: Option<seq<uint8>>)
    ensures ValidateDatabase(disk) == Pass <==> disk.Some? && |disk.value| >= 4 && disk.value[..4] == [0x00, 0x00, 0x02, 0x03]
  {
    if disk.Some? && |disk.value| >= 4 {
      var b := disk.value[..4];
      if BigEndianInt(b) == ExpectedMagicCookieValue {
        MagicDigits(b[0] as int, b[1] as int, b[2] as int, b[3] as int);
        assert b == [0x00, 0x00, 0x02, 0x03];
      }
    }
  }

  // ---------------------------------------------------------------- fields

  /** SingleRecordReader.read: the bytes of one field decoded as US-ASCII and trimmed. */
  function DecodeField(bytes: seq<uint8>): (s: string)
    ensures IsTrimmed(s)
  {
    Trim(DecodeBytes(bytes))
  }

  /** `bytes` cut or padded with blanks to exactly `width` bytes. */
  function PadBytes(bytes: seq<uint8>, width: nat): (b: seq<uint8>)
    ensures |b| == width
  {
    seq(width, i requires 0 <= i < width => if i < |bytes| then bytes[i] else Blank)
  }

  /** The bytes writeSingleEntry writes for one field: its US-ASCII bytes truncated or blank-padded to `width`. */
  function EncodeField(s: string, width: nat): (b: seq<uint8>)
    ensures |b| == width
  {
    PadBytes(EncodeString(s), width)
  }

  /** A field that survives a save and a load unchanged: US-ASCII, trimmed, and no wider than its slot. */
  predicate StorableField(s: string, width: nat) {
    |s| <= width && IsTrimmed(s) && forall i | 0 <= i < |s| :: IsAscii(s[i])
  }

  /** A field longer than its width keeps only its first `width` characters. */
  lemma EncodeFieldTruncates(s: string, width: nat)
    requires width <= |s|
    ensures EncodeField(s, width) == EncodeString(s[..width])
  {
  }

  /** A shorter field is followed by blanks up to its width. */
  lemma EncodeFieldPads(s: string, width: nat)
    requires |s| <= width
    ensures EncodeField(s, width)[..|s|] == EncodeString(s)
    ensures forall i | |s| <= i < width :: EncodeField(s, width)[i] == Blank
  {
  }

  lemma DecodeEncodeField(s: string, width: nat)
    requires StorableField(s, width)
    ensures DecodeField(EncodeField(s, width)) == s
  {
    var pad := seq(width - |s|, i => ' ');
    var decoded := DecodeBytes(EncodeField(s, width));
    forall i | 0 <= i < width
      ensures decoded[i] == (s + pad)[i]
    {
      if i < |s| {
        DecodeEncodeChar(s[i]);
      }
    }
    assert decoded == s + pad;
    TrimPadded(s, pad);
  }

  // ---------------------------------------------------------------- slots

  /** The fields a slot's 182 data bytes decode to, sliced at the field offsets. */
  function DecodeFields(input: seq<uint8>): (data: FieldValues)
    requires |input| == TotalSchemaLength
  {
    SchemaTotals();
    seq(FieldCount, i requires 0 <= i < FieldCount =>
      FieldOffsetNext(i);
      DecodeField(input[FieldOffset(i)..FieldOffset(i) + FieldLengths[i]]))
  }

  /** The bytes of the first `n` fields, one after the other. */
  function EncodeFieldsUpTo(data: FieldValues, n: nat): (b: seq<uint8>)
    requires n <= FieldCount
    ensures |b| == FieldOffset(n)
  {
    if n == 0 then
      assert FieldLengths[..0] == [];
      []
    else
      FieldOffsetNext(n - 1);
      EncodeFieldsUpTo(data, n - 1) + EncodeField(data[n - 1], FieldLengths[n - 1])
  }

  /** The 182 data bytes of a slot. */
  function EncodeFields(data: FieldValues): (b: seq<uint8>)
    ensures |b| == TotalSchemaLength
  {
    SchemaTotals();
    EncodeFieldsUpTo(data, FieldCount)
  }

  /** The slot's bytes up to field `i + 1` extend those up to field `i` by field `i`. */
  lemma SlotPrefixNext(flag: uint8, data: FieldValues, i: nat)
    requires i < FieldCount
    ensures [flag] + EncodeFieldsUpTo(data, i + 1)
         == ([flag] + EncodeFieldsUpTo(data, i)) + PadBytes(EncodeString(data[i]), FieldLengths[i])
  {
  }

  /** Field `i` occupies bytes FieldOffset(i) .. FieldOffset(i + 1) of the encoded fields. */
  lemma {:induction false} EncodeFieldsUpToAt(data: FieldValues, n: nat, i: nat)
    requires i < n <= FieldCount
    ensures FieldOffset(i) + FieldLengths[i] <= FieldOffset(n)
    ensures EncodeFieldsUpTo(data, n)[FieldOffset(i)..FieldOffset(i) + FieldLengths[i]]
         == EncodeField(data[i], FieldLengths[i])
  {
    FieldOffsetNext(n - 1);
    FieldOffsetNext(i);
    if i < n - 1 {
      EncodeFieldsUpToAt(data, n - 1, i);
    }
  }

  /** convertIntToByte(getCode()): the low byte of the state's code. */
  function StateByte(s: RecordState): (b: uint8)
    ensures b as int == s.Code()
    ensures ForValue(b as int) == Some(s)
  {
    ForValueOfCode(s);
    (s.Code() % 0x100) as uint8
  }

  /** The 183 bytes writeSingleEntry writes for a record whose state is not null. */
  function EncodeRecord(r: Record): (b: seq<uint8>)
    requires r.state.Some?
    ensures |b| == TotalFieldLength
    ensures b[0] == StateByte(r.state.value)
  {
    SchemaTotals();
    [StateByte(r.state.value)] + EncodeFields(r.data)
  }

  /** readSingleEntry: the flag byte read unsigned and looked up, then the six fields. */
  function DecodeRecord(slot: seq<uint8>): (r: Record)
    requires |slot| == TotalFieldLength
    ensures r.state == ForValue(slot[0] as int)
    ensures AllTrimmed(r.data)
  {
    Record(ForValue(slot[0] as int), DecodeFields(slot[1..]))
  }

  /** A record the file can hold without loss. */
  predicate Storable(r: Record) {
    r.state.Some? && forall i | 0 <= i < FieldCount :: StorableField(r.data[i], FieldLengths[i])
  }

  /** Field `i` of the encoded fields decodes back to the stored value. */
  lemma DecodeEncodeFieldAt(data: FieldValues, i: nat)
    requires i < FieldCount && StorableField(data[i], FieldLengths[i])
    ensures DecodeFields(EncodeFields(data))[i] == data[i]
  {
    SchemaTotals();
    EncodeFieldsUpToAt(data, FieldCount, i);
    DecodeEncodeField(data[i], FieldLengths[i]);
  }

  lemma DecodeEncodeFields(data: FieldValues)
    requires forall i | 0 <= i < FieldCount :: StorableField(data[i], FieldLengths[i])
    ensures DecodeFields(EncodeFields(data)) == data
  {
    SchemaTotals();
    var decoded := DecodeFields(EncodeFields(data));
    forall i | 0 <= i < FieldCount
      ensures decoded[i] == data[i]
    {
      DecodeEncodeFieldAt(data, i);
    }
  }

  /** Round trip of one slot: decoding what was encoded gives the record back. */
  lemma DecodeEncodeRecord(r: Record)
    requires Storable(r)
    ensures DecodeRecord(EncodeRecord(r)) == r
  {
    var slot := EncodeRecord(r);
    assert slot[1..] == EncodeFields(r.data);
    DecodeEncodeFields(r.data);
  }

  // ---------------------------------------------------------------- file images

  /**
   * RandomAccessFile.writeByte at `pos`: overwrites a byte inside the file, or
   * extends it; a gap between the old end and `pos` is left as zero bytes.
   */
  function PutByte(f: seq<uint8>, pos: nat, b: uint8): (g: seq<uint8>)
    ensures |g| == if pos < |f| then |f| else pos + 1
    ensures g[pos] == b
    ensures forall i | 0 <= i < |f| && i != pos :: g[i] == f[i]
  {
    if pos < |f| then f[pos := b] else f + seq(pos - |f|, i => 0) + [b]
  }

  /** The file after writing the bytes `w` one by one from `pos`. */
  function WriteAt(f: seq<uint8>, pos: nat, w: seq<uint8>): (g: seq<uint8>)
    ensures |g| == if w == [] || pos + |w| <= |f| then |f| else pos + |w|
    decreases |w|
  {
    if w == [] then f else WriteAt(PutByte(f, pos, w[0]), pos + 1, w[1..])
  }

  /** Two writes back to back are one write of both. */
  lemma {:induction false} WriteAtAppend(f: seq<uint8>, pos: nat, w: seq<uint8>, v: seq<uint8>)
    ensures WriteAt(WriteAt(f, pos, w), pos + |w|, v) == WriteAt(f, pos, w + v)
    decreases |w|
  {
    if w == [] {
      assert w + v == v;
    } else {
      assert (w + v)[1..] == w[1..] + v;
      WriteAtAppend(PutByte(f, pos, w[0]), pos + 1, w[1..], v);
    }
  }

  /** What writeSingleEntry does byte by byte: one more byte after `w` extends the write by that byte. */
  lemma WriteAtSnoc(f: seq<uint8>, pos: nat, w: seq<uint8>, b: uint8)
    ensures WriteAt(WriteAt(f, pos, w), pos + |w|, [b]) == WriteAt(f, pos, w + [b])
  {
    WriteAtAppend(f, pos, w, [b]);
  }

  /** Bytes outside the written range keep their values. */
  lemma {:induction false} WriteAtOutside(f: seq<uint8>, pos: nat, w: seq<uint8>, i: nat)
    requires i < |f| && (i < pos || pos + |w| <= i)
    ensures WriteAt(f, pos, w)[i] == f[i]
    decreases |w|
  {
    if w != [] {
      WriteAtOutside(PutByte(f, pos, w[0]), pos + 1, w[1..], i);
    }
  }

  /** The written range holds exactly the bytes written. */
  lemma {:induction false} WriteAtInside(f: seq<uint8>, pos: nat, w: seq<uint8>)
    requires w != []
    ensures pos + |w| <= |WriteAt(f, pos, w)|
    ensures WriteAt(f, pos, w)[pos..pos + |w|] == w
    decreases |w|
  {
    if w != [] {
      var g := PutByte(f, pos, w[0]);
      var h := WriteAt(f, pos, w);
      if w[1..] != [] {
        WriteAtInside(g, pos + 1, w[1..]);
      }
      WriteAtOutside(g, pos + 1, w[1..], pos);
      assert h[pos..pos + |w|] == [h[pos]] + h[pos + 1..pos + |w|];
    }
  }

  /**
   * saveAllRecords: the records written one slot after another from `pos`. The
   * first record whose state is null stops the loop (getState().getCode()
   * dereferences null), and nothing of it or after it is written.
   */
  function SaveImage(f: seq<uint8>, recs: seq<Record>, pos: nat): (g: seq<uint8>)
    ensures |g| >= |f|
    decreases |recs|
  {
    if recs == [] || recs[0].state.None? then f
    else SaveImage(WriteAt(f, pos, EncodeRecord(recs[0])), recs[1..], pos + TotalFieldLength)
  }

  /** Saving a record and then the rest: the record's slot is written unless its state is null. */
  lemma SaveImageCons(f: seq<uint8>, rec: Record, rest: seq<Record>, pos: nat)
    ensures rec.state.None? ==> SaveImage(f, [rec] + rest, pos) == f
    ensures rec.state.Some? ==>
              SaveImage(f, [rec] + rest, pos) == SaveImage(WriteAt(f, pos, EncodeRecord(rec)), rest, pos + TotalFieldLength)
  {
    assert ([rec] + rest)[1..] == rest;
  }

  /** The outcome of saveAllRecords: it fails exactly when some record's state is null. */
  function SaveOutcome(recs: seq<Record>): (r: Outcome<DbError>)
    ensures r.Fail? ==> r.error == NullDereference
  {
    if forall i | 0 <= i < |recs| :: recs[i].state.Some? then Pass else Fail(NullDereference)
  }

  lemma SaveOutcomeCons(rec: Record, rest: seq<Record>)
    ensures rec.state.None? ==> SaveOutcome([rec] + rest) == Fail(NullDereference)
    ensures rec.state.Some? ==> SaveOutcome([rec] + rest) == SaveOutcome(rest)
  {
    var recs := [rec] + rest;
    assert recs[0] == rec;
    assert forall i | 0 <= i < |rest| :: rest[i] == recs[i + 1];
  }

  /**
   * getAllRecords from `pos`: one record per complete slot up to the end of the
   * file; a slot cut short by the end of the file is an access error.
   */
  function LoadImage(f: seq<uint8>, pos: nat): (r: Result<seq<Record>, DbError>)
    ensures r.Failure? ==> r.error == DatabaseAccess
    decreases |f| - pos
  {
    if pos >= |f| then Success([])
    else if pos + TotalFieldLength > |f| then Failure(DatabaseAccess)
    else
      match LoadImage(f, pos + TotalFieldLength)
      case Failure(e) => Failure(e)
      case Success(rest) => Success([DecodeRecord(f[pos..pos + TotalFieldLength])] + rest)
  }

  /** Saving never touches a byte before `pos`: with `pos` = 54 the header survives every save. */
  lemma {:induction false} SaveImageKeepsPrefix(f: seq<uint8>, recs: seq<Record>, pos: nat, i: nat)
    requires i < |f| && i < pos
    ensures SaveImage(f, recs, pos)[i] == f[i]
    decreases |recs|
  {
    if recs != [] && recs[0].state.Some? {
      var g := WriteAt(f, pos, EncodeRecord(recs[0]));
      WriteAtOutside(f, pos, EncodeRecord(recs[0]), i);
      SaveImageKeepsPrefix(g, recs[1..], pos + TotalFieldLength, i);
    }
  }

  /** The first record lands in the slot at `pos`. */
  lemma SaveImageFirstSlot(f: seq<uint8>, recs: seq<Record>, pos: nat)
    requires recs != [] && recs[0].state.Some?
    ensures pos + TotalFieldLength <= |SaveImage(f, recs, pos)|
    ensures SaveImage(f, recs, pos)[pos..pos + TotalFieldLength] == EncodeRecord(recs[0])
  {
    var w := EncodeRecord(recs[0]);
    var g := WriteAt(f, pos, w);
    var h := SaveImage(f, recs, pos);
    assert h == SaveImage(g, recs[1..], pos + TotalFieldLength);
    WriteAtInside(f, pos, w);
    forall i | pos <= i < pos + TotalFieldLength
      ensures h[i] == g[i]
    {
      SaveImageKeepsPrefix(g, recs[1..], pos + TotalFieldLength, i);
    }
  }

  /** The k-th record of the sequence lands in the k-th slot after `pos`. */
  lemma {:induction false} SaveImageSlot(f: seq<uint8>, recs: seq<Record>, pos: nat, k: nat)
    requires k < |recs|
    requires forall j | 0 <= j <= k :: recs[j].state.Some?
    ensures pos + (k + 1) * TotalFieldLength <= |SaveImage(f, recs, pos)|
    ensures SaveImage(f, recs, pos)[pos + k * TotalFieldLength..pos + (k + 1) * TotalFieldLength]
         == EncodeRecord(recs[k])
    decreases k
  {
    SchemaTotals();
    if k == 0 {
      SaveImageFirstSlot(f, recs, pos);
    } else {
      var g := WriteAt(f, pos, EncodeRecord(recs[0]));
      assert SaveImage(f, recs, pos) == SaveImage(g, recs[1..], pos + TotalFieldLength);
      SaveImageSlot(g, recs[1..], pos + TotalFieldLength, k - 1);
      assert pos + TotalFieldLength + (k - 1) * TotalFieldLength == pos + k * TotalFieldLength;
    }
  }

  /** Length of the image after saving `n` records whose states are all set. */
  lemma {:induction false} SaveImageLength(f: seq<uint8>, recs: seq<Record>, pos: nat)
    requires forall j | 0 <= j < |recs| :: recs[j].state.Some?
    requires pos <= |f| <= pos + |recs| * TotalFieldLength
    ensures |SaveImage(f, recs, pos)| == pos + |recs| * TotalFieldLength
    decreases |recs|
  {
    SchemaTotals();
    if recs != [] {
      var g := WriteAt(f, pos, EncodeRecord(recs[0]));
      SaveImageLength(g, recs[1..], pos + TotalFieldLength);
    }
  }

  /**
   * Round trip of the whole store: records that fit their slots, saved over a
   * file no longer than the saved records, load back as the same records.
   */
  lemma {:induction false} LoadSaveImage(f: seq<uint8>, recs: seq<Record>, pos: nat)
    requires forall j | 0 <= j < |recs| :: Storable(recs[j])
    requires pos <= |f| <= pos + |recs| * TotalFieldLength
    ensures LoadImage(SaveImage(f, recs, pos), pos) == Success(recs)
    decreases |recs|
  {
    SchemaTotals();
    if recs != [] {
      var w := EncodeRecord(recs[0]);
      var g := WriteAt(f, pos, w);
      var h := SaveImage(f, recs, pos);
      assert h == SaveImage(g, recs[1..], pos + TotalFieldLength);
      LoadSaveImage(g, recs[1..], pos + TotalFieldLength);
      SaveImageSlot(f, recs, pos, 0);
      DecodeEncodeRecord(recs[0]);
      assert [recs[0]] + recs[1..] == recs;
    }
  }

  /** Loading the keys 1..N in file order: key k holds the k-th slot's record. */
  function RecordMap(recs: seq<Record>): (m: map<int, Record>)
    ensures forall k :: k in m <==> 1 <= k <= |recs|
    ensures forall k | k in m :: m[k] == recs[k - 1]
  {
    if recs == [] then map[]
    else RecordMap(recs[..|recs| - 1])[|recs| := recs[|recs| - 1]]
  }

  /** The records of a map, in the order of the given keys. */
  function RecordsInOrder(m: map<int, Record>, keys: seq<int>): (recs: seq<Record>)
    requires forall i | 0 <= i < |keys| :: keys[i] in m
    ensures |recs| == |keys|
    ensures forall i | 0 <= i < |keys| :: recs[i] == m[keys[i]]
  {
    seq(|keys|, i requires 0 <= i < |keys| => m[keys[i]])
  }

  /** The records of a map under the keys of `s`, from the least key upwards, by repeated extraction of the least key. */
  ghost function InKeyOrder(m: map<int, Record>, s: set<int>): (recs: seq<Record>)
    requires s <= m.Keys
    decreases |s|
  {
    if s == {} then [] else var k := Least(s); [m[k]] + InKeyOrder(m, s - {k})
  }

  lemma InKeyOrderFirst(m: map<int, Record>, s: set<int>, k: int)
    requires s <= m.Keys && IsLeast(k, s)
    ensures InKeyOrder(m, s) == [m[k]] + InKeyOrder(m, s - {k})
  {
    var l := Least(s);
    assert l <= k && k <= l;
  }

  /** Extracting the least key repeatedly lists the records in ascending key order. */
  lemma {:induction false} InKeyOrderSorted(m: map<int, Record>, s: set<int>)
    requires s <= m.Keys
    ensures InKeyOrder(m, s) == RecordsInOrder(m, SortedKeys(s))
    decreases |s|
  {
    if s != {} {
      var k := Least(s);
      SortedKeysFirst(s, k);
      InKeyOrderSorted(m, s - {k});
      RecordsInOrderCons(m, k, SortedKeys(s - {k}));
    }
  }

  lemma RecordsInOrderCons(m: map<int, Record>, key: int, keys: seq<int>)
    requires key in m && forall i | 0 <= i < |keys| :: keys[i] in m
    ensures RecordsInOrder(m, [key] + keys) == [m[key]] + RecordsInOrder(m, keys)
  {
  }
}
