/** The layout constants of the database file (class DatabaseSchema). */
module DatabaseSchema {

  /** The 4-byte value the file must start with. */
  const ExpectedMagicCookieValue: int := 0x203

  /** Byte offset of the first record slot. */
  const ExpectedInitialOffset: nat := 54

  const FieldCount: nat := 6

  const FieldLengthName: nat := 32
  const FieldLengthLocation: nat := 64
  const FieldLengthSpecialties: nat := 64
  const FieldLengthSize: nat := 6
  const FieldLengthRate: nat := 8
  const FieldLengthOwner: nat := 8
  /** The flag byte that precedes the fields of every slot. */
  const FieldLengthState: nat := 1

  /** Widths of the six text fields, in the order they are stored. */
  const FieldLengths: seq<nat> := [FieldLengthName, FieldLengthLocation, FieldLengthSpecialties,
                                   FieldLengthSize, FieldLengthRate, FieldLengthOwner]

  /** The sum computed by the static initialiser's loop. */
  function SumLengths(lengths: seq<nat>): nat {
    if lengths == [] then 0 else lengths[0] + SumLengths(lengths[1..])
  }

  /** Bytes of the six fields of one slot, without the flag byte. */
  const TotalSchemaLength: nat := SumLengths(FieldLengths)

  /** Bytes of one slot: the flag byte and the six fields. */
  const TotalFieldLength: nat := TotalSchemaLength + FieldLengthState

  /** Where field `i` starts inside the fields of a slot. */
  function FieldOffset(i: nat): nat
    requires i <= FieldCount
  {
    SumLengths(FieldLengths[..i])
  }

  lemma {:induction false} SumLengthsAppend(a: seq<nat>, b: seq<nat>)
    ensures SumLengths(a + b) == SumLengths(a) + SumLengths(b)
  {
    if a == [] {
      assert a + b == b;
    } else {
      assert (a + b)[1..] == a[1..] + b;
      SumLengthsAppend(a[1..], b);
    }
  }

  /** The six widths, in the order name, location, specialties, size, rate, owner. */
  lemma FieldLengthsInSchemaOrder()
    ensures |FieldLengths| == FieldCount
    ensures FieldLengths == [32, 64, 64, 6, 8, 8]
  {
  }

  /** The totals computed by the static initialiser, and the offsets of the fields. */
  lemma SchemaTotals()
    ensures TotalSchemaLength == 182
    ensures TotalFieldLength == 183
    ensures FieldOffset(0) == 0 && FieldOffset(1) == 32 && FieldOffset(2) == 96
    ensures FieldOffset(3) == 160 && FieldOffset(4) == 166 && FieldOffset(5) == 174
    ensures FieldOffset(6) == 182
  {
    assert FieldLengths[..0] == [];
    FieldOffsetNext(0);
    FieldOffsetNext(1);
    FieldOffsetNext(2);
    FieldOffsetNext(3);
    FieldOffsetNext(4);
    FieldOffsetNext(5);
    assert FieldLengths[..6] == FieldLengths;
  }

  /** Field `i` ends where field `i + 1` starts. */
  lemma FieldOffsetNext(i: nat)
    requires i < FieldCount
    ensures FieldOffset(i + 1) == FieldOffset(i) + FieldLengths[i]
  {
    assert FieldLengths[..i + 1] == FieldLengths[..i] + [FieldLengths[i]];
    SumLengthsAppend(FieldLengths[..i], [FieldLengths[i]]);
  }
}
