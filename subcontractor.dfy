/** The value object of one database record (class Subcontractor). */
module Domain {
  import opened Wrappers
  import opened DbErrors
  import opened Ascii
  import opened DatabaseSchema
  import opened RecordStates

  const IndexName: nat := 0
  const IndexLocation: nat := 1
  const IndexSpecialties: nat := 2
  const IndexSize: nat := 3
  const IndexRate: nat := 4
  const IndexOwner: nat := 5

  /** The record number of a Subcontractor built without one. */
  const NoRecordNumberAssigned: int := -1

  /** The String[] of a record's six fields, as getData returns it. */
  type FieldValues = d: seq<string> | |d| == FieldCount witness ["", "", "", "", "", ""]

  /**
   * What a Subcontractor holds, as a value: its state (None where the Java code
   * holds a null state, i.e. a flag byte that is neither code) and its fields.
   */
  datatype Record = Record(state: Option<RecordState>, data: FieldValues)

  predicate IsDeleted(r: Record) {
    r.state == Some(Deleted)
  }

  /** Element-wise String.trim, as setData applies it. */
  function TrimAll(data: seq<string>): (r: seq<string>)
    ensures |r| == |data|
    ensures AllTrimmed(r)
    ensures AllTrimmed(data) ==> r == data
  {
    seq(|data|, i requires 0 <= i < |data| => Trim(data[i]))
  }

  predicate AllTrimmed(data: seq<string>) {
    forall i | 0 <= i < |data| :: IsTrimmed(data[i])
  }

  /** setData(getData()) changes nothing once the fields came from setData: trim is idempotent. */
  lemma TrimAllIdempotent(data: seq<string>)
    ensures AllTrimmed(TrimAll(data))
    ensures TrimAll(TrimAll(data)) == TrimAll(data)
  {
  }

  class Subcontractor {
    const recordNumber: int
    var state: Option<RecordState>
    var name: string
    var location: string
    var specialties: string
    var size: string
    var rate: string
    var owner: string

    /** Subcontractor(recordNumber, state, data). */
    constructor (recordNumber: int, state: Option<RecordState>, data: seq<string>)
      requires |data| == FieldCount
      ensures this.recordNumber == recordNumber && this.state == state
      ensures GetData() == TrimAll(data)
    {
      this.recordNumber := recordNumber;
      this.state := state;
      new;
      var _ := SetData(data);
    }

    /** Subcontractor(state, data): no record number is assigned. */
    constructor WithState(state: Option<RecordState>, data: seq<string>)
      requires |data| == FieldCount
      ensures recordNumber == NoRecordNumberAssigned && this.state == state
      ensures GetData() == TrimAll(data)
    {
      recordNumber := NoRecordNumberAssigned;
      this.state := state;
      new;
      var _ := SetData(data);
    }

    /** Subcontractor(recordNumber, data): the record is presumed valid. */
    constructor WithNumber(recordNumber: int, data: seq<string>)
      requires |data| == FieldCount
      ensures this.recordNumber == recordNumber && state == Some(Valid)
      ensures GetData() == TrimAll(data)
    {
      this.recordNumber := recordNumber;
      state := Some(Valid);
      new;
      var _ := SetData(data);
    }

    /** getData: the six fields in index order. */
    function GetData(): FieldValues
      reads this
    {
      var data: seq<string> := [name, location, specialties, size, rate, owner];
      assert |data| == FieldCount;
      data
    }

    function Value(): Record
      reads this
    {
      Record(state, GetData())
    }

    /** isBooked: the owner field is not empty. */
    predicate IsBooked()
      reads this
      ensures IsBooked() <==> GetData()[IndexOwner] != ""
    {
      owner != ""
    }

    /**
     * setData: an array that does not hold exactly FIELD_COUNT values is
     * refused and nothing changes; otherwise every field takes the trimmed
     * value at its index.
     */
    method SetData(data: seq<string>) returns (r: Outcome<DbError>)
      modifies this
      ensures state == old(state)
      ensures r == (if |data| == FieldCount then Pass else Fail(InvalidData))
      ensures GetData() == (if |data| == FieldCount then TrimAll(data) else old(GetData()))
      ensures |data| != FieldCount ==> unchanged(this)
    {
      if |data| == FieldCount {
        var trimmed := TrimAll(data);
        name, location := trimmed[IndexName], trimmed[IndexLocation];
        specialties, size := trimmed[IndexSpecialties], trimmed[IndexSize];
        rate, owner := trimmed[IndexRate], trimmed[IndexOwner];
        assert GetData() == trimmed;
        r := Pass;
      } else {
        r := Fail(InvalidData);
      }
    }

    method SetState(state: Option<RecordState>)
      modifies this
      ensures this.state == state && GetData() == old(GetData())
    {
      this.state := state;
    }

    // The single-field setters store the value as given, without trimming.

    method SetName(name: string)
      modifies this
      ensures state == old(state) && GetData() == old(GetData())[IndexName := name]
    {
      this.name := name;
    }

    method SetLocation(location: string)
      modifies this
      ensures state == old(state) && GetData() == old(GetData())[IndexLocation := location]
    {
      this.location := location;
    }

    method SetSpecialties(specialties: string)
      modifies this
      ensures state == old(state) && GetData() == old(GetData())[IndexSpecialties := specialties]
    {
      this.specialties := specialties;
    }

    method SetSize(size: string)
      modifies this
      ensures state == old(state) && GetData() == old(GetData())[IndexSize := size]
    {
      this.size := size;
    }

    method SetRate(rate: string)
      modifies this
      ensures state == old(state) && GetData() == old(GetData())[IndexRate := rate]
    {
      this.rate := rate;
    }

    method SetOwner(owner: string)
      modifies this
      ensures state == old(state) && GetData() == old(GetData())[IndexOwner := owner]
    {
      this.owner := owner;
    }
  }

  /** The values held by a map of Subcontractor objects. */
  ghost function Snapshot(cache: map<int, Subcontractor>): (m: map<int, Record>)
    reads cache.Values
    ensures m.Keys == cache.Keys
  {
    map k | k in cache :: cache[k].Value()
  }

  /** Storing a Subcontractor under a record number changes only that number's value. */
  lemma SnapshotPut(cache: map<int, Subcontractor>, k: int, s: Subcontractor)
    ensures Snapshot(cache[k := s]) == Snapshot(cache)[k := s.Value()]
  {
  }

  /** A map whose Subcontractor objects were left alone holds the values it held before. */
  twostate lemma SnapshotUnchanged(cache: map<int, Subcontractor>)
    requires forall s | s in cache.Values :: old(allocated(s)) && unchanged(s)
    ensures Snapshot(cache) == old(Snapshot(cache))
  {
  }

  /** The values a list of Subcontractor objects holds, in list order. */
  ghost function ListValues(list: seq<Subcontractor>): (values: seq<Record>)
    reads list
    ensures |values| == |list| && forall j | 0 <= j < |list| :: values[j] == list[j].Value()
  {
    seq(|list|, j requires 0 <= j < |list| reads list => list[j].Value())
  }

  /** The record numbers of a list of Subcontractor objects, in list order. */
  function Numbers(list: seq<Subcontractor>): (numbers: seq<int>)
    ensures |numbers| == |list| && forall j | 0 <= j < |list| :: numbers[j] == list[j].recordNumber
  {
    seq(|list|, j requires 0 <= j < |list| => list[j].recordNumber)
  }

  /** A map's values are those of the rest of the map and the one stored under `k`. */
  lemma SnapshotSplit(cache: map<int, Subcontractor>, k: int)
    requires k in cache
    ensures Snapshot(cache) == Snapshot(cache - {k})[k := cache[k].Value()]
  {
  }

  /** No Subcontractor object is stored under two record numbers. */
  ghost predicate Injective(cache: map<int, Subcontractor>) {
    forall j, k | j in cache && k in cache && j != k :: cache[j] != cache[k]
  }

  /** Storing an object that the map does not hold yet keeps it injective. */
  lemma InjectivePut(cache: map<int, Subcontractor>, k: int, s: Subcontractor)
    requires Injective(cache) && s !in cache.Values
    ensures Injective(cache[k := s])
  {
  }

  /** In an injective map, the object under `k` is held under no other number. */
  lemma InjectiveOthers(cache: map<int, Subcontractor>, k: int)
    requires Injective(cache) && k in cache
    ensures cache[k] !in (cache - {k}).Values
  {
    forall j | j in cache - {k}
      ensures (cache - {k})[j] != cache[k]
    {
      assert j in cache && j != k;
    }
  }

  /** putAll of a map of other objects keeps the result injective. */
  lemma InjectiveMerge(a: map<int, Subcontractor>, b: map<int, Subcontractor>)
    requires Injective(a) && Injective(b)
    requires forall s | s in b.Values :: s !in a.Values
    ensures Injective(a + b)
  {
    var m := a + b;
    forall j, k | j in m && k in m && j != k
      ensures m[j] != m[k]
    {
      if j in b && k !in b {
        assert m[j] in b.Values && m[k] in a.Values;
      } else if k in b && j !in b {
        assert m[k] in b.Values && m[j] in a.Values;
      }
    }
  }

  /** The values of putAll are those of the added map over those of the original. */
  lemma SnapshotMerge(a: map<int, Subcontractor>, b: map<int, Subcontractor>)
    ensures Snapshot(a + b) == Snapshot(a) + Snapshot(b)
  {
  }
}
