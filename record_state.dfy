/** The state flag stored in the first byte of every slot (enum RecordState). */
module RecordStates {
  import opened Wrappers

  datatype RecordState = Valid | Deleted {

    /** getCode: 0x00 for a valid record, 0xFF for a deleted one. */
    function Code(): (c: int)
      ensures 0 <= c < 256
      ensures c == (if this == Valid then 0x00 else 0xFF)
    {
      match this
      case Valid => 0x00
      case Deleted => 0xFF
    }
  }

  /** RecordState.values(), in declaration order. */
  const AllStates: seq<RecordState> := [Valid, Deleted]

  /** The loop of forValue: the first state in `states` whose code is `code`. */
  function FindByCode(states: seq<RecordState>, code: int): (r: Option<RecordState>)
    ensures r.Some? ==> r.value in states && r.value.Code() == code
    ensures r.None? ==> forall s | s in states :: s.Code() != code
  {
    if states == [] then None
    else if states[0].Code() == code then Some(states[0])
    else FindByCode(states[1..], code)
  }

  /** forValue: the state with this code, or null (None) for any other code. */
  function ForValue(code: int): (r: Option<RecordState>)
    ensures r.Some? <==> code == 0x00 || code == 0xFF
    ensures r.Some? ==> r.value.Code() == code
  {
    FindByCode(AllStates, code)
  }

  /** forValue inverts getCode on both states. */
  lemma ForValueOfCode(s: RecordState)
    ensures ForValue(s.Code()) == Some(s)
  {
  }
}
