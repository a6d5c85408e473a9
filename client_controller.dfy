/**
 * The booking action of the client window (class ClientController): the
 * customer ID and row-selection checks in front of the booking use case, and
 * the messages the view is given for the failures the use case reports.
 */
module ClientUi {
  import opened Wrappers
  import opened DbErrors
  import opened Ascii
  import opened Domain
  import opened Locking
  import opened Db
  import opened Service

  /** The row selection of a table in which no row is selected. */
  const InvalidSelection: int := -1

  const InvalidCustomerIdMessage: string :=
    "Please enter a valid Customer ID before attempting to book a Subcontractor."
    + "\nIt should be in the format of an 8 digit number, for example 12345678."
  const NoSelectionMessage: string := "There is currently no Subcontractor selected in the table"
  const NotFoundMessage: string := "The selected Subcontractor information can not be found!"
  const AlreadyBookedMessage: string := "The selected Subcontractor is already booked."

  // ------------------------------------------------------------ customer ID

  /** Pattern.matches("[a-zA-Z]+", s), as the matcher runs it: a letter, then more of the run or the end. */
  predicate MatchesLetterRun(s: string) {
    |s| > 0 && IsAsciiLetter(s[0]) && (|s| == 1 || MatchesLetterRun(s[1..]))
  }

  /** The whole string matches `[a-zA-Z]+` exactly when it is non-empty and every character is a letter. */
  lemma {:induction false} LetterRunIff(s: string)
    ensures MatchesLetterRun(s) <==> |s| > 0 && forall i | 0 <= i < |s| :: IsAsciiLetter(s[i])
  {
    if |s| > 1 {
      LetterRunIff(s[1..]);
      assert forall i | 1 <= i < |s| :: s[i] == s[1..][i - 1];
    }
  }

  /**
   * invalidCustomerID: only an ID of length 8 that is not a run of letters is
   * accepted, so an accepted ID has a character that is not a letter.
   */
  function InvalidCustomerID(customerID: string): (invalid: bool)
    ensures |customerID| != 8 ==> invalid
    ensures !invalid ==> exists i | 0 <= i < |customerID| :: !IsAsciiLetter(customerID[i])
  {
    LetterRunIff(customerID);
    if !MatchesLetterRun(customerID) && |customerID| == 8 then false else true
  }

  /**
   * An ID is accepted exactly when it has 8 characters and one of them is
   * not an ASCII letter; digits are not required, whatever the message says.
   */
  lemma CustomerIdAccepted(customerID: string)
    ensures !InvalidCustomerID(customerID) <==>
              |customerID| == 8 && exists i | 0 <= i < 8 :: !IsAsciiLetter(customerID[i])
  {
    LetterRunIff(customerID);
  }

  /** The example of the message is accepted, and so is an ID with one letter among digits. */
  lemma CustomerIdExamples()
    ensures !InvalidCustomerID("12345678")
    ensures !InvalidCustomerID("1234567a")
    ensures InvalidCustomerID("1234567")
    ensures InvalidCustomerID("abcdefgh")
  {
    assert !IsAsciiLetter("12345678"[0]) && !IsAsciiLetter("1234567a"[0]);
    LetterRunIff("abcdefgh");
  }

  // ------------------------------------------------------------ the action

  /** The checks bookSubcontractor makes before calling the model, in order: the ID, then the selection. */
  function GuardMessage(customerID: string, currentRowSelection: int): (r: Option<string>)
    ensures r.None? <==> !InvalidCustomerID(customerID) && currentRowSelection != InvalidSelection
    ensures InvalidCustomerID(customerID) ==> r == Some(InvalidCustomerIdMessage)
    ensures r.Some? ==> r.value == InvalidCustomerIdMessage || r.value == NoSelectionMessage
  {
    if InvalidCustomerID(customerID) then Some(InvalidCustomerIdMessage)
    else if currentRowSelection == InvalidSelection then Some(NoSelectionMessage)
    else None
  }

  /**
   * How the controller reports the model's booking: not-found and
   * already-booked become messages; any other failure is not caught and
   * reaches the caller.
   */
  function OutcomeMessage(outcome: Outcome<DbError>): (r: Result<Option<string>, DbError>)
    ensures r == Success(None) <==> outcome.Pass?
    ensures r.Failure? <==> outcome.Fail? && outcome.error != RecordNotFound && outcome.error != RecordAlreadyBooked
    ensures r.Failure? ==> outcome == Fail(r.error)
  {
    match outcome
    case Pass => Success(None)
    case Fail(RecordNotFound) => Success(Some(NotFoundMessage))
    case Fail(RecordAlreadyBooked) => Success(Some(AlreadyBookedMessage))
    case Fail(e) => Failure(e)
  }

  /**
   * Whatever the records hold, the booking's failures are all turned into
   * messages, and no message is shown exactly when the record was free.
   */
  lemma BookingReported(snap: map<int, Record>, n: int)
    ensures OutcomeMessage(BookingOutcome(snap, n)).Success?
    ensures OutcomeMessage(BookingOutcome(snap, n)) == Success(None) <==>
              n in snap && Reread(snap[n])[IndexOwner] == ""
    ensures n !in snap ==> OutcomeMessage(BookingOutcome(snap, n)) == Success(Some(NotFoundMessage))
  {
  }

  class ClientController {
    /** The booking use case behind the client's table model. */
    const service: DBService

    constructor (service: DBService)
      ensures this.service == service
    {
      this.service := service;
    }

    /**
     * bookSubcontractor: a rejected ID or a missing selection gives its
     * message and leaves everything alone; otherwise the selected list entry
     * is booked and the outcome reported. The view only ever selects -1 or a
     * row of the list.
     */
    method BookSubcontractor(customerID: string, currentRowSelection: int, subContractors: seq<Subcontractor>, newCookie: Int64)
      returns (shown: Result<Option<string>, DbError>)
      requires currentRowSelection == InvalidSelection || 0 <= currentRowSelection < |subContractors|
      requires service.dao.Valid() && service.dao.lockManager != null && service.dao.lockManager.Valid()
      requires GuardMessage(customerID, currentRowSelection).None? ==>
                 !EntryOf(service.dao.lockManager.Table(), subContractors[currentRowSelection].recordNumber).locked
      requires forall s | s in subContractors :: s !in service.dao.cache.Values
      modifies service.dao.lockManager, service.dao.lockManager.lockRecordMap.Values, service.dao.cache.Values, subContractors
      ensures GuardMessage(customerID, currentRowSelection).Some? ==>
                shown == Success(GuardMessage(customerID, currentRowSelection)) &&
                unchanged(service.dao.lockManager, service.dao.cache.Values, subContractors) &&
                unchanged(service.dao.lockManager.lockRecordMap.Values)
      ensures GuardMessage(customerID, currentRowSelection).None? ==>
                var n := subContractors[currentRowSelection].recordNumber;
                var outcome := BookingOutcome(old(Snapshot(service.dao.cache)), n);
                && shown == OutcomeMessage(outcome)
                && Snapshot(service.dao.cache) == Booked(old(Snapshot(service.dao.cache)), n, customerID)
                && service.dao.lockManager.Table() == old(service.dao.lockManager.Table())[n := Unlocked]
                && (outcome == Fail(RecordNotFound) ==> ListValues(subContractors) == old(ListValues(subContractors)))
                && (outcome != Fail(RecordNotFound) ==>
                      Refreshed(old(ListValues(subContractors)), ListValues(subContractors), Numbers(subContractors),
                                n, ShownAfterBooking(old(Snapshot(service.dao.cache))[n], customerID)))
    {
      if InvalidCustomerID(customerID) {
        return Success(Some(InvalidCustomerIdMessage));
      }
      if currentRowSelection == InvalidSelection {
        return Success(Some(NoSelectionMessage));
      }
      var contractorToBeBooked := subContractors[currentRowSelection];
      var outcome := service.BookSubcontractor(contractorToBeBooked, subContractors, customerID, newCookie);
      shown := OutcomeMessage(outcome);
    }
  }
}
