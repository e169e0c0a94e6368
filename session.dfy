/**
 * The ledger as the page keeps it: a list in session state that the
 * booking form appends to and the cancel button removes from, and one run
 * of the page script, which passes the open-date gate and then serves at
 * most one submitted action.
 */
module Session {
  import opened Gate
  import opened Catalog
  import opened Bookings
  import opened Admission
  import opened Cancellation

  /** What the user submitted in this run of the page. */
  datatype Action =
    | NoAction
    | SubmitBooking(group: string, slot: string, choice: TableChoice)
    | CancelSelected(cancelGroup: string, option: string)

  /** What the page reports for this run. */
  datatype Outcome =
    | NotOpenYet
    | Shown
    | BookingResult(verdict: Verdict)
    | CancelResult(cancelled: bool)
    | NothingToCancel

  class Ledger {
    /** `st.session_state.bookings` */
    var bookings: seq<Reservation>

    ghost predicate Valid()
      reads this
    {
      Invariants(bookings)
    }

    /** The first run of a session starts with an empty ledger. */
    constructor ()
      ensures bookings == [] && Valid()
    {
      bookings := [];
    }

    /** Submitting the booking form: the admission rule decides, and only an accepted request is appended. */
    method Book(group: string, slot: string, choice: TableChoice) returns (verdict: Verdict)
      modifies this
      ensures verdict == Admit(old(bookings), group, slot, choice)
      ensures verdict == Accepted ==> bookings == old(bookings) + [Reservation(group, slot, choice.table)]
      ensures verdict != Accepted ==> bookings == old(bookings)
      ensures old(Valid()) && FromWidgets(group, slot, choice) ==> Valid()
    {
      verdict := Admit(bookings, group, slot, choice);
      if verdict == Accepted {
        if Valid() && FromWidgets(group, slot, choice) {
          BookingPreservesInvariants(bookings, group, slot, choice);
        }
        bookings := bookings + [Reservation(group, slot, choice.table)];
      }
    }

    /**
     * Pressing "Cancel Selected Booking": walk the group's records and remove
     * the first ledger record equal to the one whose label is `option`. The
     * rerun that follows a removal ends the walk.
     */
    method Cancel(group: string, option: string) returns (cancelled: bool)
      modifies this
      ensures cancelled <==> Matches(old(bookings), group, option)
      ensures bookings == AfterCancel(old(bookings), group, option)
      ensures old(Valid()) ==> Valid()
    {
      var candidates := GroupBookings(bookings, group);
      var i := 0;
      while i < |candidates| && Label(candidates[i]) != option
        invariant 0 <= i <= |candidates|
        invariant forall j :: 0 <= j < i ==> Label(candidates[j]) != option
      {
        i := i + 1;
      }
      WalkStopsAt(bookings, group, option, i);
      if Valid() {
        CancelPreservesInvariants(bookings, group, option);
      }
      cancelled := i < |candidates|;
      if cancelled {
        bookings := RemoveFirst(bookings, candidates[i]);
      }
    }

    /** One run of the page: the gate, then the action the user submitted, if any. */
    method Run(today: Date, action: Action) returns (outcome: Outcome)
      modifies this
      ensures !IsOpen(today) ==> outcome == NotOpenYet && bookings == old(bookings)
      ensures IsOpen(today) && action.NoAction? ==> outcome == Shown && bookings == old(bookings)
      ensures IsOpen(today) && action.SubmitBooking? ==>
        outcome == BookingResult(Admit(old(bookings), action.group, action.slot, action.choice))
      ensures IsOpen(today) && action.SubmitBooking? ==>
        (Admit(old(bookings), action.group, action.slot, action.choice) == Accepted ==>
          bookings == old(bookings) + [Reservation(action.group, action.slot, action.choice.table)])
        && (Admit(old(bookings), action.group, action.slot, action.choice) != Accepted ==> bookings == old(bookings))
      ensures IsOpen(today) && action.CancelSelected? && old(bookings) == [] ==>
        outcome == NothingToCancel && bookings == old(bookings)
      ensures IsOpen(today) && action.CancelSelected? && old(bookings) != [] ==>
        outcome == CancelResult(Matches(old(bookings), action.cancelGroup, action.option))
        && bookings == AfterCancel(old(bookings), action.cancelGroup, action.option)
      ensures action.SubmitBooking? && old(Valid()) && FromWidgets(action.group, action.slot, action.choice) ==> Valid()
      ensures !action.SubmitBooking? && old(Valid()) ==> Valid()
    {
      if !IsOpen(today) {
        return NotOpenYet;
      }
      match action {
        case NoAction =>
          outcome := Shown;
        case SubmitBooking(group, slot, choice) =>
          var verdict := Book(group, slot, choice);
          outcome := BookingResult(verdict);
        case CancelSelected(group, option) =>
          if bookings == [] {
            outcome := NothingToCancel;
          } else {
            var cancelled := Cancel(group, option);
            outcome := CancelResult(cancelled);
          }
      }
    }
  }
}
