/**
 * A client of the Ledger class: the booking and cancellation sequences a
 * user can drive through the page, checked against the contracts alone.
 */
module Scenarios {
  import opened Gate
  import opened Catalog
  import opened Bookings
  import opened Admission
  import opened Cancellation
  import opened Session

  /** Two groups ask for the same table of one slot: the second is refused for the table. */
  method SameTableTwice(first: string, second: string, slot: string)
    requires first != second
  {
    var ledger := new Ledger();
    var v := ledger.Book(first, slot, Picked(5));
    assert v == Accepted;
    assert ledger.bookings == [Reservation(first, slot, 5)];
    assert BookedTables(ledger.bookings, slot) == [5];
    assert ledger.bookings[0].slot == slot && ledger.bookings[0].table == 5;
    v := ledger.Book(second, slot, Picked(5));
    assert v == TableAlreadyBooked;
  }

  /** A group books the same table in two slots, then is refused a third booking for the cap. */
  method CapAfterTwoSlots(group: string, slot1: string, slot2: string, slot3: string)
    requires slot1 != slot2
  {
    var ledger := new Ledger();
    var v := ledger.Book(group, slot1, Picked(5));
    assert v == Accepted;
    var first := Reservation(group, slot1, 5);
    assert ledger.bookings == [first];
    CountSnoc([], first, group);
    assert [] + [first] == [first];
    v := ledger.Book(group, slot2, Picked(5));
    assert v == Accepted;
    CountSnoc([first], Reservation(group, slot2, 5), group);
    v := ledger.Book(group, slot3, Picked(7));
    assert v == GroupCapReached;
  }

  /** Booking and then cancelling a table frees it again, and a second cancellation removes nothing. */
  method BookThenCancel(group: string, slot: string)
  {
    var ledger := new Ledger();
    var v := ledger.Book(group, slot, Picked(5));
    var r := Reservation(group, slot, 5);
    assert ledger.bookings == [r];
    CancelOnly(ledger, r);
    CancelOnEmpty(ledger, group, Label(r));
  }

  /** Cancelling the only record by its own label empties the ledger and frees its table. */
  method CancelOnly(ledger: Ledger, r: Reservation)
    requires ledger.bookings == [r] && 1 <= r.table <= MaxTables
    modifies ledger
    ensures ledger.bookings == []
  {
    ghost var before := ledger.bookings;
    CancelByOwnLabel(before, r);
    assert before[0].group == r.group && Label(before[0]) == Label(r);
    var cancelled := ledger.Cancel(r.group, Label(r));
    assert cancelled && ledger.bookings == [];
    assert r.table in AvailableTables(ledger.bookings, r.slot);
  }

  /** On an empty ledger the cancel button finds nothing and changes nothing. */
  method CancelOnEmpty(ledger: Ledger, group: string, option: string)
    requires ledger.bookings == []
    modifies ledger
  {
    var cancelled := ledger.Cancel(group, option);
    assert !cancelled && ledger.bookings == [];
  }

  /** A booking submitted through a page run after the open date lands in the ledger. */
  method BookThroughRun(group: string, slot: string)
  {
    var ledger := new Ledger();
    var outcome := ledger.Run(Date(2026, 3, 1), SubmitBooking(group, slot, Picked(1)));
    assert outcome == BookingResult(Accepted);
    assert ledger.bookings == [Reservation(group, slot, 1)];
  }

  /** Before the open date a page run changes nothing. */
  method ClosedBeforeOpenDate()
  {
    var ledger := new Ledger();
    var outcome := ledger.Run(Date(2026, 2, 14), SubmitBooking(GroupList()[0], SlotOptions()[0], Picked(1)));
    assert outcome == NotOpenYet && ledger.bookings == [];
  }
}
