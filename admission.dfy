/**
 * The booking admission rule of the booking form: the group cap is checked
 * first, then table exclusivity within the slot, and only then is one
 * record appended to the ledger.
 */
module Admission {
  import opened Catalog
  import opened Bookings

  /** What the table selector hands back on submit: a table, or nothing when it had no option to offer. */
  datatype TableChoice = Picked(table: int) | NothingOffered

  /** The outcome of a booking request; each rejection has its own message on the page. */
  datatype Verdict = Accepted | GroupCapReached | TableAlreadyBooked | NoTableChosen

  /** The values the three selectors can hand over: catalog entries and a table number from 1..MaxTables. */
  predicate FromWidgets(group: string, slot: string, choice: TableChoice) {
    group in GroupList() && slot in SlotOptions() && (choice.Picked? ==> 1 <= choice.table <= MaxTables)
  }

  /** The admission rule: cap first, then a table must have been chosen, then it must be free in the slot. */
  function Admit(ledger: seq<Reservation>, group: string, slot: string, choice: TableChoice): (v: Verdict)
    ensures v == Accepted <==>
      CountGroupBooking(ledger, group) < MaxBookingPerGroup && choice.Picked? && !IsBooked(ledger, slot, choice.table)
    ensures v == GroupCapReached <==> CountGroupBooking(ledger, group) >= MaxBookingPerGroup
    ensures v == NoTableChosen <==> CountGroupBooking(ledger, group) < MaxBookingPerGroup && choice.NothingOffered?
    ensures v == TableAlreadyBooked <==>
      CountGroupBooking(ledger, group) < MaxBookingPerGroup && choice.Picked? && IsBooked(ledger, slot, choice.table)
  {
    if CountGroupBooking(ledger, group) >= MaxBookingPerGroup then GroupCapReached
    else if choice.NothingOffered? then NoTableChosen
    else if choice.table in BookedTables(ledger, slot) then TableAlreadyBooked
    else Accepted
  }

  /** The record an accepted request appends. */
  function NewRecord(group: string, slot: string, choice: TableChoice): Reservation
    requires choice.Picked?
  {
    Reservation(group, slot, choice.table)
  }

  /** A request from a group at its cap is refused for the cap, whatever the table: the cap check comes first. */
  lemma CapCheckComesFirst(ledger: seq<Reservation>, group: string, slot: string, t: int)
    requires CountGroupBooking(ledger, group) >= MaxBookingPerGroup
    requires IsBooked(ledger, slot, t)
    ensures Admit(ledger, group, slot, Picked(t)) == GroupCapReached
    ensures Admit(ledger, group, slot, Picked(t)) != TableAlreadyBooked
  {
  }

  /** Appending the record of an accepted request keeps every ledger invariant. */
  lemma BookingPreservesInvariants(ledger: seq<Reservation>, group: string, slot: string, choice: TableChoice)
    requires Invariants(ledger)
    requires FromWidgets(group, slot, choice)
    requires Admit(ledger, group, slot, choice) == Accepted
    ensures Invariants(ledger + [NewRecord(group, slot, choice)])
  {
    BookingKeepsTablesExclusive(ledger, group, slot, choice);
    BookingKeepsGroupCap(ledger, group, slot, choice);
    BookingKeepsCatalogs(ledger, group, slot, choice);
  }

  lemma BookingKeepsTablesExclusive(ledger: seq<Reservation>, group: string, slot: string, choice: TableChoice)
    requires NoDoubleBooking(ledger)
    requires Admit(ledger, group, slot, choice) == Accepted
    ensures NoDoubleBooking(ledger + [NewRecord(group, slot, choice)])
  {
    var after := ledger + [NewRecord(group, slot, choice)];
    forall i, j | 0 <= i < j < |after| && after[i].slot == after[j].slot
      ensures after[i].table != after[j].table
    {
      if j < |ledger| {
        assert after[i] == ledger[i] && after[j] == ledger[j];
      } else {
        assert after[i] == ledger[i] && after[j] == Reservation(group, slot, choice.table);
      }
    }
  }

  lemma BookingKeepsGroupCap(ledger: seq<Reservation>, group: string, slot: string, choice: TableChoice)
    requires WithinGroupCap(ledger)
    requires Admit(ledger, group, slot, choice) == Accepted
    ensures WithinGroupCap(ledger + [NewRecord(group, slot, choice)])
  {
    var x := NewRecord(group, slot, choice);
    var after := ledger + [x];
    forall i | 0 <= i < |after|
      ensures CountGroupBooking(after, after[i].group) <= MaxBookingPerGroup
    {
      CountSnoc(ledger, x, after[i].group);
      if i < |ledger| {
        assert after[i] == ledger[i];
      }
    }
  }

  lemma BookingKeepsCatalogs(ledger: seq<Reservation>, group: string, slot: string, choice: TableChoice)
    requires FromCatalogs(ledger)
    requires FromWidgets(group, slot, choice) && choice.Picked?
    ensures FromCatalogs(ledger + [NewRecord(group, slot, choice)])
  {
    var after := ledger + [NewRecord(group, slot, choice)];
    forall i | 0 <= i < |after|
      ensures after[i].group in GroupList() && after[i].slot in SlotOptions() && 1 <= after[i].table <= MaxTables
    {
      if i < |ledger| {
        assert after[i] == ledger[i];
      }
    }
  }

  /** An accepted table leaves the free list of its slot, and it was on that list before. */
  lemma AcceptedTableLeavesAvailability(ledger: seq<Reservation>, group: string, slot: string, choice: TableChoice)
    requires FromWidgets(group, slot, choice)
    requires Admit(ledger, group, slot, choice) == Accepted
    ensures choice.table in AvailableTables(ledger, slot)
    ensures choice.table !in AvailableTables(ledger + [NewRecord(group, slot, choice)], slot)
  {
    var after := ledger + [NewRecord(group, slot, choice)];
    assert after[|ledger|].slot == slot && after[|ledger|].table == choice.table;
  }

  /** Booking in one slot leaves the booked and free tables of every other slot as they were. */
  lemma BookingLeavesOtherSlots(ledger: seq<Reservation>, group: string, slot: string, choice: TableChoice, other: string)
    requires choice.Picked?
    requires other != slot
    ensures BookedTables(ledger + [NewRecord(group, slot, choice)], other) == BookedTables(ledger, other)
    ensures AvailableTables(ledger + [NewRecord(group, slot, choice)], other) == AvailableTables(ledger, other)
  {
    var x := NewRecord(group, slot, choice);
    SlotRecordsConcat(ledger, [x], other);
    assert SlotRecords([x], other) == [];
    assert ledger + [] == ledger;
    SameSlotRecordsSameAvailability(ledger + [x], ledger, other);
  }
}
