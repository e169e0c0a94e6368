/**
 * The admission branch as the page writes it, where the table check is
 * `table_number in booked_tables` and nothing else: when the table
 * selector has no option it hands back `None`, `None` is in no list, and a
 * group under its cap gets a booking with no table. Admission.Admit is the
 * corrected rule the rest of the model uses.
 */
module Findings {
  import opened Decimal
  import opened Catalog
  import opened Bookings
  import opened Admission

  /** `st.selectbox` over the table options: the entry at `pick`, or nothing when the list is empty. */
  function TableSelector(options: seq<int>, pick: nat): (choice: TableChoice)
    requires options != [] ==> pick < |options|
    ensures choice.NothingOffered? <==> options == []
    ensures choice.Picked? ==> choice.table in options
  {
    if options == [] then NothingOffered else Picked(options[pick])
  }

  /** The verdict of the branch at the submit button as written: cap, then `table_number in booked_tables`, else accepted. */
  function AdmitAsWritten(ledger: seq<Reservation>, group: string, slot: string, choice: TableChoice): (v: Verdict)
    ensures v != NoTableChosen
    ensures v == Accepted <==>
      CountGroupBooking(ledger, group) < MaxBookingPerGroup
      && (choice.NothingOffered? || !IsBooked(ledger, slot, choice.table))
  {
    if CountGroupBooking(ledger, group) >= MaxBookingPerGroup then GroupCapReached
    else if choice.Picked? && choice.table in BookedTables(ledger, slot) then TableAlreadyBooked
    else Accepted
  }

  /** The two rules agree whenever the selector handed over a table. */
  lemma AsWrittenAgreesWhenPicked(ledger: seq<Reservation>, group: string, slot: string, t: int)
    ensures AdmitAsWritten(ledger, group, slot, Picked(t)) == Admit(ledger, group, slot, Picked(t))
  {
  }

  /** Slot 1 fully booked: group `A<i+1>` holds table `i+1`, for i in 0..19. */
  function FullSlot(): (ledger: seq<Reservation>)
    ensures |ledger| == MaxTables
    ensures forall i :: 0 <= i < MaxTables ==> ledger[i] == Reservation(GroupList()[i], SlotOptions()[0], i + 1)
  {
    seq(MaxTables, i requires 0 <= i < MaxTables => Reservation(GroupList()[i], SlotOptions()[0], i + 1))
  }

  lemma FullSlotIsValid()
    ensures Invariants(FullSlot())
  {
    var ledger := FullSlot();
    var groups := GroupList();
    GroupListDistinct();
    forall i | 0 <= i < |ledger|
      ensures CountGroupBooking(ledger, ledger[i].group) <= MaxBookingPerGroup
    {
      assert IndicesOf(ledger, groups[i]) == {i};
      CountIsNumberOfRecords(ledger, groups[i]);
    }
  }

  lemma FullSlotHasNoFreeTable()
    ensures AvailableTables(FullSlot(), SlotOptions()[0]) == []
  {
    var ledger := FullSlot();
    var slot := SlotOptions()[0];
    var booked := BookedTables(ledger, slot);
    forall t | 1 <= t <= MaxTables ensures t in booked {
      assert ledger[t - 1].slot == slot && ledger[t - 1].table == t;
    }
    assert AvailableTables(ledger, slot) == FreeFrom(booked, 1);
  }

  lemma FullSlotLeavesGroupB1Free()
    ensures GroupList()[20] == "B1"
    ensures CountGroupBooking(FullSlot(), GroupList()[20]) == 0
  {
    var ledger := FullSlot();
    var b1 := GroupList()[20];
    assert b1 == ['B'] + NatToString(1);
    forall i | 0 <= i < |ledger| ensures ledger[i].group[0] == 'A' {
      assert ledger[i].group == ['A'] + NatToString(i + 1);
    }
  }

  /** On any ledger whose slot has no free table, a group under its cap gets a tableless booking from the rule as written. */
  lemma NoFreeTableAsWritten(ledger: seq<Reservation>, group: string, slot: string)
    requires AvailableTables(ledger, slot) == []
    requires CountGroupBooking(ledger, group) < MaxBookingPerGroup
    ensures TableSelector(AvailableTables(ledger, slot), 0) == NothingOffered
    ensures AdmitAsWritten(ledger, group, slot, NothingOffered) == Accepted
    ensures Admit(ledger, group, slot, NothingOffered) == NoTableChosen
  {
  }

  /**
   * The counterexample: on a valid ledger whose first slot is full, the
   * selector offers nothing, and the rule as written accepts group B1's
   * request anyway (a record with no table would be appended), whereas
   * the corrected rule refuses it.
   */
  lemma TablelessBookingAccepted()
    ensures Invariants(FullSlot())
    ensures AvailableTables(FullSlot(), SlotOptions()[0]) == []
    ensures TableSelector(AvailableTables(FullSlot(), SlotOptions()[0]), 0) == NothingOffered
    ensures AdmitAsWritten(FullSlot(), GroupList()[20], SlotOptions()[0], NothingOffered) == Accepted
    ensures Admit(FullSlot(), GroupList()[20], SlotOptions()[0], NothingOffered) == NoTableChosen
    ensures GroupList()[20] == "B1"
  {
    FullSlotIsValid();
    FullSlotHasNoFreeTable();
    FullSlotLeavesGroupB1Free();
    NoFreeTableAsWritten(FullSlot(), GroupList()[20], SlotOptions()[0]);
  }

  /** The corrected rule never accepts without a table, and what it accepts lies in 1..MaxTables when the widgets supplied it. */
  lemma CorrectedRuleNeedsTable(ledger: seq<Reservation>, group: string, slot: string, choice: TableChoice)
    requires FromWidgets(group, slot, choice)
    requires Admit(ledger, group, slot, choice) == Accepted
    ensures choice.Picked? && 1 <= choice.table <= MaxTables
    ensures choice.table in AvailableTables(ledger, slot)
  {
  }
}
