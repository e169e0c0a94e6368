/**
 * The reservation ledger as a value, and the read-only queries the page
 * runs over it: the booked tables of a slot, a group's records and their
 * count, the free tables of a slot, the groups offered for cancellation.
 * The ledger lives in Streamlit's session state; here it is passed in.
 */
module Bookings {
  import opened Catalog
  import opened StringOrder

  /** One ledger record: `{"Group": ..., "Time Slot": ..., "Table": ...}`. */
  datatype Reservation = Reservation(group: string, slot: string, table: int)

  /** Some record of `ledger` holds table `t` in `slot`. */
  ghost predicate IsBooked(ledger: seq<Reservation>, slot: string, t: int) {
    exists i :: 0 <= i < |ledger| && ledger[i].slot == slot && ledger[i].table == t
  }

  /** Some record of `ledger` belongs to `group`. */
  ghost predicate HasBookings(ledger: seq<Reservation>, group: string) {
    exists i :: 0 <= i < |ledger| && ledger[i].group == group
  }

  /** `get_booked_tables(slot)`: the table of every record in `slot`, in ledger order. */
  function BookedTables(ledger: seq<Reservation>, slot: string): (tables: seq<int>)
    ensures |tables| <= |ledger|
    ensures forall t :: t in tables <==> IsBooked(ledger, slot, t)
  {
    if ledger == [] then []
    else
      var rest := BookedTables(ledger[1..], slot);
      assert forall t :: IsBooked(ledger, slot, t) <==>
        (ledger[0].slot == slot && ledger[0].table == t) || IsBooked(ledger[1..], slot, t) by {
        forall t | IsBooked(ledger, slot, t)
          ensures (ledger[0].slot == slot && ledger[0].table == t) || IsBooked(ledger[1..], slot, t)
        {
          var i :| 0 <= i < |ledger| && ledger[i].slot == slot && ledger[i].table == t;
          if i > 0 {
            assert ledger[1..][i - 1] == ledger[i];
          }
        }
        forall t | IsBooked(ledger[1..], slot, t) ensures IsBooked(ledger, slot, t) {
          var i :| 0 <= i < |ledger[1..]| && ledger[1..][i].slot == slot && ledger[1..][i].table == t;
          assert ledger[i + 1] == ledger[1..][i];
        }
      }
      (if ledger[0].slot == slot then [ledger[0].table] else []) + rest
  }

  /** The records of `group`, in ledger order (the cancellation candidates). */
  function GroupBookings(ledger: seq<Reservation>, group: string): (records: seq<Reservation>)
    ensures |records| <= |ledger|
    ensures forall r :: r in records <==> r in ledger && r.group == group
  {
    if ledger == [] then []
    else
      assert forall r :: r in ledger <==> r == ledger[0] || r in ledger[1..];
      (if ledger[0].group == group then [ledger[0]] else []) + GroupBookings(ledger[1..], group)
  }

  /** `count_group_booking(group)`: the length of the group's record list. */
  function CountGroupBooking(ledger: seq<Reservation>, group: string): (n: nat)
    ensures n <= |ledger|
    ensures n > 0 <==> HasBookings(ledger, group)
  {
    var records := GroupBookings(ledger, group);
    assert HasBookings(ledger, group) ==> records != [] by {
      if HasBookings(ledger, group) {
        var i :| 0 <= i < |ledger| && ledger[i].group == group;
        assert ledger[i] in records;
      }
    }
    assert records != [] ==> records[0] in ledger;
    |records|
  }

  /** The indices of the records of `group`: what "the records of the group" means, independently. */
  function IndicesOf(ledger: seq<Reservation>, group: string): set<nat> {
    set i: nat | i < |ledger| && ledger[i].group == group
  }

  lemma {:induction false} GroupBookingsConcat(a: seq<Reservation>, b: seq<Reservation>, group: string)
    ensures GroupBookings(a + b, group) == GroupBookings(a, group) + GroupBookings(b, group)
  {
    if a != [] {
      assert (a + b)[1..] == a[1..] + b;
      GroupBookingsConcat(a[1..], b, group);
    } else {
      assert a + b == b;
    }
  }

  lemma CountSnoc(init: seq<Reservation>, x: Reservation, group: string)
    ensures CountGroupBooking(init + [x], group)
         == CountGroupBooking(init, group) + (if x.group == group then 1 else 0)
  {
    GroupBookingsConcat(init, [x], group);
    assert [x][1..] == [];
  }

  lemma IndicesSnoc(init: seq<Reservation>, x: Reservation, group: string)
    ensures IndicesOf(init + [x], group)
         == IndicesOf(init, group) + (if x.group == group then {|init|} else {})
  {
    var ledger := init + [x];
    forall i: nat
      ensures i in IndicesOf(ledger, group) <==> i in IndicesOf(init, group) + (if x.group == group then {|init|} else {})
    {
      if i < |init| { assert ledger[i] == init[i]; }
    }
  }

  /** `count_group_booking(group)` equals the number of ledger positions holding a record of `group`. */
  lemma {:induction false} CountIsNumberOfRecords(ledger: seq<Reservation>, group: string)
    ensures CountGroupBooking(ledger, group) == |IndicesOf(ledger, group)|
  {
    if ledger == [] {
      assert IndicesOf(ledger, group) == {};
    } else {
      var n := |ledger| - 1;
      var init, x := ledger[..n], ledger[n];
      assert ledger == init + [x];
      CountSnoc(init, x, group);
      IndicesSnoc(init, x, group);
      CountIsNumberOfRecords(init, group);
      assert n !in IndicesOf(init, group);
    }
  }

  /** `s` is strictly ascending and every entry lies in lo..hi. */
  predicate AscendingWithin(s: seq<int>, lo: int, hi: int) {
    (forall j, k :: 0 <= j < k < |s| ==> s[j] < s[k])
    && forall j :: 0 <= j < |s| ==> lo <= s[j] <= hi
  }

  /** The tables from `from` to MaxTables that are not in `booked`, ascending. */
  function FreeFrom(booked: seq<int>, from: int): (free: seq<int>)
    requires 1 <= from <= MaxTables + 1
    ensures AscendingWithin(free, from, MaxTables)
    ensures forall t :: t in free <==> from <= t <= MaxTables && t !in booked
    ensures free == [] <==> forall t :: from <= t <= MaxTables ==> t in booked
    decreases MaxTables + 1 - from
  {
    if from > MaxTables then []
    else (if from in booked then [] else [from]) + FreeFrom(booked, from + 1)
  }

  /** `available_tables`: `[i for i in range(1, MAX_TABLES + 1) if i not in booked_tables]`. */
  function AvailableTables(ledger: seq<Reservation>, slot: string): (free: seq<int>)
    ensures AscendingWithin(free, 1, MaxTables)
    ensures forall t :: t in free <==> 1 <= t <= MaxTables && !IsBooked(ledger, slot, t)
  {
    FreeFrom(BookedTables(ledger, slot), 1)
  }

  /** The free and the booked tables of a slot split 1..MaxTables between them. */
  lemma AvailabilityPartition(ledger: seq<Reservation>, slot: string, t: int)
    requires 1 <= t <= MaxTables
    ensures t in AvailableTables(ledger, slot) <==> t !in BookedTables(ledger, slot)
  {
  }

  /** The records whose slot is `slot`, in ledger order. */
  function SlotRecords(ledger: seq<Reservation>, slot: string): seq<Reservation> {
    if ledger == [] then []
    else (if ledger[0].slot == slot then [ledger[0]] else []) + SlotRecords(ledger[1..], slot)
  }

  /** `get_booked_tables(slot)` looks only at the records of `slot`. */
  lemma {:induction false} BookedTablesOwnSlotOnly(ledger: seq<Reservation>, slot: string)
    ensures BookedTables(ledger, slot) == BookedTables(SlotRecords(ledger, slot), slot)
  {
    if ledger != [] {
      BookedTablesOwnSlotOnly(ledger[1..], slot);
      var rest := SlotRecords(ledger[1..], slot);
      if ledger[0].slot == slot {
        var own := [ledger[0]] + rest;
        assert own[0] == ledger[0] && own[1..] == rest;
        assert BookedTables(own, slot) == [ledger[0].table] + BookedTables(rest, slot);
      } else {
        assert SlotRecords(ledger, slot) == rest;
      }
    }
  }

  lemma {:induction false} SlotRecordsConcat(a: seq<Reservation>, b: seq<Reservation>, slot: string)
    ensures SlotRecords(a + b, slot) == SlotRecords(a, slot) + SlotRecords(b, slot)
  {
    if a != [] {
      assert (a + b)[1..] == a[1..] + b;
      SlotRecordsConcat(a[1..], b, slot);
    } else {
      assert a + b == b;
    }
  }

  /** Two ledgers that agree on the records of a slot offer the same free tables in it. */
  lemma SameSlotRecordsSameAvailability(a: seq<Reservation>, b: seq<Reservation>, slot: string)
    requires SlotRecords(a, slot) == SlotRecords(b, slot)
    ensures BookedTables(a, slot) == BookedTables(b, slot)
    ensures AvailableTables(a, slot) == AvailableTables(b, slot)
  {
    BookedTablesOwnSlotOnly(a, slot);
    BookedTablesOwnSlotOnly(b, slot);
  }

  /** `sorted(set([b["Group"] for b in bookings]))`: the cancellation group menu. */
  function GroupsWithBookings(ledger: seq<Reservation>): (groups: seq<string>)
    ensures StrictlyAscending(groups)
    ensures forall g :: g in groups <==> HasBookings(ledger, g)
  {
    if ledger == [] then []
    else
      var n := |ledger| - 1;
      var init := ledger[..n];
      var groups := Insert(GroupsWithBookings(init), ledger[n].group);
      assert forall g :: HasBookings(ledger, g) <==> HasBookings(init, g) || ledger[n].group == g by {
        forall g | HasBookings(init, g) ensures HasBookings(ledger, g) {
          var i :| 0 <= i < |init| && init[i].group == g;
          assert ledger[i] == init[i];
        }
      }
      groups
  }

  /** The menu is THE ascending listing of the groups holding bookings, whichever sort produced it. */
  lemma GroupMenuIsSortedSet(ledger: seq<Reservation>, listing: seq<string>)
    requires StrictlyAscending(listing)
    requires forall g :: g in listing <==> HasBookings(ledger, g)
    ensures listing == GroupsWithBookings(ledger)
  {
    StrictlyAscendingUnique(listing, GroupsWithBookings(ledger));
  }

  // The ledger invariants the page is meant to keep.

  /** Within one slot, no table is booked twice. */
  ghost predicate NoDoubleBooking(ledger: seq<Reservation>) {
    forall i, j :: 0 <= i < j < |ledger| && ledger[i].slot == ledger[j].slot ==> ledger[i].table != ledger[j].table
  }

  /** No group holds more than MaxBookingPerGroup records. */
  ghost predicate WithinGroupCap(ledger: seq<Reservation>) {
    forall i :: 0 <= i < |ledger| ==> CountGroupBooking(ledger, ledger[i].group) <= MaxBookingPerGroup
  }

  /** Every record names a catalog group, a catalog slot and a table in 1..MaxTables. */
  ghost predicate FromCatalogs(ledger: seq<Reservation>) {
    forall i :: 0 <= i < |ledger| ==>
      ledger[i].group in GroupList() && ledger[i].slot in SlotOptions() && 1 <= ledger[i].table <= MaxTables
  }

  ghost predicate Invariants(ledger: seq<Reservation>) {
    NoDoubleBooking(ledger) && WithinGroupCap(ledger) && FromCatalogs(ledger)
  }
}
