# Table booking ledger

A Dafny model of the reservation logic of `booking.py`, a one-page
Streamlit application. Groups A1..A20 and B1..B8 book one of 20 tables in
one of three time slots. A group may hold at most two bookings, a table is
held by at most one group per slot, and the page does not open before
15 February 2026.

The model separates that logic from the page around it:

- `Decimal`: Python's `str()` of an integer, with its parse-back round trip.
  Cancellation labels are built with it.
- `Catalog`: the constants `MAX_TABLES` and `MAX_BOOKING_PER_GROUP`, the 28 group names and the three slot labels.
- `Gate`: the `today < OPEN_DATE` check, with the date passed in.
- `StringOrder`: Python's string ordering. It is used to characterise `sorted(set(...))`.
- `Bookings`: the ledger as a sequence of `Reservation` values and the page's queries over it:
  - `get_booked_tables`, `count_group_booking` and `available_tables`;
  - the menu of groups offered for cancellation;
  - the three ledger invariants (no table booked twice in a slot, no group over its cap, every field from the catalogs).
- `Admission`: the booking rule (cap, then table chosen, then table free) and its effect on the invariants and on availability.
- `Cancellation`: the `"<slot> | Table <n>"` labels, the cancel menu and the cancellation walk with `list.remove`.
  It proves that labels identify a group's records, so the walk removes exactly one record.
- `Session`: the `Ledger` class. It holds the list kept in session state, and its methods update it in place:
  - `Book`: the form submit;
  - `Cancel`: the cancel button, searching with a loop;
  - `Run`: one run of the page script.
- `Findings`: the admission branch as written, and the input on which it appends a booking with no table.
- `Scenarios`: client methods that drive the `Ledger` through booking and cancellation using only its contracts.

## Model

| member | source | states |
|---|---|---|
| Decimal.NatToString | booking.py:112 | a natural number renders as a non-empty run of digits, of length one exactly when the number is below 10 |
| Decimal.ParseNatToString | booking.py:112 | reading the digits of `str(n)` back gives `n` (round trip) |
| Decimal.NatToStringInjective | booking.py:112 | different natural numbers render differently |
| Decimal.IntToString | booking.py:112 | `str(n)` is a numeral (an optional minus sign, then digits), starts with `-` exactly when `n` is negative, and reads back as `n` |
| Decimal.IntToStringInjective | booking.py:112 | different integers, negative ones included, render differently |
| Catalog.GroupList | booking.py:40-43 | 28 names: `A1`..`A20` at positions 0..19, then `B1`..`B8` |
| Catalog.GroupListDistinct | booking.py:40-43 | no group name is offered twice |
| Catalog.SlotOptions | booking.py:48-52 | three slot labels, pairwise different |
| Gate.IsOpen | booking.py:27 | the page goes on past the gate exactly on dates from 15 February 2026 on |
| Gate.OpenStaysOpen | booking.py:27 | once the page is open on a date, it is open on every later date |
| Gate.OpensOnOpenDate | booking.py:20-29 | the page is open on 2026-02-15 and closed on the day before |
| StringOrder.Less | booking.py:102 | `a < b` holds exactly when `a` and `b` agree up to some position where `a` ends while `b` goes on, or `a` has the smaller character |
| StringOrder.LessTransitive | booking.py:102 | Python's string order is transitive |
| StringOrder.LessTotal | booking.py:102 | any two different strings are ordered one way or the other |
| StringOrder.Insert | booking.py:102 | inserting into a sorted, duplicate-free list keeps it so and adds exactly the new element |
| StringOrder.StrictlyAscendingUnique | booking.py:102 | two sorted, duplicate-free lists with the same elements are equal |
| Bookings.BookedTables | booking.py:57-58 | `t` is among the slot's booked tables exactly when some record holds table `t` in that slot |
| Bookings.GroupBookings | booking.py:105-108 | a record is among the group's records exactly when it is in the ledger and belongs to the group |
| Bookings.CountGroupBooking | booking.py:60-61 | the count is positive exactly when the group holds some record, and never exceeds the ledger length |
| Bookings.CountIsNumberOfRecords | booking.py:60-61 | the count equals the number of ledger positions that hold a record of the group |
| Bookings.CountSnoc | booking.py:60-61 | appending a record raises its group's count by one and leaves every other group's count unchanged |
| Bookings.FreeFrom | booking.py:73 | the tables from `from` to 20 that are not booked, strictly ascending, and empty exactly when all of them are booked |
| Bookings.AvailableTables | booking.py:73 | the free tables are strictly ascending, lie in 1..20, and are exactly the tables of 1..20 that no record of the slot holds |
| Bookings.AvailabilityPartition | booking.py:57-73 | each table of 1..20 is either free or booked in a slot, never both |
| Bookings.BookedTablesOwnSlotOnly | booking.py:57-58 | the booked tables of a slot depend only on that slot's records |
| Bookings.SameSlotRecordsSameAvailability | booking.py:57-73 | ledgers that agree on a slot's records offer the same free tables in it |
| Bookings.GroupsWithBookings | booking.py:102 | the cancel-group menu is sorted, has no repeats and lists exactly the groups that hold a booking |
| Bookings.GroupMenuIsSortedSet | booking.py:102 | any sorted, duplicate-free listing of those groups is that menu |
| Admission.Admit | booking.py:79-89 | accepted exactly when the group is under its cap, a table was chosen and it is not booked in the slot; each rejection has its exact condition |
| Admission.CapCheckComesFirst | booking.py:80-83 | a request over the cap for an already booked table gets the cap message, not the table message |
| Admission.BookingPreservesInvariants | booking.py:79-89 | appending an accepted request from the selectors keeps all three ledger invariants |
| Admission.BookingKeepsTablesExclusive | booking.py:82-89 | an accepted request never double-books a table in its slot |
| Admission.BookingKeepsGroupCap | booking.py:80-89 | an accepted request never takes a group past two bookings |
| Admission.AcceptedTableLeavesAvailability | booking.py:73-89 | the accepted table was free before and is not free after |
| Admission.BookingLeavesOtherSlots | booking.py:72-89 | booking in one slot leaves the booked and free tables of every other slot unchanged |
| Cancellation.CancelOptions | booking.py:110-113 | one label per record of the group, in ledger order |
| Cancellation.RemoveFirst | booking.py:119 | `list.remove` shortens the ledger by one |
| Cancellation.RemoveFirstTakesOneCopy | booking.py:119 | `list.remove(b)` takes exactly one copy of `b` out of the ledger |
| Cancellation.LabelReadsBack | booking.py:112 | a label starts with the slot, then the fixed separator ending in `Table`, then a numeral that reads back as the table number |
| Cancellation.LabelInjective | booking.py:112-117 | two records with the same label agree on slot and table |
| Cancellation.SameLabelSameRecord | booking.py:105-118 | two records of one group with one label are the same record |
| Cancellation.MatchFoundIffMatches | booking.py:115-118 | the walk finds a label equal to the chosen entry exactly when some record of the group carries it |
| Cancellation.WalkStopsAt | booking.py:115-121 | where the walk stops decides the outcome: inside the list, that candidate is removed; at the end, nothing changes |
| Cancellation.AfterCancel | booking.py:115-121 | with a match, exactly the first ledger record of the group carrying the label is removed and the rest keep their order; with none, the ledger is unchanged |
| Cancellation.CancelByOwnLabel | booking.py:115-121 | choosing a record's own label removes that record (its first copy) |
| Cancellation.EveryOptionCancelsOne | booking.py:110-121 | every entry the cancel menu offers removes exactly one record |
| Cancellation.CancelFreesTable | booking.py:115-121 | after a cancellation the freed table is off the slot's booked list and back on its free list |
| Cancellation.RemovalLowersCounts | booking.py:119 | removing a record raises no group's count |
| Cancellation.RemovalPreservesInvariants | booking.py:119 | removing any one record keeps all three ledger invariants |
| Cancellation.CancelPreservesInvariants | booking.py:115-121 | a cancellation keeps all three ledger invariants |
| Cancellation.RemovalLeavesNoMatch | booking.py:115-121 | on a ledger without double bookings, once a record is removed no record of its group carries its label |
| Cancellation.CancelTwiceRemovesOnce | booking.py:115-121 | repeating the same cancellation removes nothing more |
| Session.Ledger.constructor | booking.py:34-35 | a session starts with an empty ledger, which satisfies the invariants |
| Session.Ledger.Book | booking.py:79-91 | returns the admission verdict; on acceptance, exactly the new record is appended; on rejection, nothing changes; valid input keeps the invariants |
| Session.Ledger.Cancel | booking.py:115-121 | reports a cancellation exactly when a record of the group has the label; the new ledger is the old one minus the first such record; the invariants are kept |
| Session.Ledger.Run | booking.py:27-124 | closed gate: nothing changes; open: a booking gets the admission verdict and the record is appended exactly when accepted, a cancel on a non-empty ledger acts as `Cancel`, an empty ledger has nothing to cancel, and the invariants are kept |
| Findings.TableSelector | booking.py:75 | the table selector yields nothing exactly when no table is free, and otherwise one of the free tables |
| Findings.AdmitAsWritten | booking.py:79-89 | the branch as written never reports a missing table, and accepts whenever the group is under its cap and no booked table was picked |
| Findings.AsWrittenAgreesWhenPicked | booking.py:79-89 | when a table was picked, the branch as written and the corrected rule agree |
| Findings.FullSlotIsValid | booking.py:40-58 | the ledger with all 20 tables of the first slot booked by A1..A20 satisfies the invariants |
| Findings.FullSlotHasNoFreeTable | booking.py:73 | in that ledger the first slot has no free table |
| Findings.NoFreeTableAsWritten | booking.py:73-89 | with no free table, a group under its cap is accepted as written and refused by the corrected rule |
| Findings.TablelessBookingAccepted | booking.py:73-89 | the concrete counterexample: group B1, first slot full, accepted as written with no table |
| Findings.CorrectedRuleNeedsTable | booking.py:73-89 | the corrected rule accepts only a table picked from 1..20 that is free in the slot |

## Left out

- Streamlit widgets, forms, headers and messages (booking.py:66-77, 96-124): widget values are parameters of `Book`, `Cancel` and `Run`, and each message is an `Outcome` or `Verdict` value.
- `safe_rerun`'s `pass` fallback (booking.py:13-14): the model assumes a rerun API exists, so the run stops after the first removal. Without one, the walk would go on over the list it computed before the removal.
- The coloured table-layout grid (booking.py:129-141): presentation only. Its booked/free decision is `get_booked_tables`, which is modelled.
- The pandas DataFrame and the per-group `groupby` summary (booking.py:148-157): a library display. The per-group number is `count_group_booking`.
- `date.today()` (booking.py:23): the system clock is not modelled; `Run` takes today's date as a parameter.
- Persistence beyond the session and concurrent sessions: the ledger lives in one session's state, and one run serves one action.
- Session.Ledger.Run: serves at most one action per run. Each run of the script is started by one interaction, so in a given run only the form submit or the cancel button that started it reports a press.
- Findings.AdmitAsWritten: models only the verdict of the tableless request. The record `{"Table": None}` it would append is not stored, because `Reservation.table` is an integer.

## Findings

| source | as written | input that shows it | evidently intended | confidence | as-written member | corrected member |
|---|---|---|---|---|---|---|
| booking.py:73-89 | when every table of the chosen slot is booked, `st.selectbox` has no option and returns `None`; `None in booked_tables` is false, so the request is accepted and a record with table `None` is appended | a ledger where A1..A20 hold tables 1..20 of "Thursday, Feb 26 \| 08:30 - 12:30"; group B1 submits for that slot | a request with no table chosen is refused and the ledger is unchanged | not executed | Findings.TablelessBookingAccepted | Admission.Admit |
