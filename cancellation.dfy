/**
 * Cancellation: the page lists a group's records under the label
 * `"<slot> | Table <n>"`, and on the button it walks those records and
 * removes from the ledger the first record equal to the one whose label
 * matches the chosen entry.
 */
module Cancellation {
  import opened Decimal
  import opened Catalog
  import opened Bookings

  /** `f'{b["Time Slot"]} | Table {b["Table"]}'` */
  function Label(r: Reservation): string {
    r.slot + " | Table " + IntToString(r.table)
  }

  /** The slot and the table number can be read back from a label. */
  lemma LabelReadsBack(r: Reservation)
    ensures |Label(r)| > |r.slot| + 9
    ensures Label(r)[..|r.slot|] == r.slot && Label(r)[|r.slot|..|r.slot| + 9] == " | Table "
    ensures IsNumeral(Label(r)[|r.slot| + 9..]) && ParseInt(Label(r)[|r.slot| + 9..]) == r.table
  {
    assert Label(r)[|r.slot| + 9..] == IntToString(r.table);
  }

  /** The entries of the "Select Booking to Cancel" selector, one per record of the group, in ledger order. */
  function CancelOptions(ledger: seq<Reservation>, group: string): (options: seq<string>)
    ensures |options| == |GroupBookings(ledger, group)|
    ensures forall i :: 0 <= i < |options| ==> options[i] == Label(GroupBookings(ledger, group)[i])
  {
    var candidates := GroupBookings(ledger, group);
    seq(|candidates|, i requires 0 <= i < |candidates| => Label(candidates[i]))
  }

  /** The position of the first element of `s` equal to `x`, or `|s|` when there is none. */
  function Find<T(==)>(s: seq<T>, x: T): (k: nat)
    ensures k <= |s|
    ensures k < |s| ==> s[k] == x
    ensures forall j :: 0 <= j < k ==> s[j] != x
  {
    if s == [] then 0
    else if s[0] == x then 0
    else
      var k := Find(s[1..], x);
      assert forall j :: 0 <= j < k ==> s[j + 1] == s[1..][j];
      1 + k
  }

  /** The ledger without its record at position `p`. */
  function Without(ledger: seq<Reservation>, p: nat): (rest: seq<Reservation>)
    requires p < |ledger|
    ensures |rest| == |ledger| - 1
    ensures forall i :: 0 <= i < |rest| ==> rest[i] == ledger[if i < p then i else i + 1]
  {
    ledger[..p] + ledger[p + 1..]
  }

  /** `list.remove(x)`: drops the first element equal to `x` (Python raises when there is none). */
  function RemoveFirst(ledger: seq<Reservation>, x: Reservation): (rest: seq<Reservation>)
    requires x in ledger
    ensures |rest| == |ledger| - 1
  {
    Without(ledger, Find(ledger, x))
  }

  /** `list.remove(x)` takes exactly one copy of `x` out of the ledger and keeps every other record. */
  lemma RemoveFirstTakesOneCopy(ledger: seq<Reservation>, x: Reservation)
    requires x in ledger
    ensures multiset(RemoveFirst(ledger, x)) == multiset(ledger) - multiset{x}
  {
    var k := Find(ledger, x);
    assert ledger == ledger[..k] + [x] + ledger[k + 1..];
    assert RemoveFirst(ledger, x) == ledger[..k] + ledger[k + 1..];
  }

  /**
   * The ledger after pressing "Cancel Selected Booking" with `group` and
   * `option` selected: the first of the group's records whose label is
   * `option` is removed with `list.remove`. That is the first ledger record
   * of the group with that label; with no such record nothing changes.
   */
  function AfterCancel(ledger: seq<Reservation>, group: string, option: string): (rest: seq<Reservation>)
    ensures !Matches(ledger, group, option) ==> rest == ledger
    ensures Matches(ledger, group, option) ==> RemovesFirstMatch(ledger, group, option, rest)
  {
    var candidates := GroupBookings(ledger, group);
    var k := Find(CancelOptions(ledger, group), option);
    MatchFoundIffMatches(ledger, group, option);
    if k < |candidates| then
      var chosen := candidates[k];
      assert chosen in ledger && chosen.group == group && Label(chosen) == option;
      FirstCopyIsFirstMatch(ledger, group, chosen);
      RemoveFirst(ledger, chosen)
    else
      ledger
  }

  /** `rest` is `ledger` without its first record of `group` labelled `option`, the others kept in order. */
  ghost predicate RemovesFirstMatch(ledger: seq<Reservation>, group: string, option: string, rest: seq<Reservation>) {
    exists p :: 0 <= p < |ledger| && ledger[p].group == group && Label(ledger[p]) == option
      && (forall j :: 0 <= j < p ==> !(ledger[j].group == group && Label(ledger[j]) == option))
      && rest == Without(ledger, p)
  }

  /** Some record of `group` carries the label `option`. */
  ghost predicate Matches(ledger: seq<Reservation>, group: string, option: string) {
    exists i :: 0 <= i < |ledger| && ledger[i].group == group && Label(ledger[i]) == option
  }

  /** The index of the last character of `s` that is not a digit, or -1. */
  function LastNonDigit(s: string): int {
    if s == [] then -1
    else if !IsDigit(s[|s| - 1]) then |s| - 1
    else LastNonDigit(s[..|s| - 1])
  }

  lemma {:induction false} LastNonDigitBeforeDigits(p: string, d: string)
    requires AllDigits(d)
    requires |p| > 0 && !IsDigit(p[|p| - 1])
    ensures LastNonDigit(p + d) == |p| - 1
    decreases |d|
  {
    if d != [] {
      var s := p + d;
      assert s[..|s| - 1] == p + d[..|d| - 1];
      LastNonDigitBeforeDigits(p, d[..|d| - 1]);
    } else {
      assert p + d == p;
    }
  }

  /** A digit run can be split off the end of a string in one way only, if a non-digit precedes it. */
  lemma SplitAtTrailingDigits(p1: string, d1: string, p2: string, d2: string)
    requires p1 + d1 == p2 + d2
    requires AllDigits(d1) && AllDigits(d2)
    requires |p1| > 0 && !IsDigit(p1[|p1| - 1])
    requires |p2| > 0 && !IsDigit(p2[|p2| - 1])
    ensures p1 == p2 && d1 == d2
  {
    var s := p1 + d1;
    LastNonDigitBeforeDigits(p1, d1);
    LastNonDigitBeforeDigits(p2, d2);
    assert p1 == s[..|p1|] == p2;
    assert d1 == s[|p1|..] == d2;
  }

  /** The sign part of Python's `str(t)`. */
  function SignOf(t: int): string {
    if t < 0 then "-" else ""
  }

  function Magnitude(t: int): nat {
    if t < 0 then -t else t
  }

  lemma LabelParts(r: Reservation)
    ensures Label(r) == (r.slot + " | Table " + SignOf(r.table)) + NatToString(Magnitude(r.table))
  {
  }

  /** Two records with the same label agree on slot and table. */
  lemma LabelInjective(a: Reservation, b: Reservation)
    requires Label(a) == Label(b)
    ensures a.slot == b.slot && a.table == b.table
  {
    var p1 := a.slot + " | Table " + SignOf(a.table);
    var p2 := b.slot + " | Table " + SignOf(b.table);
    LabelParts(a);
    LabelParts(b);
    SplitAtTrailingDigits(p1, NatToString(Magnitude(a.table)), p2, NatToString(Magnitude(b.table)));
    NatToStringInjective(Magnitude(a.table), Magnitude(b.table));
    assert (a.table < 0) == (p1[|p1| - 1] == '-') == (b.table < 0);
    var q1, q2 := a.slot + " | Table ", b.slot + " | Table ";
    assert q1 == p1[..|q1|] && q2 == p2[..|q2|];
    assert a.slot == q1[..|a.slot|] && b.slot == q2[..|b.slot|];
  }

  /** Records of one group with one label are the same record. */
  lemma SameLabelSameRecord(a: Reservation, b: Reservation)
    requires a.group == b.group && Label(a) == Label(b)
    ensures a == b
  {
    LabelInjective(a, b);
  }

  /** The walk over the group's records finds a match exactly when some record of the group has the label. */
  lemma MatchFoundIffMatches(ledger: seq<Reservation>, group: string, option: string)
    ensures Find(CancelOptions(ledger, group), option) < |GroupBookings(ledger, group)|
        <==> Matches(ledger, group, option)
  {
    var candidates := GroupBookings(ledger, group);
    var options := CancelOptions(ledger, group);
    var k := Find(options, option);
    if k < |candidates| {
      assert candidates[k] in ledger;
      var i :| 0 <= i < |ledger| && ledger[i] == candidates[k];
      assert ledger[i].group == group && Label(ledger[i]) == option;
    }
    if Matches(ledger, group, option) {
      var i :| 0 <= i < |ledger| && ledger[i].group == group && Label(ledger[i]) == option;
      assert ledger[i] in candidates;
      var c :| 0 <= c < |candidates| && candidates[c] == ledger[i];
      assert options[c] == option;
    }
  }

  /** Every record of the group before `p` has a label other than that of `ledger[p]`, when `p` is the first ledger position of the chosen candidate. */
  lemma FirstCopyIsFirstMatch(ledger: seq<Reservation>, group: string, chosen: Reservation)
    requires chosen in ledger && chosen.group == group
    ensures forall j :: 0 <= j < Find(ledger, chosen) ==> !(ledger[j].group == group && Label(ledger[j]) == Label(chosen))
  {
    var p := Find(ledger, chosen);
    forall j | 0 <= j < p && ledger[j].group == group && Label(ledger[j]) == Label(chosen)
      ensures false
    {
      SameLabelSameRecord(ledger[j], chosen);
    }
  }

  /**
   * What the walk over the group's records decides: stopping at position `i`
   * (the first label equal to `option`, or the end) means a match exists
   * exactly when `i` is inside, and the cancellation removes that candidate.
   */
  lemma WalkStopsAt(ledger: seq<Reservation>, group: string, option: string, i: nat)
    requires i <= |GroupBookings(ledger, group)|
    requires forall j :: 0 <= j < i ==> Label(GroupBookings(ledger, group)[j]) != option
    requires i < |GroupBookings(ledger, group)| ==> Label(GroupBookings(ledger, group)[i]) == option
    ensures i < |GroupBookings(ledger, group)| <==> Matches(ledger, group, option)
    ensures i < |GroupBookings(ledger, group)| ==>
      AfterCancel(ledger, group, option) == RemoveFirst(ledger, GroupBookings(ledger, group)[i])
    ensures i == |GroupBookings(ledger, group)| ==> AfterCancel(ledger, group, option) == ledger
  {
    var options := CancelOptions(ledger, group);
    assert i < |options| ==> options[i] == option;
    assert Find(options, option) == i;
    MatchFoundIffMatches(ledger, group, option);
  }

  /** Choosing a record's own label cancels that record (its first copy, as `list.remove` does). */
  lemma CancelByOwnLabel(ledger: seq<Reservation>, r: Reservation)
    requires r in ledger
    ensures AfterCancel(ledger, r.group, Label(r)) == RemoveFirst(ledger, r)
  {
    var candidates := GroupBookings(ledger, r.group);
    var options := CancelOptions(ledger, r.group);
    assert r in candidates;
    var c :| 0 <= c < |candidates| && candidates[c] == r;
    assert options[c] == Label(r);
    var k := Find(options, Label(r));
    assert candidates[k] in ledger;
    SameLabelSameRecord(candidates[k], r);
  }

  /** Every entry the cancellation selector offers removes exactly one record. */
  lemma EveryOptionCancelsOne(ledger: seq<Reservation>, group: string, i: nat)
    requires i < |CancelOptions(ledger, group)|
    ensures |AfterCancel(ledger, group, CancelOptions(ledger, group)[i])| == |ledger| - 1
  {
    var options := CancelOptions(ledger, group);
    var k := Find(options, options[i]);
    assert k <= i;
  }

  /** After a cancellation the table of the removed record is free again in its slot. */
  lemma CancelFreesTable(ledger: seq<Reservation>, r: Reservation)
    requires NoDoubleBooking(ledger)
    requires r in ledger
    requires 1 <= r.table <= MaxTables
    ensures r.table !in BookedTables(AfterCancel(ledger, r.group, Label(r)), r.slot)
    ensures r.table in AvailableTables(AfterCancel(ledger, r.group, Label(r)), r.slot)
  {
    CancelByOwnLabel(ledger, r);
    var p := Find(ledger, r);
    var after := Without(ledger, p);
    assert after == AfterCancel(ledger, r.group, Label(r));
    forall i | 0 <= i < |after|
      ensures !(after[i].slot == r.slot && after[i].table == r.table)
    {
      var j := if i < p then i else i + 1;
      assert after[i] == ledger[j] && j != p;
    }
  }

  /** Removing one record does not raise any group's count. */
  lemma RemovalLowersCounts(ledger: seq<Reservation>, p: nat, group: string)
    requires p < |ledger|
    ensures CountGroupBooking(Without(ledger, p), group) <= CountGroupBooking(ledger, group)
  {
    var front, x, back := ledger[..p], ledger[p], ledger[p + 1..];
    assert ledger == (front + [x]) + back;
    assert Without(ledger, p) == front + back;
    GroupBookingsConcat(front, back, group);
    GroupBookingsConcat(front + [x], back, group);
    GroupBookingsConcat(front, [x], group);
  }

  lemma RemovalKeepsTablesExclusive(ledger: seq<Reservation>, p: nat)
    requires NoDoubleBooking(ledger)
    requires p < |ledger|
    ensures NoDoubleBooking(Without(ledger, p))
  {
    var after := Without(ledger, p);
    forall i, j | 0 <= i < j < |after| && after[i].slot == after[j].slot
      ensures after[i].table != after[j].table
    {
      var i', j' := if i < p then i else i + 1, if j < p then j else j + 1;
      assert after[i] == ledger[i'] && after[j] == ledger[j'] && i' < j';
    }
  }

  lemma RemovalKeepsGroupCap(ledger: seq<Reservation>, p: nat)
    requires WithinGroupCap(ledger)
    requires p < |ledger|
    ensures WithinGroupCap(Without(ledger, p))
  {
    var after := Without(ledger, p);
    forall i | 0 <= i < |after|
      ensures CountGroupBooking(after, after[i].group) <= MaxBookingPerGroup
    {
      var i' := if i < p then i else i + 1;
      assert after[i] == ledger[i'];
      RemovalLowersCounts(ledger, p, after[i].group);
    }
  }

  /** Removing one record keeps every ledger invariant. */
  lemma RemovalPreservesInvariants(ledger: seq<Reservation>, p: nat)
    requires Invariants(ledger)
    requires p < |ledger|
    ensures Invariants(Without(ledger, p))
  {
    RemovalKeepsTablesExclusive(ledger, p);
    RemovalKeepsGroupCap(ledger, p);
  }

  /** A cancellation keeps every ledger invariant. */
  lemma CancelPreservesInvariants(ledger: seq<Reservation>, group: string, option: string)
    requires Invariants(ledger)
    ensures Invariants(AfterCancel(ledger, group, option))
  {
    if Matches(ledger, group, option) {
      var p :| 0 <= p < |ledger| && AfterCancel(ledger, group, option) == Without(ledger, p);
      RemovalPreservesInvariants(ledger, p);
    }
  }

  /** Once a record is removed from a ledger without double bookings, no record of its group carries its label. */
  lemma RemovalLeavesNoMatch(ledger: seq<Reservation>, p: nat, group: string, option: string)
    requires NoDoubleBooking(ledger)
    requires p < |ledger| && ledger[p].group == group && Label(ledger[p]) == option
    ensures !Matches(Without(ledger, p), group, option)
  {
    var rest := Without(ledger, p);
    forall i | 0 <= i < |rest| && rest[i].group == group
      ensures Label(rest[i]) != option
    {
      var j := if i < p then i else i + 1;
      assert rest[i] == ledger[j] && j != p;
      if Label(rest[i]) == option {
        SameLabelSameRecord(ledger[j], ledger[p]);
      }
    }
  }

  /** On a ledger without double bookings, repeating a cancellation removes nothing more. */
  lemma CancelTwiceRemovesOnce(ledger: seq<Reservation>, group: string, option: string)
    requires NoDoubleBooking(ledger)
    ensures AfterCancel(AfterCancel(ledger, group, option), group, option) == AfterCancel(ledger, group, option)
  {
    var once := AfterCancel(ledger, group, option);
    if Matches(ledger, group, option) {
      var p :| 0 <= p < |ledger| && ledger[p].group == group && Label(ledger[p]) == option
        && once == Without(ledger, p);
      RemovalLeavesNoMatch(ledger, p, group, option);
    }
  }
}
