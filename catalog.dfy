/**
 * The fixed configuration of the booking page: the capacity constants, the
 * 28 group names offered by the group selector and the 3 time-slot labels.
 */
module Catalog {
  import opened Decimal

  /** Tables are numbered 1..MaxTables. */
  const MaxTables: nat := 20

  /** A group may hold at most this many bookings. */
  const MaxBookingPerGroup: nat := 2

  /** The name `<prefix><i>` with `i` rendered as Python's f-string renders it. */
  function GroupName(prefix: char, i: nat): string {
    [prefix] + NatToString(i)
  }

  /** `[f"A{i}" for i in range(1, 21)] + [f"B{i}" for i in range(1, 9)]` */
  function GroupList(): (groups: seq<string>)
    ensures |groups| == 28
    ensures forall i :: 0 <= i < 20 ==> groups[i] == GroupName('A', i + 1)
    ensures forall i :: 20 <= i < 28 ==> groups[i] == GroupName('B', i - 19)
  {
    seq(20, i requires 0 <= i => GroupName('A', i + 1)) +
    seq(8, i requires 0 <= i => GroupName('B', i + 1))
  }

  /** The three time-slot labels, in the order the selectors list them. */
  function SlotOptions(): (slots: seq<string>)
    ensures |slots| == 3
    ensures Distinct(slots)
  {
    var slots := [ "Thursday, Feb 26 | 08:30 - 12:30",
                   "Friday, Feb 27 | 08:30 - 12:30",
                   "Friday, Feb 27 | 13:30 - 17:30" ];
    assert slots[0][0] != slots[1][0] && slots[0][0] != slots[2][0];
    assert slots[1][17] != slots[2][17];
    slots
  }

  predicate Distinct<T(==)>(s: seq<T>) {
    forall i, j :: 0 <= i < j < |s| ==> s[i] != s[j]
  }

  /** The group selector offers 28 different names. */
  lemma GroupListDistinct()
    ensures Distinct(GroupList())
  {
    var groups := GroupList();
    forall i, j | 0 <= i < j < |groups|
      ensures groups[i] != groups[j]
    {
      if groups[i] == groups[j] {
        var ni := if i < 20 then i + 1 else i - 19;
        var nj := if j < 20 then j + 1 else j - 19;
        assert groups[i][0] == groups[j][0];
        assert NatToString(ni) == groups[i][1..] == groups[j][1..] == NatToString(nj);
        NatToStringInjective(ni, nj);
      }
    }
  }
}
