/**
 * The open-date gate: before OPEN_DATE the page shows a notice and stops,
 * so nothing below it (ledger, booking, cancellation) is reachable. The
 * current date is a parameter; the system clock is not modelled.
 */
module Gate {

  /** A calendar date as Python's `datetime.date` holds it. */
  datatype Date = Date(year: int, month: int, day: int)

  /** Python's `a < b` on dates: chronological, i.e. lexicographic on (year, month, day). */
  predicate Before(a: Date, b: Date) {
    a.year < b.year
    || (a.year == b.year && a.month < b.month)
    || (a.year == b.year && a.month == b.month && a.day < b.day)
  }

  /** `date(2026, 2, 15)` */
  const OpenDate: Date := Date(2026, 2, 15)

  /** The page goes on past the gate exactly when `today < OPEN_DATE` is false. */
  function IsOpen(today: Date): (open: bool)
    ensures open <==>
      (today.year > 2026 || (today.year == 2026 && (today.month > 2 || (today.month == 2 && today.day >= 15))))
  {
    !Before(today, OpenDate)
  }

  /** Once open, the system stays open on every later date. */
  lemma OpenStaysOpen(today: Date, later: Date)
    requires IsOpen(today)
    requires !Before(later, today)
    ensures IsOpen(later)
  {
  }

  /** The gate opens on OPEN_DATE itself and not a day earlier. */
  lemma OpensOnOpenDate()
    ensures IsOpen(OpenDate)
    ensures !IsOpen(Date(2026, 2, 14))
    ensures !IsOpen(Date(2025, 12, 31))
  {
  }
}
