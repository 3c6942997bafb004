/**
 * Calendar dates as `LocalDate` compares them: by year, then month, then day.
 */
module Dates {

  datatype Date = Date(year: int, month: int, day: int)

  /** A triple that names a day of the proleptic calendar (month 1..12, day 1..31). */
  predicate Valid(d: Date) {
    1 <= d.month <= 12 && 1 <= d.day <= 31
  }

  /** `a.isAfter(b)`: `a` is strictly later than `b`. */
  predicate IsAfter(a: Date, b: Date) {
    || a.year > b.year
    || (a.year == b.year && a.month > b.month)
    || (a.year == b.year && a.month == b.month && a.day > b.day)
  }

  /** `a` is not later than `b`. */
  predicate NotAfter(a: Date, b: Date) {
    !IsAfter(a, b)
  }

  /** `d` lies in the inclusive window `[from, to]`, as SQL `BETWEEN` selects it. */
  predicate InWindow(d: Date, from: Date, to: Date) {
    NotAfter(from, d) && NotAfter(d, to)
  }

  /**
   * An independent numbering of days: distinct valid dates get distinct
   * numbers, later dates larger ones.  Gaps (such as February 30) are harmless.
   */
  function Ordinal(d: Date): int {
    d.year * 372 + (d.month - 1) * 31 + (d.day - 1)
  }

  /** The lexicographic order agrees with the day numbering on valid dates. */
  lemma IsAfterMatchesOrdinal(a: Date, b: Date)
    requires Valid(a) && Valid(b)
    ensures IsAfter(a, b) <==> Ordinal(a) > Ordinal(b)
    ensures a == b <==> Ordinal(a) == Ordinal(b)
  {
  }

  /** `IsAfter` is a strict total order: irreflexive, transitive, and any two dates compare. */
  lemma IsAfterStrictTotalOrder(a: Date, b: Date, c: Date)
    ensures !IsAfter(a, a)
    ensures IsAfter(a, b) && IsAfter(b, c) ==> IsAfter(a, c)
    ensures a != b ==> (IsAfter(a, b) <==> !IsAfter(b, a))
  {
  }

  /** A window whose ends are inverted holds no date; a one-day window holds exactly that day. */
  lemma WindowBounds(d: Date, from: Date, to: Date)
    ensures IsAfter(from, to) ==> !InWindow(d, from, to)
    ensures InWindow(d, from, from) <==> d == from
  {
  }
}
