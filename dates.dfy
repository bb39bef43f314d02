/**
 * Dates as the contact manager compares them. A `java.util.Calendar` is
 * modelled by its instant in milliseconds; the wall clock is the explicit
 * parameter `now`; the calendar day of an instant is the whole number of
 * days since the epoch (one fixed time zone).
 */
module Dates {

  const MillisPerDay: int := 86_400_000

  /** The calendar day an instant falls on. */
  function Day(t: int): int {
    t / MillisPerDay
  }

  /** The first instant of the day `t` falls on. */
  function StartOfDay(t: int): (r: int)
    ensures r <= t < r + MillisPerDay
    ensures Day(r) == Day(t)
  {
    Day(t) * MillisPerDay
  }

  /** `isInPast`: strictly before now, so an instant equal to now is not past. */
  predicate IsInPast(date: int, now: int) {
    date < now
  }

  /** `isInFuture`: the complement of `isInPast`, so now itself counts as future. */
  predicate IsInFuture(date: int, now: int) {
    !IsInPast(date, now)
  }

  /** `areSameDay`: same year, month and day of month, whatever the time of day. */
  predicate AreSameDay(d1: int, d2: int) {
    Day(d1) == Day(d2)
  }

  /** Down to the millisecond: now is future, one millisecond earlier is past. */
  lemma NowIsFuture(now: int)
    ensures IsInFuture(now, now) && IsInPast(now - 1, now)
  {
  }

  /**
   * Two instants are on the same day exactly when the second lies in the
   * day-long window that starts at the first one's midnight.
   */
  lemma SameDayIsSameWindow(d1: int, d2: int)
    ensures AreSameDay(d1, d2) <==> StartOfDay(d1) <= d2 < StartOfDay(d1) + MillisPerDay
  {
  }

  /**
   * Exactly one of past and future holds of a date, and as the clock moves
   * on a past date stays past, while a future date can become past.
   */
  lemma PastStaysPast(date: int, now: int, later: int)
    requires now <= later
    ensures IsInPast(date, now) != IsInFuture(date, now)
    ensures IsInPast(date, now) ==> IsInPast(date, later)
    ensures IsInFuture(date, later) ==> IsInFuture(date, now)
  {
  }
}
