/** The look-ahead filter: an item is upcoming when its due date parses and
    falls no earlier than now and at most `daysAhead` days later. */
module Window {
  import opened Wrappers

  const SecondsPerDay: int := 86400

  /** The current instant and the date parser, both supplied from outside.
      `parse` maps an ISO-8601 timestamp to seconds since the epoch, and to
      `None` where `datetime.fromisoformat` rejects the text. */
  datatype Clock = Clock(now: int, parse: string -> Option<int>)

  /** The look-ahead window as a closed interval of instants. */
  predicate InWindow(instant: int, now: int, daysAhead: int) {
    now <= instant <= now + daysAhead * SecondsPerDay
  }

  /** `is_upcoming`: a missing or empty due value and an unparseable one are
      never upcoming; a parsed one is upcoming exactly when it lies in the
      closed window `[now, now + daysAhead days]`. */
  function IsUpcoming(due: Option<string>, clock: Clock, daysAhead: int): (r: bool)
    ensures due.None? || due.value == [] ==> !r
    ensures due.Some? && clock.parse(due.value).None? ==> !r
    ensures due.Some? && due.value != [] && clock.parse(due.value).Some? ==>
              (r <==> InWindow(clock.parse(due.value).value, clock.now, daysAhead))
  {
    if due.None? || due.value == [] then false
    else
      match clock.parse(due.value)
      case None => false
      case Some(instant) =>
        var delta := instant - clock.now;
        0 <= delta <= daysAhead * SecondsPerDay
  }

  /** Both ends of the window are included, and nothing outside it is. */
  lemma WindowBoundaries(s: string, clock: Clock, daysAhead: int)
    requires s != [] && daysAhead >= 0
    ensures clock.parse(s) == Some(clock.now) ==> IsUpcoming(Some(s), clock, daysAhead)
    ensures clock.parse(s) == Some(clock.now + daysAhead * SecondsPerDay) ==> IsUpcoming(Some(s), clock, daysAhead)
    ensures clock.parse(s) == Some(clock.now - 1) ==> !IsUpcoming(Some(s), clock, daysAhead)
    ensures clock.parse(s) == Some(clock.now + daysAhead * SecondsPerDay + 1) ==> !IsUpcoming(Some(s), clock, daysAhead)
  {
  }

  /** A negative look-ahead leaves the window empty. */
  lemma NegativeLookAheadIsEmpty(due: Option<string>, clock: Clock, daysAhead: int)
    requires daysAhead < 0
    ensures !IsUpcoming(due, clock, daysAhead)
  {
  }
}
