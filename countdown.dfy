/** `time_until`: the countdown text shown beside each item, and the urgency
    test the presenter applies to that text. */
module Countdown {
  import opened Wrappers
  import opened Text
  import Window

  const SecondsPerHour: int := 3600
  const SecondsPerMinute: int := 60

  /** The four shapes a countdown can take. */
  datatype Shape =
    | PastDue
    | DaysLeft(days: nat, hours: nat)
    | HoursLeft(hours: nat, minutes: nat)
    | MinutesLeft(minutes: nat)

  /** Splits a whole number of remaining seconds into the shape shown. Each
      shape is characterised by the range of `t` it covers and by the bounds
      that pin its numbers down, independently of the `//` and `%` used. */
  function Classify(t: int): (c: Shape)
    ensures c.PastDue? <==> t < 0
    ensures c.DaysLeft? <==> t >= Window.SecondsPerDay
    ensures c.HoursLeft? <==> SecondsPerHour <= t < Window.SecondsPerDay
    ensures c.MinutesLeft? <==> 0 <= t < SecondsPerHour
    ensures c.DaysLeft? ==>
              c.days >= 1 && c.hours < 24 &&
              c.days * Window.SecondsPerDay + c.hours * SecondsPerHour <= t <
              c.days * Window.SecondsPerDay + (c.hours + 1) * SecondsPerHour
    ensures c.HoursLeft? ==>
              1 <= c.hours < 24 && c.minutes < 60 &&
              c.hours * SecondsPerHour + c.minutes * SecondsPerMinute <= t <
              c.hours * SecondsPerHour + (c.minutes + 1) * SecondsPerMinute
    ensures c.MinutesLeft? ==>
              c.minutes < 60 &&
              c.minutes * SecondsPerMinute <= t < (c.minutes + 1) * SecondsPerMinute
  {
    if t < 0 then PastDue
    else
      var days := t / Window.SecondsPerDay;
      var hours := (t % Window.SecondsPerDay) / SecondsPerHour;
      if days > 0 then DaysLeft(days, hours)
      else if hours > 0 then HoursLeft(hours, (t % SecondsPerHour) / SecondsPerMinute)
      else MinutesLeft(t / SecondsPerMinute)
  }

  /** The text of each shape. */
  function Render(c: Shape): string {
    match c
    case PastDue => "**PAST DUE**"
    case DaysLeft(d, h) => NatStr(d) + "d " + NatStr(h) + "h left"
    case HoursLeft(h, m) => NatStr(h) + "h " + NatStr(m) + "m left"
    case MinutesLeft(m) => "**" + NatStr(m) + "m left!**"
  }

  /** `time_until(due_str)`: empty for an empty or unparseable due value,
      otherwise the countdown to the parsed instant. Fractions of a second do
      not arise: instants are whole seconds. */
  function TimeUntil(due: string, clock: Window.Clock): (r: string)
    ensures due == [] || clock.parse(due).None? ==> r == []
    ensures r == "**PAST DUE**" <==>
              due != [] && clock.parse(due).Some? && clock.parse(due).value < clock.now
  {
    if due == [] then []
    else
      match clock.parse(due)
      case None => []
      case Some(instant) =>
        var c := Classify(instant - clock.now);
        PastDueMarker(c);
        Render(c)
  }

  /** The marker text belongs to the past-due shape alone. */
  lemma PastDueMarker(c: Shape)
    ensures Render(c) == "**PAST DUE**" <==> c.PastDue?
  {
    var s := Render(c);
    match c
    case PastDue =>
    case DaysLeft(d, h) =>
      assert s[0] == NatStr(d)[0];
    case HoursLeft(h, m) =>
      assert s[0] == NatStr(h)[0];
    case MinutesLeft(m) =>
      assert s[2] == NatStr(m)[0];
  }

  /** The presenter's urgency test: the countdown mentions `PAST DUE` or
      ends in `m left!`. */
  predicate Urgent(countdown: string) {
    Contains(countdown, "PAST DUE") || Contains(countdown, "m left!")
  }

  /** A string without `P` and `!` holds neither urgency marker. */
  lemma NotUrgentWithout(s: string)
    requires 'P' !in s && '!' !in s
    ensures !Urgent(s)
  {
    if Contains(s, "PAST DUE") {
      ContainsHasChar(s, "PAST DUE", 0);
    }
    if Contains(s, "m left!") {
      ContainsHasChar(s, "m left!", 6);
    }
  }

  lemma NoMarkerInDigits(n: nat)
    ensures 'P' !in NatStr(n) && '!' !in NatStr(n)
  {
  }

  /** Apart from the past-due marker, no countdown holds a `P`; only the
      minutes-only shape holds a `!`. */
  lemma MarkerChars(c: Shape)
    ensures !c.PastDue? ==> 'P' !in Render(c)
    ensures c.DaysLeft? || c.HoursLeft? ==> '!' !in Render(c)
  {
    match c
    case PastDue =>
    case DaysLeft(d, h) =>
      NoMarkerInDigits(d);
      NoMarkerInDigits(h);
    case HoursLeft(h, m) =>
      NoMarkerInDigits(h);
      NoMarkerInDigits(m);
    case MinutesLeft(m) =>
      NoMarkerInDigits(m);
  }

  /** Only the past-due and the minutes-only shapes read as urgent. */
  lemma UrgentShapes(c: Shape)
    ensures Urgent(Render(c)) <==> c.PastDue? || c.MinutesLeft?
  {
    match c
    case PastDue =>
      ContainsMiddle("**", "PAST DUE", "**");
      assert Render(c) == "**" + "PAST DUE" + "**";
    case MinutesLeft(m) =>
      ContainsMiddle("**" + NatStr(m), "m left!", "**");
      assert Render(c) == "**" + NatStr(m) + "m left!" + "**";
    case _ =>
      MarkerChars(c);
      NotUrgentWithout(Render(c));
  }

  /** A countdown of `t` seconds reads as urgent exactly when less than an
      hour remains (a due time already past included). */
  lemma UrgentIffUnderAnHour(t: int)
    ensures Urgent(Render(Classify(t))) <==> t < SecondsPerHour
  {
    UrgentShapes(Classify(t));
  }

  /** `time_until` reads as urgent exactly when the due value parses to an
      instant less than an hour after now. */
  lemma TimeUntilUrgent(due: string, clock: Window.Clock)
    ensures Urgent(TimeUntil(due, clock)) <==>
              due != [] && clock.parse(due).Some? && clock.parse(due).value - clock.now < SecondsPerHour
  {
    if due != [] && clock.parse(due).Some? {
      UrgentIffUnderAnHour(clock.parse(due).value - clock.now);
    } else {
      NotUrgentWithout([]);
    }
  }

  /** An item that passed the look-ahead filter is never shown as past due. */
  lemma UpcomingIsNotPastDue(due: string, clock: Window.Clock, daysAhead: int)
    requires Window.IsUpcoming(Some(due), clock, daysAhead)
    ensures TimeUntil(due, clock) != "**PAST DUE**"
    ensures !Contains(TimeUntil(due, clock), "PAST DUE")
  {
    var c := Classify(clock.parse(due).value - clock.now);
    assert TimeUntil(due, clock) == Render(c);
    MarkerChars(c);
    if Contains(Render(c), "PAST DUE") {
      ContainsHasChar(Render(c), "PAST DUE", 0);
    }
  }
}
