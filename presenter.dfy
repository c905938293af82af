/** `build_embeds`: turns the sorted items into message blocks — one summary
    block and one block per course in first-seen course order, or a single
    "all caught up" block when there is nothing to report. */
module Presenter {
  import opened Wrappers
  import opened Text
  import Window
  import Countdown
  import opened Collector

  const Green: int := 0x2ECC71
  const Blue: int := 0x3498DB
  const Red: int := 0xE74C3C
  const Orange: int := 0xF39C12

  /** One rich-message block of the webhook payload. */
  datatype Embed = Embed(title: string, description: string, color: int)

  /** The single block sent when nothing is upcoming. */
  function CaughtUp(daysAhead: int): Embed {
    Embed("Canvas Notifications",
          "No upcoming assignments or discussions in the next **" + IntStr(daysAhead) +
          " day(s)**. You're all caught up!",
          Green)
  }

  /** The summary block that heads a non-empty report. */
  function Summary(count: nat, daysAhead: int): Embed {
    Embed("\U{1F4CB} Canvas \U{2014} " + NatStr(count) + " upcoming item(s)",
          "Due within the next **" + IntStr(daysAhead) + " day(s)**",
          Blue)
  }

  /** The summary title states the number of items. */
  lemma SummaryStatesCount(count: nat, daysAhead: int)
    ensures Contains(Summary(count, daysAhead).title, NatStr(count))
  {
    ContainsMiddle("\U{1F4CB} Canvas \U{2014} ", NatStr(count), " upcoming item(s)");
  }

  // ---------------------------------------------------------------------
  // Grouping by course

  /** The distinct course names of `items`, in order of first appearance
      (the key order of the `by_course` dict). */
  function CourseOrder(items: seq<Item>): seq<string> {
    if items == [] then []
    else
      var order := CourseOrder(items[..|items| - 1]);
      var course := items[|items| - 1].course;
      if course in order then order else order + [course]
  }

  /** The items of one course, in input order (a value of `by_course`). */
  function ItemsOf(items: seq<Item>, course: string): seq<Item> {
    if items == [] then []
    else
      ItemsOf(items[..|items| - 1], course) +
      (if items[|items| - 1].course == course then [items[|items| - 1]] else [])
  }

  predicate NoDuplicates(s: seq<string>) {
    forall i, j :: 0 <= i < j < |s| ==> s[i] != s[j]
  }

  /** The set of course names the items mention. */
  function CourseSet(items: seq<Item>): set<string> {
    set it | it in items :: it.course
  }

  /** Every course name appears once in the order, and exactly the courses of
      the items appear; a course appears exactly when it has items. */
  lemma {:induction false} CourseOrderCovers(items: seq<Item>)
    ensures NoDuplicates(CourseOrder(items))
    ensures forall c :: c in CourseOrder(items) <==> c in CourseSet(items)
    ensures forall c :: ItemsOf(items, c) != [] <==> c in CourseOrder(items)
  {
    if items != [] {
      var init := items[..|items| - 1];
      var x := items[|items| - 1];
      CourseOrderCovers(init);
      assert items == init + [x];
      assert CourseSet(items) == CourseSet(init) + {x.course};
    }
  }

  /** A course listed earlier has already been seen by the time a course
      listed later first appears: the order is the order of first sight. */
  lemma {:induction false} CourseOrderFirstSeen(items: seq<Item>, i: nat, j: nat, q: nat)
    requires i < j < |CourseOrder(items)|
    requires q < |items| && items[q].course == CourseOrder(items)[j]
    ensures CourseOrder(items)[i] in CourseOrder(items[..q])
  {
    var n := |items| - 1;
    var init := items[..n];
    var before := CourseOrder(init);
    CourseOrderCovers(init);
    if q < n {
      assert init[q] == items[q];
      if j >= |before| {
        assert false;
      }
      CourseOrderFirstSeen(init, i, j, q);
      assert init[..q] == items[..q];
    } else {
      assert items[..q] == init;
    }
  }

  /** The set of distinct courses, counted. */
  lemma {:induction false} DistinctCount(s: seq<string>)
    requires NoDuplicates(s)
    ensures |set c | c in s| == |s|
  {
    if s != [] {
      var init := s[..|s| - 1];
      DistinctCount(init);
      assert s == init + [s[|s| - 1]];
      assert (set c | c in s) == (set c | c in init) + {s[|s| - 1]};
    }
  }

  /** The number of course blocks is the number of distinct course names. */
  lemma CourseCount(items: seq<Item>)
    ensures |CourseOrder(items)| == |CourseSet(items)|
  {
    CourseOrderCovers(items);
    DistinctCount(CourseOrder(items));
    assert (set c | c in CourseOrder(items)) == CourseSet(items);
  }

  /** Total size of the groups of the listed courses. */
  function GroupSizes(items: seq<Item>, courses: seq<string>): nat {
    if courses == [] then 0
    else GroupSizes(items, courses[..|courses| - 1]) + |ItemsOf(items, courses[|courses| - 1])|
  }

  lemma {:induction false} GroupSizesSnoc(items: seq<Item>, x: Item, courses: seq<string>)
    requires NoDuplicates(courses)
    ensures GroupSizes(items + [x], courses) == GroupSizes(items, courses) + (if x.course in courses then 1 else 0)
  {
    if courses != [] {
      var init := courses[..|courses| - 1];
      GroupSizesSnoc(items, x, init);
      assert (items + [x])[..|items|] == items;
      assert courses == init + [courses[|courses| - 1]];
    }
  }

  /** The course groups split the items: every item lies in exactly one
      group, so the group sizes add up to the number of items. */
  lemma {:induction false} GroupsPartition(items: seq<Item>)
    ensures GroupSizes(items, CourseOrder(items)) == |items|
  {
    if items != [] {
      var init := items[..|items| - 1];
      var x := items[|items| - 1];
      var order := CourseOrder(init);
      GroupsPartition(init);
      CourseOrderCovers(init);
      assert items == init + [x];
      GroupSizesSnoc(init, x, order);
      if x.course !in order {
        var grown := order + [x.course];
        assert grown[..|grown| - 1] == order;
        assert ItemsOf(init, x.course) == [];
      }
    }
  }

  // ---------------------------------------------------------------------
  // Course blocks

  function KindName(kind: Kind): string {
    match kind
    case Assignment => "Assignment"
    case Discussion => "Discussion"
  }

  /** One line of a course block: icon, kind, linked name, points when
      non-zero, the readable due date and the countdown. */
  function Line(item: Item, clock: Window.Clock, friendlyDate: string -> string): string {
    var icon := if item.kind == Assignment then "\U{1F4DD}" else "\U{1F4AC}";
    var pts := if item.points.Some? && item.points.value != 0 then " (" + IntStr(item.points.value) + " pts)" else "";
    var link := if item.url != [] then "[" + item.name + "](" + item.url + ")" else item.name;
    icon + " **" + KindName(item.kind) + "**: " + link + pts + "\n" +
    "   \U{23F0} " + friendlyDate(item.due) + " \U{2014} " + Countdown.TimeUntil(item.due, clock)
  }

  /** `[render(x) for x in s]`. */
  function MapSeq<A, B>(s: seq<A>, render: A -> B): (r: seq<B>)
    ensures |r| == |s|
    ensures forall k :: 0 <= k < |s| ==> r[k] == render(s[k])
  {
    if s == [] then []
    else MapSeq(s[..|s| - 1], render) + [render(s[|s| - 1])]
  }

  /** The lines of a group: line `k` renders item `k`, so a block lists its
      items in order. */
  function Lines(group: seq<Item>, clock: Window.Clock, friendlyDate: string -> string): (r: seq<string>)
    ensures |r| == |group|
    ensures forall k :: 0 <= k < |group| ==> r[k] == Line(group[k], clock, friendlyDate)
  {
    MapSeq(group, item => Line(item, clock, friendlyDate))
  }

  /** Python's `any(...)` over the countdowns of a group. */
  predicate AnyUrgent(group: seq<Item>, clock: Window.Clock) {
    exists k | 0 <= k < |group| :: Countdown.Urgent(Countdown.TimeUntil(group[k].due, clock))
  }

  function ColorOf(group: seq<Item>, clock: Window.Clock): int {
    if AnyUrgent(group, clock) then Red else Orange
  }

  /** The block of one course. */
  function CourseEmbed(course: string, group: seq<Item>, clock: Window.Clock, friendlyDate: string -> string): Embed {
    Embed(course, Join(Lines(group, clock, friendlyDate), "\n\n"), ColorOf(group, clock))
  }

  /** A course block is red exactly when one of its items is due less than
      an hour from now (or is past due), and orange otherwise. */
  lemma CourseColor(group: seq<Item>, clock: Window.Clock)
    ensures ColorOf(group, clock) == Red <==>
              exists k :: 0 <= k < |group| && group[k].due != [] && clock.parse(group[k].due).Some? &&
                clock.parse(group[k].due).value - clock.now < Countdown.SecondsPerHour
    ensures ColorOf(group, clock) != Red ==> ColorOf(group, clock) == Orange
  {
    forall k | 0 <= k < |group| {
      Countdown.TimeUntilUrgent(group[k].due, clock);
    }
  }

  // ---------------------------------------------------------------------
  // build_embeds

  /** The grouping loop of `build_embeds`:
      `by_course.setdefault(item["course"], []).append(item)` for every item,
      with the dict's key order kept in `order`. */
  method GroupByCourse(items: seq<Item>) returns (order: seq<string>, byCourse: map<string, seq<Item>>)
    ensures order == CourseOrder(items)
    ensures forall c :: c in byCourse <==> c in order
    ensures forall c :: c in byCourse ==> byCourse[c] == ItemsOf(items, c)
  {
    byCourse := map[];
    order := [];
    for i := 0 to |items|
      invariant order == CourseOrder(items[..i])
      invariant forall c :: c in byCourse <==> c in order
      invariant forall c :: c in byCourse ==> byCourse[c] == ItemsOf(items[..i], c)
    {
      var item := items[i];
      assert items[..i + 1][..i] == items[..i];
      if item.course !in byCourse {
        byCourse := byCourse[item.course := []];
        order := order + [item.course];
        CourseOrderCovers(items[..i]);
      }
      byCourse := byCourse[item.course := byCourse[item.course] + [item]];
    }
    assert items[..|items|] == items;
  }

  /** The body of the `for course, course_items in by_course.items()` loop:
      the block of one course. */
  method BuildCourseEmbed(course: string, courseItems: seq<Item>, clock: Window.Clock, friendlyDate: string -> string)
    returns (block: Embed)
    ensures block == CourseEmbed(course, courseItems, clock, friendlyDate)
  {
    var lines: seq<string> := [];
    for k := 0 to |courseItems|
      invariant lines == Lines(courseItems[..k], clock, friendlyDate)
    {
      assert courseItems[..k + 1][..k] == courseItems[..k];
      lines := lines + [Line(courseItems[k], clock, friendlyDate)];
    }
    assert courseItems[..|courseItems|] == courseItems;
    var color := if AnyUrgent(courseItems, clock) then Red else Orange;
    block := Embed(course, Join(lines, "\n\n"), color);
  }

  /** The blocks of the listed courses, in the order listed. */
  function CourseBlocks(items: seq<Item>, courses: seq<string>, clock: Window.Clock, friendlyDate: string -> string): (r: seq<Embed>)
    ensures |r| == |courses|
  {
    if courses == [] then []
    else
      var course := courses[|courses| - 1];
      CourseBlocks(items, courses[..|courses| - 1], clock, friendlyDate) + [CourseEmbed(course, ItemsOf(items, course), clock, friendlyDate)]
  }

  lemma CourseBlocksSnoc(items: seq<Item>, courses: seq<string>, j: nat, clock: Window.Clock, friendlyDate: string -> string)
    requires j < |courses|
    ensures CourseBlocks(items, courses[..j + 1], clock, friendlyDate) ==
            CourseBlocks(items, courses[..j], clock, friendlyDate) + [CourseEmbed(courses[j], ItemsOf(items, courses[j]), clock, friendlyDate)]
  {
    assert courses[..j + 1][..j] == courses[..j];
  }

  /** The `j`-th course block is the block of the `j`-th listed course. */
  lemma {:induction false} CourseBlocksAt(items: seq<Item>, courses: seq<string>, clock: Window.Clock, friendlyDate: string -> string, j: nat)
    requires j < |courses|
    ensures CourseBlocks(items, courses, clock, friendlyDate)[j] == CourseEmbed(courses[j], ItemsOf(items, courses[j]), clock, friendlyDate)
  {
    if j < |courses| - 1 {
      CourseBlocksAt(items, courses[..|courses| - 1], clock, friendlyDate, j);
    }
  }

  /** One block per distinct course, the `j`-th for the `j`-th course seen. */
  lemma CourseBlocksLayout(items: seq<Item>, clock: Window.Clock, friendlyDate: string -> string)
    ensures |CourseBlocks(items, CourseOrder(items), clock, friendlyDate)| == |CourseSet(items)|
    ensures forall j :: 0 <= j < |CourseOrder(items)| ==>
              CourseBlocks(items, CourseOrder(items), clock, friendlyDate)[j] ==
              CourseEmbed(CourseOrder(items)[j], ItemsOf(items, CourseOrder(items)[j]), clock, friendlyDate)
  {
    CourseCount(items);
    forall j | 0 <= j < |CourseOrder(items)| {
      CourseBlocksAt(items, CourseOrder(items), clock, friendlyDate, j);
    }
  }

  lemma AppendAssociates<T>(a: seq<T>, b: seq<T>, c: seq<T>)
    ensures (a + b) + c == a + (b + c)
  {
  }

  /** `build_embeds(items)`: the "all caught up" block alone for no items;
      otherwise the summary block followed by one block per course, in
      first-seen course order, each listing that course's items in input
      order. */
  method BuildEmbeds(items: seq<Item>, daysAhead: int, clock: Window.Clock, friendlyDate: string -> string)
    returns (embeds: seq<Embed>)
    ensures items == [] ==> embeds == [CaughtUp(daysAhead)]
    ensures items != [] ==> embeds == [Summary(|items|, daysAhead)] + CourseBlocks(items, CourseOrder(items), clock, friendlyDate)
  {
    if items == [] {
      return [CaughtUp(daysAhead)];
    }

    var order, byCourse := GroupByCourse(items);
    embeds := [Summary(|items|, daysAhead)];
    for j := 0 to |order|
      invariant embeds == [Summary(|items|, daysAhead)] + CourseBlocks(items, order[..j], clock, friendlyDate)
    {
      var course := order[j];
      var block := BuildCourseEmbed(course, byCourse[course], clock, friendlyDate);
      CourseBlocksSnoc(items, order, j, clock, friendlyDate);
      AppendAssociates([Summary(|items|, daysAhead)], CourseBlocks(items, order[..j], clock, friendlyDate), [block]);
      embeds := embeds + [block];
    }
    assert order[..|order|] == order;
  }
}
