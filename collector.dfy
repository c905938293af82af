/** `collect_upcoming`: walks the active courses, keeps the assignments and
    graded discussions whose due date lies in the look-ahead window, turns
    them into uniform items and sorts them by their due string. What each
    course's fetches returned is given as input. */
module Collector {
  import opened Wrappers
  import opened Text
  import Window
  import Pagination

  datatype Kind = Assignment | Discussion

  /** One upcoming assignment or discussion, as the presenter sees it. */
  datatype Item = Item(kind: Kind, course: string, name: string, due: string, url: string, points: Option<int>)

  /** The fields of an assignment record that the collector reads. */
  datatype RawAssignment = RawAssignment(dueAt: Option<string>, name: Option<string>, htmlUrl: Option<string>, pointsPossible: Option<int>)

  /** The assignment attached to a graded discussion. */
  datatype LinkedAssignment = LinkedAssignment(dueAt: Option<string>, pointsPossible: Option<int>)

  /** The fields of a discussion topic record that the collector reads.
      `assignment` is `None` when the field is absent, null or empty. */
  datatype RawDiscussion = RawDiscussion(title: Option<string>, htmlUrl: Option<string>, assignment: Option<LinkedAssignment>)

  /** A course with what its two fetches returned. */
  datatype Course = Course(
    id: int,
    name: Option<string>,
    assignments: Result<seq<RawAssignment>, Pagination.FetchError>,
    discussions: Result<seq<RawDiscussion>, Pagination.FetchError>)

  datatype Settings = Settings(daysAhead: int, notifyAssignments: bool, notifyDiscussions: bool)

  function CourseName(c: Course): string {
    c.name.GetOr("Unknown Course")
  }

  // ---------------------------------------------------------------------
  // Items of one course

  function AssignmentItem(course: string, a: RawAssignment): Item
    requires a.dueAt.Some?
  {
    Item(Assignment, course, a.name.GetOr("Untitled"), a.dueAt.value, a.htmlUrl.GetOr(""), a.pointsPossible)
  }

  /** The items made from the upcoming assignments of `xs`, in order. */
  function AssignmentItems(course: string, xs: seq<RawAssignment>, clock: Window.Clock, daysAhead: int): seq<Item> {
    if xs == [] then []
    else
      var a := xs[|xs| - 1];
      AssignmentItems(course, xs[..|xs| - 1], clock, daysAhead) +
      (if Window.IsUpcoming(a.dueAt, clock, daysAhead) then [AssignmentItem(course, a)] else [])
  }

  /** The due date of a discussion is that of its linked assignment; a
      discussion without one has none. */
  function DiscussionDue(d: RawDiscussion): Option<string> {
    if d.assignment.Some? then d.assignment.value.dueAt else None
  }

  function DiscussionItem(course: string, d: RawDiscussion): Item
    requires DiscussionDue(d).Some?
  {
    Item(Discussion, course, d.title.GetOr("Untitled"), DiscussionDue(d).value, d.htmlUrl.GetOr(""),
         d.assignment.value.pointsPossible)
  }

  /** A discussion becomes an item when it has a non-empty due date that
      falls in the look-ahead window. */
  predicate DiscussionQualifies(d: RawDiscussion, clock: Window.Clock, daysAhead: int) {
    var due := DiscussionDue(d);
    due.Some? && due.value != [] && Window.IsUpcoming(due, clock, daysAhead)
  }

  /** The items made from the qualifying discussions of `ds`, in order. */
  function DiscussionItems(course: string, ds: seq<RawDiscussion>, clock: Window.Clock, daysAhead: int): seq<Item> {
    if ds == [] then []
    else
      var d := ds[|ds| - 1];
      DiscussionItems(course, ds[..|ds| - 1], clock, daysAhead) +
      (if DiscussionQualifies(d, clock, daysAhead) then [DiscussionItem(course, d)] else [])
  }

  /** `except requests.HTTPError: ... = []`: an HTTP error status becomes an
      empty list; any other failure is kept and aborts the run. */
  function Swallowed<T>(fetched: Result<seq<T>, Pagination.FetchError>): Result<seq<T>, Pagination.FetchError> {
    if fetched.Err? && fetched.error.HttpStatus? then Ok([]) else fetched
  }

  /** A fetch result that aborts the run. */
  predicate Aborts<T>(fetched: Result<seq<T>, Pagination.FetchError>) {
    fetched.Err? && !fetched.error.HttpStatus?
  }

  /** The items one course contributes: its assignments, then its
      discussions, each only when enabled; or the error that aborts. */
  function CourseItems(c: Course, settings: Settings, clock: Window.Clock): Result<seq<Item>, Pagination.FetchError> {
    var name := CourseName(c);
    var fromAssignments :=
      if !settings.notifyAssignments then Ok([])
      else match Swallowed(c.assignments)
        case Err(e) => Err(e)
        case Ok(xs) => Ok(AssignmentItems(name, xs, clock, settings.daysAhead));
    var fromDiscussions :=
      if !settings.notifyDiscussions then Ok([])
      else match Swallowed(c.discussions)
        case Err(e) => Err(e)
        case Ok(ds) => Ok(DiscussionItems(name, ds, clock, settings.daysAhead));
    if fromAssignments.Err? then fromAssignments
    else if fromDiscussions.Err? then fromDiscussions
    else Ok(fromAssignments.value + fromDiscussions.value)
  }

  /** Whether a course's enabled fetches abort the run. */
  predicate CourseAborts(c: Course, settings: Settings) {
    (settings.notifyAssignments && Aborts(c.assignments)) ||
    (settings.notifyDiscussions && Aborts(c.discussions))
  }

  /** The items of all courses, course by course, before sorting. */
  function Gather(cs: seq<Course>, settings: Settings, clock: Window.Clock): Result<seq<Item>, Pagination.FetchError> {
    if cs == [] then Ok([])
    else
      var sofar := Gather(cs[..|cs| - 1], settings, clock);
      if sofar.Err? then sofar
      else
        var more := CourseItems(cs[|cs| - 1], settings, clock);
        if more.Err? then more else Ok(sofar.value + more.value)
  }

  // ---------------------------------------------------------------------
  // items.sort(key=lambda x: x["due"])

  /** Inserts `x` after every element whose due string is at most its own. */
  function InsertByDue(sorted: seq<Item>, x: Item): (r: seq<Item>)
    ensures multiset(r) == multiset(sorted) + multiset{x}
  {
    if sorted == [] then [x]
    else
      var last := sorted[|sorted| - 1];
      var init := sorted[..|sorted| - 1];
      assert sorted == init + [last];
      if LessEq(last.due, x.due) then sorted + [x]
      else InsertByDue(init, x) + [last]
  }

  /** A stable sort by the due string (Python's `list.sort` is stable). */
  function SortByDue(items: seq<Item>): (r: seq<Item>)
    ensures multiset(r) == multiset(items)
  {
    if items == [] then []
    else
      assert items == items[..|items| - 1] + [items[|items| - 1]];
      InsertByDue(SortByDue(items[..|items| - 1]), items[|items| - 1])
  }

  predicate SortedByDue(items: seq<Item>) {
    forall i, j :: 0 <= i < j < |items| ==> LessEq(items[i].due, items[j].due)
  }

  /** The items whose due string is `due`, in order. */
  function WithDue(items: seq<Item>, due: string): seq<Item> {
    if items == [] then []
    else WithDue(items[..|items| - 1], due) + (if items[|items| - 1].due == due then [items[|items| - 1]] else [])
  }

  lemma {:induction false} WithDueAppend(s: seq<Item>, t: seq<Item>, due: string)
    ensures WithDue(s + t, due) == WithDue(s, due) + WithDue(t, due)
  {
    if t != [] {
      var init := t[..|t| - 1];
      assert (s + t)[..|s + t| - 1] == s + init;
      WithDueAppend(s, init, due);
    } else {
      assert s + t == s;
    }
  }

  lemma {:induction false} InsertSorted(sorted: seq<Item>, x: Item)
    requires SortedByDue(sorted)
    ensures SortedByDue(InsertByDue(sorted, x))
  {
    if sorted != [] {
      var last := sorted[|sorted| - 1];
      var init := sorted[..|sorted| - 1];
      if LessEq(last.due, x.due) {
        var r := sorted + [x];
        forall i | 0 <= i < |sorted|
          ensures LessEq(r[i].due, x.due)
        {
          if i < |sorted| - 1 {
            LessEqTransitive(sorted[i].due, last.due, x.due);
          }
        }
      } else {
        InsertSorted(init, x);
        var front := InsertByDue(init, x);
        LessEqTotal(last.due, x.due);
        forall i | 0 <= i < |front|
          ensures LessEq(front[i].due, last.due)
        {
          assert front[i] in multiset(front);
          assert front[i] in multiset(init) || front[i] == x;
          if front[i] != x {
            var k :| 0 <= k < |init| && init[k] == front[i];
            assert sorted[k] == init[k];
          }
        }
      }
    }
  }

  lemma {:induction false} InsertStable(sorted: seq<Item>, x: Item, due: string)
    ensures WithDue(InsertByDue(sorted, x), due) == WithDue(sorted, due) + (if x.due == due then [x] else [])
  {
    var xs := if x.due == due then [x] else [];
    WithDueSingle(x, due);
    if sorted == [] {
      assert InsertByDue(sorted, x) == [x];
    } else {
      var last := sorted[|sorted| - 1];
      var init := sorted[..|sorted| - 1];
      assert sorted == init + [last];
      if LessEq(last.due, x.due) {
        assert InsertByDue(sorted, x) == sorted + [x];
        WithDueAppend(sorted, [x], due);
      } else {
        var front := InsertByDue(init, x);
        assert InsertByDue(sorted, x) == front + [last];
        var ls := if last.due == due then [last] else [];
        WithDueSingle(last, due);
        InsertStable(init, x, due);
        WithDueAppend(front, [last], due);
        WithDueAppend(init, [last], due);
        assert WithDue(front, due) == WithDue(init, due) + xs;
        assert WithDue(sorted, due) == WithDue(init, due) + ls;
        if x.due == due && last.due == due {
          LessEqReflexive(due);
        }
        var w := WithDue(init, due);
        assert WithDue(InsertByDue(sorted, x), due) == (w + xs) + ls;
        if xs == [] {
          assert (w + xs) + ls == w + ls;
          assert WithDue(sorted, due) + xs == w + ls;
        } else {
          assert ls == [];
          assert (w + xs) + ls == w + xs;
          assert WithDue(sorted, due) == w;
        }
      }
    }
  }

  lemma WithDueSingle(y: Item, due: string)
    ensures WithDue([y], due) == if y.due == due then [y] else []
  {
    assert [y][..0] == [];
  }

  /** The sort orders the items by due string. */
  lemma {:induction false} SortByDueSorted(items: seq<Item>)
    ensures SortedByDue(SortByDue(items))
  {
    if items != [] {
      SortByDueSorted(items[..|items| - 1]);
      InsertSorted(SortByDue(items[..|items| - 1]), items[|items| - 1]);
    }
  }

  /** The sort is stable: the items sharing any one due string keep their
      relative order. With sortedness this fixes the result uniquely. */
  lemma {:induction false} SortByDueStable(items: seq<Item>, due: string)
    ensures WithDue(SortByDue(items), due) == WithDue(items, due)
  {
    if items != [] {
      var init := items[..|items| - 1];
      var x := items[|items| - 1];
      SortByDueStable(init, due);
      InsertStable(SortByDue(init), x, due);
    }
  }

  // ---------------------------------------------------------------------
  // collect_upcoming

  /** The body of the `for course in courses` loop: the items one course
      adds, or the failure that aborts the run. */
  method CourseUpcoming(c: Course, settings: Settings, clock: Window.Clock)
    returns (r: Result<seq<Item>, Pagination.FetchError>)
    ensures r == CourseItems(c, settings, clock)
  {
    var name := CourseName(c);
    var items: seq<Item> := [];
    if settings.notifyAssignments {
      var assignments: seq<RawAssignment>;
      match c.assignments {
        case Ok(xs) => assignments := xs;
        case Err(e) =>
          if e.HttpStatus? {
            assignments := [];
          } else {
            return Err(e);
          }
      }
      var j := 0;
      while j < |assignments|
        invariant 0 <= j <= |assignments|
        invariant Swallowed(c.assignments) == Ok(assignments)
        invariant items == AssignmentItems(name, assignments[..j], clock, settings.daysAhead)
      {
        var a := assignments[j];
        assert assignments[..j + 1][..j] == assignments[..j];
        if Window.IsUpcoming(a.dueAt, clock, settings.daysAhead) {
          items := items + [Item(Assignment, name, a.name.GetOr("Untitled"), a.dueAt.value,
                                 a.htmlUrl.GetOr(""), a.pointsPossible)];
        }
        j := j + 1;
      }
      assert assignments[..j] == assignments;
    }
    ghost var fromAssignments := items;

    if settings.notifyDiscussions {
      var discussions: seq<RawDiscussion>;
      match c.discussions {
        case Ok(ds) => discussions := ds;
        case Err(e) =>
          if e.HttpStatus? {
            discussions := [];
          } else {
            return Err(e);
          }
      }
      var j := 0;
      while j < |discussions|
        invariant 0 <= j <= |discussions|
        invariant Swallowed(c.discussions) == Ok(discussions)
        invariant items == fromAssignments + DiscussionItems(name, discussions[..j], clock, settings.daysAhead)
      {
        var d := discussions[j];
        assert discussions[..j + 1][..j] == discussions[..j];
        var due := if d.assignment.Some? then d.assignment.value.dueAt else None;
        if due.Some? && due.value != [] && Window.IsUpcoming(due, clock, settings.daysAhead) {
          items := items + [Item(Discussion, name, d.title.GetOr("Untitled"), due.value,
                                 d.htmlUrl.GetOr(""), d.assignment.value.pointsPossible)];
        }
        j := j + 1;
      }
      assert discussions[..j] == discussions;
    } else {
      assert items == fromAssignments + [];
    }
    r := Ok(items);
  }

  /** `collect_upcoming()`: the course listing's error aborts; otherwise each
      course's enabled fetches are read in order (an HTTP error status reads
      as an empty list, any other failure aborts) and the gathered items are
      sorted stably by due string. Every item returned is upcoming. */
  method CollectUpcoming(courses: Result<seq<Course>, Pagination.FetchError>, settings: Settings, clock: Window.Clock)
    returns (r: Result<seq<Item>, Pagination.FetchError>)
    ensures courses.Err? ==> r == Err(courses.error)
    ensures courses.Ok? ==>
              r == match Gather(courses.value, settings, clock)
                   case Err(e) => Err(e)
                   case Ok(items) => Ok(SortByDue(items))
    ensures r.Ok? ==> SortedByDue(r.value)
    ensures r.Ok? ==> forall k :: 0 <= k < |r.value| ==>
              Window.IsUpcoming(Some(r.value[k].due), clock, settings.daysAhead)
  {
    if courses.Err? {
      return Err(courses.error);
    }
    var cs := courses.value;
    var items: seq<Item> := [];
    var i := 0;
    while i < |cs|
      invariant 0 <= i <= |cs|
      invariant Gather(cs[..i], settings, clock) == Ok(items)
    {
      GatherStep(cs, i, settings, clock);
      var more := CourseUpcoming(cs[i], settings, clock);
      if more.Err? {
        GatherStaysFailed(cs, i + 1, settings, clock);
        return Err(more.error);
      }
      items := items + more.value;
      i := i + 1;
    }
    assert cs[..i] == cs;
    GatherUpcoming(cs, settings, clock);
    SortedUpcoming(items, clock, settings.daysAhead);
    r := Ok(SortByDue(items));
  }

  /** One more course: `Gather` on a prefix extended by one course. */
  lemma GatherStep(cs: seq<Course>, i: nat, settings: Settings, clock: Window.Clock)
    requires i < |cs|
    ensures Gather(cs[..i + 1], settings, clock) ==
            if Gather(cs[..i], settings, clock).Err? then Gather(cs[..i], settings, clock)
            else if CourseItems(cs[i], settings, clock).Err? then CourseItems(cs[i], settings, clock)
            else Ok(Gather(cs[..i], settings, clock).value + CourseItems(cs[i], settings, clock).value)
  {
    assert cs[..i + 1][..i] == cs[..i];
  }

  /** Sorting keeps every item upcoming and leaves the list sorted. */
  lemma SortedUpcoming(items: seq<Item>, clock: Window.Clock, daysAhead: int)
    requires forall it :: it in items ==> Window.IsUpcoming(Some(it.due), clock, daysAhead)
    ensures SortedByDue(SortByDue(items))
    ensures forall k :: 0 <= k < |SortByDue(items)| ==> Window.IsUpcoming(Some(SortByDue(items)[k].due), clock, daysAhead)
  {
    SortByDueSorted(items);
    var sorted := SortByDue(items);
    forall k | 0 <= k < |sorted|
      ensures Window.IsUpcoming(Some(sorted[k].due), clock, daysAhead)
    {
      assert sorted[k] in multiset(items);
    }
  }

  /** Once a course has aborted the run, later courses do not change that. */
  lemma {:induction false} GatherStaysFailed(cs: seq<Course>, n: nat, settings: Settings, clock: Window.Clock)
    requires n <= |cs| && Gather(cs[..n], settings, clock).Err?
    ensures Gather(cs, settings, clock) == Gather(cs[..n], settings, clock)
    decreases |cs| - n
  {
    if n < |cs| {
      assert cs[..n + 1][..n] == cs[..n];
      GatherStaysFailed(cs, n + 1, settings, clock);
    } else {
      assert cs[..n] == cs;
    }
  }

  // ---------------------------------------------------------------------
  // What the collector promises

  /** Every gathered item is upcoming. */
  lemma {:induction false} GatherUpcoming(cs: seq<Course>, settings: Settings, clock: Window.Clock)
    ensures Gather(cs, settings, clock).Ok? ==>
              forall it :: it in Gather(cs, settings, clock).value ==>
                Window.IsUpcoming(Some(it.due), clock, settings.daysAhead)
  {
    if cs != [] {
      GatherUpcoming(cs[..|cs| - 1], settings, clock);
      var c := cs[|cs| - 1];
      match Swallowed(c.assignments) {
        case Ok(xs) => AssignmentItemsUpcoming(CourseName(c), xs, clock, settings.daysAhead);
        case Err(_) =>
      }
      match Swallowed(c.discussions) {
        case Ok(ds) => DiscussionItemsUpcoming(CourseName(c), ds, clock, settings.daysAhead);
        case Err(_) =>
      }
    }
  }

  lemma {:induction false} AssignmentItemsUpcoming(course: string, xs: seq<RawAssignment>, clock: Window.Clock, daysAhead: int)
    ensures forall it :: it in AssignmentItems(course, xs, clock, daysAhead) ==>
              it.kind == Assignment && it.course == course && Window.IsUpcoming(Some(it.due), clock, daysAhead)
  {
    if xs != [] {
      AssignmentItemsUpcoming(course, xs[..|xs| - 1], clock, daysAhead);
    }
  }

  lemma {:induction false} DiscussionItemsUpcoming(course: string, ds: seq<RawDiscussion>, clock: Window.Clock, daysAhead: int)
    ensures forall it :: it in DiscussionItems(course, ds, clock, daysAhead) ==>
              it.kind == Discussion && it.course == course && Window.IsUpcoming(Some(it.due), clock, daysAhead)
  {
    if ds != [] {
      DiscussionItemsUpcoming(course, ds[..|ds| - 1], clock, daysAhead);
    }
  }

  /** The discussions that have an attached assignment, in order. */
  function Linked(ds: seq<RawDiscussion>): seq<RawDiscussion> {
    if ds == [] then []
    else Linked(ds[..|ds| - 1]) + (if ds[|ds| - 1].assignment.Some? then [ds[|ds| - 1]] else [])
  }

  /** A discussion without an attached assignment never yields an item:
      dropping all of them changes nothing. */
  lemma {:induction false} UnlinkedDiscussionsDropped(course: string, ds: seq<RawDiscussion>, clock: Window.Clock, daysAhead: int)
    ensures DiscussionItems(course, ds, clock, daysAhead) == DiscussionItems(course, Linked(ds), clock, daysAhead)
  {
    if ds != [] {
      var init := ds[..|ds| - 1];
      var d := ds[|ds| - 1];
      UnlinkedDiscussionsDropped(course, init, clock, daysAhead);
      assert ds[..|ds| - 1] == init;
      if d.assignment.Some? {
        var l := Linked(init) + [d];
        assert Linked(ds) == l;
        assert l[..|l| - 1] == Linked(init) && l[|l| - 1] == d;
        assert DiscussionItems(course, l, clock, daysAhead) ==
               DiscussionItems(course, Linked(init), clock, daysAhead) +
               (if DiscussionQualifies(d, clock, daysAhead) then [DiscussionItem(course, d)] else []);
      } else {
        assert Linked(ds) == Linked(init);
        assert !DiscussionQualifies(d, clock, daysAhead);
      }
    }
  }

  /** The run aborts exactly when the fetch of some enabled item type of some
      course failed other than with an HTTP error status; an HTTP error
      status never aborts it. */
  lemma {:induction false} GatherAborts(cs: seq<Course>, settings: Settings, clock: Window.Clock)
    ensures Gather(cs, settings, clock).Err? <==> exists i :: 0 <= i < |cs| && CourseAborts(cs[i], settings)
  {
    if cs != [] {
      var init := cs[..|cs| - 1];
      GatherAborts(init, settings, clock);
      assert forall i :: 0 <= i < |init| ==> init[i] == cs[i];
    }
  }

  /** A course whose fetch of one item type fails with an HTTP error status
      contributes exactly what it would with an empty list of that type. */
  lemma {:induction false} HttpErrorAddsNothing(cs: seq<Course>, i: nat, code: int, settings: Settings, clock: Window.Clock)
    requires i < |cs|
    ensures Gather(cs[i := cs[i].(assignments := Err(Pagination.HttpStatus(code)))], settings, clock) ==
            Gather(cs[i := cs[i].(assignments := Ok([]))], settings, clock)
    ensures Gather(cs[i := cs[i].(discussions := Err(Pagination.HttpStatus(code)))], settings, clock) ==
            Gather(cs[i := cs[i].(discussions := Ok([]))], settings, clock)
  {
    var n := |cs| - 1;
    var failedA := cs[i := cs[i].(assignments := Err(Pagination.HttpStatus(code)))];
    var emptyA := cs[i := cs[i].(assignments := Ok([]))];
    var failedD := cs[i := cs[i].(discussions := Err(Pagination.HttpStatus(code)))];
    var emptyD := cs[i := cs[i].(discussions := Ok([]))];
    if i < n {
      HttpErrorAddsNothing(cs[..n], i, code, settings, clock);
      assert failedA[..n] == cs[..n][i := cs[i].(assignments := Err(Pagination.HttpStatus(code)))];
      assert emptyA[..n] == cs[..n][i := cs[i].(assignments := Ok([]))];
      assert failedD[..n] == cs[..n][i := cs[i].(discussions := Err(Pagination.HttpStatus(code)))];
      assert emptyD[..n] == cs[..n][i := cs[i].(discussions := Ok([]))];
    } else {
      assert failedA[..n] == emptyA[..n] == cs[..n];
      assert failedD[..n] == emptyD[..n] == cs[..n];
    }
  }
}
