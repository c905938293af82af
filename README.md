# Canvas notifier, modelled in Dafny

`canvas_notifier.py` collects the assignments and graded discussions of a
student's active Canvas courses that fall due within a look-ahead window
(`DAYS_AHEAD` days). It turns them into Discord embed blocks and posts those
to a webhook. This project models the logic between the network calls:

- `is_upcoming`, the look-ahead window test (module `Window`);
- `time_until`, the countdown text and the urgency test the presenter applies
  to it (module `Countdown`);
- the page loop of `canvas_get` and its parsing of the `Link` response header
  (module `Pagination`);
- `collect_upcoming`, with what each fetch returned given as input (module
  `Collector`);
- `build_embeds`, the summary block and one block per course (module
  `Presenter`);
- the ten-blocks-per-message chunking of `send_discord` (module `Delivery`).

Module `Text` holds the string helpers these need: Python's
`str.split(c)`, the decimal rendering of integers in f-strings, substring
search, and Python's string order. Module `Wrappers` holds `Option` and
`Result`.

Conventions:

- Instants are whole seconds since the epoch.
- `Window.Clock` carries the current instant and the ISO-8601 parser. The
  parser returns `None` where `datetime.fromisoformat` raises `ValueError`.
- The GET requests of one `canvas_get` call are answered by a given sequence
  of responses. Response `i` answers request `i`.
- The webhook is a function from the post's index to its reply.
- Fetch failures are the values of `Pagination.FetchError`:
  - `HttpStatus(code)`: `raise_for_status` raised `requests.HTTPError`;
  - `Transport`: no response arrived;
  - `MalformedLink`: a `rel="next"` part of the `Link` header has no `<`, so
    `part.split("<")[1]` raises `IndexError`.
- Only `HttpStatus` is caught by `collect_upcoming`'s `except
  requests.HTTPError`. The other two abort the run.

Each loop of the source becomes a method with a loop. Each method is proved
equal to a recursive specification function, and the properties are proved
as lemmas about those functions.

## Model

| member | source | states |
|---|---|---|
| Window.IsUpcoming | canvas_notifier.py:92-102 | A missing, empty or unparseable due value is never upcoming. A parsed one is upcoming exactly when `now <= due <= now + daysAhead * 86400`. |
| Window.WindowBoundaries | canvas_notifier.py:101-102 | Both ends of the window count as upcoming. One second before now, and one second past the far end, do not. |
| Window.NegativeLookAheadIsEmpty | canvas_notifier.py:102 | With a negative `DAYS_AHEAD`, nothing is upcoming. |
| Countdown.Classify | canvas_notifier.py:126-137 | Picks the countdown shape: past due exactly when `t < 0`; days-and-hours exactly when `t >= 86400`; hours-and-minutes exactly when `3600 <= t < 86400`; minutes only exactly when `0 <= t < 3600`. Hours are below 24, minutes below 60, and each shape's numbers bracket `t` to within one unit of the last field. |
| Countdown.TimeUntil | canvas_notifier.py:116-137 | The countdown is empty for an empty or unparseable due value. It is `**PAST DUE**` exactly when the due value parses to an instant before now. |
| Countdown.PastDueMarker | canvas_notifier.py:127-137 | Only the past-due shape renders as `**PAST DUE**`. |
| Countdown.MarkerChars | canvas_notifier.py:127-137 | Only the past-due text contains a `P`, and no days or hours countdown contains a `!`. |
| Countdown.UrgentShapes | canvas_notifier.py:127-137 | A rendered countdown contains `PAST DUE` or `m left!` exactly for the past-due and minutes-only shapes. |
| Countdown.UrgentIffUnderAnHour | canvas_notifier.py:126-137 | The countdown for `t` seconds reads as urgent exactly when `t < 3600`. |
| Countdown.TimeUntilUrgent | canvas_notifier.py:234-236 | `time_until` reads as urgent exactly when the due value parses to less than an hour after now, past due included. |
| Countdown.UpcomingIsNotPastDue | canvas_notifier.py:127-128 | An item that passed `is_upcoming` never shows `PAST DUE`, under the same clock. |
| Pagination.TargetBetweenBrackets | canvas_notifier.py:63 | For a part `before<url>after` with no `<` in `before` and neither bracket in `url`, the extracted target is exactly `url`. |
| Pagination.ScanPartsFails | canvas_notifier.py:61-63 | Link parsing fails exactly when some part mentions `rel="next"` but has no `<`. The failure is `MalformedLink`. |
| Pagination.ScanPartsNone | canvas_notifier.py:59-63 | No next URL is found exactly when no part mentions `rel="next"`. |
| Pagination.ScanPartsLastWins | canvas_notifier.py:61-63 | A found next URL is the target of the last part that mentions `rel="next"`. |
| Pagination.ScanPartsFound | canvas_notifier.py:61-63 | Conversely, when no part is malformed, the last part that mentions `rel="next"` and has a `<` supplies the found URL: its target. |
| Pagination.ScanPartsStaysFailed | canvas_notifier.py:61-63 | Once a prefix of the parts fails, the whole scan fails with the same error. |
| Pagination.FindNext | canvas_notifier.py:59-63 | The imperative scan over the comma-separated parts returns the same result as the specification `NextLink`. |
| Pagination.StepCases | canvas_notifier.py:54-63 | What the loop does with one response. No response raises a transport error, and a 4xx or 5xx status raises an HTTP error. No `Link` header stops the loop. With one, the loop raises exactly when a part naming `rel="next"` has no `<`. It stops when no part names `rel="next"`. It continues only to the non-empty target of the last part that does. |
| Pagination.StepContinues | canvas_notifier.py:54-63 | The converse of the continue case: a successful response whose `Link` header has no malformed `rel="next"` part, and whose last `rel="next"` part has a non-empty target, makes the loop continue to exactly that target. |
| Pagination.Receive | canvas_notifier.py:55-63 | The loop body for one response (`raise_for_status`, then the scan of the `Link` header) takes the step `StepOf` gives, which `StepCases` and `StepContinues` characterise in both directions. |
| Pagination.CanvasGet | canvas_notifier.py:50-64 | The first URL requested is `base + "/api/v1/" + endpoint`. Each later URL is the next link of the previous response. The loop stops at the first response that fails, has no next link, or has an empty one. Then it returns that failure, or the concatenation of every page body in order. |
| Text.Split | canvas_notifier.py:61-63 | `str.split` on one character gives at least one part, and no part contains the separator. Without the separator, the result is the string itself. With it, there are at least two parts. |
| Text.JoinSplit | canvas_notifier.py:61 | Joining the parts of a split with the separator gives back the original string. |
| Text.SplitFirst | canvas_notifier.py:63 | Splitting `a + sep + b`, where `a` has no `sep`, gives `a` first and then the parts of `b`. |
| Text.NatStr | canvas_notifier.py:132-137 | The decimal text of a natural number is non-empty and made of digits only. It has no leading zero, and zero is `0`. |
| Text.IntStr | canvas_notifier.py:201-223 | Python's `str` of an integer, used for `DAYS_AHEAD` and for `int(points)`. The text reads back as that integer. A non-negative one is all digits whose value is the number. A negative one is `-` followed by digits whose value is its magnitude. Zero is exactly `0`, and no other number has a leading zero. |
| Text.NatStrRoundTrip | canvas_notifier.py:132-137 | Reading back the decimal text of `n` gives `n`. |
| Text.NatStrInjective | canvas_notifier.py:132-137 | Different numbers have different decimal texts. |
| Text.LessEqReflexive | canvas_notifier.py:189 | Python's string order is reflexive. |
| Text.LessEqTotal | canvas_notifier.py:189 | Python's string order is total. |
| Text.LessEqTransitive | canvas_notifier.py:189 | Python's string order is transitive. |
| Text.LessEqAntisymmetric | canvas_notifier.py:189 | Python's string order is antisymmetric. |
| Collector.CourseUpcoming | canvas_notifier.py:147-186 | The two loops over one course's assignments and discussions produce exactly `CourseItems`. That is: the course's upcoming assignments, then its qualifying discussions, each only when enabled. An HTTP error counts as an empty list. Any other fetch failure is returned. |
| Collector.CollectUpcoming | canvas_notifier.py:141-190 | A failure to list the courses is returned as is. Otherwise the result is every course's items, course by course, sorted by due string, unless some course's fetch aborts the run. The result is sorted, and every item in it is upcoming. |
| Collector.InsertByDue | canvas_notifier.py:189 | Inserting into a sorted list adds exactly that element, as a multiset. |
| Collector.SortByDue | canvas_notifier.py:189 | Sorting permutes the items: the multiset is unchanged. |
| Collector.InsertSorted | canvas_notifier.py:189 | Inserting into a list sorted by due string keeps it sorted. |
| Collector.InsertStable | canvas_notifier.py:189 | Insertion puts the new element after all existing elements with the same due string. |
| Collector.SortByDueSorted | canvas_notifier.py:189 | The sorted list is ordered by due string, in Python's string order. |
| Collector.SortByDueStable | canvas_notifier.py:189 | The sort is stable: items with equal due strings keep their input order. |
| Collector.SortedUpcoming | canvas_notifier.py:189 | If every item is upcoming, the sorted list is sorted and still holds only upcoming items. |
| Collector.GatherUpcoming | canvas_notifier.py:157-186 | Every gathered item is upcoming. |
| Collector.AssignmentItemsUpcoming | canvas_notifier.py:157-167 | Every assignment item is an `Assignment` of its course and is upcoming. |
| Collector.DiscussionItemsUpcoming | canvas_notifier.py:176-186 | Every discussion item is a `Discussion` of its course and is upcoming. |
| Collector.UnlinkedDiscussionsDropped | canvas_notifier.py:177-178 | Discussions without a linked assignment contribute nothing. Dropping them leaves the items unchanged. |
| Collector.GatherAborts | canvas_notifier.py:151-174 | Collection fails exactly when some course has an enabled fetch that failed with something other than an HTTP error. |
| Collector.GatherStaysFailed | canvas_notifier.py:146-174 | The first failing course decides the error: later courses change nothing. |
| Collector.HttpErrorAddsNothing | canvas_notifier.py:152-174 | A course whose assignment or discussion fetch fails with an HTTP error gives the same result as one whose fetch returned an empty list. |
| Presenter.BuildEmbeds | canvas_notifier.py:194-240 | No items give the single green "all caught up" block. Otherwise the result is the blue summary block, then one block per course in first-seen order. |
| Presenter.SummaryStatesCount | canvas_notifier.py:213-214 | The summary title contains the number of items. |
| Presenter.GroupByCourse | canvas_notifier.py:207-209 | The `setdefault` loop builds a dictionary whose keys are exactly the courses, in first-seen order. Each key maps to that course's items in input order. |
| Presenter.CourseOrderCovers | canvas_notifier.py:207-209 | The course order has no duplicates and lists exactly the courses of the items. A course has items exactly when it is listed. |
| Presenter.CourseOrderFirstSeen | canvas_notifier.py:207-209 | Courses appear in the order of their first item. |
| Presenter.CourseCount | canvas_notifier.py:207-219 | There are as many groups as distinct courses. |
| Presenter.GroupsPartition | canvas_notifier.py:207-209 | The group sizes add up to the number of items, so every item lands in exactly one group. |
| Presenter.CourseBlocksLayout | canvas_notifier.py:219-239 | There is one course block per distinct course. Block `j` is the block of the `j`-th course, built from exactly that course's items. |
| Presenter.CourseBlocksAt | canvas_notifier.py:219-239 | Block `j` of a list of courses is the block of course `j`. |
| Presenter.BuildCourseEmbed | canvas_notifier.py:220-239 | The loop over a course's items builds the course's block. The title is the course, the description is its lines joined by a blank line, and the colour is set by the urgency test. |
| Presenter.Lines | canvas_notifier.py:220-229 | One line per item, and line `k` is the rendering of item `k`. So a course block lists exactly its items, in order. |
| Presenter.CourseColor | canvas_notifier.py:234-238 | A course block is red exactly when one of its items is due less than an hour from now, past due included. Otherwise it is orange. |
| Delivery.SendDiscord | canvas_notifier.py:243-250 | The posted payloads are a prefix of the chunks, in order. Every post before the last was accepted. The result is success exactly when every chunk was posted and the last one was accepted. On failure it is the rejected post's HTTP or transport error. |
| Delivery.ChunksCount | canvas_notifier.py:247 | `n` blocks go out in `ceil(n / 10)` posts. |
| Delivery.ChunksBounded | canvas_notifier.py:246-247 | Every payload holds between 1 and 10 blocks. |
| Delivery.ChunksFull | canvas_notifier.py:246-247 | Every payload except the last holds exactly 10 blocks. |
| Delivery.ChunksFlatten | canvas_notifier.py:246-247 | The payloads, concatenated, are the blocks in their original order. |
| Delivery.ChunkAt | canvas_notifier.py:246-247 | Payload `k` is the slice `embeds[10k:10k+10]`. |
| Delivery.TwentyThreeBlocks | canvas_notifier.py:246-247 | Twenty-three blocks go out as 10, 10 and 3. |

## Left out

- The network is replaced by inputs: the HTTP GETs, the webhook POSTs, the 30-second timeouts and the request headers. `init_headers` and the bearer token are not modelled.
- Configuration, environment variables, `validate_config`, `main` and all printing are not modelled. `get_courses`, `get_assignments` and `get_discussions` only pick the endpoint text. Their results arrive as `Collector.Course` values.
- `datetime.now` and `datetime.fromisoformat` are replaced by `Window.Clock`:
  - time is whole seconds, so the `int()` truncation of fractional seconds in `time_until` does not arise;
  - a due value without a UTC offset parses to a naive datetime, and subtracting the aware `now` from it (`due - now`) raises `TypeError` in the source; this is not modelled;
  - one `now` serves the whole run, while the source reads the clock again on each call.
- `friendly_date`, which formats with `strftime`, is a function parameter of the presenter.
- `resp.json()` decoding is not modelled: each response carries its decoded list.
- JSON fields are `Option` values. A key that is present with a null value is treated like a missing key. So a course whose `name` is null gets "Unknown Course", where the source would get `None`.
- `points_possible` is an integer. The source's `int()` of a float (0.5 renders as "0 pts") is not modelled.
- Pagination.CanvasGet: requires that some response in the trace ends the loop. A server that links to a next page forever is not modelled.
- `requests.post` errors other than an HTTP error status collapse into `Transport`. So do those of `requests.get`.
