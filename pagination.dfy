/** `canvas_get`: a GET that follows the `rel="next"` links of the `Link`
    response header (web linking, RFC 8288) page after page and accumulates
    the JSON array of every page. The network is replaced by the sequence of
    responses the successive requests receive. */
module Pagination {
  import opened Wrappers
  import opened Text

  /** Why a fetch raises. `HttpStatus` is `requests.HTTPError` from
      `raise_for_status`; `Transport` is any other failure of the request
      (connection refused, timeout); `MalformedLink` is the `IndexError` of a
      `rel="next"` part that holds no `<`. */
  datatype FetchError = HttpStatus(code: int) | Transport | MalformedLink

  /** What one GET receives: a status, the decoded JSON array and the `Link`
      header if there is one; or no response at all. */
  datatype Response<T> =
    | Received(status: int, body: seq<T>, link: Option<string>)
    | Unreachable

  /** What the loop does after one response. */
  datatype Step = Fail(error: FetchError) | Last | Continue(next: string)

  const RelNext: string := "rel=\"next\""

  /** `requests`' `raise_for_status` raises for 4xx and 5xx codes only. */
  predicate IsErrorStatus(status: int) {
    400 <= status < 600
  }

  /** The URL a `rel="next"` part names: what follows its first `<`, up to
      the next `>` (`part.split("<")[1].split(">")[0]`). */
  function Target(part: string): string
    requires '<' in part
  {
    Split(Split(part, '<')[1], '>')[0]
  }

  /** The URL is the text between the first `<` and the next `>`, when no
      second `<` comes before that `>`. */
  lemma TargetBetweenBrackets(before: string, url: string, after: string)
    requires '<' !in before && '<' !in url && '>' !in url
    ensures '<' in before + "<" + url + ">" + after
    ensures Target(before + "<" + url + ">" + after) == url
  {
    var part := before + "<" + url + ">" + after;
    assert part[|before|] == '<';
    assert part == before + ['<'] + (url + ">" + after);
    SplitFirst(before, url + ">" + after, '<');
    var tail := Split(url + ">" + after, '<');
    assert Split(part, '<')[1] == tail[0];
    assert url + ">" + after == url + ['>'] + after;
    // The first piece of the tail still starts with `url` and then `>`.
    var rest := after;
    var k := FirstIndexOrEnd(after, '<');
    SplitPrefix(url + ">" + after[..k], after[k..], '<');
    assert url + ">" + after == (url + ">" + after[..k]) + after[k..];
    assert tail[0] == url + ">" + after[..k];
    SplitFirst(url, after[..k], '>');
    assert url + ">" + after[..k] == url + ['>'] + after[..k];
  }

  /** Index of the first `c` in `s`, or `|s|` when there is none. */
  function FirstIndexOrEnd(s: string, c: char): (k: nat)
    ensures k <= |s| && c !in s[..k]
    ensures k < |s| ==> s[k] == c
  {
    if s == [] then 0
    else if s[0] == c then 0
    else
      var k := FirstIndexOrEnd(s[1..], c);
      assert s[..k + 1] == [s[0]] + s[1..][..k];
      k + 1
  }

  /** The first piece of a split is unchanged by what follows the first
      separator. */
  lemma {:induction false} SplitPrefix(a: string, b: string, sep: char)
    requires sep !in a && (b == [] || b[0] == sep)
    ensures Split(a + b, sep)[0] == a
  {
    if b == [] {
      assert a + b == a;
    } else {
      assert a + b == a + [sep] + b[1..];
      SplitFirst(a, b[1..], sep);
    }
  }

  // ---------------------------------------------------------------------
  // The `Link` header

  /** The outcome of scanning the `,`-separated parts of a `Link` header in
      order: every part containing `rel="next"` overwrites the URL, and such
      a part without `<` raises. */
  function ScanParts(parts: seq<string>): Result<Option<string>, FetchError> {
    if parts == [] then Ok(None)
    else
      var sofar := ScanParts(parts[..|parts| - 1]);
      var part := parts[|parts| - 1];
      if sofar.Err? then sofar
      else if !Contains(part, RelNext) then sofar
      else if '<' !in part then Err(MalformedLink)
      else Ok(Some(Target(part)))
  }

  /** The next URL a `Link` header names, if any. */
  function NextLink(header: string): Result<Option<string>, FetchError> {
    ScanParts(Split(header, ','))
  }

  /** Scanning raises exactly when some `rel="next"` part lacks a `<`. */
  lemma {:induction false} ScanPartsFails(parts: seq<string>)
    ensures ScanParts(parts).Err? <==>
              exists i :: 0 <= i < |parts| && Contains(parts[i], RelNext) && '<' !in parts[i]
    ensures ScanParts(parts).Err? ==> ScanParts(parts).error == MalformedLink
  {
    if parts != [] {
      var init := parts[..|parts| - 1];
      ScanPartsFails(init);
      assert forall i :: 0 <= i < |init| ==> init[i] == parts[i];
    }
  }

  /** Conversely, with no malformed part, the last part naming `rel="next"`
      supplies the URL. */
  lemma {:induction false} ScanPartsFound(parts: seq<string>, i: nat)
    requires i < |parts| && Contains(parts[i], RelNext) && '<' in parts[i]
    requires forall j :: i < j < |parts| ==> !Contains(parts[j], RelNext)
    requires forall j :: 0 <= j < |parts| ==> !Contains(parts[j], RelNext) || '<' in parts[j]
    ensures ScanParts(parts) == Ok(Some(Target(parts[i])))
  {
    var init := parts[..|parts| - 1];
    assert forall j :: 0 <= j < |init| ==> init[j] == parts[j];
    if i == |parts| - 1 {
      ScanPartsFails(init);
    } else {
      ScanPartsFound(init, i);
    }
  }

  /** Scanning finds no URL exactly when no part contains `rel="next"`. */
  lemma {:induction false} ScanPartsNone(parts: seq<string>)
    ensures ScanParts(parts) == Ok(None) <==>
              forall i :: 0 <= i < |parts| ==> !Contains(parts[i], RelNext)
  {
    if parts != [] {
      var init := parts[..|parts| - 1];
      ScanPartsNone(init);
      assert forall i :: 0 <= i < |init| ==> init[i] == parts[i];
    }
  }

  /** When several parts contain `rel="next"`, the last one gives the URL. */
  lemma {:induction false} ScanPartsLastWins(parts: seq<string>, url: string)
    requires ScanParts(parts) == Ok(Some(url))
    ensures exists i :: 0 <= i < |parts| && Contains(parts[i], RelNext) && '<' in parts[i] &&
              url == Target(parts[i]) &&
              forall j :: i < j < |parts| ==> !Contains(parts[j], RelNext)
  {
    var init := parts[..|parts| - 1];
    var last := |parts| - 1;
    if Contains(parts[last], RelNext) {
      assert url == Target(parts[last]);
    } else {
      ScanPartsLastWins(init, url);
      var i :| 0 <= i < |init| && Contains(init[i], RelNext) && '<' in init[i] &&
                url == Target(init[i]) &&
                forall j :: i < j < |init| ==> !Contains(init[j], RelNext);
      assert init[i] == parts[i];
      assert forall j :: i < j < |parts| ==> !Contains(parts[j], RelNext) by {
        forall j | i < j < |parts|
          ensures !Contains(parts[j], RelNext)
        {
          if j < last {
            assert init[j] == parts[j];
          }
        }
      }
    }
  }

  /** The inner `for part in link.split(",")` loop of `canvas_get`. */
  method FindNext(header: string) returns (r: Result<Option<string>, FetchError>)
    ensures r == NextLink(header)
  {
    var parts := Split(header, ',');
    var url: Option<string> := None;
    var i := 0;
    while i < |parts|
      invariant 0 <= i <= |parts|
      invariant ScanParts(parts[..i]) == Ok(url)
    {
      var part := parts[i];
      assert parts[..i + 1][..i] == parts[..i];
      if Contains(part, RelNext) {
        if '<' !in part {
          assert ScanParts(parts[..i + 1]).Err?;
          ScanPartsStaysFailed(parts, i + 1);
          assert parts[..|parts|] == parts;
          return Err(MalformedLink);
        }
        url := Some(Target(part));
      }
      i := i + 1;
    }
    assert parts[..i] == parts;
    r := Ok(url);
  }

  /** Once the scan has raised, later parts do not change that. */
  lemma {:induction false} ScanPartsStaysFailed(parts: seq<string>, n: nat)
    requires n <= |parts| && ScanParts(parts[..n]).Err?
    ensures ScanParts(parts).Err? && ScanParts(parts) == ScanParts(parts[..n])
    decreases |parts| - n
  {
    if n < |parts| {
      assert parts[..n + 1][..n] == parts[..n];
      ScanPartsStaysFailed(parts, n + 1);
    } else {
      assert parts[..n] == parts;
    }
  }

  // ---------------------------------------------------------------------
  // The page loop

  /** What the loop does after receiving `resp`: raise, stop, or request the
      next URL. `while url:` also stops on an empty URL. */
  function StepOf<T>(resp: Response<T>): Step {
    match resp
    case Unreachable => Fail(Transport)
    case Received(status, _, link) =>
      if IsErrorStatus(status) then Fail(HttpStatus(status))
      else if link.None? then Last
      else
        match NextLink(link.value)
        case Err(e) => Fail(e)
        case Ok(None) => Last
        case Ok(Some(url)) => if url == [] then Last else Continue(url)
  }

  /** What the loop does with a response, in terms of the `Link` header's
      parts: an unreachable server or a 4xx/5xx status raises; otherwise the
      loop raises exactly when a `rel="next"` part has no `<`, stops when no
      part names `rel="next"`, and continues only to the non-empty target of
      the last part that does. */
  lemma StepCases<T>(resp: Response<T>)
    ensures resp.Unreachable? ==> StepOf(resp) == Fail(Transport)
    ensures resp.Received? && IsErrorStatus(resp.status) ==> StepOf(resp) == Fail(HttpStatus(resp.status))
    ensures resp.Received? && !IsErrorStatus(resp.status) && resp.link.None? ==> StepOf(resp) == Last
    ensures resp.Received? && !IsErrorStatus(resp.status) && resp.link.Some? ==>
              var parts := Split(resp.link.value, ',');
              (StepOf(resp).Fail? <==>
                 exists i :: 0 <= i < |parts| && Contains(parts[i], RelNext) && '<' !in parts[i]) &&
              ((forall i :: 0 <= i < |parts| ==> !Contains(parts[i], RelNext)) ==> StepOf(resp) == Last) &&
              (StepOf(resp).Continue? ==>
                 StepOf(resp).next != [] &&
                 exists i :: 0 <= i < |parts| && Contains(parts[i], RelNext) && '<' in parts[i] &&
                   StepOf(resp).next == Target(parts[i]) &&
                   forall j :: i < j < |parts| ==> !Contains(parts[j], RelNext))
  {
    if resp.Received? && !IsErrorStatus(resp.status) && resp.link.Some? {
      var parts := Split(resp.link.value, ',');
      ScanPartsFails(parts);
      ScanPartsNone(parts);
      match ScanParts(parts)
      case Err(_) =>
      case Ok(None) =>
      case Ok(Some(url)) =>
        ScanPartsLastWins(parts, url);
    }
  }

  /** The loop follows a link: a successful response whose `Link` header has
      no malformed `rel="next"` part, and whose last `rel="next"` part names a
      non-empty URL, continues to that URL. */
  lemma StepContinues<T>(status: int, body: seq<T>, header: string, i: nat)
    requires !IsErrorStatus(status)
    requires i < |Split(header, ',')|
    requires Contains(Split(header, ',')[i], RelNext) && '<' in Split(header, ',')[i]
    requires forall j :: i < j < |Split(header, ',')| ==> !Contains(Split(header, ',')[j], RelNext)
    requires forall j :: 0 <= j < |Split(header, ',')| ==>
               !Contains(Split(header, ',')[j], RelNext) || '<' in Split(header, ',')[j]
    requires Target(Split(header, ',')[i]) != []
    ensures StepOf(Received(status, body, Some(header))) == Continue(Target(Split(header, ',')[i]))
  {
    ScanPartsFound(Split(header, ','), i);
  }

  /** The server eventually stops linking: some response ends the loop. */
  predicate Completes<T>(responses: seq<Response<T>>) {
    exists k :: 0 <= k < |responses| && !StepOf(responses[k]).Continue?
  }

  function BodyOf<T>(resp: Response<T>): seq<T> {
    if resp.Received? then resp.body else []
  }

  /** The page bodies of `responses`, concatenated in order. */
  function Bodies<T>(responses: seq<Response<T>>): seq<T> {
    if responses == [] then []
    else Bodies(responses[..|responses| - 1]) + BodyOf(responses[|responses| - 1])
  }

  /** Adding a response adds its body at the end. */
  lemma BodiesSnoc<T>(responses: seq<Response<T>>, i: nat)
    requires i < |responses|
    ensures Bodies(responses[..i + 1]) == Bodies(responses[..i]) + BodyOf(responses[i])
  {
    assert responses[..i + 1][..i] == responses[..i];
  }

  /** Each request after the first went to the URL that the response before
      it linked onwards to. */
  predicate Followed<T>(responses: seq<Response<T>>, requested: seq<string>) {
    |requested| <= |responses| &&
    forall j :: 0 <= j < |requested| - 1 ==>
      StepOf(responses[j]).Continue? && requested[j + 1] == StepOf(responses[j]).next
  }

  lemma FollowedSnoc<T>(responses: seq<Response<T>>, requested: seq<string>, url: string)
    requires Followed(responses, requested) && |requested| < |responses|
    requires requested != [] ==> StepOf(responses[|requested| - 1]) == Continue(url)
    ensures Followed(responses, requested + [url])
  {
  }

  /** While the last response links onwards, the trace holds a response for
      the next request: the trace ends with a response that stops. */
  lemma StillPending<T>(responses: seq<Response<T>>, requested: seq<string>)
    requires Completes(responses) && Followed(responses, requested)
    requires requested != [] ==> StepOf(responses[|requested| - 1]).Continue?
    ensures |requested| < |responses|
  {
    if |requested| == |responses| {
      var k :| 0 <= k < |responses| && !StepOf(responses[k]).Continue?;
    }
  }

  /** The body of the loop for one response: `raise_for_status`, then the
      scan of the `Link` header for the next URL. */
  method Receive<T>(resp: Response<T>) returns (step: Step)
    ensures step == StepOf(resp)
  {
    if resp.Unreachable? {
      return Fail(Transport);
    }
    if IsErrorStatus(resp.status) {
      return Fail(HttpStatus(resp.status));
    }
    step := Last;
    if resp.link.Some? {
      var next := FindNext(resp.link.value);
      if next.Err? {
        return Fail(next.error);
      }
      if next.value.Some? && next.value.value != [] {
        step := Continue(next.value.value);
      }
    }
  }

  /** `canvas_get(endpoint)`: the first request goes to
      `{base}/api/v1/{endpoint}`, every later one to the `rel="next"` URL of
      the response before it; the loop stops at the first response that does
      not link onwards, and the result is every page body in order, or the
      error that stopped it. `requested` lists the URLs requested. */
  method CanvasGet<T>(baseUrl: string, endpoint: string, responses: seq<Response<T>>)
    returns (r: Result<seq<T>, FetchError>, requested: seq<string>)
    requires Completes(responses)
    ensures 1 <= |requested| <= |responses|
    ensures requested[0] == baseUrl + "/api/v1/" + endpoint
    ensures Followed(responses, requested)
    ensures !StepOf(responses[|requested| - 1]).Continue?
    ensures StepOf(responses[|requested| - 1]).Fail? ==>
              r == Err(StepOf(responses[|requested| - 1]).error)
    ensures StepOf(responses[|requested| - 1]).Last? ==>
              r == Ok(Bodies(responses[..|requested|]))
  {
    var first := baseUrl + "/api/v1/" + endpoint;
    var url: Option<string> := Some(first);
    var results: seq<T> := [];
    requested := [];
    while url.Some? && url.value != []
      invariant |requested| <= |responses|
      invariant |requested| == 0 ==> url == Some(first)
      invariant |requested| > 0 ==> requested[0] == first
      invariant Followed(responses, requested)
      invariant |requested| > 0 ==>
                  StepOf(responses[|requested| - 1]) ==
                  if url.Some? && url.value != [] then Continue(url.value) else Last
      invariant results == Bodies(responses[..|requested|])
      decreases |responses| - |requested|
    {
      StillPending(responses, requested);
      var i := |requested|;
      var resp := responses[i];
      FollowedSnoc(responses, requested, url.value);
      requested := requested + [url.value];
      var step := Receive(resp);
      if step.Fail? {
        return Err(step.error), requested;
      }
      BodiesSnoc(responses, i);
      results := results + BodyOf(resp);
      url := if step.Continue? then Some(step.next) else None;
    }
    r := Ok(results);
  }
}
