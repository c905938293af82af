/** `send_discord`: the report goes to the webhook in consecutive payloads of
    at most ten blocks each, the most a single Discord message accepts. */
module Delivery {
  import opened Wrappers
  import opened Pagination
  import opened Presenter

  const MaxEmbedsPerMessage: nat := 10

  /** The reply to one webhook post: a status code, or none at all. */
  datatype PostReply = Delivered(status: int) | NoReply

  /** `raise_for_status` and a failed connection both end the delivery. */
  predicate Rejected(reply: PostReply) {
    reply.NoReply? || IsErrorStatus(reply.status)
  }

  function ErrorOf(reply: PostReply): FetchError {
    if reply.NoReply? then Transport else HttpStatus(reply.status)
  }

  function Min(a: int, b: int): int {
    if a <= b then a else b
  }

  /** The slice `s[i:i + 10]`, clamped at the end as Python slicing is. */
  function Slice<T>(s: seq<T>, i: nat): seq<T>
    requires i <= |s|
  {
    s[i..Min(i + MaxEmbedsPerMessage, |s|)]
  }

  /** The payloads of `s`, front to back. */
  function Chunks<T>(s: seq<T>): seq<seq<T>>
    decreases |s|
  {
    if s == [] then []
    else [Slice(s, 0)] + Chunks(s[Min(MaxEmbedsPerMessage, |s|)..])
  }

  /** Concatenation of a list of lists. */
  function Flatten<T>(ss: seq<seq<T>>): seq<T> {
    if ss == [] then [] else ss[0] + Flatten(ss[1..])
  }

  /** `ceil(n / 10)` payloads. */
  lemma {:induction false} ChunksCount<T>(s: seq<T>)
    ensures |Chunks(s)| == (|s| + 9) / 10
    decreases |s|
  {
    if s != [] {
      ChunksCount(s[Min(MaxEmbedsPerMessage, |s|)..]);
    }
  }

  /** Every payload holds between one and ten blocks. */
  lemma {:induction false} ChunksBounded<T>(s: seq<T>)
    ensures forall k :: 0 <= k < |Chunks(s)| ==> 1 <= |Chunks(s)[k]| <= MaxEmbedsPerMessage
    decreases |s|
  {
    if s != [] {
      var rest := s[Min(MaxEmbedsPerMessage, |s|)..];
      ChunksBounded(rest);
      assert Chunks(s) == [Slice(s, 0)] + Chunks(rest);
    }
  }

  /** Every payload but the last is full. */
  lemma {:induction false} ChunksFull<T>(s: seq<T>)
    ensures forall k :: 0 <= k < |Chunks(s)| - 1 ==> |Chunks(s)[k]| == MaxEmbedsPerMessage
    decreases |s|
  {
    if s != [] {
      var rest := s[Min(MaxEmbedsPerMessage, |s|)..];
      ChunksFull(rest);
      assert Chunks(s) == [Slice(s, 0)] + Chunks(rest);
      if |s| <= MaxEmbedsPerMessage {
        assert rest == [];
      }
    }
  }

  /** The payloads, put back together, are the blocks in their order: nothing
      is lost, duplicated or reordered. */
  lemma {:induction false} ChunksFlatten<T>(s: seq<T>)
    ensures Flatten(Chunks(s)) == s
    decreases |s|
  {
    if s != [] {
      var n := Min(MaxEmbedsPerMessage, |s|);
      ChunksFlatten(s[n..]);
      assert Chunks(s)[1..] == Chunks(s[n..]);
      assert s == s[..n] + s[n..];
    }
  }

  /** Payload `k` is the slice starting at `10 * k`. */
  lemma {:induction false} ChunkAt<T>(s: seq<T>, k: nat)
    requires k < |Chunks(s)|
    ensures 10 * k < |s|
    ensures Chunks(s)[k] == Slice(s, 10 * k)
    decreases k
  {
    var n := Min(MaxEmbedsPerMessage, |s|);
    if k > 0 {
      var rest := s[n..];
      assert Chunks(s)[k] == Chunks(rest)[k - 1];
      ChunkAt(rest, k - 1);
      ChunksCount(rest);
      assert n == MaxEmbedsPerMessage;
      assert rest[10 * (k - 1)..Min(10 * (k - 1) + 10, |rest|)] == s[10 * k..Min(10 * k + 10, |s|)];
    }
  }

  /** Twenty-three blocks go out as ten, ten and three. */
  lemma TwentyThreeBlocks<T>(s: seq<T>)
    requires |s| == 23
    ensures |Chunks(s)| == 3
    ensures Chunks(s) == [s[..10], s[10..20], s[20..]]
  {
    ChunksCount(s);
    ChunkAt(s, 0);
    ChunkAt(s, 1);
    ChunkAt(s, 2);
    assert s[20..23] == s[20..];
    assert Chunks(s) == [Chunks(s)[0], Chunks(s)[1], Chunks(s)[2]];
  }

  /** `send_discord(embeds)`. `webhook(k)` is the reply to the `k`-th post;
      `posted` lists the payloads sent, in order. Either every payload went
      out and was accepted, or the posts stopped at the first rejected one,
      whose error is returned. */
  method SendDiscord(embeds: seq<Embed>, webhook: nat -> PostReply)
    returns (posted: seq<seq<Embed>>, r: Result<(), FetchError>)
    ensures |posted| <= |Chunks(embeds)| && posted == Chunks(embeds)[..|posted|]
    ensures forall k :: 0 <= k < |posted| - 1 ==> !Rejected(webhook(k))
    ensures r.Ok? <==> posted == Chunks(embeds) && (posted == [] || !Rejected(webhook(|posted| - 1)))
    ensures r.Err? ==> posted != [] && Rejected(webhook(|posted| - 1)) && r.error == ErrorOf(webhook(|posted| - 1))
  {
    ChunksCount(embeds);
    posted := [];
    var i := 0;
    while i < |embeds|
      invariant i == 10 * |posted|
      invariant |posted| <= |Chunks(embeds)|
      invariant posted == Chunks(embeds)[..|posted|]
      invariant forall k :: 0 <= k < |posted| ==> !Rejected(webhook(k))
      decreases |embeds| - i
    {
      var payload := Slice(embeds, i);
      ChunkAt(embeds, |posted|);
      var reply := webhook(|posted|);
      posted := posted + [payload];
      if Rejected(reply) {
        return posted, Err(ErrorOf(reply));
      }
      i := i + 10;
    }
    assert posted == Chunks(embeds);
    return posted, Ok(());
  }
}
