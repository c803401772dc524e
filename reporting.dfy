/** What `report_scraped_data` does, as a specification shared by both copies of
    the backend client: the fare list is cut into consecutive chunks of at most
    150 records, each chunk is POSTed with up to 3 attempts (2 s, then 4 s, of
    back-off between failed attempts), a 1 s pause separates chunks, and the first
    chunk that exhausts its attempts ends the call with an exception.

    The HTTP session is an oracle `post`: `post(j, a)` tells whether attempt `a`
    for chunk `j` got a response without a 4xx/5xx status. Each (chunk, attempt)
    pair is sent at most once per call, so every behaviour of the real backend
    is the behaviour under some oracle. */
module Reporting {
  import opened Common
  import opened Fares

  const POST_CHUNK_SIZE: nat := 150
  const REQUEST_RETRIES: nat := 3

  // ---------------------------------------------------------------- chunking

  /** `[s[i:i + 150] for i in range(0, len(s), 150)]`. */
  function Chunks(s: seq<FareRecord>): (cs: seq<seq<FareRecord>>)
    decreases |s|
    ensures forall j :: 0 <= j < |cs| ==> 0 < |cs[j]| <= POST_CHUNK_SIZE
    ensures s != [] ==> cs != [] && cs[0] == s[..Min(POST_CHUNK_SIZE, |s|)]
  {
    if s == [] then []
    else [s[..Min(POST_CHUNK_SIZE, |s|)]] + Chunks(s[Min(POST_CHUNK_SIZE, |s|)..])
  }

  function Flatten(cs: seq<seq<FareRecord>>): seq<FareRecord> {
    if cs == [] then [] else cs[0] + Flatten(cs[1..])
  }

  lemma {:induction false} ChunksCount(s: seq<FareRecord>)
    ensures |Chunks(s)| == (|s| + POST_CHUNK_SIZE - 1) / POST_CHUNK_SIZE
    decreases |s|
  {
    if s != [] {
      ChunksCount(s[Min(POST_CHUNK_SIZE, |s|)..]);
    }
  }

  /** Offset `150 * j` is inside the list exactly when there is a chunk `j`. */
  lemma {:induction false} ChunkOffset(s: seq<FareRecord>, j: nat)
    ensures POST_CHUNK_SIZE * j < |s| <==> j < |Chunks(s)|
    decreases |s|
  {
    if s != [] && j > 0 {
      ChunkOffset(s[Min(POST_CHUNK_SIZE, |s|)..], j - 1);
    }
  }

  lemma {:induction false} ChunkAt(s: seq<FareRecord>, j: nat)
    requires j < |Chunks(s)|
    ensures POST_CHUNK_SIZE * j < |s|
    ensures 0 < |Chunks(s)[j]| <= POST_CHUNK_SIZE
    ensures Chunks(s)[j] == s[POST_CHUNK_SIZE * j .. Min(POST_CHUNK_SIZE * j + POST_CHUNK_SIZE, |s|)]
    decreases |s|
  {
    var n := Min(POST_CHUNK_SIZE, |s|);
    var rest := s[n..];
    if j > 0 {
      assert Chunks(s)[j] == Chunks(rest)[j - 1];
      ChunkAt(rest, j - 1);
      var lo := POST_CHUNK_SIZE * (j - 1);
      var hi := Min(lo + POST_CHUNK_SIZE, |rest|);
      assert n == POST_CHUNK_SIZE;
      assert POST_CHUNK_SIZE * j == lo + n;
      assert Min(POST_CHUNK_SIZE * j + POST_CHUNK_SIZE, |s|) == hi + n;
      assert rest[lo..hi] == s[lo + n .. hi + n];
    }
  }

  lemma {:induction false} ChunksFlatten(s: seq<FareRecord>)
    ensures Flatten(Chunks(s)) == s
    decreases |s|
  {
    if s != [] {
      var n := Min(POST_CHUNK_SIZE, |s|);
      ChunksFlatten(s[n..]);
      assert Chunks(s)[1..] == Chunks(s[n..]);
      assert s[..n] + s[n..] == s;
    }
  }

  /** The chunks partition the list in order: there are ceil(N/150) of them, each
      non-empty and at most 150 long, chunk `j` is `s[150j .. 150j + 150]` (cut at
      the end), and their concatenation is the list itself. */
  lemma ChunksPartition(s: seq<FareRecord>)
    ensures |Chunks(s)| == (|s| + POST_CHUNK_SIZE - 1) / POST_CHUNK_SIZE
    ensures forall j :: 0 <= j < |Chunks(s)| ==> 0 < |Chunks(s)[j]| <= POST_CHUNK_SIZE
    ensures forall j :: 0 <= j < |Chunks(s)| ==>
      Chunks(s)[j] == s[POST_CHUNK_SIZE * j .. Min(POST_CHUNK_SIZE * j + POST_CHUNK_SIZE, |s|)]
    ensures Flatten(Chunks(s)) == s
  {
    ChunksCount(s);
    ChunksFlatten(s);
    forall j | 0 <= j < |Chunks(s)|
      ensures 0 < |Chunks(s)[j]| <= POST_CHUNK_SIZE
      ensures Chunks(s)[j] == s[POST_CHUNK_SIZE * j .. Min(POST_CHUNK_SIZE * j + POST_CHUNK_SIZE, |s|)]
    {
      ChunkAt(s, j);
    }
  }

  // ------------------------------------------------------------------ traces

  /** What the client does, in order: a POST of a chunk payload (with the
      chunk's number, the attempt number and whether its response was free of
      a 4xx/5xx status) or a sleep. */
  datatype Event =
    | Post(chunk: nat, attempt: nat, payload: seq<FareRecord>, ok: bool)
    | Sleep(seconds: real)

  /** A call either returns normally or raises after chunk `chunk` failed. */
  datatype Outcome = Completed | Raised(chunk: nat)

  datatype ReportRun = ReportRun(events: seq<Event>, outcome: Outcome)

  /** The back-off after failed attempt `a`: `2 * (a + 1)` seconds, none after the last. */
  function BackoffAfter(a: nat): seq<Event> {
    if a < REQUEST_RETRIES - 1 then [Sleep(2.0 * (a + 1) as real)] else []
  }

  /** The attempts for chunk `j` from attempt `a` on, stopping at the first success. */
  function ChunkAttempts(j: nat, payload: seq<FareRecord>, post: (nat, nat) -> bool, a: nat): seq<Event>
    requires a <= REQUEST_RETRIES
    decreases REQUEST_RETRIES - a
  {
    if a == REQUEST_RETRIES then []
    else if post(j, a) then [Post(j, a, payload, true)]
    else [Post(j, a, payload, false)] + BackoffAfter(a) + ChunkAttempts(j, payload, post, a + 1)
  }

  /** The 1 s pause after chunk `j` of `n`, only when another chunk remains. */
  function PauseAfter(j: nat, n: nat): seq<Event> {
    if j + 1 < n then [Sleep(1.0)] else []
  }

  /** Some attempt from `a` on succeeds for chunk `j`. */
  predicate DeliveredFrom(j: nat, post: (nat, nat) -> bool, a: nat)
    requires a <= REQUEST_RETRIES
    decreases REQUEST_RETRIES - a
  {
    a < REQUEST_RETRIES && (post(j, a) || DeliveredFrom(j, post, a + 1))
  }

  /** The calls made for chunks `j, j + 1, ...` of `cs`. */
  function ReportFrom(cs: seq<seq<FareRecord>>, j: nat, post: (nat, nat) -> bool): ReportRun
    requires j <= |cs|
    decreases |cs| - j
  {
    if j == |cs| then ReportRun([], Completed)
    else
      var attempts := ChunkAttempts(j, cs[j], post, 0);
      if !DeliveredFrom(j, post, 0) then ReportRun(attempts, Raised(j))
      else
        var rest := ReportFrom(cs, j + 1, post);
        ReportRun(attempts + PauseAfter(j, |cs|) + rest.events, rest.outcome)
  }

  /** The whole call: nothing at all for an empty list. */
  function Report(flights: seq<FareRecord>, post: (nat, nat) -> bool): (r: ReportRun)
    ensures flights == [] ==> r.events == [] && r.outcome.Completed?
    ensures r.outcome.Raised? ==> r.outcome.chunk < |Chunks(flights)|
  {
    if flights == [] then ReportRun([], Completed)
    else
      ReportFromOutcome(Chunks(flights), 0, post);
      ReportFrom(Chunks(flights), 0, post)
  }

  // ------------------------------------------------------ reading a trace

  /** The payloads the backend accepted, in order. */
  function Delivered(ev: seq<Event>): seq<seq<FareRecord>> {
    if ev == [] then []
    else (if ev[0].Post? && ev[0].ok then [ev[0].payload] else []) + Delivered(ev[1..])
  }

  /** Whether each POST of chunk `j` succeeded, in the order they were made. */
  function Flags(ev: seq<Event>, j: nat): seq<bool> {
    if ev == [] then []
    else (if ev[0].Post? && ev[0].chunk == j then [ev[0].ok] else []) + Flags(ev[1..], j)
  }

  function PostCount(ev: seq<Event>): nat {
    if ev == [] then 0 else (if ev[0].Post? then 1 else 0) + PostCount(ev[1..])
  }

  function Fails(m: nat): seq<bool> {
    if m == 0 then [] else [false] + Fails(m - 1)
  }

  /** The success flags of a delivered chunk: at most two failures, then one success. */
  predicate SucceededWithin(f: seq<bool>) {
    1 <= |f| <= REQUEST_RETRIES && f == Fails(|f| - 1) + [true]
  }

  /** Sleep `s` after a failed attempt, before the next attempt of the same chunk. */
  predicate IsBackoff(before: Event, s: Event, after: Event) {
    before.Post? && !before.ok && s.Sleep? && after.Post?
    && after.chunk == before.chunk && after.attempt == before.attempt + 1
    && s.seconds == 2.0 * (before.attempt + 1) as real
  }

  /** Sleep `s` between a delivered chunk and the first attempt of the next chunk. */
  predicate IsPause(before: Event, s: Event, after: Event) {
    before.Post? && before.ok && s.Sleep? && s.seconds == 1.0
    && after.Post? && after.chunk == before.chunk + 1 && after.attempt == 0
  }

  /** Every sleep lies between two POSTs and is a back-off or an inter-chunk pause. */
  predicate SleepsWellPlaced(ev: seq<Event>) {
    forall p :: 0 <= p < |ev| && ev[p].Sleep? ==>
      0 < p < |ev| - 1 && (IsBackoff(ev[p - 1], ev[p], ev[p + 1]) || IsPause(ev[p - 1], ev[p], ev[p + 1]))
  }

  /** What must follow the POST at position `p`: a failed attempt other than
      the last is followed at once by its back-off, and a successful POST of a
      chunk other than the last of `n` by the 1 s pause. */
  predicate DueAfter(ev: seq<Event>, p: nat, n: nat)
    requires p < |ev| && ev[p].Post?
  {
    (!ev[p].ok && ev[p].attempt + 1 < REQUEST_RETRIES ==>
       p + 1 < |ev| && ev[p + 1] == Sleep(2.0 * (ev[p].attempt + 1) as real))
    && (ev[p].ok && ev[p].chunk + 1 < n ==> p + 1 < |ev| && ev[p + 1] == Sleep(1.0))
  }

  /** Every back-off and pause that is due in a call of `n` chunks happens. */
  predicate SleepsWhereDue(ev: seq<Event>, n: nat) {
    forall p :: 0 <= p < |ev| && ev[p].Post? ==> DueAfter(ev, p, n)
  }

  // ------------------------------------------------------ trace algebra

  lemma {:induction false} DeliveredAppend(a: seq<Event>, b: seq<Event>)
    ensures Delivered(a + b) == Delivered(a) + Delivered(b)
  {
    if a == [] {
      assert a + b == b;
    } else {
      assert (a + b)[1..] == a[1..] + b;
      DeliveredAppend(a[1..], b);
    }
  }

  lemma {:induction false} FlagsAppend(a: seq<Event>, b: seq<Event>, j: nat)
    ensures Flags(a + b, j) == Flags(a, j) + Flags(b, j)
  {
    if a == [] {
      assert a + b == b;
    } else {
      assert (a + b)[1..] == a[1..] + b;
      FlagsAppend(a[1..], b, j);
    }
  }

  lemma {:induction false} PostCountAppend(a: seq<Event>, b: seq<Event>)
    ensures PostCount(a + b) == PostCount(a) + PostCount(b)
  {
    if a == [] {
      assert a + b == b;
    } else {
      assert (a + b)[1..] == a[1..] + b;
      PostCountAppend(a[1..], b);
    }
  }

  lemma SleepsAppend(a: seq<Event>, b: seq<Event>)
    requires SleepsWellPlaced(a) && SleepsWellPlaced(b)
    ensures SleepsWellPlaced(a + b)
  {
    var ev := a + b;
    forall p | 0 <= p < |ev| && ev[p].Sleep?
      ensures 0 < p < |ev| - 1
      ensures IsBackoff(ev[p - 1], ev[p], ev[p + 1]) || IsPause(ev[p - 1], ev[p], ev[p + 1])
    {
      if p < |a| {
        assert a[p].Sleep?;
      } else {
        assert b[p - |a|].Sleep?;
      }
    }
  }

  lemma SleepsJoin(a: seq<Event>, s: Event, b: seq<Event>)
    requires SleepsWellPlaced(a) && SleepsWellPlaced(b)
    requires a != [] && b != []
    requires IsBackoff(a[|a| - 1], s, b[0]) || IsPause(a[|a| - 1], s, b[0])
    ensures SleepsWellPlaced(a + [s] + b)
  {
    var ev := a + [s] + b;
    forall p | 0 <= p < |ev| && ev[p].Sleep?
      ensures 0 < p < |ev| - 1
      ensures IsBackoff(ev[p - 1], ev[p], ev[p + 1]) || IsPause(ev[p - 1], ev[p], ev[p + 1])
    {
      if p < |a| {
        assert a[p].Sleep?;
      } else if p > |a| {
        assert b[p - |a| - 1].Sleep?;
      }
    }
  }

  // ------------------------------------------- one chunk's attempts

  /** A failed attempt that is not the last one is followed by its back-off and
      by the remaining attempts. */
  lemma ChunkAttemptsUnfold(j: nat, payload: seq<FareRecord>, post: (nat, nat) -> bool, a: nat)
    requires a + 1 < REQUEST_RETRIES && !post(j, a)
    ensures ChunkAttempts(j, payload, post, a)
         == [Post(j, a, payload, false)] + [Sleep(2.0 * (a + 1) as real)] + ChunkAttempts(j, payload, post, a + 1)
  {
  }

  /** The attempts for one chunk all POST that chunk's payload, starting with
      attempt `a`; there are at most `3 - a` of them. */
  lemma {:induction false} ChunkAttemptsPosts(j: nat, payload: seq<FareRecord>, post: (nat, nat) -> bool, a: nat)
    requires a < REQUEST_RETRIES
    ensures var ev := ChunkAttempts(j, payload, post, a);
      && ev != [] && ev[0] == Post(j, a, payload, post(j, a))
      && (forall e :: e in ev && e.Post? ==> e.chunk == j && e.payload == payload)
      && 1 <= PostCount(ev) <= REQUEST_RETRIES - a
    decreases REQUEST_RETRIES - a
  {
    var ev := ChunkAttempts(j, payload, post, a);
    if post(j, a) || a + 1 == REQUEST_RETRIES {
      assert ev[1..] == [];
    } else {
      var head := [Post(j, a, payload, false)];
      var rest := ChunkAttempts(j, payload, post, a + 1);
      ChunkAttemptsPosts(j, payload, post, a + 1);
      ChunkAttemptsUnfold(j, payload, post, a);
      PostCountAppend(head + [Sleep(2.0 * (a + 1) as real)], rest);
      assert PostCount(head + [Sleep(2.0 * (a + 1) as real)]) == 1 by {
        PostCountAppend(head, [Sleep(2.0 * (a + 1) as real)]);
      }
    }
  }

  /** The backend accepts the chunk once if some attempt succeeds, not at all otherwise. */
  lemma {:induction false} ChunkAttemptsDelivered(j: nat, payload: seq<FareRecord>, post: (nat, nat) -> bool, a: nat)
    requires a < REQUEST_RETRIES
    ensures Delivered(ChunkAttempts(j, payload, post, a)) == (if DeliveredFrom(j, post, a) then [payload] else [])
    decreases REQUEST_RETRIES - a
  {
    var ev := ChunkAttempts(j, payload, post, a);
    if post(j, a) || a + 1 == REQUEST_RETRIES {
      assert ev[1..] == [];
    } else {
      var head := [Post(j, a, payload, false)] + [Sleep(2.0 * (a + 1) as real)];
      ChunkAttemptsDelivered(j, payload, post, a + 1);
      ChunkAttemptsUnfold(j, payload, post, a);
      DeliveredAppend(head, ChunkAttempts(j, payload, post, a + 1));
      assert head[1..][1..] == [];
    }
  }

  /** Success flags of the chunk's POSTs: failures followed by one success, or
      failures only, up to the last attempt. */
  lemma {:induction false} ChunkAttemptsFlags(j: nat, payload: seq<FareRecord>, post: (nat, nat) -> bool, a: nat)
    requires a < REQUEST_RETRIES
    ensures var f := Flags(ChunkAttempts(j, payload, post, a), j);
      && (DeliveredFrom(j, post, a) ==> |f| <= REQUEST_RETRIES - a && SucceededWithin(f))
      && (!DeliveredFrom(j, post, a) ==> f == Fails(REQUEST_RETRIES - a))
    decreases REQUEST_RETRIES - a
  {
    if post(j, a) || a + 1 == REQUEST_RETRIES {
      FlagsOfLastAttempt(j, payload, post, a);
      var f := Flags(ChunkAttempts(j, payload, post, a), j);
      if post(j, a) {
        assert f == Fails(0) + [true];
        assert DeliveredFrom(j, post, a);
      } else {
        assert f == Fails(1);
        assert !DeliveredFrom(j, post, a);
      }
    } else {
      FlagsOfFailedAttempt(j, payload, post, a);
      ChunkAttemptsFlags(j, payload, post, a + 1);
      var g := Flags(ChunkAttempts(j, payload, post, a + 1), j);
      if DeliveredFrom(j, post, a + 1) {
        FailureBeforeSuccess(g);
      } else {
        assert Fails(REQUEST_RETRIES - a) == [false] + Fails(REQUEST_RETRIES - a - 1);
      }
    }
  }

  /** An attempt that succeeds, or the last one, is the chunk's last POST. */
  lemma FlagsOfLastAttempt(j: nat, payload: seq<FareRecord>, post: (nat, nat) -> bool, a: nat)
    requires a < REQUEST_RETRIES && (post(j, a) || a + 1 == REQUEST_RETRIES)
    ensures Flags(ChunkAttempts(j, payload, post, a), j) == [post(j, a)]
  {
    var ev := ChunkAttempts(j, payload, post, a);
    assert ev[1..] == [];
  }

  /** A failed attempt that is not the last adds one failure flag. */
  lemma FlagsOfFailedAttempt(j: nat, payload: seq<FareRecord>, post: (nat, nat) -> bool, a: nat)
    requires a + 1 < REQUEST_RETRIES && !post(j, a)
    ensures Flags(ChunkAttempts(j, payload, post, a), j) == [false] + Flags(ChunkAttempts(j, payload, post, a + 1), j)
  {
    var head := [Post(j, a, payload, false)] + [Sleep(2.0 * (a + 1) as real)];
    var rest := ChunkAttempts(j, payload, post, a + 1);
    ChunkAttemptsUnfold(j, payload, post, a);
    FlagsAppend(head, rest, j);
    assert head[1..][1..] == [];
  }

  lemma FailureBeforeSuccess(g: seq<bool>)
    requires SucceededWithin(g) && |g| < REQUEST_RETRIES
    ensures SucceededWithin([false] + g)
  {
    var n := |g|;
    assert Fails(n) == [false] + Fails(n - 1);
    assert [false] + g == ([false] + Fails(n - 1)) + [true];
  }

  /** No other chunk is POSTed while chunk `j` is being sent. */
  lemma {:induction false} ChunkAttemptsOtherFlags(j: nat, payload: seq<FareRecord>, post: (nat, nat) -> bool, a: nat, k: nat)
    requires a < REQUEST_RETRIES && k != j
    ensures Flags(ChunkAttempts(j, payload, post, a), k) == []
    decreases REQUEST_RETRIES - a
  {
    var ev := ChunkAttempts(j, payload, post, a);
    if post(j, a) || a + 1 == REQUEST_RETRIES {
      assert ev[1..] == [];
    } else {
      var head := [Post(j, a, payload, false)] + [Sleep(2.0 * (a + 1) as real)];
      ChunkAttemptsOtherFlags(j, payload, post, a + 1, k);
      ChunkAttemptsUnfold(j, payload, post, a);
      FlagsAppend(head, ChunkAttempts(j, payload, post, a + 1), k);
      assert head[1..][1..] == [];
    }
  }

  /** A delivered chunk's attempts end with the successful POST. */
  lemma {:induction false} ChunkAttemptsLast(j: nat, payload: seq<FareRecord>, post: (nat, nat) -> bool, a: nat)
    requires a < REQUEST_RETRIES && DeliveredFrom(j, post, a)
    ensures var ev := ChunkAttempts(j, payload, post, a);
      ev != [] && ev[|ev| - 1].Post? && ev[|ev| - 1].chunk == j && ev[|ev| - 1].ok
    decreases REQUEST_RETRIES - a
  {
    if !post(j, a) {
      ChunkAttemptsLast(j, payload, post, a + 1);
      ChunkAttemptsUnfold(j, payload, post, a);
    }
  }

  /** Within one chunk every sleep is the back-off between two of its attempts. */
  lemma {:induction false} ChunkAttemptsSleeps(j: nat, payload: seq<FareRecord>, post: (nat, nat) -> bool, a: nat)
    requires a < REQUEST_RETRIES
    ensures SleepsWellPlaced(ChunkAttempts(j, payload, post, a))
    decreases REQUEST_RETRIES - a
  {
    var ev := ChunkAttempts(j, payload, post, a);
    if post(j, a) || a + 1 == REQUEST_RETRIES {
      assert |ev| == 1 && !ev[0].Sleep?;
    } else {
      var head := [Post(j, a, payload, false)];
      var rest := ChunkAttempts(j, payload, post, a + 1);
      ChunkAttemptsSleeps(j, payload, post, a + 1);
      ChunkAttemptsPosts(j, payload, post, a + 1);
      ChunkAttemptsUnfold(j, payload, post, a);
      SleepsJoin(head, Sleep(2.0 * (a + 1) as real), rest);
    }
  }

  /** The obligations on the POST at position `p` of chunk `j`'s attempts: it
      is a POST of chunk `j`; if it succeeded it ends the attempts and the chunk
      counts as `delivered`; if it failed and was not the last attempt, its
      back-off follows at once. */
  predicate AttemptDueAt(ev: seq<Event>, p: nat, j: nat, delivered: bool)
    requires p < |ev| && ev[p].Post?
  {
    && ev[p].chunk == j
    && (ev[p].ok ==> p == |ev| - 1 && delivered)
    && (!ev[p].ok && ev[p].attempt + 1 < REQUEST_RETRIES ==>
          p + 1 < |ev| && ev[p + 1] == Sleep(2.0 * (ev[p].attempt + 1) as real))
  }

  predicate AttemptsDue(ev: seq<Event>, j: nat, delivered: bool) {
    forall p :: 0 <= p < |ev| && ev[p].Post? ==> AttemptDueAt(ev, p, j, delivered)
  }

  /** A failed attempt and its back-off in front of attempts that meet their
      obligations. */
  lemma AttemptsDueCons(j: nat, a: nat, payload: seq<FareRecord>, rest: seq<Event>, delivered: bool)
    requires a + 1 < REQUEST_RETRIES && AttemptsDue(rest, j, delivered)
    ensures AttemptsDue([Post(j, a, payload, false)] + [Sleep(2.0 * (a + 1) as real)] + rest, j, delivered)
  {
    var ev := [Post(j, a, payload, false)] + [Sleep(2.0 * (a + 1) as real)] + rest;
    forall p | 0 <= p < |ev| && ev[p].Post?
      ensures AttemptDueAt(ev, p, j, delivered)
    {
      if p >= 2 {
        assert ev[p] == rest[p - 2];
        assert AttemptDueAt(rest, p - 2, j, delivered);
        if p + 1 < |ev| {
          assert ev[p + 1] == rest[p - 1];
        }
      }
    }
  }

  /** Within one chunk every failed attempt but the last is followed by its
      back-off, and a successful POST, which only a delivered chunk has, ends
      the chunk's attempts. */
  lemma {:induction false} ChunkAttemptsDue(j: nat, payload: seq<FareRecord>, post: (nat, nat) -> bool, a: nat)
    requires a < REQUEST_RETRIES
    ensures AttemptsDue(ChunkAttempts(j, payload, post, a), j, DeliveredFrom(j, post, a))
    decreases REQUEST_RETRIES - a
  {
    var ev := ChunkAttempts(j, payload, post, a);
    if post(j, a) || a + 1 == REQUEST_RETRIES {
      assert ev == [Post(j, a, payload, post(j, a))];
      assert post(j, a) ==> DeliveredFrom(j, post, a);
    } else {
      ChunkAttemptsDue(j, payload, post, a + 1);
      ChunkAttemptsUnfold(j, payload, post, a);
      assert DeliveredFrom(j, post, a) == DeliveredFrom(j, post, a + 1);
      AttemptsDueCons(j, a, payload, ChunkAttempts(j, payload, post, a + 1), DeliveredFrom(j, post, a));
    }
  }

  // ------------------------------------------- chunks j, j + 1, ...

  lemma PauseFacts(j: nat, n: nat, k: nat)
    ensures Delivered(PauseAfter(j, n)) == [] && Flags(PauseAfter(j, n), k) == []
    ensures PostCount(PauseAfter(j, n)) == 0
    ensures forall e :: e in PauseAfter(j, n) ==> e.Sleep?
  {
    if j + 1 < n { assert PauseAfter(j, n)[1..] == []; }
  }

  lemma ReportFromUnfold(cs: seq<seq<FareRecord>>, j: nat, post: (nat, nat) -> bool)
    requires j < |cs| && DeliveredFrom(j, post, 0)
    ensures ReportFrom(cs, j, post).events
         == ChunkAttempts(j, cs[j], post, 0) + PauseAfter(j, |cs|) + ReportFrom(cs, j + 1, post).events
    ensures ReportFrom(cs, j, post).outcome == ReportFrom(cs, j + 1, post).outcome
  {
  }

  /** The call ends normally when every chunk from `j` on is delivered, and
      otherwise raises at the first chunk none of whose attempts succeeded. */
  lemma {:induction false} ReportFromOutcome(cs: seq<seq<FareRecord>>, j: nat, post: (nat, nat) -> bool)
    requires j <= |cs|
    ensures var r := ReportFrom(cs, j, post);
      && (r.outcome.Raised? ==>
            j <= r.outcome.chunk < |cs| && !DeliveredFrom(r.outcome.chunk, post, 0)
            && forall i :: j <= i < r.outcome.chunk ==> DeliveredFrom(i, post, 0))
      && (r.outcome.Completed? ==> forall i :: j <= i < |cs| ==> DeliveredFrom(i, post, 0))
  {
    ReportFromFirstUndelivered(cs, j, post);
  }

  /** The first chunk from `j` on that no attempt delivers, or `n` when all are delivered. */
  function FirstUndelivered(post: (nat, nat) -> bool, j: nat, n: nat): (k: nat)
    requires j <= n
    decreases n - j
    ensures j <= k <= n
    ensures k < n ==> !DeliveredFrom(k, post, 0)
    ensures forall i :: j <= i < k ==> DeliveredFrom(i, post, 0)
  {
    if j == n then n
    else if !DeliveredFrom(j, post, 0) then j
    else FirstUndelivered(post, j + 1, n)
  }

  /** The report stops at the first undelivered chunk, or completes when there is none. */
  lemma {:induction false} ReportFromFirstUndelivered(cs: seq<seq<FareRecord>>, j: nat, post: (nat, nat) -> bool)
    requires j <= |cs|
    ensures var k := FirstUndelivered(post, j, |cs|);
      ReportFrom(cs, j, post).outcome == if k < |cs| then Raised(k) else Completed
    decreases |cs| - j
  {
    if j < |cs| && DeliveredFrom(j, post, 0) {
      OutcomeStep(cs, j, post);
      ReportFromFirstUndelivered(cs, j + 1, post);
    }
  }

  lemma OutcomeStep(cs: seq<seq<FareRecord>>, j: nat, post: (nat, nat) -> bool)
    requires j < |cs| && DeliveredFrom(j, post, 0)
    ensures ReportFrom(cs, j, post).outcome == ReportFrom(cs, j + 1, post).outcome
  {
  }

  /** Chunks `j, j + 1, ...` are accepted in order up to the failing one. */
  lemma {:induction false} ReportFromDelivered(cs: seq<seq<FareRecord>>, j: nat, post: (nat, nat) -> bool)
    requires j <= |cs|
    ensures var r := ReportFrom(cs, j, post);
      && (r.outcome.Completed? ==> Delivered(r.events) == cs[j..])
      && (r.outcome.Raised? ==> j <= r.outcome.chunk <= |cs| && Delivered(r.events) == cs[j..r.outcome.chunk])
    decreases |cs| - j
  {
    if j < |cs| {
      if DeliveredFrom(j, post, 0) {
        var rest := ReportFrom(cs, j + 1, post);
        ReportFromDelivered(cs, j + 1, post);
        DeliveredStep(cs, j, post);
        if rest.outcome.Completed? {
          ConsSlice(cs, j, |cs|);
        } else {
          ConsSlice(cs, j, rest.outcome.chunk);
        }
      } else {
        ChunkAttemptsDelivered(j, cs[j], post, 0);
        assert cs[j..j] == [];
      }
    }
  }

  lemma ConsSlice(cs: seq<seq<FareRecord>>, j: nat, k: nat)
    requires j < k <= |cs|
    ensures [cs[j]] + cs[j + 1..k] == cs[j..k]
    ensures k == |cs| ==> [cs[j]] + cs[j + 1..] == cs[j..]
  {
  }

  /** A delivered chunk contributes exactly its own payload to what is accepted. */
  lemma DeliveredStep(cs: seq<seq<FareRecord>>, j: nat, post: (nat, nat) -> bool)
    requires j < |cs| && DeliveredFrom(j, post, 0)
    ensures Delivered(ReportFrom(cs, j, post).events) == [cs[j]] + Delivered(ReportFrom(cs, j + 1, post).events)
    ensures ReportFrom(cs, j, post).outcome == ReportFrom(cs, j + 1, post).outcome
  {
    var attempts := ChunkAttempts(j, cs[j], post, 0);
    var pause := PauseAfter(j, |cs|);
    var rest := ReportFrom(cs, j + 1, post).events;
    ReportFromUnfold(cs, j, post);
    assert Delivered(attempts) == [cs[j]] by { ChunkAttemptsDelivered(j, cs[j], post, 0); }
    assert Delivered(pause) == [] by { PauseFacts(j, |cs|, 0); }
    assert Delivered(attempts + pause) == [cs[j]] by { DeliveredAppend(attempts, pause); }
    DeliveredAppend(attempts + pause, rest);
  }

  /** Every POST carries the payload of the chunk it names, and no chunk after the
      failing one is POSTed; the first request is attempt 0 of chunk `j`. */
  lemma {:induction false} ReportFromPosts(cs: seq<seq<FareRecord>>, j: nat, post: (nat, nat) -> bool)
    requires j <= |cs|
    ensures var r := ReportFrom(cs, j, post);
      && (forall e :: e in r.events && e.Post? ==>
            j <= e.chunk < |cs| && e.payload == cs[e.chunk]
            && (r.outcome.Raised? ==> e.chunk <= r.outcome.chunk))
      && (r.events == [] <==> j == |cs|)
      && (j < |cs| ==> r.events[0] == Post(j, 0, cs[j], post(j, 0)))
    decreases |cs| - j
  {
    if j < |cs| {
      var attempts := ChunkAttempts(j, cs[j], post, 0);
      ChunkAttemptsPosts(j, cs[j], post, 0);
      ReportFromOutcome(cs, j, post);
      if DeliveredFrom(j, post, 0) {
        var rest := ReportFrom(cs, j + 1, post);
        ReportFromPosts(cs, j + 1, post);
        ReportFromOutcome(cs, j + 1, post);
        ReportFromUnfold(cs, j, post);
        PauseFacts(j, |cs|, 0);
        var r := ReportFrom(cs, j, post);
        forall e | e in r.events && e.Post?
          ensures j <= e.chunk < |cs| && e.payload == cs[e.chunk]
          ensures r.outcome.Raised? ==> e.chunk <= r.outcome.chunk
        {
          if e !in attempts {
            assert e in rest.events;
          }
        }
      }
    }
  }

  /** Every sleep of a call is a back-off between two attempts of one chunk or the
      1 s pause between a delivered chunk and the next one. */
  lemma {:induction false} ReportFromSleeps(cs: seq<seq<FareRecord>>, j: nat, post: (nat, nat) -> bool)
    requires j <= |cs|
    ensures SleepsWellPlaced(ReportFrom(cs, j, post).events)
    decreases |cs| - j
  {
    if j < |cs| {
      var attempts := ChunkAttempts(j, cs[j], post, 0);
      ChunkAttemptsSleeps(j, cs[j], post, 0);
      if DeliveredFrom(j, post, 0) {
        var rest := ReportFrom(cs, j + 1, post);
        ReportFromSleeps(cs, j + 1, post);
        ReportFromPosts(cs, j + 1, post);
        ReportFromUnfold(cs, j, post);
        if j + 1 < |cs| {
          ChunkAttemptsLast(j, cs[j], post, 0);
          SleepsJoin(attempts, Sleep(1.0), rest.events);
        } else {
          assert attempts + [] + rest.events == attempts;
        }
      }
    }
  }

  /** The obligations of a trace carry over when other events come before it. */
  lemma DueSuffix(pre: seq<Event>, b: seq<Event>, n: nat)
    requires SleepsWhereDue(b, n)
    ensures forall p :: |pre| <= p < |pre + b| && (pre + b)[p].Post? ==> DueAfter(pre + b, p, n)
  {
    var ev := pre + b;
    forall p | |pre| <= p < |ev| && ev[p].Post?
      ensures DueAfter(ev, p, n)
    {
      var q := p - |pre|;
      assert ev[p] == b[q];
      assert DueAfter(b, q, n);
      if q + 1 < |b| {
        assert ev[p + 1] == b[q + 1];
      }
    }
  }

  /** The attempts of a delivered chunk followed by its pause meet their
      obligations in front of whatever comes next. */
  lemma HeadDue(cs: seq<seq<FareRecord>>, j: nat, post: (nat, nat) -> bool, rest: seq<Event>)
    requires j < |cs| && DeliveredFrom(j, post, 0)
    ensures var head := ChunkAttempts(j, cs[j], post, 0) + PauseAfter(j, |cs|);
      forall p :: 0 <= p < |head| && (head + rest)[p].Post? ==> DueAfter(head + rest, p, |cs|)
  {
    var attempts := ChunkAttempts(j, cs[j], post, 0);
    var pause := PauseAfter(j, |cs|);
    var ev := attempts + pause + rest;
    ChunkAttemptsDue(j, cs[j], post, 0);
    PauseFacts(j, |cs|, 0);
    forall p | 0 <= p < |attempts + pause| && ev[p].Post?
      ensures DueAfter(ev, p, |cs|)
    {
      if p < |attempts| {
        assert ev[p] == attempts[p];
        assert AttemptDueAt(attempts, p, j, true);
        if p + 1 < |attempts| {
          assert ev[p + 1] == attempts[p + 1];
        } else if j + 1 < |cs| {
          assert ev[p + 1] == pause[0];
        }
      } else {
        assert false;
      }
    }
  }

  /** Every back-off and pause that is due in chunks `j, j + 1, ...` happens. */
  lemma {:induction false} ReportFromDue(cs: seq<seq<FareRecord>>, j: nat, post: (nat, nat) -> bool)
    requires j <= |cs|
    ensures SleepsWhereDue(ReportFrom(cs, j, post).events, |cs|)
    decreases |cs| - j
  {
    if j < |cs| {
      var attempts := ChunkAttempts(j, cs[j], post, 0);
      if DeliveredFrom(j, post, 0) {
        var rest := ReportFrom(cs, j + 1, post).events;
        var head := attempts + PauseAfter(j, |cs|);
        ReportFromUnfold(cs, j, post);
        ReportFromDue(cs, j + 1, post);
        DueSuffix(head, rest, |cs|);
        HeadDue(cs, j, post, rest);
      } else {
        var ev := ReportFrom(cs, j, post).events;
        assert ev == attempts;
        ChunkAttemptsDue(j, cs[j], post, 0);
        forall p | 0 <= p < |ev| && ev[p].Post?
          ensures DueAfter(ev, p, |cs|)
        {
          assert AttemptDueAt(attempts, p, j, false);
        }
      }
    }
  }

  /** The attempts each chunk received: one success after at most two failures for
      every delivered chunk, three failures for the chunk that raised, none for
      chunks before `j`, after the failing one, or beyond the list. */
  lemma ReportFromFlagsUnfold(cs: seq<seq<FareRecord>>, j: nat, post: (nat, nat) -> bool, k: nat)
    requires j < |cs| && DeliveredFrom(j, post, 0)
    ensures Flags(ReportFrom(cs, j, post).events, k)
         == Flags(ChunkAttempts(j, cs[j], post, 0), k) + Flags(ReportFrom(cs, j + 1, post).events, k)
    ensures ReportFrom(cs, j, post).outcome == ReportFrom(cs, j + 1, post).outcome
  {
    var attempts := ChunkAttempts(j, cs[j], post, 0);
    ReportFromUnfold(cs, j, post);
    FlagsAppend(attempts + PauseAfter(j, |cs|), ReportFrom(cs, j + 1, post).events, k);
    FlagsAppend(attempts, PauseAfter(j, |cs|), k);
    PauseFacts(j, |cs|, k);
  }

  /** No POSTs for chunks outside the ones this call reached. */
  lemma {:induction false} ReportFromFlagsNone(cs: seq<seq<FareRecord>>, j: nat, post: (nat, nat) -> bool, k: nat)
    requires j <= |cs|
    requires var r := ReportFrom(cs, j, post);
      k < j || k >= |cs| || (r.outcome.Raised? && k > r.outcome.chunk)
    ensures Flags(ReportFrom(cs, j, post).events, k) == []
    decreases |cs| - j
  {
    if j < |cs| {
      ReportFromOutcome(cs, j, post);
      ChunkAttemptsOtherFlags(j, cs[j], post, 0, k);
      if DeliveredFrom(j, post, 0) {
        ReportFromFlagsUnfold(cs, j, post, k);
        ReportFromFlagsNone(cs, j + 1, post, k);
      }
    }
  }

  /** The chunk that raised got three failed POSTs. */
  lemma {:induction false} ReportFromFlagsRaised(cs: seq<seq<FareRecord>>, j: nat, post: (nat, nat) -> bool, k: nat)
    requires j <= |cs| && ReportFrom(cs, j, post).outcome == Raised(k)
    ensures Flags(ReportFrom(cs, j, post).events, k) == Fails(REQUEST_RETRIES)
    decreases |cs| - j
  {
    ReportFromOutcome(cs, j, post);
    if k == j {
      ChunkAttemptsFlags(j, cs[j], post, 0);
    } else {
      ChunkAttemptsOtherFlags(j, cs[j], post, 0, k);
      ReportFromFlagsUnfold(cs, j, post, k);
      ReportFromFlagsRaised(cs, j + 1, post, k);
    }
  }

  /** A delivered chunk got one success after at most two failures. */
  lemma {:induction false} ReportFromFlagsDelivered(cs: seq<seq<FareRecord>>, j: nat, post: (nat, nat) -> bool, k: nat)
    requires j <= k < |cs|
    requires var r := ReportFrom(cs, j, post); r.outcome.Completed? || k < r.outcome.chunk
    ensures SucceededWithin(Flags(ReportFrom(cs, j, post).events, k))
    decreases |cs| - j
  {
    assert DeliveredFrom(j, post, 0) by {
      assert ReportFrom(cs, j, post).outcome != Raised(j);
    }
    if k == j {
      FlagsOfDelivered(cs, j, post);
    } else {
      FlagsPassOver(cs, j, post, k);
      ReportFromFlagsDelivered(cs, j + 1, post, k);
    }
  }

  /** The flags of a delivered chunk all come from its own attempts. */
  lemma FlagsOfDelivered(cs: seq<seq<FareRecord>>, j: nat, post: (nat, nat) -> bool)
    requires j < |cs| && DeliveredFrom(j, post, 0)
    ensures SucceededWithin(Flags(ReportFrom(cs, j, post).events, j))
  {
    var mine := Flags(ChunkAttempts(j, cs[j], post, 0), j);
    var later := Flags(ReportFrom(cs, j + 1, post).events, j);
    ReportFromFlagsUnfold(cs, j, post, j);
    assert SucceededWithin(mine) by { ChunkAttemptsFlags(j, cs[j], post, 0); }
    assert later == [] by { ReportFromFlagsNone(cs, j + 1, post, j); }
    assert mine + later == mine;
  }

  /** Sending a delivered chunk adds no flags for any other chunk. */
  lemma FlagsPassOver(cs: seq<seq<FareRecord>>, j: nat, post: (nat, nat) -> bool, k: nat)
    requires j < |cs| && DeliveredFrom(j, post, 0) && k != j
    ensures Flags(ReportFrom(cs, j, post).events, k) == Flags(ReportFrom(cs, j + 1, post).events, k)
    ensures ReportFrom(cs, j, post).outcome == ReportFrom(cs, j + 1, post).outcome
  {
    var mine := Flags(ChunkAttempts(j, cs[j], post, 0), k);
    var later := Flags(ReportFrom(cs, j + 1, post).events, k);
    ReportFromFlagsUnfold(cs, j, post, k);
    assert mine == [] by { ChunkAttemptsOtherFlags(j, cs[j], post, 0, k); }
    assert mine + later == later;
  }

  /** When every first attempt succeeds the call completes with one POST per chunk. */
  lemma {:induction false} ReportFromFirstTry(cs: seq<seq<FareRecord>>, j: nat, post: (nat, nat) -> bool)
    requires j <= |cs|
    requires forall i :: post(i, 0)
    ensures ReportFrom(cs, j, post).outcome == Completed
    ensures PostCount(ReportFrom(cs, j, post).events) == |cs| - j
    decreases |cs| - j
  {
    if j < |cs| {
      var attempts := ChunkAttempts(j, cs[j], post, 0);
      assert attempts == [Post(j, 0, cs[j], true)];
      assert DeliveredFrom(j, post, 0);
      ReportFromFirstTry(cs, j + 1, post);
      ReportFromUnfold(cs, j, post);
      PostCountAppend(attempts + PauseAfter(j, |cs|), ReportFrom(cs, j + 1, post).events);
      PostCountAppend(attempts, PauseAfter(j, |cs|));
      PauseFacts(j, |cs|, 0);
      assert PostCount(attempts) == 1 by {
        assert attempts[1..] == [];
      }
    }
  }

  // ------------------------------------------------- the whole call

  /** An empty list makes no request. Otherwise the chunks are delivered in input
      order up to the first failing one: on a normal return all chunks were
      delivered; on an exception at chunk `k`, chunks `0 .. k - 1` were delivered
      (and stay delivered), chunk `k` was never accepted, and no chunk after `k`
      was POSTed at all. Every POST carries the chunk it names. */
  lemma ReportDeliversPrefix(flights: seq<FareRecord>, post: (nat, nat) -> bool)
    ensures var r := Report(flights, post); var cs := Chunks(flights);
      && (flights == [] ==> r.events == [] && r.outcome == Completed)
      && (r.outcome.Completed? ==> Delivered(r.events) == cs)
      && (r.outcome.Raised? ==>
            r.outcome.chunk < |cs| && Delivered(r.events) == cs[..r.outcome.chunk]
            && !DeliveredFrom(r.outcome.chunk, post, 0))
      && (forall e :: e in r.events && e.Post? ==>
            e.chunk < |cs| && e.payload == cs[e.chunk]
            && (r.outcome.Raised? ==> e.chunk <= r.outcome.chunk))
  {
    if flights != [] {
      ReportFromOutcome(Chunks(flights), 0, post);
      ReportFromDelivered(Chunks(flights), 0, post);
      ReportFromPosts(Chunks(flights), 0, post);
      assert Chunks(flights)[0..] == Chunks(flights);
    }
  }

  /** Each chunk gets at most 3 POSTs and none after its first success; the chunk
      that raised got exactly 3 failed POSTs; chunks after it got none. */
  lemma ReportAttemptsPerChunk(flights: seq<FareRecord>, post: (nat, nat) -> bool, k: nat)
    ensures var r := Report(flights, post); var f := Flags(r.events, k);
      && (k >= |Chunks(flights)| ==> f == [])
      && (r.outcome.Raised? && k > r.outcome.chunk ==> f == [])
      && (r.outcome == Raised(k) ==> f == [false, false, false])
      && (k < |Chunks(flights)| && (r.outcome.Completed? || k < r.outcome.chunk) ==>
            SucceededWithin(f))
  {
    var r := Report(flights, post);
    var cs := Chunks(flights);
    if flights != [] {
      ReportFromOutcome(cs, 0, post);
      if k >= |cs| || (r.outcome.Raised? && k > r.outcome.chunk) {
        ReportFromFlagsNone(cs, 0, post, k);
      } else if r.outcome == Raised(k) {
        ReportFromFlagsRaised(cs, 0, post, k);
        assert Fails(3) == [false, false, false];
      } else {
        ReportFromFlagsDelivered(cs, 0, post, k);
      }
    }
  }

  /** Sleeps are 2 s and 4 s back-offs between attempts of one chunk (none after the
      last attempt) and 1 s pauses between chunks (none after the last chunk), and
      each of those is taken where it is due: right after every failed attempt
      but the third, and right after every delivered chunk but the last. */
  lemma ReportSleeps(flights: seq<FareRecord>, post: (nat, nat) -> bool)
    ensures SleepsWellPlaced(Report(flights, post).events)
    ensures SleepsWhereDue(Report(flights, post).events, |Chunks(flights)|)
  {
    if flights != [] {
      ReportFromSleeps(Chunks(flights), 0, post);
      ReportFromDue(Chunks(flights), 0, post);
    }
  }

  /** With a backend that accepts every first attempt, exactly ceil(N/150) POSTs are
      made and the call returns normally. */
  lemma ReportFirstTry(flights: seq<FareRecord>, post: (nat, nat) -> bool)
    requires forall j :: post(j, 0)
    ensures Report(flights, post).outcome == Completed
    ensures PostCount(Report(flights, post).events) == (|flights| + POST_CHUNK_SIZE - 1) / POST_CHUNK_SIZE
  {
    ChunksCount(flights);
    if flights != [] {
      ReportFromFirstTry(Chunks(flights), 0, post);
    }
  }

  // ------------------------------------------------------ the loops

  /** The retry loop for one chunk: up to 3 POSTs, stopping at the first
      response without a 4xx/5xx status, with the back-off sleeps between
      failed attempts. `failed` is whether the
      last exception is still set when the loop ends. */
  method PostChunk(j: nat, chunk: seq<FareRecord>, post: (nat, nat) -> bool) returns (events: seq<Event>, failed: bool)
    ensures events == ChunkAttempts(j, chunk, post, 0)
    ensures failed <==> !DeliveredFrom(j, post, 0)
  {
    events := [];
    failed := false;
    var attempt := 0;
    while attempt < REQUEST_RETRIES
      invariant attempt <= REQUEST_RETRIES
      invariant events + ChunkAttempts(j, chunk, post, attempt) == ChunkAttempts(j, chunk, post, 0)
      invariant DeliveredFrom(j, post, 0) == DeliveredFrom(j, post, attempt)
      invariant failed == (attempt > 0)
    {
      if post(j, attempt) {
        assert ChunkAttempts(j, chunk, post, attempt) == [Post(j, attempt, chunk, true)];
        events := events + [Post(j, attempt, chunk, true)];
        failed := false;
        return;
      }
      AttemptStep(j, chunk, post, attempt, events);
      events := events + [Post(j, attempt, chunk, false)];
      failed := true;
      if attempt < REQUEST_RETRIES - 1 {
        events := events + [Sleep(2.0 * (attempt + 1) as real)];
      }
      attempt := attempt + 1;
    }
  }

  /** A failed attempt moves the loop of `PostChunk` one attempt on. */
  lemma AttemptStep(j: nat, chunk: seq<FareRecord>, post: (nat, nat) -> bool, a: nat, done: seq<Event>)
    requires a < REQUEST_RETRIES && !post(j, a)
    ensures done + ChunkAttempts(j, chunk, post, a)
         == done + [Post(j, a, chunk, false)] + BackoffAfter(a) + ChunkAttempts(j, chunk, post, a + 1)
    ensures DeliveredFrom(j, post, a) == DeliveredFrom(j, post, a + 1)
  {
    Regroup(done, [Post(j, a, chunk, false)], BackoffAfter(a), ChunkAttempts(j, chunk, post, a + 1));
  }

  /** One delivered chunk moves the loop of `SendReport` one chunk on. */
  lemma SendStep(cs: seq<seq<FareRecord>>, j: nat, post: (nat, nat) -> bool, done: seq<Event>, whole: ReportRun)
    requires j < |cs| && DeliveredFrom(j, post, 0)
    requires done + ReportFrom(cs, j, post).events == whole.events
    requires ReportFrom(cs, j, post).outcome == whole.outcome
    ensures done + ChunkAttempts(j, cs[j], post, 0) + PauseAfter(j, |cs|) + ReportFrom(cs, j + 1, post).events == whole.events
    ensures ReportFrom(cs, j + 1, post).outcome == whole.outcome
  {
    ReportFromUnfold(cs, j, post);
    Regroup(done, ChunkAttempts(j, cs[j], post, 0), PauseAfter(j, |cs|), ReportFrom(cs, j + 1, post).events);
  }

  lemma Regroup(a: seq<Event>, b: seq<Event>, c: seq<Event>, d: seq<Event>)
    ensures a + b + c + d == a + (b + c + d)
  {
  }

  /** The whole `report_scraped_data` loop: offsets `0, 150, 300, ...`, one
      retried chunk each, a 1 s pause while records remain, and a raise at the
      first chunk that stays failed. */
  method SendReport(flights: seq<FareRecord>, post: (nat, nat) -> bool) returns (run: ReportRun)
    ensures run == Report(flights, post)
  {
    if flights == [] {
      return ReportRun([], Completed);
    }
    ghost var cs := Chunks(flights);
    ghost var whole := ReportFrom(cs, 0, post);
    var events: seq<Event> := [];
    var i := 0;
    var j: nat := 0;
    while i < |flights|
      invariant i == POST_CHUNK_SIZE * j && j <= |cs|
      invariant events + ReportFrom(cs, j, post).events == whole.events
      invariant ReportFrom(cs, j, post).outcome == whole.outcome
      decreases |flights| - i
    {
      assert j < |cs| by { ChunkOffset(flights, j); }
      var chunk := flights[i .. Min(i + POST_CHUNK_SIZE, |flights|)];
      assert chunk == cs[j] by { ChunkAt(flights, j); }
      var chunkEvents, failed := PostChunk(j, chunk, post);
      if failed {
        return ReportRun(events + chunkEvents, Raised(j));
      }
      var pause := if i + POST_CHUNK_SIZE < |flights| then [Sleep(1.0)] else [];
      assert pause == PauseAfter(j, |cs|) by { ChunkOffset(flights, j + 1); }
      SendStep(cs, j, post, events, whole);
      events := events + chunkEvents + pause;
      i := i + POST_CHUNK_SIZE;
      j := j + 1;
    }
    assert j == |cs| by { ChunkOffset(flights, j); }
    return ReportRun(events, Completed);
  }
}
