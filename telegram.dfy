/** The relay of a stored photo to the Telegram `sendPhoto` endpoint: a loop of at most
    three attempts that backs off on rate limiting and rethrows the last failure. */
module Telegram {
  import opened Common

  const MaxAttempts := 3
  /** The `error_code` with which the API asks the caller to slow down. */
  const RateLimitCode := 429
  /** Milliseconds of back-off per attempt number. */
  const BackoffUnit := 1000

  /** What one attempt observes: a reply with `ok` set, a reply without it (its
      `error_code` and `description`), or an exception from the transport or from
      reading the reply. */
  datatype Reply = Ok | Refused(errorCode: int, description: string) | TransportError(message: string)

  predicate IsRateLimited(r: Reply)
  {
    r.Refused? && r.errorCode == RateLimitCode
  }

  /** How control leaves the loop: `return` after an ok reply, the rethrow in the
      last attempt's `catch`, or running past the last attempt (only reachable when that
      attempt was rate limited; `description` is that reply's). */
  datatype Exit = ReturnedOk | Rethrown(message: string) | FellThrough(description: string)

  /** One run of the relay: how it left the loop, how many requests it made and the
      back-off delays it requested, in order. */
  datatype Trace = Trace(exit: Exit, attempts: nat, delays: seq<nat>)

  /** The delays the loop requests over the replies `rs`, the first of them seen on attempt
      number `first`: one per rate-limited reply. */
  function Backoff(rs: seq<Reply>, first: nat): seq<nat>
  {
    if rs == [] then []
    else (if IsRateLimited(rs[0]) then [BackoffUnit * first] else []) + Backoff(rs[1..], first + 1)
  }

  /** The number of requests made from attempt `attempt` on: the loop stops at the first
      ok reply or after the last attempt. */
  function AttemptsFrom(replies: seq<Reply>, attempt: nat): (n: nat)
    requires |replies| == MaxAttempts && 1 <= attempt <= MaxAttempts
    ensures attempt <= n <= MaxAttempts
    ensures forall k :: attempt - 1 <= k < n - 1 ==> !replies[k].Ok?
    ensures n < MaxAttempts ==> replies[n - 1].Ok?
    decreases MaxAttempts - attempt
  {
    if attempt == MaxAttempts || replies[attempt - 1].Ok? then attempt
    else AttemptsFrom(replies, attempt + 1)
  }

  /** How the last attempt made leaves the loop. */
  function ExitOn(last: Reply): Exit
  {
    match last
    case Ok => ReturnedOk
    case Refused(code, description) => if code == RateLimitCode then FellThrough(description) else Rethrown(description)
    case TransportError(message) => Rethrown(message)
  }

  /** The relay's behaviour when attempt k (1-based) sees `replies[k - 1]`. */
  function Relay(replies: seq<Reply>): (t: Trace)
    requires |replies| == MaxAttempts
    ensures 1 <= t.attempts <= MaxAttempts
    ensures forall k :: 0 <= k < t.attempts - 1 ==> !replies[k].Ok?
    ensures t.exit == ReturnedOk <==> replies[t.attempts - 1].Ok?
    ensures t.exit.Rethrown? <==>
      t.attempts == MaxAttempts && !replies[MaxAttempts - 1].Ok? && !IsRateLimited(replies[MaxAttempts - 1])
    ensures t.exit.FellThrough? <==> t.attempts == MaxAttempts && IsRateLimited(replies[MaxAttempts - 1])
    ensures t.delays == Backoff(replies[..t.attempts], 1)
  {
    var n := AttemptsFrom(replies, 1);
    Trace(ExitOn(replies[n - 1]), n, Backoff(replies[..n], 1))
  }

  lemma {:induction false} BackoffSnoc(rs: seq<Reply>, r: Reply, first: nat)
    ensures Backoff(rs + [r], first) ==
      Backoff(rs, first) + (if IsRateLimited(r) then [BackoffUnit * (first + |rs|)] else [])
  {
    if rs != [] {
      assert (rs + [r])[1..] == rs[1..] + [r];
      BackoffSnoc(rs[1..], r, first + 1);
    }
  }

  /** `sendToTelegram`: the loop over attempts, with the sleep recorded instead of waited. */
  method SendToTelegram(replies: seq<Reply>) returns (t: Trace)
    requires |replies| == MaxAttempts
    ensures t == Relay(replies)
  {
    var delays: seq<nat> := [];
    var attempt := 1;
    while attempt <= MaxAttempts
      invariant 1 <= attempt <= MaxAttempts + 1
      invariant forall k :: 0 <= k < attempt - 1 ==> !replies[k].Ok?
      invariant delays == Backoff(replies[..attempt - 1], 1)
      invariant attempt > MaxAttempts ==> IsRateLimited(replies[MaxAttempts - 1])
    {
      assert replies[..attempt] == replies[..attempt - 1] + [replies[attempt - 1]];
      BackoffSnoc(replies[..attempt - 1], replies[attempt - 1], 1);
      match replies[attempt - 1] {
        case Ok =>
          return Trace(ReturnedOk, attempt, delays);
        case Refused(code, description) =>
          if code == RateLimitCode {
            delays := delays + [BackoffUnit * attempt];
          } else if attempt == MaxAttempts {
            return Trace(Rethrown(description), attempt, delays);
          }
        case TransportError(message) =>
          if attempt == MaxAttempts {
            return Trace(Rethrown(message), attempt, delays);
          }
      }
      attempt := attempt + 1;
    }
    assert replies[..MaxAttempts] == replies;
    t := Trace(FellThrough(replies[MaxAttempts - 1].description), MaxAttempts, delays);
  }

  /** The delays grow strictly. */
  lemma {:induction false} BackoffIncreasing(rs: seq<Reply>, first: nat)
    ensures forall d :: d in Backoff(rs, first) ==> BackoffUnit * first <= d
    ensures forall i, j :: 0 <= i < j < |Backoff(rs, first)| ==> Backoff(rs, first)[i] < Backoff(rs, first)[j]
  {
    if rs != [] {
      BackoffIncreasing(rs[1..], first + 1);
      var head := if IsRateLimited(rs[0]) then [BackoffUnit * first] else [];
      var tail := Backoff(rs[1..], first + 1);
      assert Backoff(rs, first) == head + tail;
      forall j | |head| <= j < |Backoff(rs, first)|
        ensures Backoff(rs, first)[j] == tail[j - |head|] && BackoffUnit * first < Backoff(rs, first)[j]
      {
        assert tail[j - |head|] in tail;
      }
    }
  }

  /** Every delay is `1000 * k` for an attempt k whose reply was rate limited: none follows
      any other failure. */
  lemma {:induction false} BackoffOnlyForRateLimits(rs: seq<Reply>, first: nat, d: nat)
    requires d in Backoff(rs, first)
    ensures d % BackoffUnit == 0 && first <= d / BackoffUnit < first + |rs|
    ensures IsRateLimited(rs[d / BackoffUnit - first])
  {
    var head := if IsRateLimited(rs[0]) then [BackoffUnit * first] else [];
    assert Backoff(rs, first) == head + Backoff(rs[1..], first + 1);
    if d !in head {
      BackoffOnlyForRateLimits(rs[1..], first + 1, d);
      assert rs[1..][d / BackoffUnit - (first + 1)] == rs[d / BackoffUnit - first];
    }
  }

  /** Every rate-limited attempt k requests a delay of `1000 * k`. */
  lemma {:induction false} BackoffForEveryRateLimit(rs: seq<Reply>, first: nat, k: nat)
    requires k < |rs| && IsRateLimited(rs[k])
    ensures BackoffUnit * (first + k) in Backoff(rs, first)
  {
    var head := if IsRateLimited(rs[0]) then [BackoffUnit * first] else [];
    assert Backoff(rs, first) == head + Backoff(rs[1..], first + 1);
    if k > 0 {
      assert rs[1..][k - 1] == rs[k];
      BackoffForEveryRateLimit(rs[1..], first + 1, k - 1);
    }
  }

  /** The relay's settled outcome as the upload handler sees it: whether `await
      sendToTelegram(...)` returns or throws. */
  datatype Settled = Resolved | Rejected(message: string)

  function Settle(exit: Exit, build: Build): Settled
  {
    match exit
    case ReturnedOk => Resolved
    case Rethrown(message) => Rejected(message)
    case FellThrough(description) => if build == AsWritten then Resolved else Rejected(description)
  }

  /** As written, the relay resolves when some attempt got an ok reply, and also when the
      third attempt was rate limited after two failures: the caller then reports success
      although Telegram never accepted the photo. */
  lemma SettleAsWritten(replies: seq<Reply>)
    requires |replies| == MaxAttempts
    ensures Settle(Relay(replies).exit, AsWritten) == Resolved <==>
      (exists k :: 0 <= k < MaxAttempts && replies[k].Ok?) ||
      (!replies[0].Ok? && !replies[1].Ok? && IsRateLimited(replies[2]))
  {
    var t := Relay(replies);
    if exists k :: 0 <= k < MaxAttempts && replies[k].Ok? {
      var k :| 0 <= k < MaxAttempts && replies[k].Ok?;
      assert k >= t.attempts - 1;
    }
  }

  /** The message a failed reply carries: the `description` of a refusal or the message of
      a transport error. */
  function FailureMessage(r: Reply): string
    requires !r.Ok?
  {
    if r.Refused? then r.description else r.message
  }

  /** Corrected, the relay resolves exactly when some attempt got an ok reply; otherwise it
      rejects with the third reply's message, a 429 included, like every exhausted retry. */
  lemma SettleCorrected(replies: seq<Reply>)
    requires |replies| == MaxAttempts
    ensures Settle(Relay(replies).exit, Corrected) == Resolved <==>
      exists k :: 0 <= k < MaxAttempts && replies[k].Ok?
    ensures (forall k :: 0 <= k < MaxAttempts ==> !replies[k].Ok?) ==>
      Settle(Relay(replies).exit, Corrected) == Rejected(FailureMessage(replies[MaxAttempts - 1]))
  {
    var t := Relay(replies);
    if exists k :: 0 <= k < MaxAttempts && replies[k].Ok? {
      var k :| 0 <= k < MaxAttempts && replies[k].Ok?;
      assert k >= t.attempts - 1;
    }
  }

  /** Three rate-limited replies: three requests, delays of 1, 2 and 3 seconds, and, as
      written, a relay that resolves. */
  lemma ThriceRateLimitedResolves(d1: string, d2: string, d3: string)
    ensures var t := Relay([Refused(RateLimitCode, d1), Refused(RateLimitCode, d2), Refused(RateLimitCode, d3)]);
      t == Trace(FellThrough(d3), 3, [1000, 2000, 3000]) && Settle(t.exit, AsWritten) == Resolved
  {
    var rs := [Refused(RateLimitCode, d1), Refused(RateLimitCode, d2), Refused(RateLimitCode, d3)];
    assert rs[..3] == rs;
    assert Backoff(rs[2..], 3) == [3000];
    assert Backoff(rs[1..], 2) == [2000, 3000];
  }

  /** Rate limited twice, then accepted: three requests with delays of 1 and 2 seconds. */
  lemma RateLimitedTwiceThenOk(d1: string, d2: string)
    ensures Relay([Refused(RateLimitCode, d1), Refused(RateLimitCode, d2), Ok]) == Trace(ReturnedOk, 3, [1000, 2000])
  {
    var rs := [Refused(RateLimitCode, d1), Refused(RateLimitCode, d2), Ok];
    assert rs[..3] == rs;
    assert Backoff(rs[2..], 3) == [];
    assert Backoff(rs[1..], 2) == [2000];
  }

  /** Any failure on the last attempt other than rate limiting reaches the caller with the
      message of that attempt; earlier failures only lead to another attempt. */
  lemma LastFailureRethrown(replies: seq<Reply>)
    requires |replies| == MaxAttempts
    requires forall k :: 0 <= k < MaxAttempts ==> !replies[k].Ok?
    requires replies[2].TransportError? || (replies[2].Refused? && replies[2].errorCode != RateLimitCode)
    ensures Relay(replies).attempts == MaxAttempts
    ensures Settle(Relay(replies).exit, AsWritten) ==
      Rejected(if replies[2].TransportError? then replies[2].message else replies[2].description)
  {
  }
}
