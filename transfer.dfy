/**
 * One tile transfer: `sendChunk` classifies what a single HTTP exchange with a
 * worker produced, and `sendChunkWithRetry` repeats it with exponential
 * backoff while it fails with an IOException.
 *
 * The network is a parameter: `net(k)` is what the k-th call of `sendChunk`
 * for this tile runs into. `Thread.sleep` only appends its argument to a ghost
 * log; no time passes.
 */
module Transfer {
  import opened Wrappers
  import opened Geometry

  /** What one POST of a tile to a worker ended in. */
  datatype Exchange =
    | Replied(status: int, body: Option<Image>) // a response; body is what the decoder made of it (None: it read no image)
    | IOError(reason: string)                   // the encoder, the client or the decoder threw an IOException
    | OtherError(reason: string)                // any other exception, for instance an interrupt

  /** The exceptions a transfer can end with. */
  datatype Failure =
    | BadStatus(status: int)                        // IOException for a response other than 200
    | Transport(reason: string)                     // IOException from the transport or the codec
    | Escaped(reason: string)                       // an exception that is not an IOException
    | Exhausted(maxRetries: int, cause: Option<Failure>) // IOException after the last attempt, with the last failure as cause
    | NegativeSleep(delay: int)                     // Thread.sleep refused a negative delay

  /** How one call of `sendChunk` ends: a returned image, an IOException, or another exception. */
  datatype Attempt =
    | Returned(image: Option<Image>)
    | ThrowsIO(failure: Failure)
    | Throws(failure: Failure)

  /** The result of a whole transfer, as the future of a tile's job yields it. */
  type Outcome = Result<Option<Image>, Failure>

  /** Status 200 returns the decoded body; every other status is an IOException. */
  function SendChunk(e: Exchange): (a: Attempt)
    ensures a.Returned? <==> e.Replied? && e.status == 200
    ensures a.Returned? ==> a.image == e.body
    ensures a.ThrowsIO? <==> e.IOError? || (e.Replied? && e.status != 200)
    ensures e.Replied? && e.status != 200 ==> a.failure == BadStatus(e.status)
  {
    match e
    case Replied(status, body) => if status == 200 then Returned(body) else ThrowsIO(BadStatus(status))
    case IOError(reason) => ThrowsIO(Transport(reason))
    case OtherError(reason) => Throws(Escaped(reason))
  }

  predicate IsIOFailure(e: Exchange) {
    SendChunk(e).ThrowsIO?
  }

  // ---------------------------------------------------------------------------
  // The backoff delay is a Java `long`.

  const InitialDelay: int := 1000
  const TwoTo63: int := 0x8000_0000_0000_0000

  function Pow2(n: nat): (p: nat)
    ensures p >= 1
  {
    if n == 0 then 1 else 2 * Pow2(n - 1)
  }

  /** Two's complement wrap-around of a 64-bit `long`. */
  function JavaLong(v: int): (r: int)
    ensures -TwoTo63 <= r < TwoTo63
    ensures -TwoTo63 <= v < TwoTo63 ==> r == v
  {
    (v + TwoTo63) % (2 * TwoTo63) - TwoTo63
  }

  /** The wrapped value differs from the exact one by a whole multiple of 2^64. */
  lemma JavaLongWraps(v: int)
    ensures (JavaLong(v) - v) % (2 * TwoTo63) == 0
  {
  }

  /** The value of `delay` after `j` doublings. */
  function Delay(j: nat): (d: int)
    ensures -TwoTo63 <= d < TwoTo63
  {
    if j == 0 then InitialDelay else JavaLong(2 * Delay(j - 1))
  }

  /** The number of sleeps that can happen before `delay` has wrapped to a negative value. */
  const SleepLimit: nat := 54

  lemma {:induction false} Pow2Monotone(i: nat, j: nat)
    requires i <= j
    ensures Pow2(i) <= Pow2(j)
  {
    if i < j {
      Pow2Monotone(i, j - 1);
    }
  }

  lemma {:induction false} Pow2Add(a: nat, b: nat)
    ensures Pow2(a + b) == Pow2(a) * Pow2(b)
  {
    if b > 0 {
      Pow2Add(a, b - 1);
    }
  }

  lemma Pow2Of16()
    ensures Pow2(16) == 0x1_0000
  {
    Pow2Add(8, 8);
  }

  lemma Pow2Of48()
    ensures Pow2(48) == 0x1_0000_0000_0000
  {
    Pow2Of16();
    Pow2Add(16, 16);
    Pow2Add(32, 16);
  }

  lemma Pow2Of52()
    ensures Pow2(52) == 0x10_0000_0000_0000
  {
    Pow2Of48();
    Pow2Add(48, 4);
  }

  /** Up to the SleepLimit-th doubling, `delay` is 1000 * 2^j: no wrap-around yet. */
  lemma {:induction false} DelayDoubles(j: nat)
    requires j < SleepLimit
    ensures Delay(j) == InitialDelay * Pow2(j)
  {
    if j > 0 {
      DelayDoubles(j - 1);
      var p := Pow2(j - 1);
      Pow2Monotone(j - 1, 52);
      Pow2Of52();
      assert p <= 0x10_0000_0000_0000;
      assert 2 * Delay(j - 1) == 2 * (InitialDelay * p) < TwoTo63;
    }
  }

  /** The first SleepLimit delays are positive; the next one has wrapped below zero. */
  lemma DelaySign(j: nat)
    requires j <= SleepLimit
    ensures j < SleepLimit ==> Delay(j) > 0
    ensures j == SleepLimit ==> Delay(j) < 0
  {
    if j < SleepLimit {
      DelayDoubles(j);
    } else {
      DelayDoubles(j - 1);
      Pow2Add(52, 1);
      Pow2Of52();
      assert Delay(j - 1) == InitialDelay * 0x20_0000_0000_0000;
    }
  }

  /** A delay that can still be slept comes before the wrap-around. */
  lemma SleepableBelowLimit(j: nat)
    requires j <= SleepLimit && Delay(j) >= 0
    ensures j < SleepLimit
  {
    DelaySign(j);
  }

  /** The first `m` values of `delay`, in the order they are slept. */
  function Schedule(m: nat): (s: seq<int>)
    ensures |s| == m
  {
    seq(m, j requires 0 <= j < m => Delay(j))
  }

  /** `delay *= 2` takes the value of `delay` before one sleep to its value before the next. */
  lemma DelayNext(j: nat)
    ensures Delay(j + 1) == JavaLong(Delay(j) * 2)
  {
  }

  /** One more sleep extends the schedule by the next delay. */
  lemma ScheduleStep(m: nat)
    ensures Schedule(m) + [Delay(m)] == Schedule(m + 1)
  {
    assert forall j :: 0 <= j < m + 1 ==> (Schedule(m) + [Delay(m)])[j] == Schedule(m + 1)[j];
  }

  // ---------------------------------------------------------------------------
  // What sendChunkWithRetry does, stated in closed form.

  /** The number of attempts the loop allows: `maxRetries`, or none when it is not positive. */
  function Attempts(maxRetries: int): nat {
    if maxRetries > 0 then maxRetries else 0
  }

  /** The first attempt at or after `from` and before `n` that does not fail with an IOException, or `n`. */
  function FirstStop(net: nat -> Exchange, from: nat, n: nat): (k: nat)
    requires from <= n
    ensures from <= k <= n
    ensures forall j :: from <= j < k ==> IsIOFailure(net(j))
    ensures k < n ==> !IsIOFailure(net(k))
    decreases n - from
  {
    if from == n || !IsIOFailure(net(from)) then from else FirstStop(net, from + 1, n)
  }

  /** How many times the loop reaches `Thread.sleep`: after every IOException but the one on the last attempt. */
  function SleepsReached(net: nat -> Exchange, maxRetries: int): nat {
    var n := Attempts(maxRetries);
    var k := FirstStop(net, 0, n);
    if k < n then k else if n == 0 then 0 else n - 1
  }

  /** What the transfer returns or throws. */
  function RetryResult(net: nat -> Exchange, maxRetries: int): Outcome {
    var n := Attempts(maxRetries);
    var k := FirstStop(net, 0, n);
    if SleepsReached(net, maxRetries) > SleepLimit then
      Err(NegativeSleep(Delay(SleepLimit)))
    else if k < n then
      var a := SendChunk(net(k));
      if a.Returned? then Ok(a.image) else Err(a.failure)
    else
      Err(Exhausted(maxRetries, if n == 0 then None else Some(SendChunk(net(n - 1)).failure)))
  }

  /** How many times `sendChunk` is called. */
  function RetryCalls(net: nat -> Exchange, maxRetries: int): nat {
    var n := Attempts(maxRetries);
    var k := FirstStop(net, 0, n);
    if SleepsReached(net, maxRetries) > SleepLimit then SleepLimit + 1
    else if k < n then k + 1
    else n
  }

  /** The delays slept, in order. */
  function RetrySleeps(net: nat -> Exchange, maxRetries: int): seq<int> {
    var s := SleepsReached(net, maxRetries);
    Schedule(if s <= SleepLimit then s else SleepLimit)
  }

  /**
   * sendChunkWithRetry: call sendChunk until it returns, throws something other
   * than an IOException, or has failed `maxRetries` times; sleep `delay` after
   * each IOException but the last, doubling it each time.
   */
  method SendChunkWithRetry(net: nat -> Exchange, maxRetries: int)
    returns (r: Outcome, ghost calls: nat, ghost sleeps: seq<int>)
    ensures r == RetryResult(net, maxRetries)
    ensures calls == RetryCalls(net, maxRetries) <= Attempts(maxRetries)
    ensures sleeps == RetrySleeps(net, maxRetries)
  {
    var attempt := 0;
    var delay := InitialDelay;
    var lastException: Option<Failure> := None;
    calls, sleeps := 0, [];
    assert sleeps == Schedule(0);
    ghost var n := Attempts(maxRetries);
    ghost var k := FirstStop(net, 0, n);
    while attempt < maxRetries
      invariant 0 <= attempt <= n && attempt <= k
      invariant calls == attempt
      invariant attempt < n ==> attempt <= SleepLimit && delay == Delay(attempt)
      invariant attempt == n && n > 0 ==> n - 1 <= SleepLimit
      invariant sleeps == Schedule(if attempt < n || n == 0 then attempt else n - 1)
      invariant lastException == if attempt == 0 then None else Some(SendChunk(net(attempt - 1)).failure)
      decreases n - attempt
    {
      var a := SendChunk(net(attempt));
      calls := calls + 1;
      match a
      case Returned(image) =>
        r := Ok(image);
        return;
      case Throws(failure) =>
        r := Err(failure);
        return;
      case ThrowsIO(failure) =>
        attempt := attempt + 1;
        lastException := Some(failure);
        if attempt < maxRetries {
          if delay < 0 {
            DelaySign(attempt - 1);
            r := Err(NegativeSleep(delay));
            return;
          }
          SleepableBelowLimit(attempt - 1);
          ScheduleStep(attempt - 1);
          DelayNext(attempt - 1);
          sleeps := sleeps + [delay];
          delay := JavaLong(delay * 2);
          assert delay == Delay(attempt);
        }
    }
    r := Err(Exhausted(maxRetries, lastException));
  }
}

/** Properties of the retry loop, stated on its closed form. */
module TransferProperties {
  import opened Wrappers
  import opened Geometry
  import opened Transfer

  /** FirstStop is the unique attempt index with all earlier attempts failing with an IOException. */
  lemma FirstStopIs(net: nat -> Exchange, n: nat, k: nat)
    requires k <= n
    requires forall j :: 0 <= j < k ==> IsIOFailure(net(j))
    requires k < n ==> !IsIOFailure(net(k))
    ensures FirstStop(net, 0, n) == k
  {
  }

  /**
   * The first call that returns decides the result: after k IOExceptions and a
   * response with status 200 on attempt k, the body is returned, sendChunk was
   * called k + 1 times and k sleeps happened.
   */
  lemma RetryReturnsFirstSuccess(net: nat -> Exchange, maxRetries: int, k: nat)
    requires k < maxRetries && k <= SleepLimit
    requires forall j :: 0 <= j < k ==> IsIOFailure(net(j))
    requires net(k).Replied? && net(k).status == 200
    ensures RetryResult(net, maxRetries) == Ok(net(k).body)
    ensures RetryCalls(net, maxRetries) == k + 1
    ensures RetrySleeps(net, maxRetries) == Schedule(k)
  {
  }

  /** An exception that is not an IOException is not retried: it is thrown at once, with no further call and no sleep. */
  lemma RetryOtherExceptionEscapes(net: nat -> Exchange, maxRetries: int, k: nat)
    requires k < maxRetries && k <= SleepLimit
    requires forall j :: 0 <= j < k ==> IsIOFailure(net(j))
    requires net(k).OtherError?
    ensures RetryResult(net, maxRetries) == Err(Escaped(net(k).reason))
    ensures RetryCalls(net, maxRetries) == k + 1
    ensures RetrySleeps(net, maxRetries) == Schedule(k)
  {
  }

  /**
   * When every attempt fails with an IOException (a bad status included), there
   * are exactly maxRetries calls and maxRetries - 1 sleeps, and the thrown
   * IOException carries the last failure as its cause.
   */
  lemma RetryExhausted(net: nat -> Exchange, maxRetries: int)
    requires 0 < maxRetries <= SleepLimit + 1
    requires forall j :: 0 <= j < maxRetries ==> IsIOFailure(net(j))
    ensures IsIOFailure(net(maxRetries - 1))
    ensures RetryResult(net, maxRetries) == Err(Exhausted(maxRetries, Some(SendChunk(net(maxRetries - 1)).failure)))
    ensures RetryCalls(net, maxRetries) == maxRetries
    ensures |RetrySleeps(net, maxRetries)| == maxRetries - 1
  {
  }

  /** A returned image is the body of a response with status 200 to the first attempt that did not throw an IOException. */
  lemma RetryResultIsReply(net: nat -> Exchange, maxRetries: int)
    ensures var n, k := Attempts(maxRetries), FirstStop(net, 0, Attempts(maxRetries));
      RetryResult(net, maxRetries).Ok? ==>
        k < n && net(k).Replied? && net(k).status == 200 && RetryResult(net, maxRetries).value == net(k).body
  {
  }

  /** With no attempt allowed, sendChunk is never called and the thrown IOException has no cause. */
  lemma RetryNoAttempt(net: nat -> Exchange, maxRetries: int)
    requires maxRetries <= 0
    ensures RetryResult(net, maxRetries) == Err(Exhausted(maxRetries, None))
    ensures RetryCalls(net, maxRetries) == 0
    ensures RetrySleeps(net, maxRetries) == []
  {
  }

  /** The j-th sleep (from 0) lasts 1000 * 2^j milliseconds: 1000, 2000, 4000, ... */
  lemma BackoffSchedule(net: nat -> Exchange, maxRetries: int)
    ensures |RetrySleeps(net, maxRetries)| <= SleepLimit
    ensures forall j :: 0 <= j < |RetrySleeps(net, maxRetries)| ==>
      RetrySleeps(net, maxRetries)[j] == InitialDelay * Pow2(j)
  {
    var s := RetrySleeps(net, maxRetries);
    forall j | 0 <= j < |s|
      ensures s[j] == InitialDelay * Pow2(j)
    {
      DelayDoubles(j);
    }
  }

  /**
   * A sleep happens only after an IOException that was not on the last attempt:
   * the number of sleeps is one less than the number of calls when the
   * attempts ran out, and equal to the number of failed calls otherwise.
   */
  lemma SleepsFollowFailures(net: nat -> Exchange, maxRetries: int)
    ensures RetryResult(net, maxRetries).Err? && RetryResult(net, maxRetries).error.Exhausted? ==>
      |RetrySleeps(net, maxRetries)| == if maxRetries > 0 then RetryCalls(net, maxRetries) - 1 else 0
    ensures !(RetryResult(net, maxRetries).Err? && RetryResult(net, maxRetries).error.Exhausted?) ==>
      |RetrySleeps(net, maxRetries)| == RetryCalls(net, maxRetries) - 1
    ensures forall j :: 0 <= j < |RetrySleeps(net, maxRetries)| ==> IsIOFailure(net(j))
  {
  }

  /**
   * Java's `long` delay wraps to a negative value at the 55th sleep, which
   * Thread.sleep refuses; this needs at least 56 allowed attempts.
   */
  lemma NegativeSleepNeedsManyAttempts(net: nat -> Exchange, maxRetries: int)
    ensures RetryResult(net, maxRetries).Err? && RetryResult(net, maxRetries).error.NegativeSleep? <==>
      SleepsReached(net, maxRetries) > SleepLimit
    ensures SleepsReached(net, maxRetries) > SleepLimit ==>
      maxRetries > SleepLimit + 1 && RetryResult(net, maxRetries).error.delay < 0
  {
    if SleepsReached(net, maxRetries) > SleepLimit {
      DelaySign(SleepLimit);
    }
  }
}
