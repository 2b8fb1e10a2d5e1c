/**
 `send_files`: one grouped media message, sent with up to `Retries` attempts and
 an exponential backoff between failed attempts. The chat client is replaced by an
 outcome oracle `delivers`, where `delivers(i)` says whether attempt `i` (counted
 from 0) returned without raising; `asyncio.sleep` is recorded as the list of
 requested durations in seconds.
 */
module SendRetry {

  type Url = string

  /** `retries` in photos.py. */
  const Retries: nat := 3
  /** `initial_sleep_time` in photos.py, in seconds. */
  const InitialSleep: nat := 5

  function Pow2(n: nat): (r: nat)
    ensures r >= 1
  {
    if n == 0 then 1 else 2 * Pow2(n - 1)
  }

  /** Seconds slept after the failed attempt number `attempt`: `5 * 2 ** attempt`. */
  function Backoff(attempt: nat): (seconds: nat)
    ensures attempt == 0 ==> seconds == InitialSleep
    ensures attempt > 0 ==> seconds == 2 * Backoff(attempt - 1)
  {
    InitialSleep * Pow2(attempt)
  }

  /** `set(urls)`. */
  function Elements(urls: seq<Url>): (r: set<Url>)
    ensures forall u :: u in r <==> u in urls
  {
    set u | u in urls
  }

  function Sum(xs: seq<nat>): (total: nat)
    ensures xs != [] ==> total >= xs[0]
  {
    if xs == [] then 0 else xs[0] + Sum(xs[1..])
  }

  /** What one call of `send_files` did and returned. */
  datatype SendReport = SendReport(
    /** number of `send_message` calls made */
    attempts: nat,
    /** durations passed to `asyncio.sleep`, in order */
    sleeps: seq<nat>,
    /** whether some attempt succeeded */
    delivered: bool,
    /** the value returned to the caller */
    returned: set<Url>)

  /**
   The behaviour `send_files` promises: nothing is attempted for an empty list;
   otherwise attempts run until the first success, at most `Retries` of them;
   every failed attempt except the last one is followed by its backoff; the
   result is the set of the urls whatever happened.
   */
  ghost predicate Conforms(urls: seq<Url>, delivers: nat -> bool, r: SendReport)
  {
    && r.returned == Elements(urls)
    && (urls == [] ==> r.attempts == 0 && r.sleeps == [] && !r.delivered)
    && (urls != [] ==>
          && 1 <= r.attempts <= Retries
          && (forall i :: 0 <= i < r.attempts - 1 ==> !delivers(i))
          && (r.delivered <==> delivers(r.attempts - 1))
          && (!r.delivered ==> r.attempts == Retries)
          && |r.sleeps| == r.attempts - 1
          && forall i :: 0 <= i < |r.sleeps| ==> r.sleeps[i] == Backoff(i))
  }

  /** The retry loop of `send_files`. It has no error result: every failure is caught. */
  method SendFiles(urls: seq<Url>, delivers: nat -> bool) returns (r: SendReport)
    ensures Conforms(urls, delivers, r)
  {
    var attempts: nat := 0;
    var sleeps: seq<nat> := [];
    var delivered := false;
    if urls != [] {
      var attempt: nat := 0;
      while attempt < Retries
        invariant attempt <= Retries
        invariant attempts == attempt
        invariant forall i :: 0 <= i < attempt ==> !delivers(i)
        invariant |sleeps| == (if attempt == Retries then Retries - 1 else attempt)
        invariant forall i :: 0 <= i < |sleeps| ==> sleeps[i] == Backoff(i)
        invariant !delivered
      {
        attempts := attempts + 1;
        if delivers(attempt) {
          delivered := true;
          break;
        }
        if attempt != Retries - 1 {
          sleeps := sleeps + [Backoff(attempt)];
        }
        attempt := attempt + 1;
      }
    }
    r := SendReport(attempts, sleeps, delivered, Elements(urls));
  }

  /** The promise above pins down the report completely. */
  lemma {:induction false} ConformsIsDeterministic(urls: seq<Url>, delivers: nat -> bool, r1: SendReport, r2: SendReport)
    requires Conforms(urls, delivers, r1)
    requires Conforms(urls, delivers, r2)
    ensures r1 == r2
  {
    if urls != [] {
      assert r1.attempts == r2.attempts;
      assert r1.sleeps == r2.sleeps;
    }
  }

  /** Delivery succeeds exactly when one of the first `Retries` attempts would succeed; the first such attempt is the last one made. */
  lemma DeliveredIffSomeAttemptSucceeds(urls: seq<Url>, delivers: nat -> bool, r: SendReport)
    requires urls != []
    requires Conforms(urls, delivers, r)
    ensures r.delivered <==> exists i :: 0 <= i < Retries && delivers(i)
    ensures r.delivered ==> r.attempts - 1 == FirstSuccess(delivers, 0)
  {
    if !r.delivered {
      assert forall i :: 0 <= i < Retries ==> !delivers(i) by {
        assert !delivers(Retries - 1);
      }
    }
  }

  /** Index of the first succeeding attempt at or after `from`, or `Retries` if none. */
  function FirstSuccess(delivers: nat -> bool, from: nat): (k: nat)
    decreases Retries - from
  {
    if from >= Retries then Retries
    else if delivers(from) then from
    else FirstSuccess(delivers, from + 1)
  }

  /** The whole backoff of a total failure: 5 + 10 seconds. */
  lemma FullScheduleSum()
    ensures Sum([Backoff(0), Backoff(1)]) == 15
  {
    assert [Backoff(0), Backoff(1)][1..] == [Backoff(1)];
    assert [Backoff(1)][1..] == [];
  }

  /** Backoff never totals more than 5 + 10 seconds. */
  lemma BackoffAtMostFifteen(urls: seq<Url>, delivers: nat -> bool, r: SendReport)
    requires Conforms(urls, delivers, r)
    ensures Sum(r.sleeps) <= 15
  {
    if urls != [] {
      assert Backoff(0) == 5 && Backoff(1) == 10;
      if |r.sleeps| == 2 {
        assert r.sleeps == [Backoff(0), Backoff(1)];
        FullScheduleSum();
      } else if |r.sleeps| == 1 {
        assert r.sleeps[1..] == [];
      }
    }
  }

  /** Three failures: three attempts, sleeps of 5 and 10 seconds and nothing after the last, not delivered. */
  lemma TotalFailure(urls: seq<Url>, delivers: nat -> bool, r: SendReport)
    requires urls != []
    requires !delivers(0) && !delivers(1) && !delivers(2)
    requires Conforms(urls, delivers, r)
    ensures r.attempts == 3 && !r.delivered
    ensures r.sleeps == [5, 10] && Sum(r.sleeps) == 15
    ensures r.returned == Elements(urls)
  {
    assert Backoff(0) == 5 && Backoff(1) == 10;
    FullScheduleSum();
  }

  /** Two failures then a success: delivered on the third attempt after 5 + 10 seconds of backoff. */
  lemma SuccessOnThirdAttempt(urls: seq<Url>, delivers: nat -> bool, r: SendReport)
    requires urls != []
    requires !delivers(0) && !delivers(1) && delivers(2)
    requires Conforms(urls, delivers, r)
    ensures r.attempts == 3 && r.delivered
    ensures r.sleeps == [5, 10] && Sum(r.sleeps) == 15
  {
    assert Backoff(0) == 5 && Backoff(1) == 10;
    FullScheduleSum();
  }

  /** A first-attempt success costs nothing and sends once. */
  lemma SuccessOnFirstAttempt(urls: seq<Url>, delivers: nat -> bool)
    requires urls != []
    requires delivers(0)
    ensures forall r :: Conforms(urls, delivers, r) ==> r.attempts == 1 && r.delivered && r.sleeps == []
  {
  }
}
