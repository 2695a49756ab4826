/**
 * Vocabulary shared by both revisions of the per-segment retry loop: what one request
 * can return, what the loop does that can be observed (requests, sleeps, log events),
 * and the trace left by a run of failed attempts.
 */
module Retry {
  import opened Common

  /** Outcome of one `httpx.get(segment_uri)` followed by `raise_for_status()`. */
  datatype Attempt =
    | Reply(status: int, body: Bytes)  // a response arrived
    | RequestFailed                    // httpx.RequestError: no response at all

  /** `raise_for_status` passes 2xx responses and raises HTTPStatusError otherwise. */
  predicate Succeeded(a: Attempt) {
    a.Reply? && 200 <= a.status < 300
  }

  /** Log events of the segment download. */
  datatype Event =
    | RetryingSegment(attempt: nat)  // "Request error ... Retrying (attempt+1/retries)"
    | DecryptionError                // "Padding error ... Proceeding with partial data."
    | FailedSegmentDownload          // "Failed to download <uri>"

  /** One observable step of the loop. */
  datatype Step = Get(attempt: nat) | Sleep(seconds: real) | Log(event: Event)

  /** Index of the first successful attempt at or after `i`, or `retries` if there is none. */
  function FirstSuccessFrom(outcomes: seq<Attempt>, retries: nat, i: nat): (k: nat)
    requires i <= retries <= |outcomes|
    ensures i <= k <= retries
    ensures k < retries ==> Succeeded(outcomes[k])
    ensures forall j :: i <= j < k ==> !Succeeded(outcomes[j])
    decreases retries - i
  {
    if i == retries then retries
    else if Succeeded(outcomes[i]) then i
    else FirstSuccessFrom(outcomes, retries, i + 1)
  }

  /** The attempt that ends the loop, or `retries` when every attempt fails. */
  function FirstSuccess(outcomes: seq<Attempt>, retries: nat): (k: nat)
    requires retries <= |outcomes|
    ensures k <= retries
    ensures k < retries ==> Succeeded(outcomes[k])
    ensures forall j :: 0 <= j < k ==> !Succeeded(outcomes[j])
  {
    FirstSuccessFrom(outcomes, retries, 0)
  }

  /** The first success is the attempt that succeeds after failures only. */
  lemma FirstSuccessIs(outcomes: seq<Attempt>, retries: nat, k: nat)
    requires k <= retries <= |outcomes|
    requires forall j :: 0 <= j < k ==> !Succeeded(outcomes[j])
    requires k < retries ==> Succeeded(outcomes[k])
    ensures FirstSuccess(outcomes, retries) == k
  {
  }

  /**
   * What a failed attempt `i` leaves behind: the request, then, unless it was the last
   * allowed attempt, a sleep of `delays[i]` seconds and a retry log line.
   */
  function FailedAttempt(i: nat, retries: nat, delays: seq<real>): seq<Step>
    requires i < retries <= |delays|
  {
    if i < retries - 1 then [Get(i), Sleep(delays[i]), Log(RetryingSegment(i))] else [Get(i)]
  }

  /** Trace of failed attempts `0 .. n-1`. */
  function FailPrefix(n: nat, retries: nat, delays: seq<real>): seq<Step>
    requires n <= retries <= |delays|
  {
    if n == 0 then [] else FailPrefix(n - 1, retries, delays) + FailedAttempt(n - 1, retries, delays)
  }

  /** `[0, 1, ..., n-1]`. */
  function Upto(n: nat): (r: seq<nat>)
    ensures |r| == n && forall i :: 0 <= i < n ==> r[i] == i
  {
    if n == 0 then [] else Upto(n - 1) + [n - 1]
  }

  /** Attempt numbers of the requests in a trace, in order. */
  function Gets(t: seq<Step>): seq<nat> {
    if t == [] then [] else (if t[0].Get? then [t[0].attempt] else []) + Gets(t[1..])
  }

  /** Durations of the sleeps in a trace, in order. */
  function Sleeps(t: seq<Step>): seq<real> {
    if t == [] then [] else (if t[0].Sleep? then [t[0].seconds] else []) + Sleeps(t[1..])
  }

  lemma {:induction false} GetsAppend(a: seq<Step>, b: seq<Step>)
    ensures Gets(a + b) == Gets(a) + Gets(b)
  {
    if a == [] {
      assert a + b == b;
    } else {
      assert (a + b)[0] == a[0];
      assert (a + b)[1..] == a[1..] + b;
      GetsAppend(a[1..], b);
    }
  }

  lemma {:induction false} SleepsAppend(a: seq<Step>, b: seq<Step>)
    ensures Sleeps(a + b) == Sleeps(a) + Sleeps(b)
  {
    if a == [] {
      assert a + b == b;
    } else {
      assert (a + b)[0] == a[0];
      assert (a + b)[1..] == a[1..] + b;
      SleepsAppend(a[1..], b);
    }
  }

  /** `n` failed attempts are exactly the requests `0 .. n-1`, in order. */
  lemma {:induction false} FailPrefixGets(n: nat, retries: nat, delays: seq<real>)
    requires n <= retries <= |delays|
    ensures Gets(FailPrefix(n, retries, delays)) == Upto(n)
  {
    if n > 0 {
      var i := n - 1;
      FailPrefixGets(i, retries, delays);
      GetsAppend(FailPrefix(i, retries, delays), FailedAttempt(i, retries, delays));
      var f := FailedAttempt(i, retries, delays);
      if i < retries - 1 {
        assert Gets(f) == [i] + Gets([Sleep(delays[i]), Log(RetryingSegment(i))]);
        assert Gets([Sleep(delays[i]), Log(RetryingSegment(i))]) == Gets([Log(RetryingSegment(i))]);
      } else {
        assert Gets(f) == [i] + Gets([]);
      }
    }
  }

  /**
   * `n` failed attempts slept `delays[0..]`, one sleep per failed attempt except the
   * last allowed one: `min(n, retries - 1)` sleeps in all.
   */
  lemma {:induction false} FailPrefixSleeps(n: nat, retries: nat, delays: seq<real>)
    requires n <= retries <= |delays|
    ensures Sleeps(FailPrefix(n, retries, delays)) == delays[..SleepCount(n, retries)]
  {
    if n > 0 {
      var i := n - 1;
      FailPrefixSleeps(i, retries, delays);
      SleepsAppend(FailPrefix(i, retries, delays), FailedAttempt(i, retries, delays));
      var f := FailedAttempt(i, retries, delays);
      if i < retries - 1 {
        assert Sleeps(f) == [delays[i]] + Sleeps([Log(RetryingSegment(i))]) by {
          assert f[1..] == [Sleep(delays[i]), Log(RetryingSegment(i))];
        }
        assert Sleeps([Log(RetryingSegment(i))]) == Sleeps([]);
        assert delays[..i] + [delays[i]] == delays[..n];
      } else {
        assert Sleeps(f) == Sleeps([]);
      }
    }
  }

  /** Sleeps after `n` failed attempts: all but the last allowed attempt sleep. */
  function SleepCount(n: nat, retries: nat): nat
    requires n <= retries
  {
    if n < retries then n else if n == 0 then 0 else n - 1
  }

  /** Every sleep in the trace of failed attempts was scheduled right after a failed request. */
  lemma {:induction false} FailPrefixSleepFollowsGet(n: nat, retries: nat, delays: seq<real>, p: nat)
    requires n <= retries <= |delays|
    requires p < |FailPrefix(n, retries, delays)| && FailPrefix(n, retries, delays)[p].Sleep?
    ensures p > 0 && FailPrefix(n, retries, delays)[p - 1].Get?
    ensures FailPrefix(n, retries, delays)[p - 1].attempt < retries - 1
  {
    var i := n - 1;
    var pre := FailPrefix(i, retries, delays);
    if p < |pre| {
      FailPrefixSleepFollowsGet(i, retries, delays, p);
    }
  }
}
