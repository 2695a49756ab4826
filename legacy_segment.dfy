/**
 * The older downloader's single-segment download (`download_segment`): up to 5
 * attempts, an uncapped `3^(attempt+1) + jitter` backoff, and no padding recovery.
 * Only HTTP errors are caught, so the ValueError that CBC decryption raises on a body
 * that is not a whole number of blocks escapes the loop instead of being retried.
 */
module LegacySegment {
  import opened Common
  import opened Retry
  import Pkcs7
  import Backoff

  /** Default `retries` of `download_segment`. */
  const DefaultRetries: nat := 5

  /** What a segment task hands back: bytes or `None`, or the exception it raised. */
  datatype Outcome = Fetched(data: Option<Bytes>) | DecryptRaised

  /** CBC decryption of a whole number of blocks; `None` is the ValueError otherwise. */
  function CheckedDecrypt(data: Bytes, dec: Bytes -> Bytes, bs: int): (r: Option<Bytes>)
    requires Pkcs7.ValidBlockSize(bs)
    ensures r.Some? <==> |data| % bs == 0
    ensures r.Some? ==> r.value == dec(data)
  {
    if |data| % bs == 0 then Some(dec(data)) else None
  }

  function Delays(jitters: seq<real>, retries: nat): (d: seq<real>)
    requires retries <= |jitters|
    ensures |d| == retries
    ensures forall i :: 0 <= i < retries ==> d[i] == Backoff.LegacyDelay(i, jitters[i])
  {
    seq(retries, i requires 0 <= i < retries => Backoff.LegacyDelay(i, jitters[i]))
  }

  datatype Run = Run(outcome: Outcome, trace: seq<Step>)

  predicate Env(outcomes: seq<Attempt>, jitters: seq<real>, retries: nat, bs: int) {
    retries <= |outcomes| && retries <= |jitters| && Pkcs7.ValidBlockSize(bs)
  }

  /** What `download_segment` does, stated through the first successful attempt. */
  function Fetch(outcomes: seq<Attempt>, jitters: seq<real>, retries: nat, dec: Bytes -> Bytes, bs: int): Run
    requires Env(outcomes, jitters, retries, bs)
  {
    var k := FirstSuccess(outcomes, retries);
    var delays := Delays(jitters, retries);
    if k < retries then
      var trace := FailPrefix(k, retries, delays) + [Get(k)];
      match CheckedDecrypt(outcomes[k].body, dec, bs)
      case Some(plain) => Run(Fetched(Some(plain)), trace)
      case None => Run(DecryptRaised, trace)
    else
      Run(Fetched(None), FailPrefix(retries, retries, delays) + [Log(FailedSegmentDownload)])
  }

  /** `download_segment`: the retry loop, returning from inside the `try`. */
  method DownloadSegment(outcomes: seq<Attempt>, jitters: seq<real>, dec: Bytes -> Bytes, bs: int, retries: nat)
    returns (outcome: Outcome, trace: seq<Step>)
    requires Env(outcomes, jitters, retries, bs)
    ensures Run(outcome, trace) == Fetch(outcomes, jitters, retries, dec, bs)
  {
    ghost var delays := Delays(jitters, retries);
    trace := [];
    for attempt := 0 to retries
      invariant trace == FailPrefix(attempt, retries, delays)
      invariant forall j :: 0 <= j < attempt ==> !Succeeded(outcomes[j])
    {
      var response := outcomes[attempt];
      trace := trace + [Get(attempt)];
      if Succeeded(response) {
        FirstSuccessIs(outcomes, retries, attempt);
        if |response.body| % bs != 0 {
          return DecryptRaised, trace;
        }
        return Fetched(Some(dec(response.body))), trace;
      }
      if attempt < retries - 1 {
        var delay := Backoff.Pow(3, attempt + 1) as real + jitters[attempt];
        trace := trace + [Sleep(delay), Log(RetryingSegment(attempt))];
        continue;
      }
    }
    FirstSuccessIs(outcomes, retries, retries);
    trace := trace + [Log(FailedSegmentDownload)];
    outcome := Fetched(None);
  }

  /**
   * Requests are attempts 0, 1, ... in order, at most `retries` of them, and the first
   * successful response ends them even when its decryption raises: a decryption error
   * is never retried. A success yields exactly `dec(body)`, with no padding handling.
   */
  lemma FetchRequests(outcomes: seq<Attempt>, jitters: seq<real>, retries: nat, dec: Bytes -> Bytes, bs: int)
    requires Env(outcomes, jitters, retries, bs)
    ensures var r := Fetch(outcomes, jitters, retries, dec, bs);
            var k := FirstSuccess(outcomes, retries);
            && Gets(r.trace) == Upto(if k < retries then k + 1 else retries)
            && |Gets(r.trace)| <= retries
            && (r.outcome == Fetched(None) <==> forall j :: 0 <= j < retries ==> !Succeeded(outcomes[j]))
            && (r.outcome == DecryptRaised <==> k < retries && |outcomes[k].body| % bs != 0)
            && (r.outcome.Fetched? && r.outcome.data.Some? ==> r.outcome.data.value == dec(outcomes[k].body))
  {
    var k := FirstSuccess(outcomes, retries);
    var delays := Delays(jitters, retries);
    if k < retries {
      FailPrefixGets(k, retries, delays);
      GetsAppend(FailPrefix(k, retries, delays), [Get(k)]);
      assert Gets([Get(k)]) == [k] + Gets([]);
      assert Upto(k) + [k] == Upto(k + 1);
    } else {
      FailPrefixGets(retries, retries, delays);
      GetsAppend(FailPrefix(retries, retries, delays), [Log(FailedSegmentDownload)]);
      assert Gets([Log(FailedSegmentDownload)]) == Gets([]);
    }
  }

  /**
   * The sleeps are `3^(i+1) + jitter_i` for the failed attempts `i` before the last
   * allowed one; each is at least 4 seconds, none is capped, and they strictly increase.
   */
  lemma FetchSleeps(outcomes: seq<Attempt>, jitters: seq<real>, retries: nat, dec: Bytes -> Bytes, bs: int)
    requires Env(outcomes, jitters, retries, bs)
    requires forall i :: 0 <= i < |jitters| ==> Backoff.ValidJitter(jitters[i])
    ensures var r := Fetch(outcomes, jitters, retries, dec, bs);
            var k := FirstSuccess(outcomes, retries);
            var s := Sleeps(r.trace);
            && s == Delays(jitters, retries)[..SleepCount(k, retries)]
            && (forall i :: 0 <= i < |s| ==> s[i] >= 4.0)
            && (forall i, j :: 0 <= i < j < |s| ==> s[i] < s[j])
  {
    var k := FirstSuccess(outcomes, retries);
    var delays := Delays(jitters, retries);
    var r := Fetch(outcomes, jitters, retries, dec, bs);
    if k < retries {
      FailPrefixSleeps(k, retries, delays);
      SleepsAppend(FailPrefix(k, retries, delays), [Get(k)]);
      assert Sleeps([Get(k)]) == Sleeps([]);
    } else {
      FailPrefixSleeps(retries, retries, delays);
      SleepsAppend(FailPrefix(retries, retries, delays), [Log(FailedSegmentDownload)]);
      assert Sleeps([Log(FailedSegmentDownload)]) == Sleeps([]);
    }
    DelaysBounded(jitters, retries);
  }

  /** Every planned delay is at least 4 seconds, and each is longer than the one before. */
  lemma DelaysBounded(jitters: seq<real>, retries: nat)
    requires retries <= |jitters|
    requires forall i :: 0 <= i < |jitters| ==> Backoff.ValidJitter(jitters[i])
    ensures var d := Delays(jitters, retries);
            && (forall i :: 0 <= i < retries ==> d[i] >= 4.0)
            && (forall i, j :: 0 <= i < j < retries ==> d[i] < d[j])
  {
    forall i | 0 <= i < retries
      ensures Backoff.LegacyDelay(i, jitters[i]) >= 4.0
    {
      Backoff.LegacyDelayLowerBound(i, jitters[i]);
    }
    forall i, j | 0 <= i < j < retries
      ensures Backoff.LegacyDelay(i, jitters[i]) < Backoff.LegacyDelay(j, jitters[j])
    {
      Backoff.LegacyDelayStrict(i, j, jitters[i], jitters[j]);
    }
  }
}
