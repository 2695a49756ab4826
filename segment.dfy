/**
 * The current downloader's single-segment download (`_download_segment`) and its
 * padding-tolerant decryption (`_decrypt_with_padding`).
 *
 * The network is an input: `outcomes[i]` is what the i-th request for the segment
 * returns, `jitters[i]` the random jitter drawn after the i-th failure. The AES-CBC
 * decryptor is the function `dec`, about which nothing is assumed.
 */
module Segment {
  import opened Common
  import opened Retry
  import Pkcs7
  import Backoff

  /** Default `retries` of `_download_segment`. */
  const DefaultRetries: nat := 10
  /** Block size of the AES decryptor. */
  const AesBlockSize: int := 16

  /** How a response body was turned into plaintext. */
  datatype Decrypted =
    | Direct(plain: Bytes)       // body was whole blocks: decrypted as it is
    | Unpadded(plain: Bytes)     // padded, decrypted, then unpadded
    | PartialData(plain: Bytes)  // padded and decrypted, unpad failed: raw decrypted bytes kept

  /**
   * `_decrypt_with_padding`: pad, decrypt, unpad, keeping the decrypted bytes when
   * unpadding raises. It is total: no input makes it fail.
   */
  function DecryptWithPadding(data: Bytes, dec: Bytes -> Bytes, bs: int): (r: Decrypted)
    requires Pkcs7.ValidBlockSize(bs)
    ensures !r.Direct?
    ensures r.Unpadded? <==> Pkcs7.WellPadded(dec(Pkcs7.Pad(data, bs)), bs)
    ensures r.Unpadded? ==> Pkcs7.Pad(r.plain, bs) == dec(Pkcs7.Pad(data, bs))
    ensures r.PartialData? ==> r.plain == dec(Pkcs7.Pad(data, bs))
  {
    var decrypted := dec(Pkcs7.Pad(data, bs));
    match Pkcs7.Unpad(decrypted, bs)
    case Some(plain) =>
      Pkcs7.PadUnpad(decrypted, bs);
      Unpadded(plain)
    case None => PartialData(decrypted)
  }

  /** The decryption branch taken once a request succeeds. */
  function DecryptBody(data: Bytes, dec: Bytes -> Bytes, bs: int): (r: Decrypted)
    requires Pkcs7.ValidBlockSize(bs)
    ensures r.Direct? <==> |data| % bs == 0
    ensures r.Direct? ==> r.plain == dec(data)
    ensures !r.Direct? ==> r == DecryptWithPadding(data, dec, bs)
  {
    if |data| % bs != 0 then DecryptWithPadding(data, dec, bs) else Direct(dec(data))
  }

  /** When the decrypted padded body is itself correctly padded, the padding is stripped exactly. */
  lemma DecryptRecoversPadded(data: Bytes, dec: Bytes -> Bytes, bs: int, m: Bytes)
    requires Pkcs7.ValidBlockSize(bs) && |data| % bs != 0
    requires dec(Pkcs7.Pad(data, bs)) == Pkcs7.Pad(m, bs)
    ensures DecryptBody(data, dec, bs) == Unpadded(m)
  {
    Pkcs7.UnpadPad(m, bs);
  }

  /** The sleep scheduled after each failed attempt `i < retries - 1`. */
  function Delays(jitters: seq<real>, retries: nat, maxDelay: real): (d: seq<real>)
    requires retries <= |jitters|
    ensures |d| == retries
    ensures forall i :: 0 <= i < retries ==> d[i] == Backoff.CurrentDelay(i, jitters[i], maxDelay)
  {
    seq(retries, i requires 0 <= i < retries => Backoff.CurrentDelay(i, jitters[i], maxDelay))
  }

  /** Result and trace of one segment download. */
  datatype Run = Run(result: Option<Bytes>, trace: seq<Step>)

  predicate Env(outcomes: seq<Attempt>, jitters: seq<real>, retries: nat, bs: int) {
    retries <= |outcomes| && retries <= |jitters| && Pkcs7.ValidBlockSize(bs)
  }

  /** What `_download_segment` does, stated through the first successful attempt. */
  function Fetch(outcomes: seq<Attempt>, jitters: seq<real>, retries: nat, maxDelay: real,
                 dec: Bytes -> Bytes, bs: int): Run
    requires Env(outcomes, jitters, retries, bs)
  {
    var k := FirstSuccess(outcomes, retries);
    var delays := Delays(jitters, retries, maxDelay);
    if k < retries then
      var d := DecryptBody(outcomes[k].body, dec, bs);
      Run(Some(d.plain),
          FailPrefix(k, retries, delays) + [Get(k)] + (if d.PartialData? then [Log(DecryptionError)] else []))
    else
      Run(None, FailPrefix(retries, retries, delays) + [Log(FailedSegmentDownload)])
  }

  /** `_download_segment`: the `for attempt in range(retries)` loop with its early returns. */
  method DownloadSegment(outcomes: seq<Attempt>, jitters: seq<real>, dec: Bytes -> Bytes, bs: int,
                         retries: nat, maxDelay: real)
    returns (result: Option<Bytes>, trace: seq<Step>)
    requires Env(outcomes, jitters, retries, bs)
    ensures Run(result, trace) == Fetch(outcomes, jitters, retries, maxDelay, dec, bs)
  {
    ghost var delays := Delays(jitters, retries, maxDelay);
    trace := [];
    for attempt := 0 to retries
      invariant trace == FailPrefix(attempt, retries, delays)
      invariant forall j :: 0 <= j < attempt ==> !Succeeded(outcomes[j])
    {
      var response := outcomes[attempt];
      trace := trace + [Get(attempt)];
      if !Succeeded(response) {
        if attempt < retries - 1 {
          var delay := Min(Backoff.Pow(2, attempt + 1) as real + jitters[attempt], maxDelay);
          trace := trace + [Sleep(delay), Log(RetryingSegment(attempt))];
          continue;
        }
      } else {
        FirstSuccessIs(outcomes, retries, attempt);
        var data := response.body;
        if |data| % bs != 0 {
          var d := DecryptWithPadding(data, dec, bs);
          if d.PartialData? {
            trace := trace + [Log(DecryptionError)];
          }
          return Some(d.plain), trace;
        }
        return Some(dec(data)), trace;
      }
    }
    FirstSuccessIs(outcomes, retries, retries);
    trace := trace + [Log(FailedSegmentDownload)];
    result := None;
  }

  /**
   * The segment is requested as attempts 0, 1, ... in order, at most `retries` times;
   * the first successful response ends the requests, and the result is present exactly
   * when some allowed attempt succeeds.
   */
  lemma FetchRequests(outcomes: seq<Attempt>, jitters: seq<real>, retries: nat, maxDelay: real,
                      dec: Bytes -> Bytes, bs: int)
    requires Env(outcomes, jitters, retries, bs)
    ensures var r := Fetch(outcomes, jitters, retries, maxDelay, dec, bs);
            var k := FirstSuccess(outcomes, retries);
            && Gets(r.trace) == Upto(if k < retries then k + 1 else retries)
            && |Gets(r.trace)| <= retries
            && (r.result.Some? <==> exists j :: 0 <= j < retries && Succeeded(outcomes[j]))
            && (r.result.Some? ==> r.result.value == DecryptBody(outcomes[k].body, dec, bs).plain)
  {
    var k := FirstSuccess(outcomes, retries);
    var delays := Delays(jitters, retries, maxDelay);
    var r := Fetch(outcomes, jitters, retries, maxDelay, dec, bs);
    if k < retries {
      var d := DecryptBody(outcomes[k].body, dec, bs);
      var tail: seq<Step> := if d.PartialData? then [Log(DecryptionError)] else [];
      FailPrefixGets(k, retries, delays);
      GetsAppend(FailPrefix(k, retries, delays), [Get(k)]);
      GetsAppend(FailPrefix(k, retries, delays) + [Get(k)], tail);
      assert Gets([Get(k)]) == [k] + Gets([]);
      assert Gets(tail) == [] by {
        if tail != [] { assert Gets(tail) == Gets([]); }
      }
      assert Upto(k) + [k] == Upto(k + 1);
    } else {
      FailPrefixGets(retries, retries, delays);
      GetsAppend(FailPrefix(retries, retries, delays), [Log(FailedSegmentDownload)]);
      assert Gets([Log(FailedSegmentDownload)]) == Gets([]);
    }
  }

  /**
   * The sleeps are the backoff delays of the failed attempts before the last allowed
   * one, in attempt order; each lies in [min(3, max_delay), max_delay] and none is
   * shorter than an earlier one.
   */
  lemma FetchSleeps(outcomes: seq<Attempt>, jitters: seq<real>, retries: nat, maxDelay: real,
                    dec: Bytes -> Bytes, bs: int)
    requires Env(outcomes, jitters, retries, bs)
    requires forall i :: 0 <= i < |jitters| ==> Backoff.ValidJitter(jitters[i])
    ensures var r := Fetch(outcomes, jitters, retries, maxDelay, dec, bs);
            var k := FirstSuccess(outcomes, retries);
            var s := Sleeps(r.trace);
            && s == Delays(jitters, retries, maxDelay)[..SleepCount(k, retries)]
            && (forall i :: 0 <= i < |s| ==> Min(3.0, maxDelay) <= s[i] <= maxDelay)
            && (forall i, j :: 0 <= i < j < |s| ==> s[i] <= s[j])
  {
    var k := FirstSuccess(outcomes, retries);
    var delays := Delays(jitters, retries, maxDelay);
    var r := Fetch(outcomes, jitters, retries, maxDelay, dec, bs);
    if k < retries {
      var d := DecryptBody(outcomes[k].body, dec, bs);
      var tail: seq<Step> := if d.PartialData? then [Log(DecryptionError)] else [];
      FailPrefixSleeps(k, retries, delays);
      SleepsAppend(FailPrefix(k, retries, delays), [Get(k)]);
      SleepsAppend(FailPrefix(k, retries, delays) + [Get(k)], tail);
      assert Sleeps([Get(k)]) == Sleeps([]);
      assert Sleeps(tail) == [] by {
        if tail != [] { assert Sleeps(tail) == Sleeps([]); }
      }
    } else {
      FailPrefixSleeps(retries, retries, delays);
      SleepsAppend(FailPrefix(retries, retries, delays), [Log(FailedSegmentDownload)]);
      assert Sleeps([Log(FailedSegmentDownload)]) == Sleeps([]);
    }
    DelaysBounded(jitters, retries, maxDelay);
  }

  /** Every planned delay lies in `[min(3, maxDelay), maxDelay]`, and they never decrease. */
  lemma DelaysBounded(jitters: seq<real>, retries: nat, maxDelay: real)
    requires retries <= |jitters|
    requires forall i :: 0 <= i < |jitters| ==> Backoff.ValidJitter(jitters[i])
    ensures var d := Delays(jitters, retries, maxDelay);
            && (forall i :: 0 <= i < retries ==> Min(3.0, maxDelay) <= d[i] <= maxDelay)
            && (forall i, j :: 0 <= i < j < retries ==> d[i] <= d[j])
  {
    forall i | 0 <= i < retries
      ensures Min(3.0, maxDelay) <= Backoff.CurrentDelay(i, jitters[i], maxDelay) <= maxDelay
    {
      Backoff.CurrentDelayBounds(i, jitters[i], maxDelay);
    }
    forall i, j | 0 <= i < j < retries
      ensures Backoff.CurrentDelay(i, jitters[i], maxDelay) <= Backoff.CurrentDelay(j, jitters[j], maxDelay)
    {
      Backoff.CurrentDelayMonotone(i, j, jitters[i], jitters[j], maxDelay);
    }
  }

  /**
   * When every allowed attempt fails the result is absent and the trace ends with the
   * last request followed directly by the "Failed segment download" event: the last
   * failure does not sleep.
   */
  lemma FetchExhausted(outcomes: seq<Attempt>, jitters: seq<real>, retries: nat, maxDelay: real,
                       dec: Bytes -> Bytes, bs: int)
    requires Env(outcomes, jitters, retries, bs)
    requires forall j :: 0 <= j < retries ==> !Succeeded(outcomes[j])
    ensures var r := Fetch(outcomes, jitters, retries, maxDelay, dec, bs);
            && r.result == None
            && r.trace[|r.trace| - 1] == Log(FailedSegmentDownload)
            && (retries > 0 ==> r.trace[|r.trace| - 2] == Get(retries - 1))
  {
  }

  /** Attempts after the first success are never made: later outcomes change nothing. */
  lemma FetchStopsAtFirstSuccess(o1: seq<Attempt>, o2: seq<Attempt>, jitters: seq<real>, retries: nat,
                                 maxDelay: real, dec: Bytes -> Bytes, bs: int, k: nat)
    requires Env(o1, jitters, retries, bs) && Env(o2, jitters, retries, bs)
    requires k < retries && Succeeded(o1[k])
    requires o1[..k + 1] == o2[..k + 1]
    ensures Fetch(o1, jitters, retries, maxDelay, dec, bs) == Fetch(o2, jitters, retries, maxDelay, dec, bs)
  {
    assert forall j :: 0 <= j <= k ==> o1[j] == o2[j] by {
      forall j | 0 <= j <= k ensures o1[j] == o2[j] {
        assert o1[..k + 1][j] == o2[..k + 1][j];
      }
    }
    var k1 := FirstSuccess(o1, retries);
    var k2 := FirstSuccess(o2, retries);
    assert k1 <= k;
    assert k1 == k2;
  }
}
