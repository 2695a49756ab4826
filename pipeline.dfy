/**
 * The current downloader's `_download_and_decrypt_segments`: one task per segment
 * URI, each result stored at its own index of a table as the pool completes tasks,
 * then the table written to the video file in index order.
 */
module Pipeline {
  import opened Common
  import opened Retry
  import opened Reassembly
  import Pkcs7
  import Backoff
  import Segment

  /** What the network will answer to the requests for one segment. */
  datatype SegmentEnv = SegmentEnv(outcomes: seq<Attempt>, jitters: seq<real>)

  predicate Covers(envs: seq<SegmentEnv>, retries: nat) {
    forall i :: 0 <= i < |envs| ==> retries <= |envs[i].outcomes| && retries <= |envs[i].jitters|
  }

  /** The value `_download_segment` returns for one segment, with its default arguments. */
  function SegmentResult(env: SegmentEnv, dec: Bytes -> Bytes, bs: int): Option<Bytes>
    requires Segment.Env(env.outcomes, env.jitters, Segment.DefaultRetries, bs)
  {
    Segment.Fetch(env.outcomes, env.jitters, Segment.DefaultRetries, Backoff.DefaultMaxDelay, dec, bs).result
  }

  /** The results table once every task has completed: slot `i` holds segment `i`'s result. */
  function Results(envs: seq<SegmentEnv>, dec: Bytes -> Bytes, bs: int): (r: seq<Option<Bytes>>)
    requires Covers(envs, Segment.DefaultRetries) && Pkcs7.ValidBlockSize(bs)
    ensures |r| == |envs|
  {
    seq(|envs|, i requires 0 <= i < |envs| => SegmentResult(envs[i], dec, bs))
  }

  /**
   * The write phase of `_download_and_decrypt_segments`: every present result is
   * appended in index order, every absent one reported and skipped.
   */
  method WriteInOrder(file: Bytes, results: array<Option<Bytes>>) returns (written: Bytes, missing: seq<nat>)
    ensures written == file + Assemble(results[..])
    ensures missing == MissingIndices(results[..])
  {
    written := file;
    missing := [];
    for i := 0 to results.Length
      invariant written == file + Assemble(results[..i])
      invariant missing == MissingIndices(results[..i])
    {
      assert results[..i + 1][..i] == results[..i];
      if results[i] == None {
        missing := missing + [i];
        continue;
      }
      written := written + results[i].value;
    }
    assert results[..results.Length] == results[..];
  }

  /**
   * `_download_and_decrypt_segments`. `completion` is the order in which the pool
   * finishes the tasks; `file` is what the video file held before it was opened for
   * appending. `collected` holds the segments whose results the pool handed back.
   * The written bytes, the missing-segment reports and the progress values do not
   * depend on `completion`.
   */
  method DownloadAndDecryptSegments(file: Bytes, envs: seq<SegmentEnv>, completion: seq<nat>,
                                    dec: Bytes -> Bytes, bs: int)
    returns (written: Bytes, progress: seq<real>, missing: seq<nat>, collected: set<nat>)
    requires Covers(envs, Segment.DefaultRetries) && Pkcs7.ValidBlockSize(bs)
    requires IsPermutation(completion, |envs|)
    ensures written == file + Assemble(Results(envs, dec, bs))
    ensures missing == MissingIndices(Results(envs, dec, bs))
    ensures progress == ProgressSeries(|envs|)
    ensures collected == Below(|envs|)
  {
    var total := |envs|;
    ghost var spec := Results(envs, dec, bs);
    var results := new Option<Bytes>[total](_ => None);
    collected := {};
    progress := [];
    for current := 0 to total
      invariant results[..] == Filled(spec, completion[..current])
      invariant progress == ProgressSeries(total)[..current]
      invariant collected == set k | 0 <= k < current :: completion[k]
    {
      var id := completion[current];
      var data, _ := Segment.DownloadSegment(envs[id].outcomes, envs[id].jitters, dec, bs,
                                             Segment.DefaultRetries, Backoff.DefaultMaxDelay);
      results[id] := data;
      assert completion[..current + 1] == completion[..current] + [id];
      FilledStore(spec, completion[..current], id);
      ProgressExtend(total, current);
      progress := progress + [Progress(current + 1, total)];
      collected := collected + {id};
    }
    assert completion[..total] == completion;
    FilledComplete(spec, completion);
    CollectedAll(completion, total);

    written, missing := WriteInOrder(file, results);
  }
}
