/**
 * The older downloader's `download_and_decrypt_segments`. It differs from the current
 * one in its segment task: a task can end in the decryption ValueError, which
 * `future.result()` re-raises at that task's completion. The exception leaves the
 * method before the write phase, so nothing is appended to the file.
 */
module LegacyPipeline {
  import opened Common
  import opened Reassembly
  import Pkcs7
  import LegacySegment
  import Pipeline

  /** What `download_segment` hands back for one segment, with its default arguments. */
  function SegmentOutcome(env: Pipeline.SegmentEnv, dec: Bytes -> Bytes, bs: int): LegacySegment.Outcome
    requires LegacySegment.Env(env.outcomes, env.jitters, LegacySegment.DefaultRetries, bs)
  {
    LegacySegment.Fetch(env.outcomes, env.jitters, LegacySegment.DefaultRetries, dec, bs).outcome
  }

  /** One segment task: `download_segment` for the segment whose attempts `env` plans. */
  method SegmentTask(env: Pipeline.SegmentEnv, dec: Bytes -> Bytes, bs: int) returns (outcome: LegacySegment.Outcome)
    requires LegacySegment.Env(env.outcomes, env.jitters, LegacySegment.DefaultRetries, bs)
    ensures outcome == SegmentOutcome(env, dec, bs)
  {
    var trace;
    outcome, trace := LegacySegment.DownloadSegment(env.outcomes, env.jitters, dec, bs, LegacySegment.DefaultRetries);
  }

  /** Every task's outcome, by segment index. */
  function Outcomes(envs: seq<Pipeline.SegmentEnv>, dec: Bytes -> Bytes, bs: int): (r: seq<LegacySegment.Outcome>)
    requires Pipeline.Covers(envs, LegacySegment.DefaultRetries) && Pkcs7.ValidBlockSize(bs)
    ensures |r| == |envs| && forall i :: 0 <= i < |envs| ==> r[i] == SegmentOutcome(envs[i], dec, bs)
  {
    seq(|envs|, i requires 0 <= i < |envs| => SegmentOutcome(envs[i], dec, bs))
  }

  /** Some segment task raises. */
  predicate AnyRaised(envs: seq<Pipeline.SegmentEnv>, dec: Bytes -> Bytes, bs: int)
    requires Pipeline.Covers(envs, LegacySegment.DefaultRetries) && Pkcs7.ValidBlockSize(bs)
  {
    exists i :: 0 <= i < |envs| && Outcomes(envs, dec, bs)[i].DecryptRaised?
  }

  /** When no completed task raised and every task completed, no task raises. */
  lemma NoTaskRaised(outs: seq<LegacySegment.Outcome>, completion: seq<nat>)
    requires IsPermutation(completion, |outs|)
    requires forall k :: 0 <= k < |outs| ==> !outs[completion[k]].DecryptRaised?
    ensures forall i :: 0 <= i < |outs| ==> !outs[i].DecryptRaised?
  {
    PermutationCovers(completion, |outs|);
    forall i | 0 <= i < |outs|
      ensures !outs[i].DecryptRaised?
    {
      assert i in completion;
      var k :| 0 <= k < |completion| && completion[k] == i;
    }
  }

  /** The results table when no task raises. */
  function Results(envs: seq<Pipeline.SegmentEnv>, dec: Bytes -> Bytes, bs: int): (r: seq<Option<Bytes>>)
    requires Pipeline.Covers(envs, LegacySegment.DefaultRetries) && Pkcs7.ValidBlockSize(bs)
    ensures |r| == |envs|
  {
    var outs := Outcomes(envs, dec, bs);
    seq(|envs|, i requires 0 <= i < |envs| => if outs[i].Fetched? then outs[i].data else None)
  }

  /**
   * The collection phase: tasks complete in the order `completion`, each result is
   * stored at its segment's index and progress is reported, until a task re-raises
   * its decryption error.
   */
  method CollectResults(envs: seq<Pipeline.SegmentEnv>, completion: seq<nat>, dec: Bytes -> Bytes, bs: int)
    returns (raised: bool, results: array<Option<Bytes>>, progress: seq<real>, collected: set<nat>)
    requires Pipeline.Covers(envs, LegacySegment.DefaultRetries) && Pkcs7.ValidBlockSize(bs)
    requires IsPermutation(completion, |envs|)
    ensures fresh(results)
    ensures raised <==> AnyRaised(envs, dec, bs)
    ensures !raised ==> results[..] == Results(envs, dec, bs) && progress == ProgressSeries(|envs|)
    ensures !raised ==> collected == Below(|envs|)
    ensures raised ==> |progress| < |envs| && progress == ProgressSeries(|envs|)[..|progress|]
    ensures raised ==> collected < Below(|envs|)
    ensures raised ==> Outcomes(envs, dec, bs)[completion[|progress|]].DecryptRaised?
    ensures raised ==> forall k :: 0 <= k < |progress| ==> !Outcomes(envs, dec, bs)[completion[k]].DecryptRaised?
    ensures raised ==> collected == set k | 0 <= k < |progress| :: completion[k]
  {
    var total := |envs|;
    ghost var outs := Outcomes(envs, dec, bs);
    ghost var spec := Results(envs, dec, bs);
    results := new Option<Bytes>[total](_ => None);
    progress := [];
    collected := {};
    for current := 0 to total
      invariant results[..] == Filled(spec, completion[..current])
      invariant forall k :: 0 <= k < current ==> !outs[completion[k]].DecryptRaised?
      invariant progress == ProgressSeries(total)[..current]
      invariant collected == set k | 0 <= k < current :: completion[k]
    {
      var id := completion[current];
      var outcome := SegmentTask(envs[id], dec, bs);
      assert outcome == outs[id];
      if outcome.DecryptRaised? {
        UncollectedRemains(completion, total, current);
        return true, results, progress, collected;
      }
      results[id] := outcome.data;
      assert completion[..current + 1] == completion[..current] + [id];
      FilledStore(spec, completion[..current], id);
      ProgressExtend(total, current);
      progress := progress + [Progress(current + 1, total)];
      collected := collected + {id};
    }
    NoTaskRaised(outs, completion);
    assert completion[..total] == completion;
    FilledComplete(spec, completion);
    CollectedAll(completion, total);
    raised := false;
  }

  /**
   * `download_and_decrypt_segments`. `raised` reports that the decryption error
   * escaped; then the file is untouched and progress was reported only for the tasks
   * completed before the raising one. `collected` holds the segments whose results
   * were handed back; after a raise some segment is never collected.
   */
  method DownloadAndDecryptSegments(file: Bytes, envs: seq<Pipeline.SegmentEnv>, completion: seq<nat>,
                                    dec: Bytes -> Bytes, bs: int)
    returns (raised: bool, written: Bytes, progress: seq<real>, missing: seq<nat>, collected: set<nat>)
    requires Pipeline.Covers(envs, LegacySegment.DefaultRetries) && Pkcs7.ValidBlockSize(bs)
    requires IsPermutation(completion, |envs|)
    ensures raised <==> AnyRaised(envs, dec, bs)
    ensures !raised ==> collected == Below(|envs|)
    ensures raised ==> collected < Below(|envs|)
    ensures !raised ==> written == file + Assemble(Results(envs, dec, bs))
    ensures !raised ==> missing == MissingIndices(Results(envs, dec, bs))
    ensures !raised ==> progress == ProgressSeries(|envs|)
    ensures raised ==> written == file && missing == []
    ensures raised ==> |progress| < |envs| && progress == ProgressSeries(|envs|)[..|progress|]
  {
    var results;
    raised, results, progress, collected := CollectResults(envs, completion, dec, bs);
    if raised {
      return true, file, progress, [], collected;
    }
    written, missing := Pipeline.WriteInOrder(file, results);
  }
}
