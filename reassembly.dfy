/**
 * Ordered reassembly, shared by both revisions: a results table with one slot per
 * segment, filled in the order the worker pool completes tasks, then written out in
 * index order with absent segments skipped.
 */
module Reassembly {
  import opened Common

  /** Bytes the write loop appends: the present results in index order. */
  function Assemble(results: seq<Option<Bytes>>): (r: Bytes)
    ensures (forall i :: 0 <= i < |results| ==> results[i].None?) ==> r == []
  {
    if results == [] then []
    else
      var last := results[|results| - 1];
      Assemble(results[..|results| - 1]) + (if last.Some? then last.value else [])
  }

  /** Indices the write loop reports as "Missing video segment", in order. */
  function MissingIndices(results: seq<Option<Bytes>>): (r: seq<nat>)
    ensures |r| <= |results|
    ensures forall k :: 0 <= k < |r| ==> r[k] < |results|
  {
    if results == [] then []
    else MissingIndices(results[..|results| - 1]) + (if results[|results| - 1].None? then [|results| - 1] else [])
  }

  /** An order in which the pool hands back the `n` tasks: every index exactly once. */
  predicate IsPermutation(order: seq<nat>, n: nat) {
    && |order| == n
    && (forall k :: 0 <= k < n ==> order[k] < n)
    && (forall a, b :: 0 <= a < b < n ==> order[a] != order[b])
  }

  /** The results table after the tasks in `done` have completed; other slots still hold `None`. */
  function Filled(spec: seq<Option<Bytes>>, done: seq<nat>): (t: seq<Option<Bytes>>)
    ensures |t| == |spec|
  {
    seq(|spec|, i requires 0 <= i < |spec| => if i in done then spec[i] else None)
  }

  /** Storing a completed task's result at its own index extends the filled table. */
  lemma FilledStore(spec: seq<Option<Bytes>>, done: seq<nat>, id: nat)
    requires id < |spec|
    ensures Filled(spec, done + [id]) == Filled(spec, done)[id := spec[id]]
  {
  }

  /** Once every index has completed, whatever the order, the table is exactly `spec`. */
  lemma FilledComplete(spec: seq<Option<Bytes>>, order: seq<nat>)
    requires IsPermutation(order, |spec|)
    ensures Filled(spec, order) == spec
  {
    PermutationCovers(order, |spec|);
  }

  /** Progress after the `k`-th completion out of `n`: `k / n * 100`. */
  function Progress(k: nat, n: nat): real
    requires n > 0
  {
    (k as real / n as real) * 100.0
  }

  /** The progress values reported after completions 1 .. n. */
  function ProgressSeries(n: nat): (p: seq<real>)
    ensures |p| == n && forall k :: 0 <= k < n ==> p[k] == Progress(k + 1, n)
  {
    seq(n, k requires 0 <= k < n => Progress(k + 1, n))
  }

  /** Reporting completion `k + 1` extends the series reported so far by one value. */
  lemma ProgressExtend(n: nat, k: nat)
    requires k < n
    ensures ProgressSeries(n)[..k + 1] == ProgressSeries(n)[..k] + [Progress(k + 1, n)]
  {
  }

  /** Reported progress strictly increases, stays in (0, 100] and ends at 100. */
  lemma ProgressRises(n: nat)
    ensures forall a, b :: 0 <= a < b < n ==> ProgressSeries(n)[a] < ProgressSeries(n)[b]
    ensures forall a :: 0 <= a < n ==> 0.0 < ProgressSeries(n)[a] <= 100.0
    ensures n > 0 ==> ProgressSeries(n)[n - 1] == 100.0
  {
    var p := ProgressSeries(n);
    forall a, b | 0 <= a < b < n
      ensures p[a] < p[b]
    {
      ProgressStrict(a + 1, b + 1, n);
    }
    forall a | 0 <= a < n
      ensures 0.0 < p[a] <= 100.0
    {
      ProgressBounds(a + 1, n);
    }
    if n > 0 {
      ProgressBounds(n, n);
    }
  }

  lemma ProgressBounds(k: nat, n: nat)
    requires 0 < k <= n
    ensures 0.0 < Progress(k, n) <= 100.0
    ensures k == n ==> Progress(k, n) == 100.0
  {
    var q := k as real / n as real;
    DivMonotone(k as real, n as real, n as real);
    assert n as real / n as real == 1.0;
    assert 0.0 < q <= 1.0;
  }

  lemma ProgressStrict(a: nat, b: nat, n: nat)
    requires 0 < a < b <= n
    ensures Progress(a, n) < Progress(b, n)
  {
    DivMonotone(a as real, b as real, n as real);
  }

  lemma DivMonotone(x: real, y: real, d: real)
    requires 0.0 < x && x <= y && d > 0.0
    ensures 0.0 < x / d <= y / d
    ensures x < y ==> x / d < y / d
  {
  }

  /** Every index below `n` occurs in a permutation of `0 .. n-1` (pigeonhole). */
  lemma PermutationCovers(order: seq<nat>, n: nat)
    requires IsPermutation(order, n)
    ensures forall i :: 0 <= i < n ==> i in order
  {
    var seen := set k | 0 <= k < n :: order[k];
    var all := Below(n);
    DistinctImageSize(order, n);
    assert seen <= all;
    if exists i :: 0 <= i < n && i !in order {
      var i :| 0 <= i < n && i !in order;
      assert i !in seen;
      assert seen <= all - {i};
      SubsetSize(seen, all - {i});
      assert false;
    }
  }

  /** The indices a whole permutation hands back are exactly `0 .. n-1`. */
  lemma CollectedAll(order: seq<nat>, n: nat)
    requires IsPermutation(order, n)
    ensures (set k | 0 <= k < n :: order[k]) == Below(n)
  {
    PermutationCovers(order, n);
    var seen := set k | 0 <= k < n :: order[k];
    forall i | i in Below(n)
      ensures i in seen
    {
      assert i in order;
      var k :| 0 <= k < |order| && order[k] == i;
    }
  }

  /** Before the `current`-th completion, the task completing then has not been handed back. */
  lemma UncollectedRemains(order: seq<nat>, n: nat, current: nat)
    requires IsPermutation(order, n) && current < n
    ensures (set k | 0 <= k < current :: order[k]) < Below(n)
  {
    var seen := set k | 0 <= k < current :: order[k];
    assert order[current] !in seen;
  }

  lemma {:induction false} DistinctImageSize(order: seq<nat>, n: nat)
    requires n <= |order|
    requires forall a, b :: 0 <= a < b < n ==> order[a] != order[b]
    ensures |set k | 0 <= k < n :: order[k]| == n
  {
    if n > 0 {
      DistinctImageSize(order, n - 1);
      var prev := set k | 0 <= k < n - 1 :: order[k];
      assert (set k | 0 <= k < n :: order[k]) == prev + {order[n - 1]};
      assert order[n - 1] !in prev;
    }
  }

  /** The indices `0 .. n-1` as a set. */
  function Below(n: nat): (r: set<nat>)
    ensures forall i: nat :: i in r <==> i < n
    ensures |r| == n
  {
    if n == 0 then {}
    else
      var prev := Below(n - 1);
      assert n - 1 !in prev;
      prev + {n - 1}
  }

  lemma {:induction false} SubsetSize<T>(a: set<T>, b: set<T>)
    requires a <= b
    ensures |a| <= |b|
  {
    if a != {} {
      var x :| x in a;
      SubsetSize(a - {x}, b - {x});
    }
  }

  /** Writing two runs of results appends their bytes one after the other. */
  lemma {:induction false} AssembleAppend(a: seq<Option<Bytes>>, b: seq<Option<Bytes>>)
    ensures Assemble(a + b) == Assemble(a) + Assemble(b)
    decreases |b|
  {
    if b == [] {
      assert a + b == a;
    } else {
      var b' := b[..|b| - 1];
      assert (a + b)[..|a + b| - 1] == a + b';
      AssembleAppend(a, b');
    }
  }

  /** A single slot contributes its bytes, or nothing when it is absent. */
  lemma AssembleSingle(x: Option<Bytes>)
    ensures Assemble([x]) == if x.Some? then x.value else []
  {
    assert [x][..0] == [];
  }

  /** The table as the slots before `i`, slot `i` and the slots after it. */
  lemma {:induction false} AssembleAround(results: seq<Option<Bytes>>, i: nat)
    requires i < |results|
    ensures Assemble(results) == Assemble(results[..i]) + Assemble([results[i]]) + Assemble(results[i + 1..])
  {
    var before, x, after := results[..i], results[i], results[i + 1..];
    assert results == before + [x] + after;
    AssembleAppend(before + [x], after);
    AssembleAppend(before, [x]);
  }

  /**
   * An absent result is skipped without truncating the rest: the output is the bytes
   * before it followed by the bytes after it.
   */
  lemma {:induction false} AssembleSkipsMissing(results: seq<Option<Bytes>>, i: nat)
    requires i < |results| && results[i].None?
    ensures Assemble(results) == Assemble(results[..i]) + Assemble(results[i + 1..])
  {
    AssembleAround(results, i);
    AssembleSingle(results[i]);
  }

  /**
   * A present result lands in the output right after the bytes of all results before
   * it: its position is fixed by the index, not by completion order.
   */
  lemma {:induction false} AssemblePlacement(results: seq<Option<Bytes>>, i: nat)
    requires i < |results| && results[i].Some?
    ensures var start := |Assemble(results[..i])|;
            && start + |results[i].value| <= |Assemble(results)|
            && Assemble(results)[start..start + |results[i].value|] == results[i].value
  {
    AssembleAround(results, i);
    AssembleSingle(results[i]);
  }

  /** The output is as long as all present results together: nothing is dropped or repeated. */
  lemma {:induction false} AssembleLength(results: seq<Option<Bytes>>)
    ensures |Assemble(results)| == TotalSize(results)
  {
    if results != [] {
      AssembleLength(results[..|results| - 1]);
    }
  }

  function TotalSize(results: seq<Option<Bytes>>): nat {
    if results == [] then 0
    else
      var last := results[|results| - 1];
      TotalSize(results[..|results| - 1]) + (if last.Some? then |last.value| else 0)
  }

  /** Exactly the absent indices are reported. */
  lemma {:induction false} MissingIndicesMembers(results: seq<Option<Bytes>>)
    ensures forall i :: i in MissingIndices(results) <==> 0 <= i < |results| && results[i].None?
  {
    if results != [] {
      var n := |results| - 1;
      var init := results[..n];
      MissingIndicesMembers(init);
      var last: seq<nat> := if results[n].None? then [n] else [];
      assert MissingIndices(results) == MissingIndices(init) + last;
      forall i
        ensures i in MissingIndices(results) <==> 0 <= i < |results| && results[i].None?
      {
        if 0 <= i < n {
          assert init[i] == results[i];
        }
      }
    }
  }

  /** The absent indices are reported in increasing order, so each at most once. */
  lemma {:induction false} MissingIndicesIncreasing(results: seq<Option<Bytes>>)
    ensures forall a, b :: 0 <= a < b < |MissingIndices(results)| ==>
              MissingIndices(results)[a] < MissingIndices(results)[b]
  {
    if results != [] {
      var n := |results| - 1;
      var init := results[..n];
      MissingIndicesIncreasing(init);
      MissingIndicesMembers(init);
      var m := MissingIndices(init);
      var last: seq<nat> := if results[n].None? then [n] else [];
      assert MissingIndices(results) == m + last;
      forall a | 0 <= a < |m|
        ensures m[a] < n
      {
        assert m[a] in m;
      }
    }
  }
}
