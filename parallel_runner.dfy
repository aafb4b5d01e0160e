/**
 * The work split of `runParallelRandomWalks`: the start nodes are cut into
 * contiguous shards of `ceil(M / T)` nodes, one per thread, stopping at the
 * first thread that would get no node. Spawning and joining the threads is
 * left out.
 */
module ParallelRunner {

  /** The shards laid end to end. */
  function Flatten<T>(shards: seq<seq<T>>): seq<T> {
    if shards == [] then [] else Flatten(shards[..|shards| - 1]) + shards[|shards| - 1]
  }

  /** `(m + t - 1) / t` is the ceiling of `m / t`: `t` shards of that size cover `m` nodes. */
  lemma CeilingCovers(m: nat, t: nat)
    requires t > 0
    ensures t * ((m + t - 1) / t) >= m
    ensures m > 0 ==> (m + t - 1) / t >= 1
  {
    var q, r := (m + t - 1) / t, (m + t - 1) % t;
    assert m + t - 1 == q * t + r && r < t;
  }

  lemma ProductStep(i: nat, per: nat)
    ensures (i + 1) * per == i * per + per
  {
  }

  /** Appending the shard `[start, end)` to shards that cover `nodes[..start]` covers `nodes[..end]`. */
  lemma ShardStep<T>(nodes: seq<T>, shards: seq<seq<T>>, start: nat, end: nat)
    requires start <= end <= |nodes| && Flatten(shards) == nodes[..start]
    ensures Flatten(shards + [nodes[start..end]]) == nodes[..end]
  {
    assert (shards + [nodes[start..end]])[..|shards|] == shards;
    assert nodes[..end] == nodes[..start] + nodes[start..end];
  }

  /**
   * The shard split. For a negative `numThreads` the loop test
   * `i < numThreads` compares ints and fails at once, so there are no
   * shards whatever the unsigned division gives; zero divides by zero,
   * which the precondition excludes.
   */
  method SplitShards<T>(nodes: seq<T>, numThreads: int) returns (shards: seq<seq<T>>)
    requires numThreads != 0
    ensures numThreads < 0 ==> shards == []
    ensures numThreads > 0 ==> Flatten(shards) == nodes
    ensures numThreads > 0 ==> |shards| <= numThreads
    ensures forall i :: 0 <= i < |shards| ==> shards[i] != []
    ensures numThreads > 0 ==> forall i :: 0 <= i < |shards| - 1 ==>
      |shards[i]| == (|nodes| + numThreads - 1) / numThreads
    ensures numThreads > 0 && shards != [] ==>
      |shards[|shards| - 1]| <= (|nodes| + numThreads - 1) / numThreads
  {
    if numThreads < 0 {
      return [];
    }
    var per := (|nodes| + numThreads - 1) / numThreads;
    CeilingCovers(|nodes|, numThreads);
    shards := CutShards(nodes, numThreads, per);
  }

  /** The shard loop: thread `i` takes the nodes from `i * per` up to `(i + 1) * per`, while any are left. */
  method CutShards<T>(nodes: seq<T>, numThreads: nat, per: nat) returns (shards: seq<seq<T>>)
    requires numThreads * per >= |nodes|
    ensures Flatten(shards) == nodes
    ensures |shards| <= numThreads
    ensures forall i :: 0 <= i < |shards| ==> shards[i] != []
    ensures forall i :: 0 <= i < |shards| - 1 ==> |shards[i]| == per
    ensures shards != [] ==> |shards[|shards| - 1]| <= per
  {
    shards := [];
    var m := |nodes|;
    var i := 0;
    ghost var pos := 0;
    while i < numThreads
      invariant 0 <= i <= numThreads && |shards| == i
      invariant pos == i * per
      invariant Flatten(shards) == nodes[..if pos < m then pos else m]
      invariant forall k :: 0 <= k < |shards| ==> shards[k] != []
      invariant forall k :: 0 <= k < |shards| - 1 ==> |shards[k]| == per
      invariant shards != [] ==> |shards[|shards| - 1]| <= per
      invariant shards != [] && pos < m ==> |shards[|shards| - 1]| == per
    {
      var startIdx := i * per;
      var endIdx := if startIdx + per < m then startIdx + per else m;
      if startIdx >= m {
        break;
      }
      ProductStep(i, per);
      var shard := nodes[startIdx..endIdx];
      ShardStep(nodes, shards, startIdx, endIdx);
      shards := shards + [shard];
      i, pos := i + 1, pos + per;
    }
    assert nodes[..m] == nodes;
  }
}
