/**
 * `NodeManager`: hands out batches of start nodes to the server, never
 * repeating a node until nine tenths of the eligible nodes have been used,
 * at which point the used set starts afresh. The mutex is left out.
 */
module NodeScheduler {
  import opened GraphStore
  import opened Random

  const DefaultBatchSize: nat := 100

  predicate NoRepeats(s: seq<string>) {
    forall i, j :: 0 <= i < j < |s| ==> s[i] != s[j]
  }

  /** The entries of `all` outside `used`, in the order of `all`. */
  function Unused(all: seq<string>, used: set<string>): (pool: seq<string>)
    ensures forall n :: n in pool <==> n in all && n !in used
  {
    if all == [] then []
    else Unused(all[..|all| - 1], used) + (if all[|all| - 1] in used then [] else [all[|all| - 1]])
  }

  /** How many entries of `all` are in `used`. */
  function Hits(all: seq<string>, used: set<string>): nat {
    if all == [] then 0
    else Hits(all[..|all| - 1], used) + (if all[|all| - 1] in used then 1 else 0)
  }

  lemma {:induction false} UnusedLength(all: seq<string>, used: set<string>)
    ensures |Unused(all, used)| + Hits(all, used) == |all|
  {
    if all != [] {
      UnusedLength(all[..|all| - 1], used);
    }
  }

  lemma {:induction false} UnusedKeepsOrder(all: seq<string>, used: set<string>)
    requires NoRepeats(all)
    ensures NoRepeats(Unused(all, used))
  {
    if all != [] {
      var init, last := all[..|all| - 1], all[|all| - 1];
      UnusedKeepsOrder(init, used);
      assert last !in init;
    }
  }

  /** Removing a node that `all` does not hold does not change the count. */
  lemma {:induction false} HitsIgnoresOthers(all: seq<string>, used: set<string>, x: string)
    requires x !in all
    ensures Hits(all, used) == Hits(all, used - {x})
  {
    if all != [] {
      HitsIgnoresOthers(all[..|all| - 1], used, x);
    }
  }

  /** Without repeats in `all`, at most `|used|` of its entries are used. */
  lemma {:induction false} HitsBounded(all: seq<string>, used: set<string>)
    requires NoRepeats(all)
    ensures Hits(all, used) <= |used|
  {
    if all != [] {
      var init, last := all[..|all| - 1], all[|all| - 1];
      assert last !in init;
      if last in used {
        HitsIgnoresOthers(init, used, last);
        HitsBounded(init, used - {last});
      } else {
        HitsBounded(init, used);
      }
    }
  }

  /** The pool keeps at least `|all| - |used|` nodes. */
  lemma PoolSize(all: seq<string>, used: set<string>)
    requires NoRepeats(all)
    ensures |Unused(all, used)| >= |all| - |used|
  {
    UnusedLength(all, used);
    HitsBounded(all, used);
  }

  /** A prefix of a permutation of a repeat-free list is repeat-free and drawn from it. */
  lemma TakeOfPermutation(s: seq<string>, t: seq<string>, k: nat)
    requires multiset(t) == multiset(s) && NoRepeats(s) && k <= |t|
    ensures NoRepeats(t[..k]) && forall n :: n in t[..k] ==> n in s
  {
    DistinctPermutation(s, t);
    forall n | n in t[..k]
      ensures n in s
    {
      assert n in t;
    }
  }

  class NodeManager {
    const allNodes: seq<string>
    var usedNodes: set<string>
    var rng: Rng
    const batchSize: nat
    const rate: Rate

    ghost predicate Valid()
      reads this
    {
      rate.Valid() && NoRepeats(allNodes) && forall n :: n in usedNodes ==> n in allNodes
    }

    /** The used set `getNextBatch` starts from: cleared once it reaches 90% of the nodes. */
    function AfterReset(used: set<string>): (u: set<string>)
      reads this
      ensures u <= used
    {
      if 10 * |used| >= 9 * |allNodes| then {} else used
    }

    /** The number of nodes `getNextBatch` hands out when `pool` nodes are unused. */
    function BatchSize(pool: nat): (k: nat)
      reads this
      requires rate.Valid()
      ensures k <= batchSize && (rate.Samples() ==> k <= pool)
      ensures pool > 0 && batchSize > 0 ==> k > 0
    {
      var sampled := if rate.Samples() && pool > 0 then (if rate.Of(pool) < 1 then 1 else rate.Of(pool)) else pool;
      if batchSize < sampled then batchSize else sampled
    }

    constructor (g: Graph, rate: Rate, rng: Rng, batchSize: nat := DefaultBatchSize)
      requires rate.Valid()
      ensures Valid()
      ensures forall n :: n in allNodes <==> Eligible(g, n)
      ensures usedNodes == {} && this.rate == rate && this.batchSize == batchSize && this.rng == rng
    {
      var nodes := EligibleNodes(g);
      allNodes := nodes;
      usedNodes := {};
      this.rng := rng;
      this.batchSize := batchSize;
      this.rate := rate;
    }

    /** The loop that lists the nodes outside `used`, in the order of `allNodes`. */
    method UnusedPool(used: set<string>) returns (pool: seq<string>)
      ensures pool == Unused(allNodes, used)
    {
      pool := [];
      var i := 0;
      while i < |allNodes|
        invariant 0 <= i <= |allNodes|
        invariant pool == Unused(allNodes[..i], used)
      {
        assert allNodes[..i + 1][..i] == allNodes[..i];
        if allNodes[i] !in used {
          pool := pool + [allNodes[i]];
        }
        i := i + 1;
      }
      assert allNodes[..i] == allNodes;
    }

    /**
     * `getNextBatch`: up to `batchSize` distinct nodes, none used since the
     * last reset, which are then marked as used.
     */
    method GetNextBatch() returns (batch: seq<string>)
      requires Valid()
      modifies this
      ensures Valid()
      ensures NoRepeats(batch)
      ensures forall n :: n in batch ==> n in allNodes && n !in AfterReset(old(usedNodes))
      ensures |batch| == BatchSize(|Unused(allNodes, AfterReset(old(usedNodes)))|)
      ensures usedNodes == AfterReset(old(usedNodes)) + set n | n in batch
    {
      if 10 * |usedNodes| >= 9 * |allNodes| {
        usedNodes := {};
      }
      ghost var used0 := usedNodes;
      assert used0 == AfterReset(old(usedNodes));
      var unused := UnusedPool(usedNodes);
      UnusedKeepsOrder(allNodes, usedNodes);
      if rate.Samples() && unused != [] {
        var shuffled;
        shuffled, rng := Shuffle(unused, rng);
        var sampleSize := if rate.Of(|unused|) < 1 then 1 else rate.Of(|unused|);
        TakeOfPermutation(unused, shuffled, sampleSize);
        unused := shuffled[..sampleSize];
      }
      var count := if batchSize < |unused| then batchSize else |unused|;
      batch := [];
      if unused != [] {
        var shuffled;
        shuffled, rng := Shuffle(unused, rng);
        TakeOfPermutation(unused, shuffled, count);
        batch := shuffled[..count];
        usedNodes := usedNodes + set n | n in batch;
      } else {
        assert (set n | n in batch) == {};
      }
    }

    /**
     * While nodes remain, every batch is non-empty: below the 90% mark
     * more than a tenth of the nodes are still unused.
     */
    lemma NeverStarves(used: set<string>)
      requires Valid()
      requires |allNodes| > 0 && batchSize > 0
      requires forall n :: n in used ==> n in allNodes
      ensures BatchSize(|Unused(allNodes, AfterReset(used))|) > 0
    {
      PoolSize(allNodes, AfterReset(used));
    }
  }
}
