/**
 * `generateDistinctWalks`: up to `numWalks` walks from one start node,
 * de-duplicated by key, with a bounded number of attempts and a fallback
 * that accepts duplicates when the node offers too little diversity.
 */
module DistinctWalks {
  import opened GraphStore
  import opened Random
  import opened WalkSampler
  import opened WalkFormat

  const MaxAttemptsPerWalk: int := 10

  /** Every walk from `node` takes the same edges: each node on the way has a single distinct edge. */
  ghost predicate SinglePath(g: Graph, node: string, steps: nat)
    decreases steps
  {
    var edges := OutEdges(g, node);
    steps == 0 || edges == [] ||
    ((forall i :: 0 <= i < |edges| ==> edges[i] == edges[0]) && SinglePath(g, edges[0].target, steps - 1))
  }

  /** On a single path the sampler's walk does not depend on the draws. */
  lemma {:induction false} SinglePathWalk(g: Graph, node: string, steps: nat, r1: Rng, r2: Rng)
    requires SinglePath(g, node, steps)
    ensures WalkFrom(g, node, steps, r1).0 == WalkFrom(g, node, steps, r2).0
    decreases steps
  {
    var edges := OutEdges(g, node);
    if steps > 0 && edges != [] {
      var c1 := ChooseEdge(|edges|, r1);
      var c2 := ChooseEdge(|edges|, r2);
      assert edges[c1.0] == edges[0] == edges[c2.0];
      SinglePathWalk(g, edges[0].target, steps - 1, c1.1, c2.1);
    }
  }

  function Max(a: int, b: int): int {
    if a < b then b else a
  }

  function Min(a: int, b: int): int {
    if a < b then a else b
  }

  /** The walks with indices `i < j` share a key. */
  predicate SameKey(walks: seq<seq<string>>, i: nat, j: nat)
    requires i < j < |walks|
  {
    WalkKey(walks[i]) == WalkKey(walks[j])
  }

  /** The keys of a list of walks. */
  function Keys(walks: seq<seq<string>>): (keys: set<string>)
    ensures forall i :: 0 <= i < |walks| ==> WalkKey(walks[i]) in keys
  {
    if walks == [] then {} else Keys(walks[..|walks| - 1]) + {WalkKey(walks[|walks| - 1])}
  }

  lemma KeysAppend(walks: seq<seq<string>>, w: seq<string>)
    ensures Keys(walks + [w]) == Keys(walks) + {WalkKey(w)}
  {
    assert (walks + [w])[..|walks|] == walks;
  }

  /** A key outside `Keys(walks)` differs from every walk's key. */
  lemma {:induction false} NotInKeys(walks: seq<seq<string>>, key: string)
    requires key !in Keys(walks)
    ensures forall i :: 0 <= i < |walks| ==> WalkKey(walks[i]) != key
  {
  }

  /** One more duplicate under the single-path count invariant. */
  lemma CountStep(d: int, n: int, w: int)
    requires 0 <= d && 1 <= n
    requires w == 1 + Min(Max(0, d - 2 * n), Max(0, n / 2 - 1))
    ensures (if d + 1 > 2 * n && w < n / 2 then w + 1 else w)
      == 1 + Min(Max(0, d + 1 - 2 * n), Max(0, n / 2 - 1))
  {
  }

  /** Every element of `walks` is a walk of at most `steps` steps from `start`. */
  ghost predicate AllWalks(g: Graph, start: string, steps: nat, walks: seq<seq<string>>) {
    forall i :: 0 <= i < |walks| ==> IsWalk(g, start, steps, walks[i])
  }

  lemma AllWalksAppend(g: Graph, start: string, steps: nat, walks: seq<seq<string>>, w: seq<string>)
    requires AllWalks(g, start, steps, walks) && IsWalk(g, start, steps, w)
    ensures AllWalks(g, start, steps, walks + [w])
  {
    var ws := walks + [w];
    forall i | 0 <= i < |ws|
      ensures IsWalk(g, start, steps, ws[i])
    {
      if i < |walks| {
        assert ws[i] == walks[i];
      }
    }
  }

  predicate Distinct(walks: seq<seq<string>>) {
    forall i, j :: 0 <= i < j < |walks| ==> !SameKey(walks, i, j)
  }

  /**
   * What the de-duplication guarantees after `duplicates` duplicates:
   * no repeated key while the fallback is off, and a repeat only ever
   * lands below index `numWalks / 2`.
   */
  predicate KeysOk(walks: seq<seq<string>>, duplicates: int, numWalks: int) {
    (duplicates <= 2 * numWalks ==> Distinct(walks)) &&
    forall i, j :: 0 <= i < j < |walks| && SameKey(walks, i, j) ==> j < numWalks / 2
  }

  /** Appending a walk with a fresh key keeps `KeysOk`. */
  lemma AddFresh(walks: seq<seq<string>>, walk: seq<string>, duplicates: int, numWalks: int)
    requires KeysOk(walks, duplicates, numWalks)
    requires WalkKey(walk) !in Keys(walks)
    ensures KeysOk(walks + [walk], duplicates, numWalks)
  {
    NotInKeys(walks, WalkKey(walk));
    var ws := walks + [walk];
    forall i, j | 0 <= i < j < |ws| && SameKey(ws, i, j)
      ensures j < |walks| && SameKey(walks, i, j)
    {
      assert ws[i] == walks[i];
      if j < |walks| {
        assert ws[j] == walks[j];
      }
    }
  }

  /** Appending a duplicate in the fallback keeps `KeysOk`. */
  lemma AddDuplicate(walks: seq<seq<string>>, walk: seq<string>, duplicates: int, numWalks: int)
    requires KeysOk(walks, duplicates - 1, numWalks)
    requires duplicates > 2 * numWalks && |walks| < numWalks / 2
    ensures KeysOk(walks + [walk], duplicates, numWalks)
  {
    var ws := walks + [walk];
    forall i, j | 0 <= i < j < |ws| && SameKey(ws, i, j)
      ensures j < numWalks / 2
    {
      if j < |walks| {
        assert ws[i] == walks[i] && ws[j] == walks[j];
        assert SameKey(walks, i, j);
      }
    }
  }

  /**
   * On a single path: every accepted walk is `only`, the first attempt is
   * accepted, every later one is a duplicate, and the fallback adds one
   * copy per duplicate beyond `2 * numWalks`, up to `numWalks / 2` walks.
   */
  ghost predicate SingleTrack(walks: seq<seq<string>>, only: seq<string>, attempts: int, duplicates: int, numWalks: int) {
    (forall i :: 0 <= i < |walks| ==> walks[i] == only) &&
    (attempts == 0 ==> walks == [] && duplicates == 0) &&
    (attempts > 0 ==>
      duplicates == attempts - 1 &&
      |walks| == 1 + Min(Max(0, duplicates - 2 * numWalks), Max(0, numWalks / 2 - 1)))
  }

  /** One attempt on a single path, in the two cases the loop can meet. */
  lemma SingleStep(single: bool, walks: seq<seq<string>>, only: seq<string>, attempts: int, duplicates: int, numWalks: int)
    requires 0 <= attempts && 0 <= duplicates && 1 <= numWalks
    requires single ==> SingleTrack(walks, only, attempts, duplicates, numWalks)
    ensures single && attempts == 0 ==>
      WalkKey(only) !in Keys(walks) && SingleTrack(walks + [only], only, 1, duplicates, numWalks)
    ensures single && attempts > 0 ==>
      WalkKey(only) in Keys(walks) &&
      SingleTrack(if duplicates + 1 > 2 * numWalks && |walks| < numWalks / 2 then walks + [only] else walks,
                  only, attempts + 1, duplicates + 1, numWalks)
  {
    if single && attempts > 0 {
      assert walks[0] == only;
      CountStep(duplicates, numWalks, |walks|);
      var ws := walks + [only];
      assert forall i :: 0 <= i < |ws| ==> ws[i] == only;
    }
  }

  /** When the loop stops on a single path, it has `max(1, numWalks / 2)` walks. */
  lemma SingleExit(walks: seq<seq<string>>, only: seq<string>, attempts: int, duplicates: int, numWalks: int)
    requires 1 <= numWalks && 0 <= attempts
    requires SingleTrack(walks, only, attempts, duplicates, numWalks)
    requires |walks| >= numWalks || attempts >= numWalks * MaxAttemptsPerWalk
    ensures |walks| == Max(1, numWalks / 2)
  {
  }

  /** The loop invariant of `GenerateDistinctWalks` beyond its counter bounds. */
  ghost predicate Inv(g: Graph, start: string, steps: nat, numWalks: int, single: bool, only: seq<string>,
                      walks: seq<seq<string>>, walkStrings: set<string>, attempts: int, duplicates: int)
  {
    0 <= duplicates <= attempts &&
    |walks| <= Max(0, numWalks) &&
    walkStrings == Keys(walks) &&
    AllWalks(g, start, steps, walks) &&
    KeysOk(walks, duplicates, numWalks) &&
    (single ==> SingleTrack(walks, only, attempts, duplicates, numWalks))
  }

  /** One attempt of the loop keeps `Inv`, whichever branch it takes. */
  lemma Step(g: Graph, start: string, steps: nat, numWalks: int, single: bool, only: seq<string>,
             walks: seq<seq<string>>, walkStrings: set<string>, attempts: int, duplicates: int,
             walk: seq<string>, walks': seq<seq<string>>, walkStrings': set<string>, duplicates': int)
    requires Inv(g, start, steps, numWalks, single, only, walks, walkStrings, attempts, duplicates)
    requires |walks| < numWalks
    requires IsWalk(g, start, steps, walk) && (single ==> walk == only)
    requires WalkKey(walk) !in walkStrings ==>
      walks' == walks + [walk] && walkStrings' == walkStrings + {WalkKey(walk)} && duplicates' == duplicates
    requires WalkKey(walk) in walkStrings ==>
      walkStrings' == walkStrings && duplicates' == duplicates + 1 &&
      walks' == (if duplicates' > numWalks * 2 && |walks| < numWalks / 2 then walks + [walk] else walks)
    ensures Inv(g, start, steps, numWalks, single, only, walks', walkStrings', attempts + 1, duplicates')
  {
    SingleStep(single, walks, only, attempts, duplicates, numWalks);
    KeysAppend(walks, walk);
    AllWalksAppend(g, start, steps, walks, walk);
    if WalkKey(walk) !in walkStrings {
      AddFresh(walks, walk, duplicates, numWalks);
    } else if duplicates' > numWalks * 2 && |walks| < numWalks / 2 {
      AddDuplicate(walks, walk, duplicates', numWalks);
    }
  }

  /**
   * `generateDistinctWalks`. The ghost outputs report the loop's counters
   * at exit: the number of calls to the sampler and of duplicate keys seen.
   */
  method GenerateDistinctWalks(g: Graph, startNode: string, numWalks: int, walkLength: int, rng: Rng)
    returns (walks: seq<seq<string>>, rng': Rng, ghost attemptsMade: nat, ghost duplicatesSeen: nat)
    ensures |walks| <= Max(0, numWalks)
    ensures attemptsMade <= Max(0, numWalks * MaxAttemptsPerWalk)
    ensures |walks| == Max(0, numWalks) || attemptsMade == Max(0, numWalks * MaxAttemptsPerWalk)
    ensures AllWalks(g, startNode, Steps(walkLength), walks)
    ensures duplicatesSeen <= 2 * numWalks ==> Distinct(walks)
    ensures forall i, j :: 0 <= i < j < |walks| && SameKey(walks, i, j) ==> j < numWalks / 2
    ensures SinglePath(g, startNode, Steps(walkLength)) && numWalks >= 1 ==>
      |walks| == Max(1, numWalks / 2)
  {
    walks, rng' := [], rng;
    var walkStrings: set<string> := {};
    var attempts, duplicates := 0, 0;
    ghost var single := SinglePath(g, startNode, Steps(walkLength));
    ghost var only: seq<string> := WalkFrom(g, startNode, Steps(walkLength), rng).0;
    while |walks| < numWalks && attempts < numWalks * MaxAttemptsPerWalk
      invariant 0 <= attempts <= Max(0, numWalks * MaxAttemptsPerWalk)
      invariant Inv(g, startNode, Steps(walkLength), numWalks, single, only, walks, walkStrings, attempts, duplicates)
      decreases numWalks * MaxAttemptsPerWalk - attempts
    {
      ghost var before, walks0, walkStrings0, attempts0, duplicates0 := rng', walks, walkStrings, attempts, duplicates;
      var walk;
      walk, rng' := RandomWalk(g, startNode, walkLength, rng');
      assert single ==> walk == only by {
        if single {
          SinglePathWalk(g, startNode, Steps(walkLength), rng, before);
        }
      }
      var walkStr := WalkKey(walk);
      attempts := attempts + 1;
      if walkStr !in walkStrings {
        walkStrings := walkStrings + {walkStr};
        walks := walks + [walk];
      } else {
        duplicates := duplicates + 1;
        if duplicates > numWalks * 2 {
          if |walks| < numWalks / 2 {
            walks := walks + [walk];
          }
        }
      }
      Step(g, startNode, Steps(walkLength), numWalks, single, only,
           walks0, walkStrings0, attempts0, duplicates0, walk, walks, walkStrings, duplicates);
    }
    if single && numWalks >= 1 {
      SingleExit(walks, only, attempts, duplicates, numWalks);
    }
    attemptsMade, duplicatesSeen := attempts, duplicates;
  }
}
