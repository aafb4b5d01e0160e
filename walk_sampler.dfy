/**
 * `randomWalk`: one walk from a start node, alternating entity, predicate,
 * entity, ..., with at most `length` entities, stopping early at a node
 * without outgoing edges.
 */
module WalkSampler {
  import opened GraphStore
  import opened Random

  /** The outgoing edges of a node; a node that is not a key has none. */
  function OutEdges(g: Graph, node: string): seq<Edge> {
    if node in g then g[node] else []
  }

  /**
   * The edge index taken at a node with `n` edges: the first entry of the
   * shuffled index list. A single index is not shuffled, so no draw is
   * consumed; otherwise the first entry is a uniform index below `n`.
   */
  function ChooseEdge(n: nat, rng: Rng): (res: (nat, Rng))
    requires n > 0
    ensures res.0 < n
  {
    if n == 1 then (0, rng) else Below(rng, n)
  }

  /** Reference definition: the walk from `node` with at most `steps` more edges. */
  function WalkFrom(g: Graph, node: string, steps: nat, rng: Rng): (seq<string>, Rng)
    decreases steps
  {
    var edges := OutEdges(g, node);
    if steps == 0 || edges == [] then ([node], rng)
    else
      var choice := ChooseEdge(|edges|, rng);
      var e := edges[choice.0];
      var rest := WalkFrom(g, e.target, steps - 1, choice.1);
      ([node, e.pred] + rest.0, rest.1)
  }

  /** The number of edges a walk of `length` entities may take. */
  function Steps(length: int): nat {
    if length <= 1 then 0 else length - 1
  }

  /** Tokens `2i+1` and `2i+2` are the predicate and target of an edge of entity `2i`. */
  predicate StepOk(g: Graph, w: seq<string>, i: nat)
    requires 2 * i + 2 < |w|
  {
    Edge(w[2 * i + 1], w[2 * i + 2]) in OutEdges(g, w[2 * i])
  }

  /**
   * `w` is a walk from `start` of at most `steps` edges that follows edges
   * of `g` and ends early only at a node without outgoing edges.
   */
  ghost predicate IsWalk(g: Graph, start: string, steps: nat, w: seq<string>) {
    && |w| % 2 == 1
    && w[0] == start
    && |w| <= 2 * steps + 1
    && (forall i: nat :: 2 * i + 2 < |w| ==> StepOk(g, w, i))
    && (|w| < 2 * steps + 1 ==> OutEdges(g, w[|w| - 1]) == [])
  }

  /** Every walk the reference definition produces is a walk of `g`. */
  lemma {:induction false} WalkFromIsWalk(g: Graph, node: string, steps: nat, rng: Rng)
    ensures IsWalk(g, node, steps, WalkFrom(g, node, steps, rng).0)
    decreases steps
  {
    var edges := OutEdges(g, node);
    if steps > 0 && edges != [] {
      var choice := ChooseEdge(|edges|, rng);
      var e := edges[choice.0];
      WalkFromIsWalk(g, e.target, steps - 1, choice.1);
      ConsWalk(g, node, steps, e, WalkFrom(g, e.target, steps - 1, choice.1).0);
    }
  }

  /** Taking an edge of `node` in front of a walk from its target gives a walk from `node`. */
  lemma ConsWalk(g: Graph, node: string, steps: nat, e: Edge, rest: seq<string>)
    requires steps > 0 && e in OutEdges(g, node)
    requires IsWalk(g, e.target, steps - 1, rest)
    ensures IsWalk(g, node, steps, [node, e.pred] + rest)
  {
    var w := [node, e.pred] + rest;
    forall i: nat | 2 * i + 2 < |w| ensures StepOk(g, w, i) {
      if i > 0 {
        assert StepOk(g, rest, i - 1);
        assert w[2 * i] == rest[2 * (i - 1)];
        assert w[2 * i + 1] == rest[2 * (i - 1) + 1];
        assert w[2 * i + 2] == rest[2 * (i - 1) + 2];
      }
    }
    assert w[|w| - 1] == rest[|rest| - 1];
  }

  /** Sampling reads the same stream forward, at most one draw per step. */
  lemma {:induction false} WalkFromDraws(g: Graph, node: string, steps: nat, rng: Rng)
    ensures WalkFrom(g, node, steps, rng).1.draw == rng.draw
    ensures rng.used <= WalkFrom(g, node, steps, rng).1.used <= rng.used + steps
    decreases steps
  {
    var edges := OutEdges(g, node);
    if steps > 0 && edges != [] {
      var choice := ChooseEdge(|edges|, rng);
      WalkFromDraws(g, edges[choice.0].target, steps - 1, choice.1);
    }
  }

  /** A walk depends only on the draws at or after the source's position. */
  lemma {:induction false} WalkFromUsesLaterDraws(g: Graph, node: string, steps: nat, d1: nat -> nat, d2: nat -> nat, u: nat)
    requires forall x :: x >= u ==> d1(x) == d2(x)
    ensures WalkFrom(g, node, steps, Rng(d1, u)).0 == WalkFrom(g, node, steps, Rng(d2, u)).0
    ensures WalkFrom(g, node, steps, Rng(d1, u)).1.used == WalkFrom(g, node, steps, Rng(d2, u)).1.used
    decreases steps
  {
    var edges := OutEdges(g, node);
    if steps > 0 && edges != [] {
      var c1 := ChooseEdge(|edges|, Rng(d1, u));
      var c2 := ChooseEdge(|edges|, Rng(d2, u));
      assert c1.0 == c2.0 && c1.1.used == c2.1.used;
      assert c1.1.draw == d1 && c2.1.draw == d2;
      WalkFromUsesLaterDraws(g, edges[c1.0].target, steps - 1, d1, d2, c1.1.used);
    }
  }

  /** The first step of a walk of more than one entity, and the walk after it. */
  lemma WalkTail(g: Graph, start: string, steps: nat, w: seq<string>)
    requires IsWalk(g, start, steps, w) && |w| > 1
    ensures steps > 0 && Edge(w[1], w[2]) in OutEdges(g, start)
    ensures IsWalk(g, w[2], steps - 1, w[2..])
  {
    assert StepOk(g, w, 0);
    var rest := w[2..];
    forall i: nat | 2 * i + 2 < |rest| ensures StepOk(g, rest, i) {
      assert StepOk(g, w, i + 1);
      assert rest[2 * i] == w[2 * (i + 1)];
    }
  }

  /**
   * Every walk of `g` is produced by some random source: the sampler can
   * take every outgoing edge at every step.
   */
  lemma {:induction false} EveryWalkIsSampled(g: Graph, start: string, steps: nat, w: seq<string>, u: nat)
    requires IsWalk(g, start, steps, w)
    ensures exists d: nat -> nat :: WalkFrom(g, start, steps, Rng(d, u)).0 == w
    decreases steps
  {
    var edges := OutEdges(g, start);
    if |w| == 1 {
      var d: nat -> nat := x => 0;
      assert WalkFrom(g, start, steps, Rng(d, u)).0 == w;
    } else {
      WalkTail(g, start, steps, w);
      var e := Edge(w[1], w[2]);
      var k :| 0 <= k < |edges| && edges[k] == e;
      var next := if |edges| == 1 then u else u + 1;
      EveryWalkIsSampled(g, e.target, steps - 1, w[2..], next);
      var d :| WalkFrom(g, e.target, steps - 1, Rng(d, next)).0 == w[2..];
      var d': nat -> nat := x => if x == u && |edges| > 1 then k else d(x);
      SampledWithChoice(g, start, steps, w, u, k, d, d');
    }
  }

  /** Overriding the draw at the source's position (if one is used) selects edge `k` first. */
  lemma SampledWithChoice(g: Graph, start: string, steps: nat, w: seq<string>, u: nat, k: nat, d: nat -> nat, d': nat -> nat)
    requires steps > 0 && |w| > 2
    requires k < |OutEdges(g, start)| && OutEdges(g, start)[k] == Edge(w[1], w[2])
    requires forall x :: d'(x) == if x == u && |OutEdges(g, start)| > 1 then k else d(x)
    requires WalkFrom(g, w[2], steps - 1, Rng(d, if |OutEdges(g, start)| == 1 then u else u + 1)).0 == w[2..]
    requires w[0] == start
    ensures WalkFrom(g, start, steps, Rng(d', u)).0 == w
  {
    var edges := OutEdges(g, start);
    var next := if |edges| == 1 then u else u + 1;
    WalkFromUsesLaterDraws(g, w[2], steps - 1, d, d', next);
    var choice := ChooseEdge(|edges|, Rng(d', u));
    assert choice == (k, Rng(d', next));
    var rest := WalkFrom(g, w[2], steps - 1, Rng(d', next));
    assert WalkFrom(g, start, steps, Rng(d', u)).0 == [start, w[1]] + rest.0;
    assert w == [start, w[1]] + w[2..];
  }

  /**
   * `randomWalk`: the walk starts with `start`; each of at most `length - 1`
   * steps looks up the current node, stops at a node without edges, and
   * otherwise appends the predicate and target of the chosen edge.
   */
  method RandomWalk(g: Graph, start: string, length: int, rng: Rng) returns (walk: seq<string>, rng': Rng)
    ensures (walk, rng') == WalkFrom(g, start, Steps(length), rng)
    ensures IsWalk(g, start, Steps(length), walk)
    ensures |walk| <= if length <= 1 then 1 else 2 * length - 1
    ensures length <= 1 || OutEdges(g, start) == [] ==> walk == [start]
  {
    walk, rng' := [start], rng;
    var current := start;
    var i := 0;
    ghost var total := Steps(length);
    ghost var full := WalkFrom(g, start, total, rng);
    ghost var prefix: seq<string> := [];
    while i < length - 1
      invariant 0 <= i <= total
      invariant walk == prefix + [current] && |walk| == 2 * i + 1
      invariant prefix + WalkFrom(g, current, total - i, rng').0 == full.0
      invariant WalkFrom(g, current, total - i, rng').1 == full.1
    {
      if current !in g || g[current] == [] {
        break;
      }
      var edges := g[current];
      var choice := ChooseEdge(|edges|, rng');
      var e := edges[choice.0];
      ghost var rest := WalkFrom(g, e.target, total - i - 1, choice.1);
      assert WalkFrom(g, current, total - i, rng') == ([current, e.pred] + rest.0, rest.1);
      assert prefix + ([current, e.pred] + rest.0) == (prefix + [current, e.pred]) + rest.0;
      prefix := prefix + [current, e.pred];
      walk := walk + [e.pred, e.target];
      rng' := choice.1;
      current := e.target;
      i := i + 1;
    }
    assert WalkFrom(g, current, total - i, rng').0 == [current];
    WalkFromIsWalk(g, start, total, rng);
  }

  /** The three-node chain A -p1-> B -p2-> C. */
  function Chain(): Graph {
    map["A" := [Edge("p1", "B")], "B" := [Edge("p2", "C")], "C" := []]
  }

  /** On the chain, lengths 3 and 5 give the same walk, whatever the draws. */
  lemma ChainWalk(rng: Rng)
    ensures WalkFrom(Chain(), "A", Steps(3), rng).0 == ["A", "p1", "B", "p2", "C"]
    ensures WalkFrom(Chain(), "A", Steps(5), rng).0 == ["A", "p1", "B", "p2", "C"]
  {
    var g := Chain();
    assert WalkFrom(g, "C", 2, rng).0 == ["C"];
    assert WalkFrom(g, "C", 0, rng).0 == ["C"];
    assert WalkFrom(g, "B", 3, rng).0 == ["B", "p2", "C"];
    assert WalkFrom(g, "B", 1, rng).0 == ["B", "p2", "C"];
  }
}
