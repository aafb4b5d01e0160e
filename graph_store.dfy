/**
 * The graph of the walk engine: a map from a subject to its outgoing edges
 * in input order, built from the lines of a triple file.
 */
module GraphStore {
  import opened Wrappers
  import opened Text
  import opened Random

  datatype Edge = Edge(pred: string, target: string)

  /** Subjects that are not keys have no outgoing edges. */
  type Graph = map<string, seq<Edge>>

  datatype Triple = Triple(subject: string, pred: string, obj: string)

  /** The object with at most one trailing '.' removed. */
  function StripDot(w: string): (r: string)
    ensures r == w || (w == r + "." && |r| + 1 == |w|)
    ensures w != [] && w[|w| - 1] == '.' ==> |r| + 1 == |w|
  {
    if w != [] && w[|w| - 1] == '.' then w[..|w| - 1] else w
  }

  /**
   * `parseTriple`: three extractions from a string stream; a line with fewer
   * than three words fails, anything after the third word is ignored.
   */
  function ParseTriple(line: string): (r: Option<Triple>)
    ensures r.None? <==> |Words(line)| < 3
    ensures r.Some? ==>
      && r.value.subject == Words(line)[0] && r.value.pred == Words(line)[1]
      && StripDot(Words(line)[2]) == r.value.obj
      && r.value.subject != [] && r.value.pred != []
      && NoSpace(r.value.subject) && NoSpace(r.value.pred) && NoSpace(r.value.obj)
  {
    var ws := Words(line);
    WordsAreWords(line);
    if |ws| < 3 then None else Some(Triple(ws[0], ws[1], StripDot(ws[2])))
  }

  /** A line the loader skips without trying to parse it. */
  predicate Skipped(line: string) {
    line == [] || line[0] == '#'
  }

  /** The edge a line contributes to `subject`'s list, if any. */
  function LineEdge(line: string, subject: string): seq<Edge> {
    if Skipped(line) then []
    else match ParseTriple(line)
      case Some(t) => if t.subject == subject then [Edge(t.pred, t.obj)] else []
      case None => []
  }

  /** Reference definition: every edge of `subject`, in the order of the lines. */
  function EdgesOf(lines: seq<string>, subject: string): (edges: seq<Edge>)
    ensures |edges| <= |lines|
    ensures forall e :: e in edges ==> exists line :: line in lines && e in LineEdge(line, subject)
  {
    if lines == [] then []
    else EdgesOf(lines[..|lines| - 1], subject) + LineEdge(lines[|lines| - 1], subject)
  }

  /** A line the loader reports as unparsable. */
  predicate Malformed(line: string) {
    !Skipped(line) && ParseTriple(line).None?
  }

  /**
   * The per-line loop of `loadGraph`: skips empty and '#' lines, appends the
   * edge of every parsed line to its subject's list and reports the (1-based)
   * numbers of the lines it could not parse.
   */
  method LoadGraph(lines: seq<string>) returns (graph: Graph, failed: seq<nat>)
    ensures forall s :: s in graph <==> EdgesOf(lines, s) != []
    ensures forall s :: s in graph ==> graph[s] == EdgesOf(lines, s)
    ensures forall k :: k in failed <==> 1 <= k <= |lines| && Malformed(lines[k - 1])
    ensures forall i, j :: 0 <= i < j < |failed| ==> failed[i] < failed[j]
  {
    graph, failed := map[], [];
    var lineNum := 0;
    while lineNum < |lines|
      invariant 0 <= lineNum <= |lines|
      invariant Holds(graph, lines[..lineNum])
      invariant Reported(failed, lines, lineNum)
      invariant forall i, j :: 0 <= i < j < |failed| ==> failed[i] < failed[j]
      invariant forall i :: 0 <= i < |failed| ==> failed[i] <= lineNum
    {
      var line := lines[lineNum];
      ghost var before := graph;
      assert lines[..lineNum + 1] == lines[..lineNum] + [line];
      lineNum := lineNum + 1;
      ReportStep(failed, lines, lineNum - 1);
      if Skipped(line) {
        LoadStep(before, lines[..lineNum - 1], line, graph);
        continue;
      }
      match ParseTriple(line)
      case Some(t) =>
        var edges := if t.subject in graph then graph[t.subject] else [];
        graph := graph[t.subject := edges + [Edge(t.pred, t.obj)]];
        LoadStep(before, lines[..lineNum - 1], line, graph);
      case None =>
        failed := failed + [lineNum];
        LoadStep(before, lines[..lineNum - 1], line, graph);
    }
    assert lines[..lineNum] == lines;
  }

  /** `failed` lists the malformed lines among the first `n`. */
  ghost predicate Reported(failed: seq<nat>, lines: seq<string>, n: nat)
    requires n <= |lines|
  {
    forall k :: k in failed <==> 1 <= k <= n && Malformed(lines[k - 1])
  }

  lemma ReportStep(failed: seq<nat>, lines: seq<string>, n: nat)
    requires n < |lines| && Reported(failed, lines, n)
    ensures Malformed(lines[n]) ==> Reported(failed + [n + 1], lines, n + 1)
    ensures !Malformed(lines[n]) ==> Reported(failed, lines, n + 1)
  {
  }

  /** `graph` holds exactly the edges of `lines`, per subject and in order. */
  ghost predicate Holds(graph: Graph, lines: seq<string>) {
    && (forall s :: s in graph <==> EdgesOf(lines, s) != [])
    && (forall s :: s in graph ==> graph[s] == EdgesOf(lines, s))
  }

  /** One iteration of the line loop keeps `Holds`. */
  lemma LoadStep(before: Graph, done: seq<string>, line: string, after: Graph)
    requires Holds(before, done)
    requires Skipped(line) || ParseTriple(line).None? ==> after == before
    requires !Skipped(line) && ParseTriple(line).Some? ==>
      var t := ParseTriple(line).value;
      after == before[t.subject := (if t.subject in before then before[t.subject] else []) + [Edge(t.pred, t.obj)]]
    ensures Holds(after, done + [line])
  {
    var ls := done + [line];
    assert ls[..|ls| - 1] == done;
    forall s ensures EdgesOf(ls, s) == EdgesOf(done, s) + LineEdge(line, s) {
    }
  }

  /**
   * A line written as three words separated by blanks parses back to them,
   * with one trailing '.' taken off the object; further words are ignored.
   */
  lemma ParseTripleOfLine(s: string, p: string, o: string, tail: string)
    requires s != [] && p != [] && o != []
    requires NoSpace(s) && NoSpace(p) && NoSpace(o)
    ensures ParseTriple(s + " " + p + " " + o + " " + tail) == Some(Triple(s, p, StripDot(o)))
  {
    ThreeWords(s, p, o, tail);
  }

  /** The trailing '.' of an N-Triples line is not part of the object. */
  lemma ParseTripleStripsOneDot(s: string, p: string, o: string)
    requires s != [] && p != [] && o != []
    requires NoSpace(s) && NoSpace(p) && NoSpace(o)
    ensures ParseTriple(s + " " + p + " " + o + ". ") == Some(Triple(s, p, o))
    ensures ParseTriple(s + " " + p + " " + o + ".. ") == Some(Triple(s, p, o + "."))
  {
    assert s + " " + p + " " + o + ". " == s + " " + p + " " + (o + ".") + " " + [];
    ParseTripleOfLine(s, p, o + ".", []);
    assert (o + ".")[..|o|] == o;
    assert s + " " + p + " " + o + ".. " == s + " " + p + " " + (o + "..") + " " + [];
    ParseTripleOfLine(s, p, o + "..", []);
    assert (o + "..")[..|o| + 1] == o + ".";
  }

  /** Nodes that may start a walk: the keys with a non-empty edge list. */
  predicate Eligible(g: Graph, node: string) {
    node in g && g[node] != []
  }

  /**
   * The eligibility loop shared by `getStartNodes` and the `NodeManager`
   * constructor. The hash map's iteration order is unspecified, so the
   * order is an arbitrary choice here.
   */
  method EligibleNodes(g: Graph) returns (nodes: seq<string>)
    ensures forall n :: n in nodes <==> Eligible(g, n)
    ensures forall i, j :: 0 <= i < j < |nodes| ==> nodes[i] != nodes[j]
  {
    nodes := [];
    var rest := g.Keys;
    while rest != {}
      invariant rest <= g.Keys
      invariant forall n :: n in nodes <==> Eligible(g, n) && n !in rest
      invariant forall i, j :: 0 <= i < j < |nodes| ==> nodes[i] != nodes[j]
    {
      var n :| n in rest;
      if g[n] != [] {
        nodes := nodes + [n];
      }
      rest := rest - {n};
    }
  }

  /** A sampling rate `num / den`; rates of 1 or more mean "no sampling". */
  datatype Rate = Rate(num: nat, den: nat) {
    predicate Valid() { den > 0 }
    predicate Samples() requires Valid() { num < den }
    /** `static_cast<size_t>(size * rate)`. */
    function Of(size: nat): (k: nat)
      requires Valid()
      ensures Samples() ==> k <= size
    {
      size * num / den
    }
  }

  /**
   * `getStartNodes`: the eligible nodes, and when sampling, a random subset
   * of `floor(|eligible| * rate)` of them.
   */
  method GetStartNodes(g: Graph, rate: Rate, rng: Rng) returns (nodes: seq<string>, rng': Rng)
    requires rate.Valid()
    ensures forall n :: n in nodes ==> Eligible(g, n)
    ensures forall i, j :: 0 <= i < j < |nodes| ==> nodes[i] != nodes[j]
    ensures !rate.Samples() ==> forall n :: Eligible(g, n) ==> n in nodes
    ensures rate.Samples() ==> |nodes| == rate.Of(|set n | n in g.Keys && Eligible(g, n)|)
  {
    var all := EligibleNodes(g);
    rng' := rng;
    nodes := all;
    ghost var eligible := set n | n in g.Keys && Eligible(g, n);
    DistinctCard(all, eligible);
    if rate.Samples() {
      var shuffled;
      shuffled, rng' := Shuffle(all, rng);
      DistinctPermutation(all, shuffled);
      nodes := shuffled[..rate.Of(|all|)];
    }
  }

  /** A duplicate-free listing of a set has the set's size. */
  lemma {:induction false} DistinctCard(s: seq<string>, e: set<string>)
    requires forall n :: n in s <==> n in e
    requires forall i, j :: 0 <= i < j < |s| ==> s[i] != s[j]
    ensures |s| == |e|
  {
    if s != [] {
      var last := s[|s| - 1];
      var init := s[..|s| - 1];
      assert last !in init;
      assert forall n :: n in init <==> n in e - {last} by {
        forall n ensures n in init <==> n in e - {last} {
          if n in e && n != last {
            var i :| 0 <= i < |s| && s[i] == n;
            assert i < |s| - 1 && init[i] == n;
          }
        }
      }
      DistinctCard(init, e - {last});
    }
  }

  /** A permutation of a duplicate-free sequence is duplicate-free and has the same elements. */
  lemma {:induction false} DistinctPermutation(s: seq<string>, t: seq<string>)
    requires multiset(t) == multiset(s)
    requires forall i, j :: 0 <= i < j < |s| ==> s[i] != s[j]
    ensures forall n :: n in t <==> n in s
    ensures forall i, j :: 0 <= i < j < |t| ==> t[i] != t[j]
  {
    forall n ensures n in t <==> n in s {
      assert n in t <==> n in multiset(t);
      assert n in s <==> n in multiset(s);
    }
    DistinctMultiplicity(s);
    forall i, j | 0 <= i < j < |t| ensures t[i] != t[j] {
      var x := t[i];
      assert t == t[..j] + t[j..];
      assert t[..j][i] == x;
      assert multiset(t[..j])[x] >= 1;
      assert t[j..][0] == t[j];
      assert multiset(t[j..])[t[j]] >= 1;
      assert multiset(t)[x] == multiset(t[..j])[x] + multiset(t[j..])[x];
      assert multiset(t)[x] <= 1;
    }
  }

  lemma {:induction false} DistinctMultiplicity(s: seq<string>)
    requires forall i, j :: 0 <= i < j < |s| ==> s[i] != s[j]
    ensures forall n :: multiset(s)[n] <= 1
  {
    if s != [] {
      var init := s[..|s| - 1];
      DistinctMultiplicity(init);
      assert s == init + [s[|s| - 1]];
      assert s[|s| - 1] !in init;
    }
  }
}
