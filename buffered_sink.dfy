/**
 * `WalkBuffer`: CSV lines collected in memory and written to the output
 * file in batches, plus the sequential part of `generateRandomWalks` that
 * feeds it. The file is a character sequence that only ever grows; the
 * mutex around the write is left out.
 */
module BufferedSink {
  import opened GraphStore
  import opened Random
  import opened WalkSampler
  import opened WalkFormat

  const DefaultBufferSize: nat := 10000

  /** The concatenation of `lines`, in order. */
  function Concat(lines: seq<string>): string {
    if lines == [] then [] else Concat(lines[..|lines| - 1]) + lines[|lines| - 1]
  }

  lemma {:induction false} ConcatAppend(a: seq<string>, b: seq<string>)
    ensures Concat(a + b) == Concat(a) + Concat(b)
    decreases |b|
  {
    if b == [] {
      assert a + b == a;
    } else {
      var b', x := b[..|b| - 1], b[|b| - 1];
      assert a + b == (a + b') + [x];
      assert ((a + b') + [x])[..|a + b'|] == a + b';
      calc {
        Concat(a + b);
        Concat(a + b') + x;
        { ConcatAppend(a, b'); }
        (Concat(a) + Concat(b')) + x;
        Concat(a) + (Concat(b') + x);
      }
    }
  }

  /** The output file: what has been written so far. */
  class OutFile {
    var text: string

    constructor ()
      ensures text == []
    {
      text := [];
    }
  }

  class WalkBuffer {
    var buffer: seq<string>
    const maxSize: nat
    const outFile: OutFile
    /** The file's text when the buffer was created. */
    ghost const initial: string
    /** The lines written to the file so far, in order. */
    ghost var flushed: seq<string>

    /** The file holds exactly the flushed lines after its initial text. */
    ghost predicate Written()
      reads this, outFile
    {
      outFile.text == initial + Concat(flushed)
    }

    /** Between calls, a non-empty buffer is never full: `add` flushes as soon as it fills. */
    ghost predicate Valid()
      reads this, outFile
    {
      Written() && (buffer == [] || |buffer| < maxSize)
    }

    /** Every line added so far, in order: those already written, then those still buffered. */
    ghost function Lines(): seq<string>
      reads this
    {
      flushed + buffer
    }

    constructor (file: OutFile, bufferSize: nat := DefaultBufferSize)
      ensures Valid()
      ensures buffer == [] && maxSize == bufferSize && outFile == file
      ensures initial == file.text && Lines() == []
    {
      buffer := [];
      maxSize := bufferSize;
      outFile := file;
      initial := file.text;
      flushed := [];
    }

    /** Writes the buffered lines, in order, in one piece, and empties the buffer. */
    method Flush()
      requires Written()
      modifies this, outFile
      ensures Valid()
      ensures buffer == [] && Lines() == old(Lines())
      ensures outFile.text == old(outFile.text) + Concat(old(buffer))
    {
      if buffer == [] {
        return;
      }
      var data: string := [];
      var i := 0;
      while i < |buffer|
        invariant 0 <= i <= |buffer|
        invariant data == Concat(buffer[..i])
      {
        assert buffer[..i + 1][..i] == buffer[..i];
        data := data + buffer[i];
        i := i + 1;
      }
      assert buffer[..i] == buffer;
      ConcatAppend(flushed, buffer);
      outFile.text := outFile.text + data;
      flushed, buffer := flushed + buffer, [];
    }

    /** Buffers `line`; a buffer that reaches `maxSize` is flushed. */
    method Add(line: string)
      requires Valid()
      modifies this, outFile
      ensures Valid()
      ensures Lines() == old(Lines()) + [line]
      ensures |old(buffer)| + 1 >= maxSize ==>
        buffer == [] && outFile.text == old(outFile.text) + Concat(old(buffer) + [line])
      ensures |old(buffer)| + 1 < maxSize ==>
        buffer == old(buffer) + [line] && outFile.text == old(outFile.text)
    {
      buffer := buffer + [line];
      assert Lines() == old(Lines()) + [line];
      if |buffer| >= maxSize {
        Flush();
      }
    }

    /** The destructor: whatever is still buffered is written, so the file ends with every line added. */
    method Close()
      requires Valid()
      modifies this, outFile
      ensures buffer == []
      ensures outFile.text == initial + Concat(old(Lines()))
    {
      Flush();
      assert flushed + buffer == flushed;
    }
  }

  /** The CSV lines of a list of walks. */
  function CsvLines(walks: seq<seq<string>>): seq<string> {
    if walks == [] then [] else CsvLines(walks[..|walks| - 1]) + [WalkToCsv(walks[|walks| - 1])]
  }

  /** Each of `nodes`, repeated `m` times in a row. */
  function Expand(nodes: seq<string>, m: nat): seq<string> {
    if nodes == [] then [] else Expand(nodes[..|nodes| - 1], m) + Repeat(nodes[|nodes| - 1], m)
  }

  function Repeat(x: string, m: nat): seq<string> {
    if m == 0 then [] else Repeat(x, m - 1) + [x]
  }

  /** Every walk in `walks` is a walk from `node`. */
  ghost predicate WalksFrom(g: Graph, node: string, steps: nat, walks: seq<seq<string>>) {
    forall k :: 0 <= k < |walks| ==> IsWalk(g, node, steps, walks[k])
  }

  lemma WalksFromStep(g: Graph, node: string, steps: nat, walks: seq<seq<string>>, walk: seq<string>)
    requires WalksFrom(g, node, steps, walks) && IsWalk(g, node, steps, walk)
    ensures WalksFrom(g, node, steps, walks + [walk])
  {
    var ws := walks + [walk];
    forall k | 0 <= k < |ws|
      ensures IsWalk(g, node, steps, ws[k])
    {
      if k < |walks| {
        assert ws[k] == walks[k];
      }
    }
  }

  lemma CsvLinesStep(before: seq<string>, walks: seq<seq<string>>, walk: seq<string>)
    ensures before + CsvLines(walks + [walk]) == (before + CsvLines(walks)) + [WalkToCsv(walk)]
  {
    assert (walks + [walk])[..|walks|] == walks;
  }

  /**
   * The inner loop of `generateRandomWalks`: `walksPerNode` walks from
   * `node`, each added to the buffer as one CSV line.
   */
  method WalksFromNode(g: Graph, node: string, walksPerNode: int, walkLength: int, sink: WalkBuffer, rng: Rng)
    returns (rng': Rng, ghost walks: seq<seq<string>>)
    requires sink.Valid()
    modifies sink, sink.outFile
    ensures sink.Valid()
    ensures |walks| == if walksPerNode < 0 then 0 else walksPerNode
    ensures WalksFrom(g, node, Steps(walkLength), walks)
    ensures sink.Lines() == old(sink.Lines()) + CsvLines(walks)
  {
    rng', walks := rng, [];
    var i := 0;
    while i < walksPerNode
      invariant 0 <= i <= (if walksPerNode < 0 then 0 else walksPerNode) && |walks| == i
      invariant sink.Valid()
      invariant WalksFrom(g, node, Steps(walkLength), walks)
      invariant sink.Lines() == old(sink.Lines()) + CsvLines(walks)
    {
      var walk;
      walk, rng' := RandomWalk(g, node, walkLength, rng');
      sink.Add(WalkToCsv(walk));
      CsvLinesStep(old(sink.Lines()), walks, walk);
      WalksFromStep(g, node, Steps(walkLength), walks, walk);
      walks := walks + [walk];
      i := i + 1;
    }
  }

  /**
   * The sequential body of `generateRandomWalks`: `walksPerNode` walks from
   * each start node in turn, each written as one CSV line through a buffer
   * that is closed at the end. `count` is the local walk counter; the
   * ghost `walks` are the walks in the order they were written, and walk
   * `k` starts at node `starts[k]`.
   */
  method GenerateRandomWalks(g: Graph, startNodes: seq<string>, walksPerNode: int, walkLength: int,
                             outFile: OutFile, rng: Rng)
    returns (count: nat, rng': Rng, ghost walks: seq<seq<string>>, ghost starts: seq<string>)
    modifies outFile
    ensures starts == Expand(startNodes, if walksPerNode < 0 then 0 else walksPerNode)
    ensures count == |walks| == |starts|
    ensures forall k :: 0 <= k < |walks| ==> IsWalk(g, starts[k], Steps(walkLength), walks[k])
    ensures outFile.text == old(outFile.text) + Concat(CsvLines(walks))
  {
    var sink := new WalkBuffer(outFile);
    var perNode: nat := if walksPerNode < 0 then 0 else walksPerNode;
    count, rng', walks, starts := 0, rng, [], [];
    var n := 0;
    while n < |startNodes|
      invariant 0 <= n <= |startNodes|
      invariant sink.Valid() && sink.outFile == outFile && sink.initial == old(outFile.text)
      invariant starts == Expand(startNodes[..n], perNode)
      invariant count == |walks| == |starts|
      invariant forall k :: 0 <= k < |walks| ==> IsWalk(g, starts[k], Steps(walkLength), walks[k])
      invariant sink.Lines() == CsvLines(walks)
      modifies sink, outFile
    {
      var node := startNodes[n];
      ghost var more;
      rng', more := WalksFromNode(g, node, walksPerNode, walkLength, sink, rng');
      CsvLinesConcat(walks, more);
      AppendWalks(g, walks, starts, more, node, perNode, Steps(walkLength));
      ExpandStep(startNodes, n, perNode);
      walks, starts := walks + more, starts + Repeat(node, perNode);
      count := count + perNode;
      n := n + 1;
    }
    assert startNodes[..n] == startNodes;
    sink.Close();
  }

  lemma {:induction false} CsvLinesConcat(a: seq<seq<string>>, b: seq<seq<string>>)
    ensures CsvLines(a + b) == CsvLines(a) + CsvLines(b)
    decreases |b|
  {
    if b == [] {
      assert a + b == a;
    } else {
      var b' := b[..|b| - 1];
      assert (a + b)[..|a + b| - 1] == a + b';
      CsvLinesConcat(a, b');
    }
  }

  lemma {:induction false} RepeatAt(x: string, m: nat, k: nat)
    requires k < m
    ensures |Repeat(x, m)| == m && Repeat(x, m)[k] == x
  {
    if k < m - 1 {
      RepeatAt(x, m - 1, k);
    } else {
      RepeatLength(x, m - 1);
    }
  }

  lemma {:induction false} RepeatLength(x: string, m: nat)
    ensures |Repeat(x, m)| == m
  {
    if m > 0 {
      RepeatLength(x, m - 1);
    }
  }

  /** Appending the walks from one more start node keeps every walk paired with its start. */
  lemma AppendWalks(g: Graph, walks: seq<seq<string>>, starts: seq<string>, more: seq<seq<string>>,
                    node: string, perNode: nat, steps: nat)
    requires |walks| == |starts| && |more| == perNode
    requires forall k :: 0 <= k < |walks| ==> IsWalk(g, starts[k], steps, walks[k])
    requires WalksFrom(g, node, steps, more)
    ensures |walks + more| == |starts + Repeat(node, perNode)|
    ensures forall k :: 0 <= k < |walks + more| ==>
      IsWalk(g, (starts + Repeat(node, perNode))[k], steps, (walks + more)[k])
  {
    RepeatLength(node, perNode);
    forall k | |walks| <= k < |walks + more|
      ensures (starts + Repeat(node, perNode))[k] == node
    {
      RepeatAt(node, perNode, k - |walks|);
    }
  }

  lemma ExpandStep(nodes: seq<string>, n: nat, m: nat)
    requires n < |nodes|
    ensures Expand(nodes[..n + 1], m) == Expand(nodes[..n], m) + Repeat(nodes[n], m)
  {
    assert nodes[..n + 1][..n] == nodes[..n];
  }
}
