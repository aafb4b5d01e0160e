/**
 * The two serialisations of a walk: `walkToString`, the key that identifies
 * a walk during de-duplication, and `walkToCSV`, one line of the output file.
 */
module WalkFormat {

  /** `walkToString`: every token followed by a ','. */
  function WalkKey(walk: seq<string>): (key: string) {
    if walk == [] then [] else walk[0] + "," + WalkKey(walk[1..])
  }

  /** A key has at least one character per token and, for a non-empty walk, ends in ','. */
  lemma {:induction false} KeyShape(walk: seq<string>)
    ensures |WalkKey(walk)| >= |walk|
    ensures walk != [] ==> WalkKey(walk)[|WalkKey(walk)| - 1] == ','
    decreases |walk|
  {
    if walk != [] {
      KeyShape(walk[1..]);
    }
  }

  /** The tokens joined by ',' with no separator after the last one. */
  function Join(walk: seq<string>): (line: string)
    ensures |line| + 1 >= |walk|
  {
    if walk == [] then []
    else if |walk| == 1 then walk[0]
    else walk[0] + "," + Join(walk[1..])
  }

  /** `walkToCSV`: the joined tokens and a newline. */
  function WalkToCsv(walk: seq<string>): (line: string)
    ensures line != [] && line[|line| - 1] == '\n'
  {
    Join(walk) + "\n"
  }

  predicate NoComma(t: string) {
    forall i :: 0 <= i < |t| ==> t[i] != ','
  }

  predicate NoNewline(t: string) {
    forall i :: 0 <= i < |t| ==> t[i] != '\n'
  }

  /** Reference definition: the ','-separated fields of a line. */
  function Fields(s: string): (fs: seq<string>)
    ensures |fs| >= 1
  {
    if s == [] then [""]
    else if s[0] == ',' then [""] + Fields(s[1..])
    else
      var f := Fields(s[1..]);
      [[s[0]] + f[0]] + f[1..]
  }

  /**
   * A CSV line carries the walk's key with its final ',' replaced by a
   * newline: the same tokens and separators, and no trailing comma.
   */
  lemma {:induction false} CsvIsKeyWithNewline(walk: seq<string>)
    requires walk != []
    ensures WalkKey(walk) == Join(walk) + ","
    ensures WalkToCsv(walk) == Join(walk) + "\n"
  {
    if |walk| > 1 {
      CsvIsKeyWithNewline(walk[1..]);
    } else {
      assert WalkKey(walk) == walk[0] + "," + [];
    }
  }

  /** Splitting on ',' after a comma-free field gives that field first. */
  lemma {:induction false} FieldsOfField(t: string, rest: string)
    requires NoComma(t)
    ensures Fields(t + "," + rest) == [t] + Fields(rest)
  {
    if t == [] {
      assert t + "," + rest == [','] + rest;
      assert (t + "," + rest)[1..] == rest;
    } else {
      FieldsOfField(t[1..], rest);
      assert (t + "," + rest)[1..] == t[1..] + "," + rest;
      assert [t[0]] + t[1..] == t;
    }
  }

  /** A comma-free string is a single field. */
  lemma {:induction false} FieldsOfLastField(t: string)
    requires NoComma(t)
    ensures Fields(t) == [t]
  {
    if t != [] {
      FieldsOfLastField(t[1..]);
      assert [t[0]] + t[1..] == t;
    }
  }

  /** Tokens without newlines give a joined line without newlines. */
  lemma {:induction false} JoinHasNoNewline(walk: seq<string>)
    requires forall i :: 0 <= i < |walk| ==> NoNewline(walk[i])
    ensures NoNewline(Join(walk))
  {
    if |walk| > 1 {
      JoinHasNoNewline(walk[1..]);
      var rest := Join(walk[1..]);
      assert Join(walk) == walk[0] + ("," + rest);
      assert NoNewline(walk[0]);
    }
  }

  /**
   * Round trip: a CSV line is one line (its only newline is the last
   * character), and splitting the rest on ',' gives back the walk.
   */
  lemma {:induction false} CsvRoundTrip(walk: seq<string>)
    requires walk != []
    requires forall i :: 0 <= i < |walk| ==> NoComma(walk[i]) && NoNewline(walk[i])
    ensures WalkToCsv(walk) == Join(walk) + "\n"
    ensures NoNewline(Join(walk)) && Fields(Join(walk)) == walk
  {
    JoinHasNoNewline(walk);
    if |walk| == 1 {
      FieldsOfLastField(walk[0]);
    } else {
      CsvRoundTrip(walk[1..]);
      FieldsOfField(walk[0], Join(walk[1..]));
      assert walk == [walk[0]] + walk[1..];
    }
  }

  /** A comma-free field followed by ',' is determined by the string. */
  lemma SplitAtFirstComma(t1: string, r1: string, t2: string, r2: string)
    requires NoComma(t1) && NoComma(t2)
    requires t1 + "," + r1 == t2 + "," + r2
    ensures t1 == t2 && r1 == r2
  {
    var s := t1 + "," + r1;
    assert s[|t1|] == ',';
    assert s[|t2|] == ',';
    assert forall i :: 0 <= i < |t1| ==> s[i] == t1[i];
    assert forall i :: 0 <= i < |t2| ==> s[i] == t2[i];
    assert |t1| == |t2|;
    assert t1 == s[..|t1|] == t2;
    assert r1 == s[|t1| + 1..] == r2;
  }

  /**
   * Keys identify walks exactly when no token contains a ',': equal walks
   * have equal keys and, for comma-free tokens, equal keys mean equal walks.
   */
  lemma {:induction false} KeyIdentifiesWalk(a: seq<string>, b: seq<string>)
    requires forall i :: 0 <= i < |a| ==> NoComma(a[i])
    requires forall i :: 0 <= i < |b| ==> NoComma(b[i])
    ensures WalkKey(a) == WalkKey(b) <==> a == b
  {
    if a != [] && b != [] && WalkKey(a) == WalkKey(b) {
      SplitAtFirstComma(a[0], WalkKey(a[1..]), b[0], WalkKey(b[1..]));
      KeyIdentifiesWalk(a[1..], b[1..]);
      assert a == [a[0]] + a[1..] && b == [b[0]] + b[1..];
    }
  }

  /** A ',' inside a token lets two different walks share a key. */
  lemma KeyCollision()
    ensures ["s", "a,b", "t"] != ["s", "a", "b,t"]
    ensures WalkKey(["s", "a,b", "t"]) == WalkKey(["s", "a", "b,t"])
  {
    var a: seq<string> := ["s", "a,b", "t"];
    var b: seq<string> := ["s", "a", "b,t"];
    assert a[1] != b[1];
    assert a[1..] == ["a,b", "t"] && a[1..][1..] == ["t"];
    assert b[1..] == ["a", "b,t"] && b[1..][1..] == ["b,t"];
    assert WalkKey(["t"]) == "t," && WalkKey(["b,t"]) == "b,t,";
    assert WalkKey(a[1..]) == "a,b,t,";
    assert WalkKey(b[1..]) == "a,b,t,";
  }
}
