/**
 * The byte-pair-encoding utilities: counting adjacent pairs
 * (`get_pair_freqs`), rewriting a pair into a new token (`merge_pair`) and
 * the training loop (`train`), plus the pieces of Python they rely on:
 * `max`/`min` over a dict with a key function, and the byte strings a
 * vocabulary assigns to token ids.
 */
module BpeUtils {
  import opened Wrappers
  import opened PyDict
  import opened Utf8

  type Pair = (int, int)

  /** The first id `train` hands out; ids below it stand for single bytes. */
  const FirstNewToken: int := 256

  /** `zip(ids, ids[1:])`: the adjacent pairs, left to right. */
  function Pairs(ids: seq<int>): (ps: seq<Pair>)
    ensures |ps| == if ids == [] then 0 else |ids| - 1
    ensures forall i :: 0 <= i < |ps| ==> ps[i] == (ids[i], ids[i + 1])
  {
    if |ids| < 2 then [] else [(ids[0], ids[1])] + Pairs(ids[1..])
  }

  /** `p` sits at some position of `ids`. */
  predicate Occurs(ids: seq<int>, p: Pair) {
    exists i :: 0 <= i < |ids| - 1 && ids[i] == p.0 && ids[i + 1] == p.1
  }

  lemma OccursIsPair(ids: seq<int>, p: Pair)
    ensures Occurs(ids, p) <==> p in Pairs(ids)
  {
    var ps := Pairs(ids);
    if p in ps {
      var i :| 0 <= i < |ps| && ps[i] == p;
      assert p == (ids[i], ids[i + 1]);
    }
    if Occurs(ids, p) {
      var i :| 0 <= i < |ids| - 1 && ids[i] == p.0 && ids[i + 1] == p.1;
      assert ps[i] == p;
    }
  }

  /** How many times `x` occurs in `s`. */
  function Count<T(==)>(s: seq<T>, x: T): (n: nat)
    ensures n == multiset(s)[x]
  {
    if s == [] then 0
    else
      assert s == s[..|s| - 1] + [s[|s| - 1]];
      Count(s[..|s| - 1], x) + (if s[|s| - 1] == x then 1 else 0)
  }

  /** The dictionary that counting `ps` one by one builds. */
  function Tally(ps: seq<Pair>): (d: Dict<Pair, int>)
    ensures Valid(d)
  {
    if ps == [] then Empty()
    else
      Bump(Tally(ps[..|ps| - 1]), ps[|ps| - 1])
  }

  /** `freqs[pair] = freqs.get(pair, 0) + 1`. */
  function Bump(d: Dict<Pair, int>, p: Pair): (d': Dict<Pair, int>)
    requires Valid(d)
    ensures Valid(d')
  {
    Put(d, p, (if p in d.items then d.items[p] else 0) + 1)
  }

  /** Its keys are the pairs of `ps`, each counted as often as it occurs. */
  lemma {:induction false} TallyCounts(ps: seq<Pair>)
    ensures forall p :: p in Tally(ps).items <==> p in ps
    ensures forall p :: p in Tally(ps).items ==> Tally(ps).items[p] == Count(ps, p)
  {
    if ps != [] {
      var init, last := ps[..|ps| - 1], ps[|ps| - 1];
      TallyCounts(init);
      assert ps == init + [last];
      forall p
        ensures p in Tally(ps).items <==> p in ps
        ensures p in Tally(ps).items ==> Tally(ps).items[p] == Count(ps, p)
      {
        assert p in ps <==> p in init || p == last;
      }
    }
  }

  /** Counting one more pair. */
  lemma TallyStep(ps: seq<Pair>, i: nat)
    requires i < |ps|
    ensures Tally(ps[..i + 1]) == Bump(Tally(ps[..i]), ps[i])
  {
    assert ps[..i + 1][..i] == ps[..i];
  }

  /** `get_pair_freqs`: each adjacent pair with the number of times it occurs. */
  method GetPairFreqs(ids: seq<int>) returns (freqs: Dict<Pair, int>)
    ensures freqs == Tally(Pairs(ids))
  {
    var ps := Pairs(ids);
    freqs := Empty();
    var i := 0;
    while i < |ps|
      invariant 0 <= i <= |ps|
      invariant freqs == Tally(ps[..i])
    {
      var pair := (ids[i], ids[i + 1]);
      TallyStep(ps, i);
      freqs := Bump(freqs, pair);
      i := i + 1;
    }
    assert ps[..i] == ps;
  }

  /** The sum of the values of `keys`. */
  function Total(keys: seq<Pair>, items: map<Pair, int>): int
    requires forall k :: k in keys ==> k in items
  {
    if keys == [] then 0 else Total(keys[..|keys| - 1], items) + items[keys[|keys| - 1]]
  }

  lemma {:induction false} TotalUpdate(keys: seq<Pair>, items: map<Pair, int>, p: Pair, v: int)
    requires forall k :: k in keys ==> k in items
    requires forall i, j :: 0 <= i < j < |keys| ==> keys[i] != keys[j]
    ensures Total(keys, items[p := v]) == Total(keys, items) + (if p in keys then v - items[p] else 0)
  {
    if keys != [] {
      var init := keys[..|keys| - 1];
      TotalUpdate(init, items, p, v);
      assert p in keys <==> p in init || p == keys[|keys| - 1];
      assert keys[|keys| - 1] !in init;
    }
  }

  /** The counts of `get_pair_freqs` add up to the number of adjacent pairs. */
  lemma {:induction false} TallyTotal(ps: seq<Pair>)
    ensures Total(Tally(ps).keys, Tally(ps).items) == |ps|
  {
    if ps != [] {
      var init, p := ps[..|ps| - 1], ps[|ps| - 1];
      var d := Tally(init);
      TallyTotal(init);
      TotalUpdate(d.keys, d.items, p, (if p in d.items then d.items[p] else 0) + 1);
      if p !in d.items {
        var keys := d.keys + [p];
        assert keys[..|keys| - 1] == d.keys;
      }
    }
  }

  lemma PairFreqsTotal(ids: seq<int>)
    requires ids != []
    ensures Total(Tally(Pairs(ids)).keys, Tally(Pairs(ids)).items) == |ids| - 1
  {
    TallyTotal(Pairs(ids));
  }

  /**
   * The docstring example of `get_pair_freqs`: `{(12, 13): 2, (13, 18): 1,
   * (18, 12): 1}`, keys in that order.
   */
  lemma PairFreqsExample()
    ensures var d := Tally(Pairs([12, 13, 18, 12, 13]));
      d.keys == [(12, 13), (13, 18), (18, 12)] &&
      d.items[(12, 13)] == 2 && d.items[(13, 18)] == 1 && d.items[(18, 12)] == 1
  {
    var ps: seq<Pair> := [(12, 13), (13, 18), (18, 12), (12, 13)];
    ExamplePairs();
    ExampleKeys(ps);
    TallyCounts(ps);
  }

  /** The keys of the example's tally: each pair where it first occurs. */
  lemma ExampleKeys(ps: seq<Pair>)
    requires ps == [(12, 13), (13, 18), (18, 12), (12, 13)]
    ensures Tally(ps).keys == [(12, 13), (13, 18), (18, 12)]
  {
    var prev := Tally(ps[..3]);
    assert ps[..3] == [(12, 13), (13, 18), (18, 12)] && ps[..4] == ps;
    assert prev.keys == ps[..3] by { ExampleFirstThree(); }
    assert ps[3] == prev.keys[0];
    TallyStep(ps, 3);
  }

  lemma ExamplePairs()
    ensures Pairs([12, 13, 18, 12, 13]) == [(12, 13), (13, 18), (18, 12), (12, 13)]
  {
    var ps: seq<Pair> := [(12, 13), (13, 18), (18, 12), (12, 13)];
    var ids := [12, 13, 18, 12, 13];
    assert |Pairs(ids)| == 4;
    assert forall i :: 0 <= i < 4 ==> Pairs(ids)[i] == ps[i];
  }

  lemma ExampleFirstThree()
    ensures var d := Tally([(12, 13), (13, 18), (18, 12)]);
      d.keys == [(12, 13), (13, 18), (18, 12)] &&
      d.items[(12, 13)] == 1 && d.items[(13, 18)] == 1 && d.items[(18, 12)] == 1
  {
    var ps: seq<Pair> := [(12, 13), (13, 18), (18, 12)];
    ExampleFirstTwo();
    assert ps[..2] == [(12, 13), (13, 18)] && ps[..3] == ps;
    TallyStep(ps, 2);
  }

  lemma ExampleFirstTwo()
    ensures var d := Tally([(12, 13), (13, 18)]);
      d.keys == [(12, 13), (13, 18)] && d.items[(12, 13)] == 1 && d.items[(13, 18)] == 1
  {
    var ps: seq<Pair> := [(12, 13), (13, 18)];
    var one: seq<Pair> := [(12, 13)];
    assert ps[..1] == one && one[..0] == [] && ps[..2] == ps;
    TallyStep(ps, 1);
  }

  /** Position of the first largest value among `keys`, as `max(d, key=d.get)` scans them. */
  function ArgMax(keys: seq<Pair>, items: map<Pair, int>): (k: nat)
    requires keys != [] && forall p :: p in keys ==> p in items
    ensures k < |keys|
    ensures forall i :: 0 <= i < |keys| ==> items[keys[i]] <= items[keys[k]]
    ensures forall i :: 0 <= i < k ==> items[keys[i]] < items[keys[k]]
  {
    if |keys| == 1 then 0
    else
      var j := ArgMax(keys[..|keys| - 1], items);
      if items[keys[|keys| - 1]] > items[keys[j]] then |keys| - 1 else j
  }

  /** `max(freqs, key=freqs.get)`: the first key with the largest count, `ValueError` when empty. */
  function MostFrequent(d: Dict<Pair, int>): (r: Result<Pair>)
    requires Valid(d)
    ensures r.Err? <==> d.keys == []
    ensures r.Err? ==> r.error == ValueError
    ensures r.Ok? ==> r.value in d.items && forall p :: p in d.items ==> d.items[p] <= d.items[r.value]
    ensures r.Ok? ==> forall i :: 0 <= i < IndexOf(d, r.value) ==> d.items[d.keys[i]] < d.items[r.value]
  {
    if d.keys == [] then Err(ValueError)
    else
      var k := ArgMax(d.keys, d.items);
      assert IndexOf(d, d.keys[k]) == k;
      Ok(d.keys[k])
  }

  /** `merges.get(p, float("inf"))`: a merge id, with `None` for infinity. */
  function Rank(merges: map<Pair, int>, p: Pair): Option<int> {
    if p in merges then Some(merges[p]) else None
  }

  /** `a < b` between two ranks. */
  predicate Below(a: Option<int>, b: Option<int>) {
    a.Some? && (b.None? || a.value < b.value)
  }

  /** Position of the first lowest-ranked pair, as `min(freqs, key=...)` scans them. */
  function ArgMin(keys: seq<Pair>, merges: map<Pair, int>): (k: nat)
    requires keys != []
    ensures k < |keys|
    ensures forall i :: 0 <= i < |keys| ==> !Below(Rank(merges, keys[i]), Rank(merges, keys[k]))
    ensures forall i :: 0 <= i < k ==> Below(Rank(merges, keys[k]), Rank(merges, keys[i]))
  {
    if |keys| == 1 then 0
    else
      var j := ArgMin(keys[..|keys| - 1], merges);
      if Below(Rank(merges, keys[|keys| - 1]), Rank(merges, keys[j])) then |keys| - 1 else j
  }

  /**
   * The pair `encode_no_special` picks: a pair with a merge id whenever
   * one of the keys has one, then the one with the smallest id.
   */
  function LowestRanked(keys: seq<Pair>, merges: map<Pair, int>): (p: Pair)
    requires keys != []
    ensures p in keys
    ensures p !in merges ==> forall q :: q in keys ==> q !in merges
    ensures p in merges ==> forall q :: q in keys && q in merges ==> merges[p] <= merges[q]
  {
    var k := ArgMin(keys, merges);
    assert forall i :: 0 <= i < |keys| ==> !Below(Rank(merges, keys[i]), Rank(merges, keys[k]));
    keys[k]
  }

  /** The list `merge_pair` builds: scanning from the left, each occurrence of `pair` becomes `t`. */
  function Merged(ids: seq<int>, pair: Pair, t: int): (r: seq<int>)
    ensures |r| <= |ids| && 2 * |r| >= |ids|
    ensures r == [] <==> ids == []
    ensures r != [] ==> r[0] == t || r[0] == ids[0]
    ensures forall x :: x in r ==> x == t || x in ids
  {
    if ids == [] then []
    else if |ids| >= 2 && ids[0] == pair.0 && ids[1] == pair.1 then [t] + Merged(ids[2..], pair, t)
    else [ids[0]] + Merged(ids[1..], pair, t)
  }

  /** Whether the scan at `pos` sees `pair`. */
  predicate PairAt(ids: seq<int>, pos: nat, pair: Pair) {
    pos < |ids| - 1 && ids[pos] == pair.0 && ids[pos + 1] == pair.1
  }

  /** The loop invariant of the scan: `updated` followed by the rest's merge is the whole merge. */
  ghost predicate ScanSoFar(ids: seq<int>, pair: Pair, t: int, pos: nat, updated: seq<int>) {
    pos <= |ids| && updated + Merged(ids[pos..], pair, t) == Merged(ids, pair, t)
  }

  /** The scan replaces a pair it sees by `t` and moves two places on. */
  lemma ScanPair(ids: seq<int>, pair: Pair, t: int, pos: nat, updated: seq<int>)
    requires ScanSoFar(ids, pair, t, pos, updated) && PairAt(ids, pos, pair)
    ensures ScanSoFar(ids, pair, t, pos + 2, updated + [t])
  {
    assert ids[pos..][2..] == ids[pos + 2..];
    assert updated + ([t] + Merged(ids[pos + 2..], pair, t)) == (updated + [t]) + Merged(ids[pos + 2..], pair, t);
  }

  /** Otherwise it keeps the entry and moves one place on. */
  lemma ScanOne(ids: seq<int>, pair: Pair, t: int, pos: nat, updated: seq<int>)
    requires ScanSoFar(ids, pair, t, pos, updated) && pos < |ids| && !PairAt(ids, pos, pair)
    ensures ScanSoFar(ids, pair, t, pos + 1, updated + [ids[pos]])
  {
    assert ids[pos..][1..] == ids[pos + 1..];
    assert updated + ([ids[pos]] + Merged(ids[pos + 1..], pair, t)) == (updated + [ids[pos]]) + Merged(ids[pos + 1..], pair, t);
  }

  /**
   * `merge_pair` with the bounds check made first: the loop of the source
   * with `pos < len(ids) - 1` tested before `ids[pos+1]` is read.
   */
  method MergePair(ids: seq<int>, pair: Pair, newToken: int) returns (updated: seq<int>)
    ensures updated == Merged(ids, pair, newToken)
  {
    updated := [];
    var pos := 0;
    assert ids[0..] == ids;
    while pos < |ids|
      invariant ScanSoFar(ids, pair, newToken, pos, updated)
    {
      if pos < |ids| - 1 && ids[pos] == pair.0 && ids[pos + 1] == pair.1 {
        ScanPair(ids, pair, newToken, pos, updated);
        updated := updated + [newToken];
        pos := pos + 2;
      } else {
        ScanOne(ids, pair, newToken, pos, updated);
        updated := updated + [ids[pos]];
        pos := pos + 1;
      }
    }
    assert updated + [] == updated;
  }

  /** Whether the scan of `merge_pair` as written reaches the last entry while it equals `pair.0`. */
  predicate Crashes(ids: seq<int>, pair: Pair)
    decreases |ids|
  {
    if ids == [] then false
    else if |ids| == 1 then ids[0] == pair.0
    else if ids[0] == pair.0 && ids[1] == pair.1 then Crashes(ids[2..], pair)
    else Crashes(ids[1..], pair)
  }

  lemma CrashesAt(ids: seq<int>, pos: nat, pair: Pair)
    requires pos < |ids|
    ensures pos == |ids| - 1 ==> (Crashes(ids[pos..], pair) <==> ids[pos] == pair.0)
    ensures PairAt(ids, pos, pair) ==> Crashes(ids[pos..], pair) == Crashes(ids[pos + 2..], pair)
    ensures pos < |ids| - 1 && !PairAt(ids, pos, pair) ==> Crashes(ids[pos..], pair) == Crashes(ids[pos + 1..], pair)
  {
    assert ids[pos..][1..] == ids[pos + 1..];
    if pos < |ids| - 1 {
      assert ids[pos..][2..] == ids[pos + 2..];
    }
  }

  /**
   * `merge_pair` as written: line 23 reads `ids[pos+1]` before it checks
   * `pos < len(ids) - 1`, so a last entry equal to `pair[0]` that the scan
   * reaches raises `IndexError`.
   */
  method MergePairAsWritten(ids: seq<int>, pair: Pair, newToken: int) returns (r: Result<seq<int>>)
    ensures r.Err? <==> Crashes(ids, pair)
    ensures r.Err? ==> r.error == IndexError
    ensures r.Ok? ==> r.value == Merged(ids, pair, newToken)
  {
    var updated := [];
    var pos := 0;
    assert ids[0..] == ids;
    while pos < |ids|
      invariant ScanSoFar(ids, pair, newToken, pos, updated)
      invariant Crashes(ids, pair) == Crashes(ids[pos..], pair)
    {
      CrashesAt(ids, pos, pair);
      if ids[pos] == pair.0 && pos + 1 == |ids| {
        return Err(IndexError);
      }
      if ids[pos] == pair.0 && ids[pos + 1] == pair.1 && pos < |ids| - 1 {
        ScanPair(ids, pair, newToken, pos, updated);
        updated := updated + [newToken];
        pos := pos + 2;
      } else {
        ScanOne(ids, pair, newToken, pos, updated);
        updated := updated + [ids[pos]];
        pos := pos + 1;
      }
    }
    assert updated + [] == updated;
    return Ok(updated);
  }

  /**
   * Only a last entry equal to `pair.0` can make it fail; when the two
   * halves of the pair differ, such a last entry always does.
   */
  lemma {:induction false} CrashesIff(ids: seq<int>, pair: Pair)
    ensures Crashes(ids, pair) ==> ids != [] && ids[|ids| - 1] == pair.0
    ensures pair.0 != pair.1 && ids != [] && ids[|ids| - 1] == pair.0 ==> Crashes(ids, pair)
    decreases |ids|
  {
    if |ids| >= 2 {
      if ids[0] == pair.0 && ids[1] == pair.1 {
        CrashesIff(ids[2..], pair);
      } else {
        CrashesIff(ids[1..], pair);
      }
    }
  }

  /**
   * `merge_pair([97, 98, 97, 98, 97], (97, 98), 256)` raises `IndexError`
   * (training on the text "ababa" reaches this call), where the intended
   * result is `[256, 256, 97]`.
   */
  lemma MergePairIndexError()
    ensures Crashes([97, 98, 97, 98, 97], (97, 98))
    ensures Merged([97, 98, 97, 98, 97], (97, 98), 256) == [256, 256, 97]
  {
    CrashesIff([97, 98, 97, 98, 97], (97, 98));
    var ids := [97, 98, 97, 98, 97];
    assert ids[2..] == [97, 98, 97] && ids[2..][2..] == [97];
    assert Merged([97], (97, 98), 256) == [97];
  }

  /** The docstring example of `merge_pair`. */
  lemma MergeExample()
    ensures Merged([12, 13, 18, 12, 13], (12, 13), 19) == [19, 18, 19]
  {
    var ids := [12, 13, 18, 12, 13];
    assert ids[2..] == [18, 12, 13] && ids[2..][1..] == [12, 13] && ids[2..][1..][2..] == [];
    assert Merged([12, 13], (12, 13), 19) == [19];
  }

  /** Without an occurrence of the pair the list comes back unchanged. */
  lemma {:induction false} MergedIdentity(ids: seq<int>, pair: Pair, t: int)
    requires !Occurs(ids, pair)
    ensures Merged(ids, pair, t) == ids
    decreases |ids|
  {
    if ids != [] {
      MergedIdentity(ids[1..], pair, t);
    }
  }

  /** With an occurrence of the pair the list gets strictly shorter. */
  lemma {:induction false} MergedShorter(ids: seq<int>, pair: Pair, t: int)
    requires Occurs(ids, pair)
    ensures |Merged(ids, pair, t)| < |ids|
    decreases |ids|
  {
    if !(|ids| >= 2 && ids[0] == pair.0 && ids[1] == pair.1) {
      var i :| 0 <= i < |ids| - 1 && ids[i] == pair.0 && ids[i + 1] == pair.1;
      assert i > 0;
      assert ids[1..][i - 1] == pair.0 && ids[1..][i] == pair.1;
      MergedShorter(ids[1..], pair, t);
    }
  }

  /** With a fresh token, every `t` in the result replaced exactly two ids: the list shrinks by the number of merges. */
  lemma {:induction false} MergedLength(ids: seq<int>, pair: Pair, t: int)
    requires t !in ids
    ensures |Merged(ids, pair, t)| + Count(Merged(ids, pair, t), t) == |ids|
    decreases |ids|
  {
    if ids == [] {
    } else if |ids| >= 2 && ids[0] == pair.0 && ids[1] == pair.1 {
      assert forall x :: x in ids[2..] ==> x in ids;
      MergedLength(ids[2..], pair, t);
      var rest := Merged(ids[2..], pair, t);
      assert multiset([t] + rest)[t] == 1 + multiset(rest)[t];
    } else {
      assert forall x :: x in ids[1..] ==> x in ids;
      MergedLength(ids[1..], pair, t);
      var rest := Merged(ids[1..], pair, t);
      assert ids[0] != t;
      assert multiset([ids[0]] + rest)[t] == multiset(rest)[t];
    }
  }

  /** Every id of `ids` has an entry in `vocab`. */
  predicate Known(vocab: map<int, seq<Byte>>, ids: seq<int>) {
    forall i :: 0 <= i < |ids| ==> ids[i] in vocab
  }

  /** The byte string of each id in `ids`, concatenated: `b"".join(vocab[idx] for idx in ids)`. */
  function Flat(vocab: map<int, seq<Byte>>, ids: seq<int>): seq<Byte>
    requires Known(vocab, ids)
  {
    if ids == [] then [] else vocab[ids[0]] + Flat(vocab, ids[1..])
  }

  /**
   * Replacing the pair by a token whose byte string is the two halves'
   * concatenated leaves the bytes the list stands for unchanged.
   */
  lemma {:induction false} MergedFlat(vocab: map<int, seq<Byte>>, ids: seq<int>, pair: Pair, t: int)
    requires Known(vocab, ids)
    requires pair.0 in vocab && pair.1 in vocab && t in vocab
    requires vocab[t] == vocab[pair.0] + vocab[pair.1]
    ensures Known(vocab, Merged(ids, pair, t))
    ensures Flat(vocab, Merged(ids, pair, t)) == Flat(vocab, ids)
    decreases |ids|
  {
    if ids != [] {
      if |ids| >= 2 && ids[0] == pair.0 && ids[1] == pair.1 {
        MergedFlat(vocab, ids[2..], pair, t);
        assert ids[1..][1..] == ids[2..];
        assert [t] + Merged(ids[2..], pair, t) == Merged(ids, pair, t);
        assert Flat(vocab, ids) == vocab[ids[0]] + (vocab[ids[1]] + Flat(vocab, ids[2..]));
      } else {
        MergedFlat(vocab, ids[1..], pair, t);
      }
    }
  }

  /** A vocabulary entry that does not occur in `ids` does not matter to its bytes. */
  lemma {:induction false} FlatFrame(vocab: map<int, seq<Byte>>, ids: seq<int>, t: int, bs: seq<Byte>)
    requires Known(vocab, ids)
    requires t !in ids
    ensures Flat(vocab[t := bs], ids) == Flat(vocab, ids)
    decreases |ids|
  {
    if ids != [] {
      FlatFrame(vocab, ids[1..], t, bs);
    }
  }

  /**
   * After a merge, neither the merged pair nor a pair that was already
   * absent occurs, as long as the new token is neither half of it.
   */
  lemma {:induction false} MergedKeepsAbsent(ids: seq<int>, pair: Pair, t: int, q: Pair)
    requires t != q.0 && t != q.1
    requires q == pair || !Occurs(ids, q)
    ensures !Occurs(Merged(ids, pair, t), q)
    decreases |ids|
  {
    if ids != [] {
      var r := Merged(ids, pair, t);
      if |ids| >= 2 && ids[0] == pair.0 && ids[1] == pair.1 {
        var rest := ids[2..];
        MergedKeepsAbsent(rest, pair, t, q);
      } else {
        var rest := ids[1..];
        MergedKeepsAbsent(rest, pair, t, q);
      }
    }
  }

  /** How often `x` occurs is at most the length of the list. */
  lemma {:induction false} CountBound<T>(s: seq<T>, x: T)
    ensures Count(s, x) <= |s|
  {
    if s != [] {
      CountBound(s[..|s| - 1], x);
    }
  }

  /** `list(range(n))`. */
  function Range(n: int): (r: seq<int>)
    ensures |r| == (if n > 0 then n else 0) && forall i :: 0 <= i < |r| ==> r[i] == i
    decreases n
  {
    if n <= 0 then [] else Range(n - 1) + [n - 1]
  }

  /** Merge ids follow insertion order: the `k`-th merged pair maps to `256 + k`. */
  ghost predicate Consecutive(merges: Dict<Pair, int>) {
    Valid(merges) &&
    forall k :: 0 <= k < |merges.keys| ==> merges.keys[k] in merges.items && merges.items[merges.keys[k]] == FirstNewToken + k
  }

  /** A new pair stored under the next id keeps the merges consecutive. */
  lemma ConsecutivePut(merges: Dict<Pair, int>, p: Pair)
    requires Consecutive(merges) && p !in merges.items
    ensures var merges' := Put(merges, p, FirstNewToken + |merges.keys|);
      merges'.keys == merges.keys + [p] && Consecutive(merges')
  {
    var merges' := Put(merges, p, FirstNewToken + |merges.keys|);
    forall k | 0 <= k < |merges'.keys|
      ensures merges'.keys[k] in merges'.items && merges'.items[merges'.keys[k]] == FirstNewToken + k
    {
      if k < |merges.keys| {
        assert merges'.keys[k] == merges.keys[k] != p;
      }
    }
  }

  /** `ids` after the merges `keys` were applied in order, the `k`-th one into `256 + k`. */
  function Replay(ids: seq<int>, keys: seq<Pair>): seq<int> {
    if keys == [] then ids
    else Merged(Replay(ids, keys[..|keys| - 1]), keys[|keys| - 1], FirstNewToken + |keys| - 1)
  }

  lemma ReplayStep(ids: seq<int>, keys: seq<Pair>, p: Pair)
    ensures Replay(ids, keys + [p]) == Merged(Replay(ids, keys), p, FirstNewToken + |keys|)
  {
    assert (keys + [p])[..|keys|] == keys;
  }

  /**
   * The pair one round of `train` merges: the first most frequent pair
   * (`max(freqs, key=freqs.get)`), when it occurs at least twice.
   */
  ghost predicate Chosen(ids: seq<int>, p: Pair) {
    var freqs := Tally(Pairs(ids));
    MostFrequent(freqs) == Ok(p) && freqs.items[p] >= 2
  }

  /** Every merge in `keys` was the pair chosen on the list its predecessors left. */
  ghost predicate Greedy(ids: seq<int>, keys: seq<Pair>) {
    keys == [] ||
    (Greedy(ids, keys[..|keys| - 1]) && Chosen(Replay(ids, keys[..|keys| - 1]), keys[|keys| - 1]))
  }

  lemma GreedyStep(ids: seq<int>, keys: seq<Pair>, p: Pair)
    requires Greedy(ids, keys) && Chosen(Replay(ids, keys), p)
    ensures Greedy(ids, keys + [p])
  {
    assert (keys + [p])[..|keys|] == keys;
  }

  /** No adjacent pair of `ids` occurs twice, so `train` stops. */
  ghost predicate NoRepeatedPair(ids: seq<int>) {
    forall p :: Count(Pairs(ids), p) <= 1
  }

  /**
   * What the loop of `train` keeps, with `256 + |merges.keys|` the next
   * token: consecutive merge ids, tokens and merged halves below the next
   * token, and no merged pair left in `ids`.
   */
  ghost predicate TrainInvariant(ids: seq<int>, merges: Dict<Pair, int>) {
    Consecutive(merges) &&
    (forall i :: 0 <= i < |ids| ==> 0 <= ids[i] < FirstNewToken + |merges.keys|) &&
    (forall k :: 0 <= k < |merges.keys| ==>
      0 <= merges.keys[k].0 < FirstNewToken + k && 0 <= merges.keys[k].1 < FirstNewToken + k) &&
    (forall p :: p in merges.items ==> !Occurs(ids, p))
  }

  lemma TrainStart(ids: seq<Byte>)
    ensures TrainInvariant(ids, Empty())
  {
  }

  /** One round of `train`: a pair present in `ids` is new to `merges`, and the invariant survives its merge. */
  lemma TrainStep(ids: seq<int>, merges: Dict<Pair, int>, top: Pair)
    requires TrainInvariant(ids, merges) && Occurs(ids, top)
    ensures top !in merges.items
    ensures TrainInvariant(Merged(ids, top, FirstNewToken + |merges.keys|), Put(merges, top, FirstNewToken + |merges.keys|))
  {
    var t := FirstNewToken + |merges.keys|;
    var ids', merges' := Merged(ids, top, t), Put(merges, top, t);
    var i :| 0 <= i < |ids| - 1 && ids[i] == top.0 && ids[i + 1] == top.1;
    assert 0 <= top.0 < t && 0 <= top.1 < t;
    assert merges'.keys == merges.keys + [top];
    forall j | 0 <= j < |ids'|
      ensures 0 <= ids'[j] < t + 1
    {
      assert ids'[j] in ids';
    }
    forall p | p in merges'.items
      ensures !Occurs(ids', p)
    {
      if p == top {
        MergedKeepsAbsent(ids, top, t, top);
      } else {
        var k := IndexOf(merges, p);
        MergedKeepsAbsent(ids, top, t, p);
      }
    }
  }

  /** A top pair seen once means no pair is seen twice. */
  lemma StopsWhenUnique(ids: seq<int>, top: Pair)
    requires MostFrequent(Tally(Pairs(ids))) == Ok(top)
    requires Tally(Pairs(ids)).items[top] == 1
    ensures NoRepeatedPair(ids)
  {
    var ps := Pairs(ids);
    TallyCounts(ps);
    forall p
      ensures Count(ps, p) <= 1
    {
      if p !in ps {
        assert Count(ps, p) == 0;
      }
    }
  }

  /** The top pair of a list with a repeated pair is chosen, and merging it leaves at least two tokens. */
  lemma RepeatedChosen(ids: seq<int>, top: Pair)
    requires MostFrequent(Tally(Pairs(ids))) == Ok(top)
    requires Tally(Pairs(ids)).items[top] != 1
    ensures Chosen(ids, top) && Occurs(ids, top)
    ensures forall t :: |Merged(ids, top, t)| >= 2
  {
    var ps := Pairs(ids);
    TallyCounts(ps);
    OccursIsPair(ids, top);
    CountBound(ps, top);
  }

  /** A list of two or more tokens has a most frequent pair. */
  lemma PairsExist(ids: seq<int>)
    ensures MostFrequent(Tally(Pairs(ids))).Ok? <==> |ids| >= 2
  {
    var ps := Pairs(ids);
    TallyCounts(ps);
    if |ids| >= 2 {
      assert ps[0] in ps;
    }
  }

  /**
   * The state of a training loop after `merges`, with `current` the list
   * they left and `256 + |merges.keys|` the next id (at most `vocabSize`
   * once a merge was made).
   */
  ghost predicate TrainProgress(ids: seq<Byte>, vocabSize: int, current: seq<int>, merges: Dict<Pair, int>) {
    TrainInvariant(current, merges) &&
    current == Replay(ids, merges.keys) && Greedy(ids, merges.keys) &&
    FirstNewToken + |merges.keys| <= (if vocabSize > FirstNewToken then vocabSize else FirstNewToken) &&
    (|ids| >= 2 ==> |current| >= 2) &&
    (|ids| < 2 ==> merges.keys == [])
  }

  /** A round that merges the top pair of `current` into the next id keeps the state. */
  lemma TrainRound(ids: seq<Byte>, vocabSize: int, current: seq<int>, merges: Dict<Pair, int>, pair: Pair)
    requires TrainProgress(ids, vocabSize, current, merges) && FirstNewToken + |merges.keys| < vocabSize
    requires MostFrequent(Tally(Pairs(current))) == Ok(pair) && Tally(Pairs(current)).items[pair] != 1
    ensures pair !in merges.items && Occurs(current, pair)
    ensures var t := FirstNewToken + |merges.keys|;
      Put(merges, pair, t).keys == merges.keys + [pair] &&
      TrainProgress(ids, vocabSize, Merged(current, pair, t), Put(merges, pair, t))
  {
    var t := FirstNewToken + |merges.keys|;
    RepeatedChosen(current, pair);
    TrainStep(current, merges, pair);
    ReplayStep(ids, merges.keys, pair);
    GreedyStep(ids, merges.keys, pair);
    assert Put(merges, pair, t).keys == merges.keys + [pair];
  }

  /**
   * What `train` makes of `ids`: consecutive merges, each the top pair of
   * the list its predecessors left and seen at least twice there, none of
   * them left in the final list, no more than `vocabSize - 256` of them,
   * and fewer only when no pair of the final list repeats.
   */
  ghost predicate Trained(ids: seq<Byte>, vocabSize: int, merges: Dict<Pair, int>) {
    TrainInvariant(Replay(ids, merges.keys), merges) &&
    Greedy(ids, merges.keys) &&
    |merges.keys| <= (if vocabSize > FirstNewToken then vocabSize - FirstNewToken else 0) &&
    (FirstNewToken + |merges.keys| >= vocabSize || NoRepeatedPair(Replay(ids, merges.keys)))
  }

  /** The loop ran out of ids to hand out. */
  lemma TrainFinish(ids: seq<Byte>, vocabSize: int, current: seq<int>, merges: Dict<Pair, int>)
    requires TrainProgress(ids, vocabSize, current, merges)
    requires FirstNewToken + |merges.keys| >= vocabSize
    ensures Trained(ids, vocabSize, merges)
    ensures !(|ids| < 2 && vocabSize > FirstNewToken)
  {
  }

  /** The top pair is seen once: the loop stops with what it has. */
  lemma TrainUnique(ids: seq<Byte>, vocabSize: int, current: seq<int>, merges: Dict<Pair, int>, top: Pair)
    requires TrainProgress(ids, vocabSize, current, merges)
    requires MostFrequent(Tally(Pairs(current))) == Ok(top) && Tally(Pairs(current)).items[top] == 1
    ensures Trained(ids, vocabSize, merges)
    ensures |ids| >= 2
  {
    StopsWhenUnique(current, top);
    PairsExist(current);
  }

  /** There is no pair at all: only a list shorter than two can get here. */
  lemma TrainNoPair(ids: seq<Byte>, vocabSize: int, current: seq<int>, merges: Dict<Pair, int>)
    requires TrainProgress(ids, vocabSize, current, merges) && FirstNewToken + |merges.keys| < vocabSize
    requires MostFrequent(Tally(Pairs(current))).Err?
    ensures |ids| < 2 && vocabSize > FirstNewToken
  {
    PairsExist(current);
  }

  /**
   * The loop of `train` from `current`, `merges` and `newToken` on: the
   * merges and the next id when it stops, or the `ValueError` of `max`
   * on a list with no pair.
   */
  function TrainLoop(current: seq<int>, merges: Dict<Pair, int>, newToken: int, vocabSize: int)
    : (r: Result<(Dict<Pair, int>, int)>)
    requires Valid(merges)
    ensures r.Err? ==> r.error == ValueError
    ensures r.Ok? ==> Valid(r.value.0) && merges.items.Keys <= r.value.0.items.Keys
    ensures r.Ok? ==> newToken <= r.value.1 <= if newToken < vocabSize then vocabSize else newToken
    decreases vocabSize - newToken
  {
    if newToken >= vocabSize then Ok((merges, newToken))
    else
      var freqs := Tally(Pairs(current));
      match MostFrequent(freqs)
      case Err(e) => Err(e)
      case Ok(top) =>
        if freqs.items[top] == 1 then Ok((merges, newToken))
        else TrainLoop(Merged(current, top, newToken), Put(merges, top, newToken), newToken + 1, vocabSize)
  }

  /** One round of `TrainLoop` that merges `top`. */
  lemma TrainLoopStep(current: seq<int>, merges: Dict<Pair, int>, newToken: int, vocabSize: int, top: Pair,
                      next: seq<int>, merges': Dict<Pair, int>, newToken': int)
    requires Valid(merges) && newToken < vocabSize
    requires MostFrequent(Tally(Pairs(current))) == Ok(top) && Tally(Pairs(current)).items[top] != 1
    requires next == Merged(current, top, newToken) && merges' == Put(merges, top, newToken) && newToken' == newToken + 1
    ensures Valid(merges')
    ensures TrainLoop(next, merges', newToken', vocabSize) == TrainLoop(current, merges, newToken, vocabSize)
  {
  }

  /** From a reachable state, the loop ends in what `Trained` describes. */
  lemma {:induction false} TrainLoopTrained(ids: seq<Byte>, vocabSize: int, current: seq<int>,
                                            merges: Dict<Pair, int>, newToken: int)
    requires TrainProgress(ids, vocabSize, current, merges) && newToken == FirstNewToken + |merges.keys|
    ensures var r := TrainLoop(current, merges, newToken, vocabSize);
      (r.Err? <==> |ids| < 2 && vocabSize > FirstNewToken) &&
      (r.Err? ==> r.error == ValueError) &&
      (r.Ok? ==> Trained(ids, vocabSize, r.value.0) && r.value.1 == FirstNewToken + |r.value.0.keys|)
    decreases vocabSize - newToken
  {
    if newToken >= vocabSize {
      TrainFinish(ids, vocabSize, current, merges);
    } else {
      var freqs := Tally(Pairs(current));
      match MostFrequent(freqs)
      case Err(_) =>
        TrainNoPair(ids, vocabSize, current, merges);
      case Ok(top) =>
        if freqs.items[top] == 1 {
          TrainUnique(ids, vocabSize, current, merges, top);
        } else {
          var next, merges', newToken' := Merged(current, top, newToken), Put(merges, top, newToken), newToken + 1;
          TrainRound(ids, vocabSize, current, merges, top);
          TrainLoopStep(current, merges, newToken, vocabSize, top, next, merges', newToken');
          TrainLoopTrained(ids, vocabSize, next, merges', newToken');
        }
    }
  }

  /**
   * What `train` returns: an error exactly when `ids` has fewer than two
   * entries and there is room for a merge, and otherwise the merges that
   * `Trained` describes with the next id `256 + |merges|`.
   */
  lemma TrainResult(ids: seq<Byte>, vocabSize: int)
    ensures var r := TrainLoop(ids, Empty(), FirstNewToken, vocabSize);
      (r.Err? <==> |ids| < 2 && vocabSize > FirstNewToken) &&
      (r.Err? ==> r.error == ValueError) &&
      (r.Ok? ==> Trained(ids, vocabSize, r.value.0) && r.value.1 == FirstNewToken + |r.value.0.keys|)
  {
    TrainStart(ids);
    TrainLoopTrained(ids, vocabSize, ids, Empty(), FirstNewToken);
  }

  /**
   * `train` of utils.py: the vocabulary `0 .. newToken - 1` as a list, and
   * the merges. Merges use `MergePair`. Like the source, it accepts any
   * list of integers, not only bytes.
   */
  method Train(ids: seq<int>, vocabSize: int) returns (r: Result<(seq<int>, Dict<Pair, int>)>)
    ensures var s := TrainLoop(ids, Empty(), FirstNewToken, vocabSize);
      (r.Err? <==> s.Err?) && (r.Err? ==> r.error == s.error) &&
      (r.Ok? ==> r.value == (Range(s.value.1), s.value.0))
  {
    var vocab := Range(FirstNewToken);
    var newToken := FirstNewToken;
    var current: seq<int> := ids;
    var merges: Dict<Pair, int> := Empty();
    while newToken < vocabSize
      invariant Valid(merges) && vocab == Range(newToken)
      invariant TrainLoop(current, merges, newToken, vocabSize) == TrainLoop(ids, Empty(), FirstNewToken, vocabSize)
    {
      var freqs := GetPairFreqs(current);
      var top := MostFrequent(freqs);
      if top.Err? {
        return Err(top.error);
      }
      var pair := top.value;
      if freqs.items[pair] == 1 {
        break;
      }
      current := MergePair(current, pair, newToken);
      vocab := vocab + [newToken];
      merges := Put(merges, pair, newToken);
      newToken := newToken + 1;
    }
    return Ok((vocab, merges));
  }
}
