/**
 * The `CEGATokenize` class: `train` stores the merges and the byte string
 * of every token, `encode_no_special` applies the merges greedily,
 * `decode` joins byte strings, `_build_vocab` rebuilds the vocabulary from
 * the merges and the special tokens, and `load` numbers the merge lines of
 * a model file. Byte strings are `seq<Byte>`; the final
 * `bytes.decode("utf-8", errors="replace")` of `decode` is left out, so
 * `Decode` returns the joined bytes.
 */
module Tokenizer {
  import opened Wrappers
  import opened PyDict
  import opened Utf8
  import opened BpeUtils

  predicate IsByte(x: int) {
    0 <= x < FirstNewToken
  }

  /** `{idx: bytes([idx]) for idx in range(256)}`. */
  function ByteVocab(): (v: map<int, seq<Byte>>)
    ensures forall x :: x in v <==> 0 <= x < FirstNewToken
    ensures forall x :: 0 <= x < FirstNewToken ==> v[x] == [x as Byte]
  {
    map x: int | 0 <= x < FirstNewToken && IsByte(x) :: [x as Byte]
  }

  /** Each single byte stands for itself, and each merge for its halves' bytes concatenated. */
  ghost predicate MergesAgree(merges: Dict<Pair, int>, vocab: map<int, seq<Byte>>) {
    (forall b :: 0 <= b < FirstNewToken ==> b in vocab && vocab[b] == [b as Byte]) &&
    (forall p :: p in merges.items ==>
      p.0 in vocab && p.1 in vocab && merges.items[p] in vocab &&
      vocab[merges.items[p]] == vocab[p.0] + vocab[p.1])
  }

  /** A list of bytes stands for itself. */
  lemma {:induction false} FlatBytes(vocab: map<int, seq<Byte>>, bs: seq<Byte>)
    requires forall b :: 0 <= b < FirstNewToken ==> b in vocab && vocab[b] == [b as Byte]
    ensures Known(vocab, bs) && Flat(vocab, bs) == bs
  {
    if bs != [] {
      FlatBytes(vocab, bs[1..]);
      assert bs == [bs[0]] + bs[1..];
    }
  }

  /**
   * The loop over `self.merges.items()` in `_build_vocab`: each merge id
   * gets its halves' bytes concatenated, a `KeyError` for a half with no
   * entry yet.
   */
  function MergeVocab(keys: seq<Pair>, items: map<Pair, int>): (r: Result<map<int, seq<Byte>>>)
    requires forall i :: 0 <= i < |keys| ==> keys[i] in items
    ensures r.Err? ==> r.error == KeyError
    ensures r.Ok? ==> forall x :: 0 <= x < FirstNewToken ==> x in r.value
  {
    if keys == [] then Ok(ByteVocab())
    else
      match MergeVocab(keys[..|keys| - 1], items)
      case Err(e) => Err(e)
      case Ok(v) =>
        var p := keys[|keys| - 1];
        if p.0 in v && p.1 in v then Ok(v[items[p] := v[p.0] + v[p.1]]) else Err(KeyError)
  }

  /** The id of a pair that is not merged does not matter. */
  lemma {:induction false} MergeVocabFrame(keys: seq<Pair>, items: map<Pair, int>, p: Pair, t: int)
    requires forall i :: 0 <= i < |keys| ==> keys[i] in items
    requires p !in keys
    ensures MergeVocab(keys, items[p := t]) == MergeVocab(keys, items)
  {
    if keys != [] {
      MergeVocabFrame(keys[..|keys| - 1], items, p, t);
      assert keys[|keys| - 1] != p;
    }
  }

  /** `{v: k for k, v in special_tokens.items()}`: for a shared id the last key wins. */
  function Inverse(keys: seq<string>, items: map<string, int>): (r: map<int, string>)
    requires forall i :: 0 <= i < |keys| ==> keys[i] in items
    ensures forall x :: x in r ==> r[x] in items && items[r[x]] == x
    ensures forall i :: 0 <= i < |keys| ==> items[keys[i]] in r
  {
    if keys == [] then map[]
    else
      var last := keys[|keys| - 1];
      Inverse(keys[..|keys| - 1], items)[items[last] := last]
  }

  /** With one key per id, the inverse maps every id back to its key. */
  lemma InverseExact(d: Dict<string, int>)
    requires Valid(d)
    requires forall a, b :: a in d.items && b in d.items && d.items[a] == d.items[b] ==> a == b
    ensures forall x :: x in Inverse(d.keys, d.items) <==> exists k :: k in d.items && d.items[k] == x
    ensures forall k :: k in d.items ==> Inverse(d.keys, d.items)[d.items[k]] == k
  {
    var inv := Inverse(d.keys, d.items);
    forall k | k in d.items
      ensures d.items[k] in inv && inv[d.items[k]] == k
    {
      var i := IndexOf(d, k);
      assert d.items[d.keys[i]] in inv;
    }
  }

  /** The loop over `self.special_tokens.items()` in `_build_vocab`: each special id gets its string's bytes. */
  function WithSpecials(v: map<int, seq<Byte>>, keys: seq<string>, items: map<string, int>): (r: map<int, seq<Byte>>)
    requires forall i :: 0 <= i < |keys| ==> keys[i] in items
    ensures forall x :: x in r <==> x in v || x in Inverse(keys, items)
    ensures forall x :: x in Inverse(keys, items) ==> r[x] == EncodeText(Inverse(keys, items)[x])
    ensures forall x :: x in v && x !in Inverse(keys, items) ==> r[x] == v[x]
  {
    if keys == [] then v
    else
      var last := keys[|keys| - 1];
      WithSpecials(v, keys[..|keys| - 1], items)[items[last] := EncodeText(last)]
  }

  /** `_build_vocab`: the merges' byte strings overridden by the special tokens', or a `KeyError`. */
  function BuildVocab(merges: Dict<Pair, int>, specialTokens: Dict<string, int>): (r: Result<map<int, seq<Byte>>>)
    requires Valid(merges) && Valid(specialTokens)
    ensures r.Err? <==> MergeVocab(merges.keys, merges.items).Err?
    ensures r.Err? ==> r.error == KeyError
    ensures r.Ok? ==> forall x :: 0 <= x < FirstNewToken ==> x in r.value
  {
    match MergeVocab(merges.keys, merges.items)
    case Err(e) => Err(e)
    case Ok(v) => Ok(WithSpecials(v, specialTokens.keys, specialTokens.items))
  }

  /**
   * After `train`, `_build_vocab` gives back the trained vocabulary for
   * every id that is not a special id, and exactly it when there are no
   * special tokens; each special id maps to its string's bytes.
   */
  lemma BuildVocabAfterTrain(merges: Dict<Pair, int>, specialTokens: Dict<string, int>, vocab: map<int, seq<Byte>>)
    requires Valid(merges) && Valid(specialTokens) && MergeVocab(merges.keys, merges.items) == Ok(vocab)
    ensures var r := BuildVocab(merges, specialTokens); var inverse := Inverse(specialTokens.keys, specialTokens.items);
      r.Ok? &&
      (forall x :: x in r.value <==> x in vocab || x in inverse) &&
      (forall x :: x in vocab && x !in inverse ==> r.value[x] == vocab[x]) &&
      (forall x :: x in inverse ==> r.value[x] == EncodeText(inverse[x])) &&
      (specialTokens.keys == [] ==> r.value == vocab)
  {
  }

  /** `b"".join(self.vocab[idx] for idx in ids)`: a `KeyError` at an id with no entry. */
  function JoinVocab(vocab: map<int, seq<Byte>>, ids: seq<int>): (r: Result<seq<Byte>>)
    ensures r.Ok? <==> Known(vocab, ids)
    ensures r.Ok? ==> r.value == Flat(vocab, ids)
    ensures r.Err? ==> r.error == KeyError
  {
    if ids == [] then Ok([])
    else if ids[0] !in vocab then Err(KeyError)
    else
      match JoinVocab(vocab, ids[1..])
      case Err(e) => Err(e)
      case Ok(rest) => Ok(vocab[ids[0]] + rest)
  }

  /**
   * The loop of `decode` with special tokens: an id's bytes from the
   * vocabulary, else the UTF-8 bytes of its special token, else a
   * `ValueError`.
   */
  function JoinWithSpecials(vocab: map<int, seq<Byte>>, inverse: map<int, string>, ids: seq<int>)
    : (r: Result<seq<Byte>>)
    ensures r.Ok? <==> forall i :: 0 <= i < |ids| ==> ids[i] in vocab || ids[i] in inverse
    ensures r.Err? ==> r.error == ValueError
    ensures Known(vocab, ids) ==> r == Ok(Flat(vocab, ids))
    ensures |ids| == 1 && ids[0] !in vocab && ids[0] in inverse ==> r == Ok(EncodeText(inverse[ids[0]]))
    ensures r.Ok? ==> Emittable(vocab, inverse, ids) && r.value == Pieces(vocab, inverse, ids)
  {
    if ids == [] then Ok([])
    else
      var head :=
        if ids[0] in vocab then Some(vocab[ids[0]])
        else if ids[0] in inverse then Some(EncodeText(inverse[ids[0]]))
        else None;
      match head
      case None => Err(ValueError)
      case Some(bs) =>
        match JoinWithSpecials(vocab, inverse, ids[1..])
        case Err(e) => Err(e)
        case Ok(rest) =>
          FlatCons(vocab, ids);
          assert ids[1..] == [] ==> bs + rest == bs;
          Ok(bs + rest)
  }

  /** Every id of `ids` is in the vocabulary or is a special id. */
  predicate Emittable(vocab: map<int, seq<Byte>>, inverse: map<int, string>, ids: seq<int>) {
    forall i :: 0 <= i < |ids| ==> ids[i] in vocab || ids[i] in inverse
  }

  /** The bytes `decode` emits for one id: its vocabulary entry, else the UTF-8 bytes of its special token. */
  function Piece(vocab: map<int, seq<Byte>>, inverse: map<int, string>, id: int): seq<Byte>
    requires id in vocab || id in inverse
  {
    if id in vocab then vocab[id] else EncodeText(inverse[id])
  }

  /** The pieces of `ids`, in order: what a successful `decode` joins, with ordinary and special ids mixed. */
  function Pieces(vocab: map<int, seq<Byte>>, inverse: map<int, string>, ids: seq<int>): seq<Byte>
    requires Emittable(vocab, inverse, ids)
  {
    if ids == [] then [] else Piece(vocab, inverse, ids[0]) + Pieces(vocab, inverse, ids[1..])
  }

  /** The pieces of a concatenation are the concatenated pieces of its parts. */
  lemma {:induction false} PiecesAppend(vocab: map<int, seq<Byte>>, inverse: map<int, string>, a: seq<int>, b: seq<int>)
    requires Emittable(vocab, inverse, a) && Emittable(vocab, inverse, b)
    ensures Emittable(vocab, inverse, a + b)
    ensures Pieces(vocab, inverse, a + b) == Pieces(vocab, inverse, a) + Pieces(vocab, inverse, b)
    decreases |a|
  {
    assert forall i :: 0 <= i < |a + b| ==> (a + b)[i] == if i < |a| then a[i] else b[i - |a|];
    if a == [] {
      assert a + b == b;
    } else {
      assert (a + b)[1..] == a[1..] + b;
      PiecesAppend(vocab, inverse, a[1..], b);
    }
  }

  /** The bytes of a known concatenation are the concatenated bytes of its parts. */
  lemma {:induction false} FlatAppend(vocab: map<int, seq<Byte>>, a: seq<int>, b: seq<int>)
    requires Known(vocab, a) && Known(vocab, b)
    ensures Known(vocab, a + b)
    ensures Flat(vocab, a + b) == Flat(vocab, a) + Flat(vocab, b)
    decreases |a|
  {
    assert forall i :: 0 <= i < |a + b| ==> (a + b)[i] == if i < |a| then a[i] else b[i - |a|];
    if a == [] {
      assert a + b == b;
    } else {
      assert (a + b)[1..] == a[1..] + b;
      FlatAppend(vocab, a[1..], b);
    }
  }

  /** A known list splits into its head's bytes and its tail's. */
  lemma FlatCons(vocab: map<int, seq<Byte>>, ids: seq<int>)
    requires ids != []
    ensures Known(vocab, ids) ==> Known(vocab, ids[1..]) && Flat(vocab, ids) == vocab[ids[0]] + Flat(vocab, ids[1..])
  {
    if Known(vocab, ids) {
      assert forall i :: 0 <= i < |ids| - 1 ==> ids[1..][i] == ids[i + 1];
    }
  }

  /** The pairs of `ids` are the keys `get_pair_freqs` returns, and there is one when `ids` has two entries. */
  lemma PairKeys(ids: seq<int>)
    ensures forall p :: p in Tally(Pairs(ids)).keys <==> p in Pairs(ids)
    ensures |ids| >= 2 ==> Tally(Pairs(ids)).keys != []
  {
    TallyCounts(Pairs(ids));
    PairsExist(ids);
  }

  /**
   * The loop of `encode_no_special` from `tokens` on: while two or more
   * tokens remain, merge the present pair with the smallest merge id; stop
   * when no present pair has one.
   */
  function Encoded(merges: Dict<Pair, int>, tokens: seq<int>): (r: seq<int>)
    requires Valid(merges)
    ensures |r| <= |tokens|
    ensures |r| < 2 || forall p :: p in Pairs(r) ==> p !in merges.items
    decreases |tokens|
  {
    if |tokens| < 2 then tokens
    else
      PairKeys(tokens);
      var pair := LowestRanked(Tally(Pairs(tokens)).keys, merges.items);
      if pair !in merges.items then tokens
      else
        OccursIsPair(tokens, pair);
        MergedShorter(tokens, pair, merges.items[pair]);
        Encoded(merges, Merged(tokens, pair, merges.items[pair]))
  }

  /** Encoding keeps the bytes the tokens stand for. */
  lemma {:induction false} EncodedFlat(merges: Dict<Pair, int>, vocab: map<int, seq<Byte>>, tokens: seq<int>)
    requires Valid(merges) && MergesAgree(merges, vocab) && Known(vocab, tokens)
    ensures Known(vocab, Encoded(merges, tokens))
    ensures Flat(vocab, Encoded(merges, tokens)) == Flat(vocab, tokens)
    decreases |tokens|
  {
    if |tokens| >= 2 {
      PairKeys(tokens);
      var pair := LowestRanked(Tally(Pairs(tokens)).keys, merges.items);
      if pair in merges.items {
        var t := merges.items[pair];
        OccursIsPair(tokens, pair);
        MergedShorter(tokens, pair, t);
        MergedFlat(vocab, tokens, pair, t);
        EncodedFlat(merges, vocab, Merged(tokens, pair, t));
      }
    }
  }

  /**
   * The vocabulary after the merges: it holds exactly the ids handed out so
   * far, agrees with the merges, and is what `_build_vocab` makes of them.
   */
  ghost predicate VocabFor(merges: Dict<Pair, int>, vocab: map<int, seq<Byte>>) {
    Valid(merges) &&
    (forall x :: x in vocab <==> 0 <= x < FirstNewToken + |merges.keys|) &&
    MergesAgree(merges, vocab) &&
    MergeVocab(merges.keys, merges.items) == Ok(vocab)
  }

  /** The state the loop of `train` keeps about bytes: `VocabFor`, and `ids` stand for `bytes`. */
  ghost predicate ByteLevel(bytes: seq<Byte>, ids: seq<int>, merges: Dict<Pair, int>, vocab: map<int, seq<Byte>>) {
    VocabFor(merges, vocab) && Known(vocab, ids) && Flat(vocab, ids) == bytes
  }

  lemma ByteLevelStart(bytes: seq<Byte>)
    ensures ByteLevel(bytes, bytes, Empty(), ByteVocab())
  {
    FlatBytes(ByteVocab(), bytes);
  }

  /** `vocab[new_token] = vocab[top_pair[0]] + vocab[top_pair[1]]` keeps `VocabFor` when the pair is new. */
  lemma VocabStep(merges: Dict<Pair, int>, vocab: map<int, seq<Byte>>, pair: Pair)
    requires Consecutive(merges) && VocabFor(merges, vocab)
    requires pair !in merges.items && 0 <= pair.0 < FirstNewToken + |merges.keys| && 0 <= pair.1 < FirstNewToken + |merges.keys|
    ensures var t := FirstNewToken + |merges.keys|;
      VocabFor(Put(merges, pair, t), vocab[t := vocab[pair.0] + vocab[pair.1]])
  {
    var t := FirstNewToken + |merges.keys|;
    AgreeStep(merges, vocab, pair);
    MergeVocabStep(merges, vocab, pair);
    DomainStep(vocab, t, vocab[t := vocab[pair.0] + vocab[pair.1]]);
  }

  /** A merge keeps the byte-level state. */
  lemma ByteLevelStep(bytes: seq<Byte>, ids: seq<int>, merges: Dict<Pair, int>, vocab: map<int, seq<Byte>>, pair: Pair,
                      t: int, ids': seq<int>, merges': Dict<Pair, int>, vocab': map<int, seq<Byte>>)
    requires Consecutive(merges) && ByteLevel(bytes, ids, merges, vocab)
    requires t == FirstNewToken + |merges.keys|
    requires forall i :: 0 <= i < |ids| ==> ids[i] < t
    requires pair !in merges.items && 0 <= pair.0 < t && 0 <= pair.1 < t
    requires ids' == Merged(ids, pair, t) && merges' == Put(merges, pair, t)
    requires vocab' == vocab[t := vocab[pair.0] + vocab[pair.1]]
    ensures ByteLevel(bytes, ids', merges', vocab')
  {
    VocabStep(merges, vocab, pair);
    FlatFrame(vocab, ids, t, vocab[pair.0] + vocab[pair.1]);
    MergedFlat(vocab', ids, pair, t);
  }

  /** Both halves of a pair of the list have byte strings. */
  lemma TopKnown(bytes: seq<Byte>, ids: seq<int>, merges: Dict<Pair, int>, vocab: map<int, seq<Byte>>, p: Pair)
    requires ByteLevel(bytes, ids, merges, vocab) && Occurs(ids, p)
    ensures p.0 in vocab && p.1 in vocab
    ensures forall i :: 0 <= i < |ids| ==> 0 <= ids[i] < FirstNewToken + |merges.keys|
  {
    var i :| 0 <= i < |ids| - 1 && ids[i] == p.0 && ids[i + 1] == p.1;
  }

  /** Adding id `t` to the ids below `t` gives the ids below `t + 1`. */
  lemma DomainStep(vocab: map<int, seq<Byte>>, t: int, vocab': map<int, seq<Byte>>)
    requires t >= 0 && forall x :: x in vocab <==> 0 <= x < t
    requires t in vocab' && forall x :: x != t ==> (x in vocab' <==> x in vocab)
    ensures forall x :: x in vocab' <==> 0 <= x < t + 1
  {
  }

  /** The new id's byte string agrees with the new merge, and the older ones still agree. */
  lemma AgreeStep(merges: Dict<Pair, int>, vocab: map<int, seq<Byte>>, pair: Pair)
    requires Consecutive(merges) && MergesAgree(merges, vocab)
    requires forall x :: x in vocab <==> 0 <= x < FirstNewToken + |merges.keys|
    requires pair !in merges.items && pair.0 in vocab && pair.1 in vocab
    ensures var t := FirstNewToken + |merges.keys|;
      MergesAgree(Put(merges, pair, t), vocab[t := vocab[pair.0] + vocab[pair.1]])
  {
    var t := FirstNewToken + |merges.keys|;
    var vocab' := vocab[t := vocab[pair.0] + vocab[pair.1]];
    var merges' := Put(merges, pair, t);
    forall p | p in merges'.items
      ensures p.0 in vocab' && p.1 in vocab' && merges'.items[p] in vocab' &&
        vocab'[merges'.items[p]] == vocab'[p.0] + vocab'[p.1]
    {
      if p != pair {
        var k := IndexOf(merges, p);
        assert merges.items[p] == FirstNewToken + k;
      }
    }
  }

  /** `_build_vocab` over one more merge adds exactly that merge's byte string. */
  lemma MergeVocabStep(merges: Dict<Pair, int>, vocab: map<int, seq<Byte>>, pair: Pair)
    requires Valid(merges) && MergeVocab(merges.keys, merges.items) == Ok(vocab)
    requires pair !in merges.items && pair.0 in vocab && pair.1 in vocab
    ensures var t := FirstNewToken + |merges.keys|;
      MergeVocab(Put(merges, pair, t).keys, Put(merges, pair, t).items) == Ok(vocab[t := vocab[pair.0] + vocab[pair.1]])
  {
    var t := FirstNewToken + |merges.keys|;
    var merges' := Put(merges, pair, t);
    assert merges'.keys[..|merges'.keys| - 1] == merges.keys;
    MergeVocabFrame(merges.keys, merges.items, pair, t);
  }

  /** Numbering the merge lines of a model file from 256 on, as `load` does; a repeated line keeps its first place and its last id. */
  function AssignIds(lines: seq<Pair>): (d: Dict<Pair, int>)
    ensures Valid(d)
  {
    if lines == [] then Empty()
    else Put(AssignIds(lines[..|lines| - 1]), lines[|lines| - 1], FirstNewToken + |lines| - 1)
  }

  /** Distinct merge lines come back as consecutive merges in file order. */
  lemma {:induction false} AssignIdsConsecutive(lines: seq<Pair>)
    requires forall i, j :: 0 <= i < j < |lines| ==> lines[i] != lines[j]
    ensures AssignIds(lines).keys == lines && Consecutive(AssignIds(lines))
  {
    if lines != [] {
      var init := lines[..|lines| - 1];
      AssignIdsConsecutive(init);
      AssignIdsStep(init, lines[|lines| - 1]);
      assert init + [lines[|lines| - 1]] == lines;
    }
  }

  /** One more distinct line extends the consecutive merges read so far. */
  lemma AssignIdsStep(init: seq<Pair>, last: Pair)
    requires AssignIds(init).keys == init && Consecutive(AssignIds(init))
    requires last !in init
    ensures AssignIds(init + [last]).keys == init + [last] && Consecutive(AssignIds(init + [last]))
  {
    assert (init + [last])[..|init|] == init;
    ConsecutivePut(AssignIds(init), last);
  }

  /**
   * The lines of a `.model` file that `load` uses, in file order: each
   * special token with its id, then each merged pair. The version and
   * pattern lines and the text format are left out.
   */
  datatype ModelFile = ModelFile(specials: seq<(string, int)>, mergeLines: seq<Pair>)

  /** `special_tokens[special] = int(special_idx)` over the special lines, in file order. */
  function ReadSpecials(lines: seq<(string, int)>): (d: Dict<string, int>)
    ensures Valid(d)
  {
    if lines == [] then Empty()
    else
      var last := lines[|lines| - 1];
      Put(ReadSpecials(lines[..|lines| - 1]), last.0, last.1)
  }

  /** Special lines with distinct names come back in file order, each with its id. */
  lemma {:induction false} ReadSpecialsDistinct(lines: seq<(string, int)>)
    requires forall i, j :: 0 <= i < j < |lines| ==> lines[i].0 != lines[j].0
    ensures var d := ReadSpecials(lines);
      |d.keys| == |lines| &&
      forall i :: 0 <= i < |lines| ==> d.keys[i] == lines[i].0 && d.items[lines[i].0] == lines[i].1
  {
    if lines != [] {
      var init := lines[..|lines| - 1];
      var last := lines[|lines| - 1];
      ReadSpecialsDistinct(init);
      var d := ReadSpecials(init);
      assert last.0 !in d.items;
      forall i | 0 <= i < |lines|
        ensures ReadSpecials(lines).keys[i] == lines[i].0 && ReadSpecials(lines).items[lines[i].0] == lines[i].1
      {
        if i < |init| {
          assert lines[i] == init[i];
        }
      }
    }
  }

  /** The special lines `save` writes: each special token with its id, in dict order. */
  function SpecialLines(d: Dict<string, int>): (lines: seq<(string, int)>)
    requires Valid(d)
    ensures |lines| == |d.keys|
    ensures forall i :: 0 <= i < |lines| ==> lines[i].0 == d.keys[i] && lines[i].1 == d.items[d.keys[i]]
  {
    seq(|d.keys|, i requires 0 <= i < |d.keys| => (d.keys[i], d.items[d.keys[i]]))
  }

  /** Reading back the special lines `save` writes gives the same dictionary. */
  lemma SpecialsRoundTrip(d: Dict<string, int>)
    requires Valid(d)
    ensures ReadSpecials(SpecialLines(d)) == d
  {
    var lines := SpecialLines(d);
    ReadSpecialsDistinct(lines);
    var r := ReadSpecials(lines);
    assert r.keys == d.keys;
    Extensional(r, d);
  }

  /**
   * `load` numbers the merge lines from 256 in file order: consecutive
   * merges, as `train` leaves them, come back unchanged from their keys.
   */
  lemma MergesRoundTrip(merges: Dict<Pair, int>)
    ensures Consecutive(merges) ==> AssignIds(merges.keys) == merges
  {
    if Consecutive(merges) {
      AssignIdsConsecutive(merges.keys);
      Extensional(AssignIds(merges.keys), merges);
    }
  }

  /**
   * What `train` leaves: greedy, consecutive merges, and the byte string of
   * every id they hand out, which `_build_vocab` reproduces and which turns
   * the merged text back into its bytes.
   */
  ghost predicate Fitted(bytes: seq<Byte>, vocabSize: int, merges: Dict<Pair, int>, vocab: map<int, seq<Byte>>) {
    Valid(merges) &&
    Trained(bytes, vocabSize, merges) &&
    ByteLevel(bytes, Replay(bytes, merges.keys), merges, vocab)
  }

  /**
   * The loop of `train` in the tokenizer from `current`, `merges`, `vocab`
   * and `newToken` on: the merges and byte strings when it stops, the
   * `ValueError` of `max` on a list with no pair, or the `KeyError` of a
   * half with no byte string (`TokenizerLoopAgrees` shows it never comes).
   */
  function TokenizerLoop(current: seq<int>, merges: Dict<Pair, int>, vocab: map<int, seq<Byte>>,
                         newToken: int, vocabSize: int): (r: Result<(Dict<Pair, int>, map<int, seq<Byte>>)>)
    requires Valid(merges)
    ensures r.Err? ==> r.error == ValueError || r.error == KeyError
    ensures r.Ok? ==> Valid(r.value.0) && merges.items.Keys <= r.value.0.items.Keys && vocab.Keys <= r.value.1.Keys
    decreases vocabSize - newToken
  {
    if newToken >= vocabSize then Ok((merges, vocab))
    else
      var freqs := Tally(Pairs(current));
      match MostFrequent(freqs)
      case Err(e) => Err(e)
      case Ok(top) =>
        if freqs.items[top] == 1 then Ok((merges, vocab))
        else if top.0 !in vocab || top.1 !in vocab then Err(KeyError)
        else
          TokenizerLoop(Merged(current, top, newToken), Put(merges, top, newToken),
                        vocab[newToken := vocab[top.0] + vocab[top.1]], newToken + 1, vocabSize)
  }

  /**
   * From a reachable state, the tokenizer's loop makes the merges of
   * `BpeUtils.TrainLoop`, fails exactly when that fails, and keeps the
   * byte-level state.
   */
  lemma {:induction false} TokenizerLoopAgrees(bytes: seq<Byte>, vocabSize: int, current: seq<int>,
                                               merges: Dict<Pair, int>, vocab: map<int, seq<Byte>>, newToken: int)
    requires TrainProgress(bytes, vocabSize, current, merges) && newToken == FirstNewToken + |merges.keys|
    requires ByteLevel(bytes, current, merges, vocab)
    ensures var r := TokenizerLoop(current, merges, vocab, newToken, vocabSize);
      var s := TrainLoop(current, merges, newToken, vocabSize);
      (r.Err? <==> s.Err?) && (r.Err? ==> r.error == s.error) &&
      (r.Ok? ==> s.Ok? && r.value.0 == s.value.0 && ByteLevel(bytes, Replay(bytes, r.value.0.keys), r.value.0, r.value.1))
    decreases vocabSize - newToken
  {
    if newToken < vocabSize {
      var freqs := Tally(Pairs(current));
      match MostFrequent(freqs)
      case Err(_) =>
      case Ok(top) =>
        if freqs.items[top] != 1 {
          TrainRound(bytes, vocabSize, current, merges, top);
          TopKnown(bytes, current, merges, vocab, top);
          var next, merges', newToken' := Merged(current, top, newToken), Put(merges, top, newToken), newToken + 1;
          var vocab' := vocab[newToken := vocab[top.0] + vocab[top.1]];
          ByteLevelStep(bytes, current, merges, vocab, top, newToken, next, merges', vocab');
          TrainLoopStep(current, merges, newToken, vocabSize, top, next, merges', newToken');
          TokenizerLoopStep(current, merges, vocab, newToken, vocabSize, top, next, merges', vocab', newToken');
          TokenizerLoopAgrees(bytes, vocabSize, next, merges', vocab', newToken');
        }
    }
  }

  /**
   * What `train` computes from the bytes of the text: a `ValueError`
   * exactly when there are fewer than two bytes and room for a merge, and
   * otherwise the merges of `BpeUtils.TrainLoop` with the byte strings
   * `Fitted` describes.
   */
  lemma TrainFitted(bytes: seq<Byte>, vocabSize: int)
    ensures var r := TokenizerLoop(bytes, Empty(), ByteVocab(), FirstNewToken, vocabSize);
      (r.Err? <==> |bytes| < 2 && vocabSize > FirstNewToken) &&
      (r.Err? ==> r.error == ValueError) &&
      (r.Ok? ==>
        TrainLoop(bytes, Empty(), FirstNewToken, vocabSize) == Ok((r.value.0, FirstNewToken + |r.value.0.keys|)) &&
        Fitted(bytes, vocabSize, r.value.0, r.value.1))
  {
    TrainStart(bytes);
    TrainResult(bytes, vocabSize);
    ByteLevelStart(bytes);
    TokenizerLoopAgrees(bytes, vocabSize, bytes, Empty(), ByteVocab(), FirstNewToken);
  }

  /** The reading loops of `load`: the special tokens in file order, then the merge lines numbered from 256. */
  method ReadModel(file: ModelFile) returns (specials: Dict<string, int>, merges: Dict<Pair, int>)
    ensures specials == ReadSpecials(file.specials)
    ensures merges == AssignIds(file.mergeLines)
  {
    specials := ReadSpecialLines(file.specials);
    merges := NumberMerges(file.mergeLines);
  }

  /** The special-token lines of a model file, each entered into a dict in turn. */
  method ReadSpecialLines(lines: seq<(string, int)>) returns (specials: Dict<string, int>)
    ensures specials == ReadSpecials(lines)
  {
    specials := Empty();
    var k := 0;
    while k < |lines|
      invariant 0 <= k <= |lines|
      invariant specials == ReadSpecials(lines[..k])
    {
      assert lines[..k + 1][..k] == lines[..k];
      specials := Put(specials, lines[k].0, lines[k].1);
      k := k + 1;
    }
    assert lines[..k] == lines;
  }

  /** The merge lines of a model file, numbered from 256 on by a running `idx`. */
  method NumberMerges(lines: seq<Pair>) returns (merges: Dict<Pair, int>)
    ensures merges == AssignIds(lines)
  {
    merges := Empty();
    var idx := FirstNewToken;
    var i := 0;
    while i < |lines|
      invariant 0 <= i <= |lines| && idx == FirstNewToken + i
      invariant merges == AssignIds(lines[..i])
    {
      assert lines[..i + 1][..i] == lines[..i];
      merges := Put(merges, lines[i], idx);
      idx := idx + 1;
      i := i + 1;
    }
    assert lines[..i] == lines;
  }

  /** One round of `TokenizerLoop` that merges `pair`. */
  lemma TokenizerLoopStep(ids: seq<int>, merges: Dict<Pair, int>, vocab: map<int, seq<Byte>>, newToken: int,
                          vocabSize: int, pair: Pair, ids': seq<int>, merges': Dict<Pair, int>, vocab': map<int, seq<Byte>>,
                          newToken': int)
    requires Valid(merges) && newToken < vocabSize
    requires MostFrequent(Tally(Pairs(ids))) == Ok(pair) && Tally(Pairs(ids)).items[pair] != 1
    requires pair.0 in vocab && pair.1 in vocab
    requires ids' == Merged(ids, pair, newToken) && merges' == Put(merges, pair, newToken)
    requires vocab' == vocab[newToken := vocab[pair.0] + vocab[pair.1]] && newToken' == newToken + 1
    ensures Valid(merges')
    ensures TokenizerLoop(ids', merges', vocab', newToken', vocabSize) == TokenizerLoop(ids, merges, vocab, newToken, vocabSize)
  {
  }

  /** The loop of `train` in the tokenizer from a given state, as `TokenizerLoop` describes it. */
  method TrainTables(start: seq<int>, merges: Dict<Pair, int>, vocab: map<int, seq<Byte>>, firstToken: int, vocabSize: int)
    returns (r: Result<(Dict<Pair, int>, map<int, seq<Byte>>)>)
    requires Valid(merges)
    ensures r == TokenizerLoop(start, merges, vocab, firstToken, vocabSize)
    ensures r.Ok? ==> Valid(r.value.0)
  {
    var ids := start;
    var ms := merges;
    var v := vocab;
    var newToken := firstToken;
    ghost var goal := TokenizerLoop(start, merges, vocab, firstToken, vocabSize);
    while newToken < vocabSize
      invariant Valid(ms) && TokenizerLoop(ids, ms, v, newToken, vocabSize) == goal
      decreases vocabSize - newToken
    {
      var freqs := GetPairFreqs(ids);
      var top := MostFrequent(freqs);
      if top.Err? {
        return Err(top.error);
      }
      var pair := top.value;
      if freqs.items[pair] == 1 {
        break;
      }
      if pair.0 !in v || pair.1 !in v {
        return Err(KeyError);
      }
      var ids' := MergePair(ids, pair, newToken);
      var ms' := Put(ms, pair, newToken);
      var v' := v[newToken := v[pair.0] + v[pair.1]];
      var t' := newToken + 1;
      TokenizerLoopStep(ids, ms, v, newToken, vocabSize, pair, ids', ms', v', t');
      ids, ms, v, newToken := ids', ms', v', t';
    }
    return Ok((ms, v));
  }

  class CegaTokenize {
    var merges: Dict<Pair, int>
    var specialTokens: Dict<string, int>
    var vocab: map<int, seq<Byte>>
    var inverseSpecialTokens: map<int, string>

    /** Both dictionaries are Python dicts. */
    ghost predicate Wellformed()
      reads this
    {
      Valid(merges) && Valid(specialTokens)
    }

    constructor ()
      ensures Wellformed()
      ensures merges == Empty() && specialTokens == Empty()
      ensures vocab == map[] && inverseSpecialTokens == map[]
    {
      merges := Empty();
      specialTokens := Empty();
      vocab := map[];
      inverseSpecialTokens := map[];
    }

    /**
     * `train`: an `AssertionError` below 256, and otherwise the outcome of
     * the tokenizer's loop on the UTF-8 bytes of `text` (`TrainFitted` says
     * what that is). The fields change only on success.
     */
    method Train(text: string, vocabSize: int) returns (outcome: Result<()>)
      requires Wellformed()
      modifies this`merges, this`vocab
      ensures Wellformed()
      ensures vocabSize < FirstNewToken ==> outcome == Err(AssertionError)
      ensures outcome.Err? ==> merges == old(merges) && vocab == old(vocab)
      ensures vocabSize >= FirstNewToken ==>
        var s := TokenizerLoop(EncodeText(text), Empty(), ByteVocab(), FirstNewToken, vocabSize);
        (outcome.Err? <==> s.Err?) && (outcome.Err? ==> outcome.error == s.error) &&
        (outcome.Ok? ==> (merges, vocab) == s.value)
    {
      if vocabSize < FirstNewToken {
        return Err(AssertionError);
      }
      var tables := TrainTables(EncodeText(text), Empty(), ByteVocab(), FirstNewToken, vocabSize);
      if tables.Ok? {
        merges, vocab := tables.value.0, tables.value.1;
      }
      outcome := if tables.Ok? then Ok(()) else Err(tables.error);
    }

    /** `register_special_tokens`: the dictionary and its inverse. */
    method RegisterSpecialTokens(d: Dict<string, int>)
      requires Wellformed() && Valid(d)
      modifies this`specialTokens, this`inverseSpecialTokens
      ensures Wellformed()
      ensures specialTokens == d && inverseSpecialTokens == Inverse(d.keys, d.items)
    {
      specialTokens := d;
      inverseSpecialTokens := Inverse(d.keys, d.items);
    }

    /**
     * `decode` up to the joined bytes: without special tokens a `KeyError`
     * for an id outside the vocabulary, with them a `ValueError` for an id
     * that is neither in the vocabulary nor a special id.
     */
    function Decode(ids: seq<int>): (r: Result<seq<Byte>>)
      reads this
      ensures Known(vocab, ids) ==> r == Ok(Flat(vocab, ids))
      ensures r.Ok? <==> forall i :: 0 <= i < |ids| ==>
        ids[i] in vocab || (specialTokens.keys != [] && ids[i] in inverseSpecialTokens)
      ensures r.Err? ==> r.error == if specialTokens.keys == [] then KeyError else ValueError
      ensures r.Ok? && specialTokens.keys != [] ==> r.value == Pieces(vocab, inverseSpecialTokens, ids)
    {
      if specialTokens.keys == [] then JoinVocab(vocab, ids)
      else JoinWithSpecials(vocab, inverseSpecialTokens, ids)
    }

    /**
     * Decoding is a homomorphism: a concatenated id list decodes when both
     * parts do, to the concatenation of their bytes, so special and
     * ordinary ids can be decoded piece by piece.
     */
    lemma DecodeAppend(a: seq<int>, b: seq<int>)
      ensures Decode(a + b).Ok? <==> Decode(a).Ok? && Decode(b).Ok?
      ensures Decode(a + b).Ok? ==> Decode(a + b).value == Decode(a).value + Decode(b).value
    {
      assert forall i :: 0 <= i < |a + b| ==> (a + b)[i] == if i < |a| then a[i] else b[i - |a|];
      assert forall i :: 0 <= i < |a| ==> a[i] == (a + b)[i];
      assert forall i :: 0 <= i < |b| ==> b[i] == (a + b)[|a| + i];
      if Decode(a).Ok? && Decode(b).Ok? {
        if specialTokens.keys == [] {
          FlatAppend(vocab, a, b);
        } else {
          PiecesAppend(vocab, inverseSpecialTokens, a, b);
        }
      }
    }

    /** `encode_no_special`: the UTF-8 bytes of `text`, merged as `Encoded` says. */
    method EncodeNoSpecial(text: string) returns (tokens: seq<int>)
      requires Wellformed()
      ensures tokens == Encoded(merges, EncodeText(text))
    {
      tokens := EncodeText(text);
      while |tokens| >= 2
        invariant Encoded(merges, tokens) == Encoded(merges, EncodeText(text))
        decreases |tokens|
      {
        var freqs := GetPairFreqs(tokens);
        PairKeys(tokens);
        var pair := LowestRanked(freqs.keys, merges.items);
        if pair !in merges.items {
          break;
        }
        OccursIsPair(tokens, pair);
        MergedShorter(tokens, pair, merges.items[pair]);
        tokens := MergePair(tokens, pair, merges.items[pair]);
      }
    }

    /** Decoding what `encode_no_special` made of `text` gives back its UTF-8 bytes. */
    lemma EncodeDecode(text: string)
      requires Wellformed() && MergesAgree(merges, vocab)
      ensures Decode(Encoded(merges, EncodeText(text))) == Ok(EncodeText(text))
    {
      var bytes := EncodeText(text);
      FlatBytes(vocab, bytes);
      EncodedFlat(merges, vocab, bytes);
    }

    /**
     * `load` once the file is read: the special tokens, and the merge lines
     * in file order numbered from 256, then the vocabulary `_build_vocab`
     * makes. A `KeyError` there leaves the vocabulary as it was, with the
     * merges and special tokens already replaced; `inverse_special_tokens`
     * is not touched.
     */
    method Load(file: ModelFile) returns (outcome: Result<()>)
      modifies this`merges, this`specialTokens, this`vocab
      ensures Wellformed()
      ensures merges == AssignIds(file.mergeLines) && specialTokens == ReadSpecials(file.specials)
      ensures var built := BuildVocab(AssignIds(file.mergeLines), ReadSpecials(file.specials));
        (outcome.Err? <==> built.Err?) &&
        (outcome.Err? ==> outcome.error == KeyError && vocab == old(vocab)) &&
        (outcome.Ok? ==> vocab == built.value)
    {
      var specials, ms := ReadModel(file);
      var built := BuildVocab(ms, specials);
      merges, specialTokens, vocab := ms, specials, if built.Ok? then built.value else vocab;
      outcome := if built.Ok? then Ok(()) else Err(built.error);
    }
  }
}
