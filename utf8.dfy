/**
 * UTF-8 as section 3 of RFC 3629 lays it out, and the hand-written decoder
 * `decode` of the tokenizer utilities. The decoder uses that byte layout
 * but is more lenient than the RFC: it decodes overlong forms and
 * surrogates, and accepts lead bytes F5-F7. It reads a list of
 * integers, emits one code point per well-formed sequence, drops a
 * sequence whose continuation bytes are out of range, drops a stray byte,
 * raises `IndexError` on a sequence cut off by the end of the list and
 * `ValueError` (from `chr`) on a four-byte value above U+10FFFF.
 *
 * The source combines the bit fields with `<<` and `|`; since every field
 * is below the power of two it is shifted past, each `|` is a `+` here.
 */
module Utf8 {
  import opened Wrappers

  type Byte = b: int | 0 <= b < 256

  const MaxCodePoint: int := 0x10FFFF

  predicate IsContinuation(b: int) {
    128 <= b <= 191
  }

  /** The encoding of one Unicode scalar value: one to four bytes by range. */
  function EncodeChar(c: char): (bs: seq<Byte>)
    ensures 1 <= |bs| <= 4
    ensures |bs| == 1 <==> c as int < 0x80
    ensures |bs| == 2 <==> 0x80 <= c as int < 0x800
    ensures |bs| == 3 <==> 0x800 <= c as int < 0x10000
    ensures |bs| == 1 ==> bs[0] == c as int
    ensures |bs| == 2 ==> 192 <= bs[0] <= 223
    ensures |bs| == 3 ==> 224 <= bs[0] <= 239
    ensures |bs| == 4 ==> 240 <= bs[0] <= 244
    ensures forall i :: 1 <= i < |bs| ==> IsContinuation(bs[i])
  {
    var n := c as int;
    var q1, r1 := n / 64, n % 64;
    var q2, r2 := q1 / 64, q1 % 64;
    var q3, r3 := q2 / 64, q2 % 64;
    if n < 0x80 then [n]
    else if n < 0x800 then [0xC0 + q1, 0x80 + r1]
    else if n < 0x10000 then [0xE0 + q2, 0x80 + r2, 0x80 + r1]
    else [0xF0 + q3, 0x80 + r3, 0x80 + r2, 0x80 + r1]
  }

  /** `text.encode("utf-8")`. */
  function EncodeText(s: string): (bs: seq<Byte>)
    ensures |bs| >= |s|
  {
    if s == [] then [] else EncodeChar(s[0]) + EncodeText(s[1..])
  }

  /** The code points of a string, as `chr` would give them back. */
  function CodePoints(s: string): (cps: seq<int>)
    ensures |cps| == |s| && forall i :: 0 <= i < |s| ==> cps[i] == s[i] as int
  {
    if s == [] then [] else [s[0] as int] + CodePoints(s[1..])
  }

  /** The code point of a two-, three- or four-byte sequence: the lead byte's payload bits, then six bits per continuation byte. */
  function TwoByteValue(b1: int, b2: int): int {
    (b1 - 192) * 64 + (b2 - 128)
  }

  function ThreeByteValue(b1: int, b2: int, b3: int): int {
    (b1 - 224) * 4096 + (b2 - 128) * 64 + (b3 - 128)
  }

  function FourByteValue(b1: int, b2: int, b3: int, b4: int): int {
    (b1 - 240) * 262144 + (b2 - 128) * 4096 + (b3 - 128) * 64 + (b4 - 128)
  }

  /** `x` in front of a successful result; an error stays the error. */
  function Prepend(x: seq<int>, r: Result<seq<int>>): Result<seq<int>> {
    match r
    case Ok(s) => Ok(x + s)
    case Err(e) => Err(e)
  }

  lemma PrependTwice(x: seq<int>, y: seq<int>, r: Result<seq<int>>)
    ensures Prepend(x, Prepend(y, r)) == Prepend(x + y, r)
  {
    if r.Ok? {
      assert x + (y + r.value) == (x + y) + r.value;
    }
  }

  /** The decoder's result on `ids`, read from the front. */
  function Decoded(ids: seq<int>): (r: Result<seq<int>>)
    ensures r.Ok? ==> |r.value| <= |ids|
    ensures r.Ok? ==> forall i :: 0 <= i < |r.value| ==> 0 <= r.value[i] <= MaxCodePoint
    ensures r.Err? ==> r.error == IndexError || r.error == ValueError
    decreases |ids|
  {
    if ids == [] then Ok([])
    else
      var b1 := ids[0];
      if 0 <= b1 <= 127 then Prepend([b1], Decoded(ids[1..]))
      else if 192 <= b1 <= 223 then
        if |ids| < 2 then Err(IndexError)
        else if !IsContinuation(ids[1]) then Decoded(ids[2..])
        else Prepend([TwoByteValue(b1, ids[1])], Decoded(ids[2..]))
      else if 224 <= b1 <= 239 then
        if |ids| < 3 then Err(IndexError)
        else if !(IsContinuation(ids[1]) && IsContinuation(ids[2])) then Decoded(ids[3..])
        else Prepend([ThreeByteValue(b1, ids[1], ids[2])], Decoded(ids[3..]))
      else if 240 <= b1 <= 247 then
        if |ids| < 4 then Err(IndexError)
        else if !(IsContinuation(ids[1]) && IsContinuation(ids[2]) && IsContinuation(ids[3])) then Decoded(ids[4..])
        else
          var cp := FourByteValue(b1, ids[1], ids[2], ids[3]);
          if cp > MaxCodePoint then Err(ValueError) else Prepend([cp], Decoded(ids[4..]))
      else Decoded(ids[1..])
  }

  /** After `text` has been decoded from the first `i` entries, the rest decodes to what is missing. */
  ghost predicate DecodedSoFar(ids: seq<int>, i: nat, text: seq<int>)
    requires i <= |ids|
  {
    Decoded(ids) == Prepend(text, Decoded(ids[i..]))
  }

  /** The decoder's loop: `i` walks the list, `text` collects the code points decoded so far. */
  method Decode(ids: seq<int>) returns (r: Result<seq<int>>)
    ensures r == Decoded(ids)
  {
    var i := 0;
    var text: seq<int> := [];
    assert ids[0..] == ids;
    assert Decoded(ids).Ok? ==> [] + Decoded(ids).value == Decoded(ids).value;
    while i < |ids|
      invariant 0 <= i <= |ids|
      invariant DecodedSoFar(ids, i, text)
      decreases |ids| - i
    {
      var b1 := ids[i];
      if 0 <= b1 <= 127 {
        StepAscii(ids, i, text);
        text := text + [b1];
        i := i + 1;
      } else if 192 <= b1 <= 223 {
        if i + 1 >= |ids| {
          TruncatedAt(ids, i, text);
          return Err(IndexError);
        }
        var b2 := ids[i + 1];
        StepTwo(ids, i, text);
        if !IsContinuation(b2) {
          i := i + 2;
        } else {
          var cp := TwoByteValue(b1, b2);
          text := text + [cp];
          i := i + 2;
        }
      } else if 224 <= b1 <= 239 {
        if i + 2 >= |ids| {
          TruncatedAt(ids, i, text);
          return Err(IndexError);
        }
        var b2, b3 := ids[i + 1], ids[i + 2];
        StepThree(ids, i, text);
        if !(IsContinuation(b2) && IsContinuation(b3)) {
          i := i + 3;
        } else {
          var cp := ThreeByteValue(b1, b2, b3);
          text := text + [cp];
          i := i + 3;
        }
      } else if 240 <= b1 <= 247 {
        if i + 3 >= |ids| {
          TruncatedAt(ids, i, text);
          return Err(IndexError);
        }
        var b2, b3, b4 := ids[i + 1], ids[i + 2], ids[i + 3];
        StepFour(ids, i, text);
        if !(IsContinuation(b2) && IsContinuation(b3) && IsContinuation(b4)) {
          i := i + 4;
        } else {
          var cp := FourByteValue(b1, b2, b3, b4);
          if cp > MaxCodePoint {
            return Err(ValueError);
          }
          text := text + [cp];
          i := i + 4;
        }
      } else {
        StepStray(ids, i, text);
        i := i + 1;
      }
    }
    assert ids[i..] == [];
    assert text + [] == text;
    r := Ok(text);
  }

  /** One step of the decoder from position `i`, for each kind of first byte. */
  lemma StepAscii(ids: seq<int>, i: nat, text: seq<int>)
    requires i < |ids| && 0 <= ids[i] <= 127 && DecodedSoFar(ids, i, text)
    ensures DecodedSoFar(ids, i + 1, text + [ids[i]])
  {
    assert ids[i..][1..] == ids[i + 1..];
    PrependTwice(text, [ids[i]], Decoded(ids[i + 1..]));
  }

  lemma StepStray(ids: seq<int>, i: nat, text: seq<int>)
    requires i < |ids| && !(0 <= ids[i] <= 127) && !(192 <= ids[i] <= 247) && DecodedSoFar(ids, i, text)
    ensures DecodedSoFar(ids, i + 1, text)
  {
    assert ids[i..][1..] == ids[i + 1..];
  }

  /** A lead byte whose sequence runs past the end: `IndexError`. */
  lemma TruncatedAt(ids: seq<int>, i: nat, text: seq<int>)
    requires i < |ids| && DecodedSoFar(ids, i, text)
    requires (192 <= ids[i] <= 223 && i + 1 >= |ids|) || (224 <= ids[i] <= 239 && i + 2 >= |ids|) ||
             (240 <= ids[i] <= 247 && i + 3 >= |ids|)
    ensures Decoded(ids) == Err(IndexError)
  {
  }

  lemma StepTwo(ids: seq<int>, i: nat, text: seq<int>)
    requires i + 1 < |ids| && 192 <= ids[i] <= 223 && DecodedSoFar(ids, i, text)
    ensures !IsContinuation(ids[i + 1]) ==> DecodedSoFar(ids, i + 2, text)
    ensures IsContinuation(ids[i + 1]) ==>
      DecodedSoFar(ids, i + 2, text + [TwoByteValue(ids[i], ids[i + 1])])
  {
    assert ids[i..][2..] == ids[i + 2..];
    PrependTwice(text, [TwoByteValue(ids[i], ids[i + 1])], Decoded(ids[i + 2..]));
  }

  lemma StepThree(ids: seq<int>, i: nat, text: seq<int>)
    requires i + 2 < |ids| && 224 <= ids[i] <= 239 && DecodedSoFar(ids, i, text)
    ensures !(IsContinuation(ids[i + 1]) && IsContinuation(ids[i + 2])) ==> DecodedSoFar(ids, i + 3, text)
    ensures IsContinuation(ids[i + 1]) && IsContinuation(ids[i + 2]) ==>
      DecodedSoFar(ids, i + 3, text + [ThreeByteValue(ids[i], ids[i + 1], ids[i + 2])])
  {
    assert ids[i..][3..] == ids[i + 3..];
    PrependTwice(text, [ThreeByteValue(ids[i], ids[i + 1], ids[i + 2])], Decoded(ids[i + 3..]));
  }

  lemma StepFour(ids: seq<int>, i: nat, text: seq<int>)
    requires i + 3 < |ids| && 240 <= ids[i] <= 247 && DecodedSoFar(ids, i, text)
    ensures !(IsContinuation(ids[i + 1]) && IsContinuation(ids[i + 2]) && IsContinuation(ids[i + 3])) ==>
      DecodedSoFar(ids, i + 4, text)
    ensures IsContinuation(ids[i + 1]) && IsContinuation(ids[i + 2]) && IsContinuation(ids[i + 3]) ==>
      var cp := FourByteValue(ids[i], ids[i + 1], ids[i + 2], ids[i + 3]);
      (cp > MaxCodePoint ==> Decoded(ids) == Err(ValueError)) &&
      (cp <= MaxCodePoint ==> DecodedSoFar(ids, i + 4, text + [cp]))
  {
    var t := ids[i..];
    assert t[4..] == ids[i + 4..];
    assert t[0] == ids[i] && t[1] == ids[i + 1] && t[2] == ids[i + 2] && t[3] == ids[i + 3];
    var cp := FourByteValue(t[0], t[1], t[2], t[3]);
    if IsContinuation(t[1]) && IsContinuation(t[2]) && IsContinuation(t[3]) {
      if cp <= MaxCodePoint {
        assert Decoded(t) == Prepend([cp], Decoded(t[4..]));
        PrependTwice(text, [cp], Decoded(t[4..]));
      } else {
        assert Decoded(t) == Err(ValueError);
      }
    } else {
      assert Decoded(t) == Decoded(t[4..]);
    }
  }

  /** Bytes 0 to 127 decode one for one. */
  lemma {:induction false} AsciiIdentity(ids: seq<int>)
    requires forall i :: 0 <= i < |ids| ==> 0 <= ids[i] <= 127
    ensures Decoded(ids) == Ok(ids)
  {
    if ids != [] {
      AsciiIdentity(ids[1..]);
      assert [ids[0]] + ids[1..] == ids;
    }
  }

  /** The encoding of one character decodes to its code point, whatever follows. */
  lemma DecodeChar(c: char, rest: seq<int>)
    ensures Decoded(EncodeChar(c) + rest) == Prepend([c as int], Decoded(rest))
  {
    var bs := EncodeChar(c);
    var s := bs + rest;
    assert s[|bs|..] == rest;
    var n := c as int;
    var q1, r1 := n / 64, n % 64;
    var q2, r2 := q1 / 64, q1 % 64;
    var q3, r3 := q2 / 64, q2 % 64;
    assert n == q1 * 64 + r1 && q1 == q2 * 64 + r2 && q2 == q3 * 64 + r3;
    if n < 0x80 {
    } else if n < 0x800 {
      assert s[0] == 0xC0 + q1 && s[1] == 0x80 + r1;
    } else if n < 0x10000 {
      assert s[0] == 0xE0 + q2 && s[1] == 0x80 + r2 && s[2] == 0x80 + r1;
    } else {
      assert s[0] == 0xF0 + q3 && s[1] == 0x80 + r3 && s[2] == 0x80 + r2 && s[3] == 0x80 + r1;
    }
  }

  /** `decode(list(s.encode("utf-8")))` gives back the code points of `s`. */
  lemma {:induction false} RoundTrip(s: string)
    ensures Decoded(EncodeText(s)) == Ok(CodePoints(s))
  {
    if s != [] {
      RoundTrip(s[1..]);
      DecodeChar(s[0], EncodeText(s[1..]));
    }
  }

  /** A two-byte lead followed by a non-continuation byte drops both. */
  lemma InvalidContinuationSkipped()
    ensures Decoded([0xC3, 0x41, 0x42]) == Ok([0x42])
  {
    assert [0xC3, 0x41, 0x42][2..] == [0x42];
    assert [0x42][1..] == [];
    assert Decoded([0x42]) == Prepend([0x42], Decoded([]));
    assert Decoded([0xC3, 0x41, 0x42]) == Decoded([0x42]);
    assert [0x42] + [] == [0x42];
  }

  /** The overlong two-byte form of U+0000, which RFC 3629 forbids, is decoded. */
  lemma OverlongDecoded()
    ensures Decoded([0xC0, 0x80]) == Ok([0])
  {
    assert [0xC0, 0x80][2..] == [];
    assert [0] + [] == [0];
  }

  /** The three-byte form of the surrogate U+D800, which RFC 3629 forbids, is decoded. */
  lemma SurrogateDecoded()
    ensures Decoded([0xED, 0xA0, 0x80]) == Ok([0xD800])
  {
    assert [0xED, 0xA0, 0x80][3..] == [];
    assert [0xD800] + [] == [0xD800];
  }

  /** A three-byte sequence cut short at the end of the list raises `IndexError`. */
  lemma TruncatedTail()
    ensures Decoded([0x41, 0xE2, 0x82]) == Err(IndexError)
  {
    assert [0x41, 0xE2, 0x82][1..] == [0xE2, 0x82];
  }

  /** A four-byte sequence above U+10FFFF makes `chr` raise `ValueError`. */
  lemma BeyondUnicode()
    ensures Decoded([0xF7, 0xBF, 0xBF, 0xBF]) == Err(ValueError)
  {
  }
}
