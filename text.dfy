/**
 * Formatted extraction from a `std::istringstream` in the "C" locale:
 * `>>` into a `std::string` skips white space and reads one word;
 * `>>` into an `int` skips white space, reads an optional sign and a
 * maximal run of decimal digits, and fails when there is no digit or
 * the value does not fit in 32 bits.
 */
module Text {
  import opened Wrappers

  const IntMax: int := 0x7FFF_FFFF
  const IntMin: int := -0x8000_0000

  /** `std::isspace` in the "C" locale. */
  predicate IsSpace(c: char) {
    c == ' ' || c == '\t' || c == '\n' || c == '\r' || c == '\U{0B}' || c == '\U{0C}'
  }

  predicate NoSpace(w: string) {
    forall i :: 0 <= i < |w| ==> !IsSpace(w[i])
  }

  predicate IsDigit(c: char) {
    '0' <= c <= '9'
  }

  /** Drops leading white space. */
  function SkipSpace(s: string): (r: string)
    ensures |r| <= |s| && r == s[|s| - |r|..]
    ensures r == [] || !IsSpace(r[0])
    ensures forall i :: 0 <= i < |s| - |r| ==> IsSpace(s[i])
  {
    if s != [] && IsSpace(s[0]) then SkipSpace(s[1..]) else s
  }

  /** Length of the longest prefix of `s` without white space. */
  function WordLength(s: string): (n: nat)
    ensures n <= |s| && NoSpace(s[..n])
    ensures n < |s| ==> IsSpace(s[n])
  {
    if s == [] || IsSpace(s[0]) then 0
    else
      var n := 1 + WordLength(s[1..]);
      assert s[..n] == [s[0]] + s[1..][..n - 1];
      n
  }

  /** Length of the longest prefix of `s` made of decimal digits. */
  function DigitRun(s: string): (n: nat)
    ensures n <= |s|
    ensures forall i :: 0 <= i < n ==> IsDigit(s[i])
    ensures n < |s| ==> !IsDigit(s[n])
  {
    if s == [] || !IsDigit(s[0]) then 0 else 1 + DigitRun(s[1..])
  }

  /** `stream >> word`: the next word and what is left of the stream. */
  function ReadWord(s: string): (r: Option<(string, string)>)
    ensures r.Some? ==> r.value.0 != [] && NoSpace(r.value.0)
    ensures r.None? <==> SkipSpace(s) == []
  {
    var t := SkipSpace(s);
    if t == [] then None
    else
      var n := WordLength(t);
      Some((t[..n], t[n..]))
  }

  /** The whitespace-separated words of `s`, in order. */
  function Words(s: string): seq<string>
    decreases |s|
  {
    match ReadWord(s)
    case None => []
    case Some((w, rest)) => [w] + Words(rest)
  }

  /** Every word is non-empty and free of white space. */
  lemma {:induction false} WordsAreWords(s: string)
    ensures forall i :: 0 <= i < |Words(s)| ==> Words(s)[i] != [] && NoSpace(Words(s)[i])
    decreases |s|
  {
    match ReadWord(s)
    case None =>
    case Some((w, rest)) => WordsAreWords(rest);
  }

  function DigitValue(c: char): nat
    requires IsDigit(c)
  {
    (c as int) - ('0' as int)
  }

  /** The value of a run of decimal digits, most significant first. */
  function DigitsValue(ds: string): nat
    requires forall i :: 0 <= i < |ds| ==> IsDigit(ds[i])
  {
    if ds == [] then 0 else DigitsValue(ds[..|ds| - 1]) * 10 + DigitValue(ds[|ds| - 1])
  }

  /** `stream >> n` for an `int n`: the value read and what is left of the stream. */
  function ReadInt(s: string): (r: Option<(int, string)>)
    ensures r.Some? ==> IntMin <= r.value.0 <= IntMax && |r.value.1| < |s|
  {
    ReadSignedDigits(SkipSpace(s))
  }

  /** The number at the very start of `t`, once white space is skipped. */
  function ReadSignedDigits(t: string): (r: Option<(int, string)>)
    ensures r.Some? ==> IntMin <= r.value.0 <= IntMax && |r.value.1| < |t|
  {
    var signed := t != [] && (t[0] == '-' || t[0] == '+');
    var u := if signed then t[1..] else t;
    var n := DigitRun(u);
    if n == 0 then None
    else
      var magnitude := DigitsValue(u[..n]);
      var v: int := if signed && t[0] == '-' then -(magnitude as int) else magnitude;
      if v < IntMin || IntMax < v then None else Some((v, u[n..]))
  }

  function DigitChar(d: nat): (c: char)
    requires d < 10
    ensures IsDigit(c) && DigitValue(c) == d
  {
    ('0' as int + d) as char
  }

  /** The decimal representation of `n`, without leading zeros. */
  function ShowNat(n: nat): (s: string)
    ensures s != [] && forall i :: 0 <= i < |s| ==> IsDigit(s[i])
  {
    if n < 10 then [DigitChar(n)] else ShowNat(n / 10) + [DigitChar(n % 10)]
  }

  lemma {:induction false} ShowNatValue(n: nat)
    ensures DigitsValue(ShowNat(n)) == n
  {
    if n >= 10 {
      var s := ShowNat(n);
      assert s[..|s| - 1] == ShowNat(n / 10);
      ShowNatValue(n / 10);
    }
  }

  /** Reading back a word written before a blank gives the word and the rest. */
  lemma ReadWordOfWord(w: string, rest: string)
    requires w != [] && NoSpace(w)
    ensures ReadWord(w + " " + rest) == Some((w, " " + rest))
  {
    var s := w + " " + rest;
    assert SkipSpace(s) == s;
    WordLengthOfWord(w, " " + rest);
    assert s[..|w|] == w;
    assert s[|w|..] == " " + rest;
  }

  /** The words of a word, a blank and a rest are the word and the words of the rest. */
  lemma WordsOfWord(w: string, rest: string)
    requires w != [] && NoSpace(w)
    ensures Words(w + " " + rest) == [w] + Words(rest)
  {
    ReadWordOfWord(w, rest);
    assert SkipSpace(" " + rest) == SkipSpace(rest);
    assert ReadWord(" " + rest) == ReadWord(rest);
  }

  /** The first three words of three blank-separated words and a rest. */
  lemma ThreeWords(a: string, b: string, c: string, tail: string)
    requires a != [] && b != [] && c != []
    requires NoSpace(a) && NoSpace(b) && NoSpace(c)
    ensures var ws := Words(a + " " + b + " " + c + " " + tail);
      |ws| >= 3 && ws[0] == a && ws[1] == b && ws[2] == c
  {
    var r2 := c + " " + tail;
    var r1 := b + " " + r2;
    assert a + " " + b + " " + c + " " + tail == a + " " + r1;
    assert Words(r2)[0] == c by { WordsOfWord(c, tail); }
    assert Words(r1) == [b] + Words(r2) by { WordsOfWord(b, r2); }
    assert Words(a + " " + r1) == [a] + Words(r1) by { WordsOfWord(a, r1); }
  }

  lemma {:induction false} WordLengthOfWord(w: string, rest: string)
    requires NoSpace(w)
    requires rest == [] || IsSpace(rest[0])
    ensures WordLength(w + rest) == |w|
  {
    if w != [] {
      assert (w + rest)[1..] == w[1..] + rest;
      WordLengthOfWord(w[1..], rest);
    } else {
      assert w + rest == rest;
    }
  }

  lemma {:induction false} DigitRunOfDigits(ds: string, rest: string)
    requires forall i :: 0 <= i < |ds| ==> IsDigit(ds[i])
    requires rest == [] || !IsDigit(rest[0])
    ensures DigitRun(ds + rest) == |ds|
  {
    if ds != [] {
      assert (ds + rest)[1..] == ds[1..] + rest;
      DigitRunOfDigits(ds[1..], rest);
    } else {
      assert ds + rest == rest;
    }
  }

  /** Reading back a number written in decimal gives the number and the rest. */
  lemma ReadIntOfShowNat(n: nat, rest: string)
    requires n <= IntMax
    requires rest == [] || !IsDigit(rest[0])
    ensures ReadInt(ShowNat(n) + rest) == Some((n, rest))
  {
    var ds := ShowNat(n);
    var s := ds + rest;
    assert s[0] == ds[0] && IsDigit(s[0]);
    assert SkipSpace(s) == s;
    ShowNatValue(n);
    ReadDigits(ds, rest);
  }

  /** An unsigned run of digits that fits reads as its value. */
  lemma ReadDigits(ds: string, rest: string)
    requires ds != [] && forall i :: 0 <= i < |ds| ==> IsDigit(ds[i])
    requires DigitsValue(ds) <= IntMax
    requires rest == [] || !IsDigit(rest[0])
    ensures ReadSignedDigits(ds + rest) == Some((DigitsValue(ds) as int, rest))
  {
    var s := ds + rest;
    assert s[0] == ds[0];
    DigitRunOfDigits(ds, rest);
    assert s[..|ds|] == ds;
    assert s[|ds|..] == rest;
  }
}
