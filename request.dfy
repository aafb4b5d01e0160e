/**
 * The request line of `serveRandomWalks`: `GET_RANDOM_WALKS [numWalks
 * [walkLength]]`, each number falling back to the server's default when it
 * is missing or does not parse. Also how the request reaches the parser:
 * `read` copies the message over the front of one 1024-byte buffer that the
 * server reuses for every connection. Sockets are left out; a message is
 * the byte string one `read` returns.
 */
module Request {
  import opened Wrappers
  import opened Text

  const Command: string := "GET_RANDOM_WALKS"
  const BufferSize: nat := 1024

  /** The request line the client sends. */
  function ClientRequest(numWalks: nat, walkLength: nat): (s: string)
    ensures |s| > |Command| + 3 && s[..|Command|] == Command
  {
    Command + " " + ShowNat(numWalks) + " " + ShowNat(walkLength)
  }

  /**
   * The parse: `(numWalks, walkLength)`. A request whose first word is not
   * the command leaves both defaults; a failed first number leaves both
   * defaults; a failed second number leaves the default length.
   */
  function ParseRequest(request: string, defaultNumWalks: int, defaultWalkLength: int): (r: (int, int))
    ensures Words(request) == [] || Words(request)[0] != Command ==>
      r == (defaultNumWalks, defaultWalkLength)
    ensures r.0 == defaultNumWalks || IntMin <= r.0 <= IntMax
    ensures r.1 == defaultWalkLength || IntMin <= r.1 <= IntMax
  {
    var word := ReadWord(request);
    if word.None? || word.value.0 != Command then (defaultNumWalks, defaultWalkLength)
    else
      match ReadInt(word.value.1)
      case None => (defaultNumWalks, defaultWalkLength)
      case Some((n, rest)) =>
        match ReadInt(rest)
        case None => (n, defaultWalkLength)
        case Some((l, _)) => (n, l)
  }

  lemma CommandIsWord()
    ensures Command != [] && NoSpace(Command)
  {
    assert forall i :: 0 <= i < |Command| ==> 'A' <= Command[i] <= 'Z' || Command[i] == '_';
  }

  lemma ReadIntAfterBlank(x: string)
    ensures ReadInt(" " + x) == ReadInt(x)
  {
    assert (" " + x)[1..] == x;
  }

  /** The request the client sends parses back to its two numbers, whatever follows it. */
  lemma ParseClientRequest(numWalks: nat, walkLength: nat, tail: string, defaultNumWalks: int, defaultWalkLength: int)
    requires numWalks <= IntMax && walkLength <= IntMax
    requires tail == [] || !IsDigit(tail[0])
    ensures ParseRequest(ClientRequest(numWalks, walkLength) + tail, defaultNumWalks, defaultWalkLength)
      == (numWalks, walkLength)
  {
    var second := " " + ShowNat(walkLength) + tail;
    var args := ShowNat(numWalks) + second;
    assert ClientRequest(numWalks, walkLength) + tail == Command + " " + args;
    CommandIsWord();
    ReadWordOfWord(Command, args);
    assert " " + args == " " + ShowNat(numWalks) + second;
    ReadBlankNumber(numWalks, second);
    ReadBlankNumber(walkLength, tail);
    ParseOfParts(Command + " " + args, " " + args, numWalks, second, walkLength, tail, defaultNumWalks, defaultWalkLength);
  }

  lemma ParseOfParts(s: string, args: string, n: int, rest: string, l: int, tail: string,
                     defaultNumWalks: int, defaultWalkLength: int)
    requires ReadWord(s) == Some((Command, args))
    requires ReadInt(args) == Some((n, rest)) && ReadInt(rest) == Some((l, tail))
    ensures ParseRequest(s, defaultNumWalks, defaultWalkLength) == (n, l)
  {
  }

  /** A blank and a decimal number read back as the number. */
  lemma ReadBlankNumber(n: nat, rest: string)
    requires n <= IntMax
    requires rest == [] || !IsDigit(rest[0])
    ensures ReadInt(" " + ShowNat(n) + rest) == Some((n as int, rest))
  {
    assert " " + ShowNat(n) + rest == " " + (ShowNat(n) + rest);
    ReadIntAfterBlank(ShowNat(n) + rest);
    ReadIntOfShowNat(n, rest);
  }

  /** With only the first number, the length falls back to the default. */
  lemma ParseNumWalksOnly(numWalks: nat, defaultNumWalks: int, defaultWalkLength: int)
    requires numWalks <= IntMax
    ensures ParseRequest(Command + " " + ShowNat(numWalks), defaultNumWalks, defaultWalkLength)
      == (numWalks, defaultWalkLength)
  {
    CommandIsWord();
    ReadWordOfWord(Command, ShowNat(numWalks));
    assert ShowNat(numWalks) + [] == ShowNat(numWalks);
    assert " " + ShowNat(numWalks) + [] == " " + ShowNat(numWalks);
    ReadBlankNumber(numWalks, []);
    ParseOfOnePart(Command + " " + ShowNat(numWalks), " " + ShowNat(numWalks), numWalks, [],
                   defaultNumWalks, defaultWalkLength);
  }

  lemma ParseOfOnePart(s: string, args: string, n: int, rest: string, defaultNumWalks: int, defaultWalkLength: int)
    requires ReadWord(s) == Some((Command, args))
    requires ReadInt(args) == Some((n, rest)) && ReadInt(rest) == None
    ensures ParseRequest(s, defaultNumWalks, defaultWalkLength) == (n, defaultWalkLength)
  {
  }

  /** The bare command keeps both defaults. */
  lemma ParseCommandOnly(defaultNumWalks: int, defaultWalkLength: int)
    ensures ParseRequest(Command, defaultNumWalks, defaultWalkLength) == (defaultNumWalks, defaultWalkLength)
  {
    CommandIsWord();
    WordLengthOfWord(Command, []);
    assert Command + [] == Command;
    assert Command[..|Command|] == Command;
  }

  /** A first argument that is not a number keeps both defaults, even when a second one follows. */
  lemma ParseNonNumeric(rest: string, defaultNumWalks: int, defaultWalkLength: int)
    requires rest != [] && !IsSpace(rest[0]) && !IsDigit(rest[0]) && rest[0] != '-' && rest[0] != '+'
    ensures ParseRequest(Command + " " + rest, defaultNumWalks, defaultWalkLength)
      == (defaultNumWalks, defaultWalkLength)
  {
    CommandIsWord();
    ReadWordOfWord(Command, rest);
    ReadIntAfterBlank(rest);
    assert ReadInt(rest) == None by {
      assert SkipSpace(rest) == rest;
      assert DigitRun(rest) == 0;
    }
  }

  /** `std::string(buffer)`: the characters before the first NUL. */
  function CString(b: seq<char>): (s: seq<char>)
    ensures |s| <= |b| && s == b[..|s|]
    ensures forall i :: 0 <= i < |s| ==> s[i] != '\0'
    ensures |s| < |b| ==> b[|s|] == '\0'
  {
    if b == [] || b[0] == '\0' then [] else [b[0]] + CString(b[1..])
  }

  /** A buffer whose first NUL is at `k` reads as its first `k` characters. */
  lemma CStringUpTo(b: seq<char>, k: nat)
    requires k < |b| && b[k] == '\0'
    requires forall i :: 0 <= i < k ==> b[i] != '\0'
    ensures CString(b) == b[..k]
  {
  }

  /** The buffer after `read` copied `message` into it: the message, then what was there before. */
  function Overwrite(previous: seq<char>, message: string): (b: seq<char>)
    requires |message| <= |previous|
    ensures |b| == |previous|
    ensures forall i :: 0 <= i < |message| ==> b[i] == message[i]
    ensures forall i :: |message| <= i < |b| ==> b[i] == previous[i]
  {
    message + previous[|message|..]
  }

  /** `read(new_socket, buffer, 1024)`: the message overwrites the front of the buffer only. */
  method ReadInto(buffer: array<char>, message: string)
    requires 0 < |message| <= buffer.Length == BufferSize
    modifies buffer
    ensures buffer[..] == Overwrite(old(buffer[..]), message)
  {
    var i := 0;
    while i < |message|
      invariant 0 <= i <= |message|
      invariant forall k :: 0 <= k < i ==> buffer[k] == message[k]
      invariant forall k :: i <= k < buffer.Length ==> buffer[k] == old(buffer[k])
    {
      buffer[i] := message[i];
      i := i + 1;
    }
  }

  /** The request as the server builds it: the whole buffer read up to its first NUL. */
  method ReceiveRequestAsWritten(buffer: array<char>, message: string) returns (request: string)
    requires 0 < |message| <= buffer.Length == BufferSize
    modifies buffer
    ensures buffer[..] == Overwrite(old(buffer[..]), message)
    ensures request == CString(buffer[..])
  {
    ReadInto(buffer, message);
    request := CString(buffer[..]);
  }

  /** The request built from the `valread` bytes just read: exactly the message. */
  method ReceiveRequest(buffer: array<char>, message: string) returns (request: string)
    requires 0 < |message| <= buffer.Length == BufferSize
    modifies buffer
    ensures buffer[..] == Overwrite(old(buffer[..]), message)
    ensures request == message
  {
    ReadInto(buffer, message);
    request := buffer[..|message|];
  }

  /**
   * A shorter request after a longer one: the first request's trailing
   * characters are still in the buffer and extend the second one's number,
   * so `GET_RANDOM_WALKS 5` after `GET_RANDOM_WALKS 100 20` asks for 500
   * walks of length 20 instead of 5 walks of the default length.
   */
  lemma StaleBufferRequest(defaultNumWalks: int, defaultWalkLength: int)
    ensures var empty := seq(BufferSize, _ => '\0');
      var first := ClientRequest(100, 20);
      var second := Command + " " + ShowNat(5);
      var stale := CString(Overwrite(Overwrite(empty, first), second));
      ParseRequest(stale, defaultNumWalks, defaultWalkLength) == (500, 20) &&
      ParseRequest(second, defaultNumWalks, defaultWalkLength) == (5, defaultWalkLength)
  {
    var empty := seq(BufferSize, _ => '\0');
    assert ShowNat(5) == "5";
    assert ShowNat(20) == "20";
    assert ShowNat(100) == "100" by { assert ShowNat(10) == "10"; }
    assert ShowNat(500) == "500" by { assert ShowNat(50) == "50"; }
    var first := ClientRequest(100, 20);
    var second := Command + " " + ShowNat(5);
    assert first == Command + " 100 20";
    assert second == Command + " 5";
    var b := Overwrite(Overwrite(empty, first), second);
    var seen := ClientRequest(500, 20);
    assert seen == Command + " 500 20";
    assert |seen| == |first| == 23;
    assert forall i :: 0 <= i < 23 ==> b[i] == seen[i];
    assert b[..23] == seen;
    CStringUpTo(b, 23);
    assert seen + [] == seen;
    ParseClientRequest(500, 20, [], defaultNumWalks, defaultWalkLength);
    ParseNumWalksOnly(5, defaultNumWalks, defaultWalkLength);
  }

  /**
   * The parse loop of the server over the messages of successive
   * connections, one buffer shared by all of them: each request's
   * parameters depend on its own message alone.
   */
  method ServeRequests(messages: seq<string>, defaultNumWalks: int, defaultWalkLength: int)
    returns (params: seq<(int, int)>)
    requires forall k :: 0 <= k < |messages| ==> 0 < |messages[k]| <= BufferSize
    ensures |params| == |messages|
    ensures forall k :: 0 <= k < |messages| ==>
      params[k] == ParseRequest(messages[k], defaultNumWalks, defaultWalkLength)
  {
    var buffer := new char[BufferSize](_ => '\0');
    params := [];
    var k := 0;
    while k < |messages|
      invariant 0 <= k <= |messages| && |params| == k && buffer.Length == BufferSize
      invariant forall j :: 0 <= j < k ==> params[j] == ParseRequest(messages[j], defaultNumWalks, defaultWalkLength)
    {
      var request := ReceiveRequest(buffer, messages[k]);
      params := params + [ParseRequest(request, defaultNumWalks, defaultWalkLength)];
      k := k + 1;
    }
  }
}
