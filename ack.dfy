/**
 The acknowledgement the remote scp sends after each step: one byte, 0 for
 success, 1 for an error and 2 for a fatal error, the last two followed by
 a message line ending in '\n'. Reading past the end of the remote's output
 yields -1, as Java's InputStream.read does.
 */
module Ack {
  import opened Bytes

  const OK: int := 0
  const END_OF_STREAM: int := -1

  /**
   The outcome of decoding one acknowledgement: the code read, the message
   collected and the number of bytes consumed; or Stalled, when a message
   is begun that no '\n' ever ends, on which the source reads forever.
   */
  datatype Reply = Reply(code: int, message: seq<byte>, used: nat) | Stalled

  /** Codes 1 (error) and 2 (fatal error) are followed by a message line. */
  predicate StartsMessage(code: int) {
    code == 1 || code == 2
  }

  /** Decoding the remote's output s comes to an end. */
  predicate Terminates(s: seq<byte>) {
    s == [] || !StartsMessage(s[0] as int) || NEWLINE in s[1..]
  }

  /** What Java's InputStream.read returns when the stream is at position pos of s. */
  function ReadAt(s: seq<byte>, pos: nat): (r: int)
    ensures -1 <= r < 256
    ensures r == -1 <==> pos >= |s|
    ensures pos < |s| ==> r == s[pos] as int
  {
    if pos < |s| then s[pos] as int else END_OF_STREAM
  }

  /**
   Decodes one acknowledgement at the start of s. The code is the first byte
   read, unchanged (-1 at end of stream); any code but 1 and 2 consumes that
   byte alone (nothing at end of stream); codes 1 and 2 consume the bytes up
   to and including the first '\n', which are exactly the message.
   */
  function DecodeAck(s: seq<byte>): (r: Reply)
    ensures r.Stalled? <==> !Terminates(s)
    ensures r.Reply? ==> r.code == ReadAt(s, 0)
    ensures r.Reply? && !StartsMessage(r.code) ==> r.message == [] && r.used == (if s == [] then 0 else 1)
    ensures r.Reply? && StartsMessage(r.code) ==>
              && r.used == |r.message| + 1 <= |s|
              && r.message == s[1..r.used]
              && IsMessageLine(r.message)
  {
    if s == [] then Reply(END_OF_STREAM, [], 0)
    else if StartsMessage(s[0] as int) then
      var k := IndexOf(s[1..], NEWLINE);
      if k < 0 then Stalled
      else
        assert s[1..k + 2][..k] == s[1..][..k];
        Reply(s[0] as int, s[1..k + 2], k + 2)
    else Reply(s[0] as int, [], 1)
  }

  /** A well-formed message line: it ends in '\n' and holds no earlier '\n'. */
  predicate IsMessageLine(message: seq<byte>) {
    message != [] && message[|message| - 1] == NEWLINE && NEWLINE !in message[..|message| - 1]
  }

  /** What a remote writes for an acknowledgement: the code byte, then the message. */
  function EncodeAck(code: byte, message: seq<byte>): (r: seq<byte>) {
    [code] + message
  }

  /**
   Decoding what a remote writes for an acknowledgement gives back its code
   and message and consumes exactly those bytes, whatever follows them.
   */
  lemma DecodeEncodeAck(code: byte, message: seq<byte>, rest: seq<byte>)
    requires StartsMessage(code as int) ==> IsMessageLine(message)
    requires !StartsMessage(code as int) ==> message == []
    ensures DecodeAck(EncodeAck(code, message) + rest) == Reply(code as int, message, |message| + 1)
  {
    var s := EncodeAck(code, message) + rest;
    if StartsMessage(code as int) {
      var body := message[..|message| - 1];
      assert message == body + [NEWLINE];
      assert s[1..] == body + [NEWLINE] + rest;
      IndexOfAfter(body, NEWLINE, rest);
      assert s[1..|message| + 1] == message;
    }
  }

  /**
   Java's checkAck over the remote's output from position start: reads the
   code and, for codes 1 and 2, collects the message line.
   */
  method CheckAck(input: seq<byte>, start: nat) returns (code: int, message: seq<byte>, used: nat)
    requires start <= |input| && Terminates(input[start..])
    ensures DecodeAck(input[start..]) == Reply(code, message, used)
  {
    code := ReadAt(input, start);
    message := [];
    if code == OK {
      return code, message, 1;
    }
    if code == END_OF_STREAM {
      return code, message, 0;
    }
    used := 1;
    if StartsMessage(code) {
      ghost var s := input[start..];
      assert s[0] as int == code && s[1..] == input[start + 1..];
      message := ReadMessage(input[start + 1..]);
      used := used + |message|;
      assert message == s[1..used];
      assert DecodeAck(s) == Reply(code, s[1..used], used);
    }
  }

  /**
   The do-while loop of checkAck on the rest of the remote's output: appends
   each byte read until a '\n' has been appended, and returns what it
   collected.
   */
  method ReadMessage(rest: seq<byte>) returns (message: seq<byte>)
    requires NEWLINE in rest
    ensures |message| == IndexOf(rest, NEWLINE) + 1
    ensures message == rest[..|message|]
  {
    ghost var newline := IndexOf(rest, NEWLINE);
    var pos := 0;
    var c := ReadAt(rest, pos);
    pos := pos + 1;
    message := [c as byte];
    while c != NEWLINE as int
      invariant 1 <= pos <= newline + 1
      invariant message == rest[..pos]
      invariant c == rest[pos - 1] as int
      invariant pos - 1 < newline ==> c != NEWLINE as int
      decreases newline + 1 - pos
    {
      assert pos < newline ==> rest[..newline][pos] == rest[pos];
      c := ReadAt(rest, pos);
      pos := pos + 1;
      message := message + [c as byte];
    }
  }
}
