/**
 The destination argument `user@host:path` of the SCP source program: the
 user is what precedes the first '@', the host what lies between that '@'
 and the first ':' after it, and the remote path everything after that ':'.
 */
module Destination {
  import opened Wrappers
  import opened Bytes

  datatype Destination = Destination(user: seq<byte>, host: seq<byte>, path: seq<byte>)

  /** The three parts every destination is written as. */
  function Format(d: Destination): (r: seq<byte>) {
    d.user + [AT] + (d.host + [COLON] + d.path)
  }

  /**
   Splits the destination argument. A missing '@', or a missing ':' after the
   first '@', makes Java's substring throw; here it is None.
   */
  function ParseDestination(arg: seq<byte>): (r: Option<Destination>)
    ensures r.None? <==> AT !in arg || COLON !in arg[IndexOf(arg, AT) + 1..]
    ensures r.Some? ==> Format(r.value) == arg
    ensures r.Some? ==> AT !in r.value.user && COLON !in r.value.host
  {
    var at := IndexOf(arg, AT);
    if at < 0 then None
    else
      var rest := arg[at + 1..];
      var colon := IndexOf(rest, COLON);
      if colon < 0 then None
      else
        var d := Destination(arg[..at], rest[..colon], rest[colon + 1..]);
        SplitAround(rest, colon);
        SplitAround(arg, at);
        assert Format(d) == arg[..at] + [AT] + rest;
        Some(d)
  }

  /**
   Every argument of the form user@host:path whose user holds no '@' and whose
   host holds no ':' parses back into exactly those three parts; later '@' and
   ':' characters stay in the path.
   */
  lemma ParseFormat(d: Destination)
    requires AT !in d.user && COLON !in d.host
    ensures ParseDestination(Format(d)) == Some(d)
  {
    var arg := Format(d);
    var rest := d.host + [COLON] + d.path;
    IndexOfAfter(d.user, AT, rest);
    AroundSplit(d.user, AT, rest);
    IndexOfAfter(d.host, COLON, d.path);
    AroundSplit(d.host, COLON, d.path);
  }
}
