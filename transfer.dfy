/**
 One run of the SCP source program: parse the arguments, ask the remote to
 run `scp -p -t <path>`, then three times write and wait for an
 acknowledgement: nothing before the first, the control line before the
 second, the file's bytes and a single 0 byte before the third. Any
 acknowledgement other than 0 ends the run before the next write.

 The remote is seen as the bytes it sends back (`remote`); the outgoing
 stream is the sequence of bytes written to it (`sent`). Process exits are
 the outcome of the run.
 */
module Transfer {
  import opened Wrappers
  import opened Bytes
  import opened Destination
  import opened Control
  import opened Ack
  import opened Copy

  /** "scp -p -t ": the remote scp in sink mode, preserving times, told the target. */
  const SINK_COMMAND: seq<byte> := [115, 99, 112, 32, 45, 112, 32, 45, 116, 32]

  /** The command the remote runs: the sink command, then the remote path verbatim. */
  function RemoteCommand(path: seq<byte>): (r: seq<byte>)
    ensures |r| == |SINK_COMMAND| + |path|
    ensures r[..|SINK_COMMAND|] == SINK_COMMAND && r[|SINK_COMMAND|..] == path
  {
    SINK_COMMAND + path
  }

  datatype Error =
    | UsageError                                          // not exactly two arguments
    | MalformedDestination                                // no '@', or no ':' after it
    | AckFailed(check: nat, code: int, message: seq<byte>) // acknowledgement 1, 2 or 3 was not 0
    | FileNotReadable                                     // the local file could not be opened

  /** Hangs(k): at check k the remote begins a message it never ends, and the run reads forever. */
  datatype Outcome = Done | Failed(error: Error) | Hangs(check: nat)

  /**
   What a run does: the remote command it issues (once the destination is
   parsed), the bytes it writes, how many acknowledgements it reads, how many
   of the remote's bytes it consumes, and how it ends.
   */
  datatype Trace = Trace(command: Option<seq<byte>>, sent: seq<byte>, acks: nat, consumed: nat, outcome: Outcome)

  /**
   The local file as the run sees it: the size first observed, and the
   answers its reads give, or None when it cannot be opened.
   */
  datatype LocalFile = LocalFile(size: nat, chunks: Option<seq<seq<byte>>>)

  predicate ReadsFit(file: LocalFile) {
    file.chunks.Some? ==> ChunksFit(file.chunks.value)
  }

  /** The whole outgoing stream of a run that is not cut short: control line, file bytes, 0. */
  function Stream(lfile: seq<byte>, size: nat, chunks: seq<seq<byte>>): (r: seq<byte>) {
    ControlLine(size, BaseName(lfile)) + Copied(chunks) + [NUL]
  }

  /** The exit status the program ends with. */
  function ExitStatus(outcome: Outcome): (status: int)
    requires !outcome.Hangs?
    ensures status == 0 <==> outcome == Done
    ensures status == -1 <==> outcome == Failed(UsageError)
    ensures status == 1 <==> outcome.Failed? && outcome.error != UsageError
  {
    match outcome
    case Done => 0
    case Failed(UsageError) => -1
    case Failed(_) => 1
  }

  /** The run of the program on arguments args, local file file and remote answers remote. */
  function Run(args: seq<seq<byte>>, file: LocalFile, remote: seq<byte>): (r: Trace)
    requires ReadsFit(file)
    ensures r.acks <= 3 && r.consumed <= |remote|
    ensures r.command.None? <==> r.acks == 0
  {
    if |args| != 2 then Trace(None, [], 0, 0, Failed(UsageError))
    else
      match ParseDestination(args[1])
      case None => Trace(None, [], 0, 0, Failed(MalformedDestination))
      case Some(dest) => FirstCheck(RemoteCommand(dest.path), args[0], file, remote)
  }

  /** Once the remote command runs: the first acknowledgement, then the control line. */
  function FirstCheck(command: seq<byte>, lfile: seq<byte>, file: LocalFile, remote: seq<byte>): (r: Trace)
    requires ReadsFit(file)
    ensures r.command == Some(command) && 1 <= r.acks <= 3 && r.consumed <= |remote|
    ensures r.outcome.Failed? ==> r.outcome.error.AckFailed? || r.outcome.error == FileNotReadable
  {
    var first := DecodeAck(remote);
    if first.Stalled? then Trace(Some(command), [], 1, |remote|, Hangs(1))
    else if first.code != OK then Trace(Some(command), [], 1, first.used, Failed(AckFailed(1, first.code, first.message)))
    else SecondCheck(command, ControlLine(file.size, BaseName(lfile)), file, remote, first.used)
  }

  /** After the control line: the second acknowledgement, then the file's bytes and the 0 byte. */
  function SecondCheck(command: seq<byte>, sent: seq<byte>, file: LocalFile, remote: seq<byte>, pos: nat): (r: Trace)
    requires ReadsFit(file) && pos <= |remote|
    ensures r.command == Some(command) && 2 <= r.acks <= 3 && pos <= r.consumed <= |remote|
    ensures r.acks == 2 ==> r.sent == sent
    ensures r.outcome.Failed? ==> r.outcome.error.AckFailed? || r.outcome.error == FileNotReadable
  {
    var second := DecodeAck(remote[pos..]);
    if second.Stalled? then Trace(Some(command), sent, 2, |remote|, Hangs(2))
    else if second.code != OK then Trace(Some(command), sent, 2, pos + second.used, Failed(AckFailed(2, second.code, second.message)))
    else if file.chunks.None? then Trace(Some(command), sent, 2, pos + second.used, Failed(FileNotReadable))
    else ThirdCheck(command, sent + Copied(file.chunks.value) + [NUL], remote, pos + second.used)
  }

  /** After the 0 byte: the third acknowledgement decides the run. */
  function ThirdCheck(command: seq<byte>, sent: seq<byte>, remote: seq<byte>, pos: nat): (r: Trace)
    requires pos <= |remote|
    ensures r.command == Some(command) && r.sent == sent && r.acks == 3 && pos <= r.consumed <= |remote|
    ensures r.outcome.Failed? ==> r.outcome.error.AckFailed?
  {
    var third := DecodeAck(remote[pos..]);
    if third.Stalled? then Trace(Some(command), sent, 3, |remote|, Hangs(3))
    else if third.code != OK then Trace(Some(command), sent, 3, pos + third.used, Failed(AckFailed(3, third.code, third.message)))
    else Trace(Some(command), sent, 3, pos + third.used, Done)
  }

  /**
   The program's main: checks the argument count and splits the destination,
   then runs the exchange with the remote scp.
   */
  method ScpTo(args: seq<seq<byte>>, file: LocalFile, remote: seq<byte>) returns (trace: Trace)
    requires ReadsFit(file)
    requires !Run(args, file, remote).outcome.Hangs?
    ensures trace == Run(args, file, remote)
  {
    if |args| != 2 {
      return Trace(None, [], 0, 0, Failed(UsageError));
    }
    var lfile := args[0];
    var dest := ParseDestination(args[1]);
    if dest.None? {
      return Trace(None, [], 0, 0, Failed(MalformedDestination));
    }
    var command := RemoteCommand(dest.value.path);
    trace := Exchange(command, lfile, file, remote);
  }

  /**
   The exchange with the remote scp once it runs command: the first
   acknowledgement check, then the control line.
   */
  method Exchange(command: seq<byte>, lfile: seq<byte>, file: LocalFile, remote: seq<byte>) returns (trace: Trace)
    requires ReadsFit(file)
    requires !FirstCheck(command, lfile, file, remote).outcome.Hangs?
    ensures trace == FirstCheck(command, lfile, file, remote)
  {
    assert remote[0..] == remote;
    var code, message, used := CheckAck(remote, 0);
    FirstCheckStep(command, lfile, file, remote, code, message, used);
    if code != OK {
      return Trace(Some(command), [], 1, used, Failed(AckFailed(1, code, message)));
    }
    var line := ControlLine(file.size, BaseName(lfile));
    trace := SendFile(command, line, file, remote, used);
  }

  /**
   After the control line has gone out: the second acknowledgement check,
   then the copy loop over the file and the closing 0 byte.
   */
  method SendFile(command: seq<byte>, sent: seq<byte>, file: LocalFile, remote: seq<byte>, pos: nat)
    returns (trace: Trace)
    requires ReadsFit(file) && pos <= |remote|
    requires !SecondCheck(command, sent, file, remote, pos).outcome.Hangs?
    ensures trace == SecondCheck(command, sent, file, remote, pos)
  {
    var code, message, used := CheckAck(remote, pos);
    SecondCheckStep(command, sent, file, remote, pos, code, message, used);
    if code != OK {
      return Trace(Some(command), sent, 2, pos + used, Failed(AckFailed(2, code, message)));
    }
    if file.chunks.None? {
      return Trace(Some(command), sent, 2, pos + used, Failed(FileNotReadable));
    }
    var buf := new byte[BUFFER_SIZE];
    var data := SendChunks(file.chunks.value, buf);
    buf[0] := NUL;
    assert buf[..1] == [NUL];
    var stream := sent + data + buf[..1];
    trace := Finish(command, stream, remote, pos + used);
  }

  /** After the closing 0 byte: the third acknowledgement check decides the run. */
  method Finish(command: seq<byte>, sent: seq<byte>, remote: seq<byte>, pos: nat) returns (trace: Trace)
    requires pos <= |remote|
    requires !ThirdCheck(command, sent, remote, pos).outcome.Hangs?
    ensures trace == ThirdCheck(command, sent, remote, pos)
  {
    var code, message, used := CheckAck(remote, pos);
    ThirdCheckStep(command, sent, remote, pos, code, message, used);
    if code != OK {
      return Trace(Some(command), sent, 3, pos + used, Failed(AckFailed(3, code, message)));
    }
    trace := Trace(Some(command), sent, 3, pos + used, Done);
  }

  /** The first check, once its acknowledgement is decoded. */
  lemma FirstCheckStep(command: seq<byte>, lfile: seq<byte>, file: LocalFile, remote: seq<byte>,
                       code: int, message: seq<byte>, used: nat)
    requires ReadsFit(file) && DecodeAck(remote) == Reply(code, message, used)
    ensures used <= |remote|
    ensures FirstCheck(command, lfile, file, remote)
            == if code != OK then Trace(Some(command), [], 1, used, Failed(AckFailed(1, code, message)))
               else SecondCheck(command, ControlLine(file.size, BaseName(lfile)), file, remote, used)
  {
  }

  /** The second check, once its acknowledgement is decoded. */
  lemma SecondCheckStep(command: seq<byte>, sent: seq<byte>, file: LocalFile, remote: seq<byte>, pos: nat,
                        code: int, message: seq<byte>, used: nat)
    requires ReadsFit(file) && pos <= |remote| && DecodeAck(remote[pos..]) == Reply(code, message, used)
    ensures pos + used <= |remote|
    ensures SecondCheck(command, sent, file, remote, pos)
            == if code != OK then Trace(Some(command), sent, 2, pos + used, Failed(AckFailed(2, code, message)))
               else if file.chunks.None? then Trace(Some(command), sent, 2, pos + used, Failed(FileNotReadable))
               else ThirdCheck(command, sent + Copied(file.chunks.value) + [NUL], remote, pos + used)
  {
  }

  /** The third check, once its acknowledgement is decoded. */
  lemma ThirdCheckStep(command: seq<byte>, sent: seq<byte>, remote: seq<byte>, pos: nat,
                       code: int, message: seq<byte>, used: nat)
    requires pos <= |remote| && DecodeAck(remote[pos..]) == Reply(code, message, used)
    ensures pos + used <= |remote|
    ensures ThirdCheck(command, sent, remote, pos)
            == if code != OK then Trace(Some(command), sent, 3, pos + used, Failed(AckFailed(3, code, message)))
               else Trace(Some(command), sent, 3, pos + used, Done)
  {
  }
}
