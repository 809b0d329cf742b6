/** What a run of the SCP source promises, stated over the Run specification. */
module TransferLemmas {
  import opened Wrappers
  import opened Bytes
  import opened Destination
  import opened Control
  import opened Ack
  import opened Copy
  import opened Transfer

  /** An acknowledgement reads as 0 exactly when the remote's next byte is 0, and then it takes that byte alone. */
  lemma DecodeOk(s: seq<byte>)
    ensures DecodeAck(s).Reply? && DecodeAck(s).code == OK <==> s != [] && s[0] == 0
    ensures s != [] && s[0] == 0 ==> DecodeAck(s) == Reply(OK, [], 1)
  {
    if s != [] && s[0] == 0 {
      assert Terminates(s);
    }
  }

  /** The failure facts every check promises: the check that failed, a code that is not 0, the remote's message. */
  predicate FailedAt(t: Trace, k: nat) {
    t.outcome.Failed? && t.outcome.error.AckFailed? ==>
      && t.outcome.error.check == k
      && t.outcome.error.code != OK
      && (StartsMessage(t.outcome.error.code) ==> IsMessageLine(t.outcome.error.message))
  }

  lemma ThirdCheckFacts(command: seq<byte>, sent: seq<byte>, remote: seq<byte>, pos: nat)
    requires pos <= |remote|
    ensures var t := ThirdCheck(command, sent, remote, pos);
            && t.command == Some(command) && t.sent == sent && t.acks == 3
            && t.outcome != Failed(FileNotReadable) && FailedAt(t, 3)
  {
  }

  lemma SecondCheckFacts(command: seq<byte>, sent: seq<byte>, file: LocalFile, remote: seq<byte>, pos: nat)
    requires ReadsFit(file) && pos <= |remote|
    ensures var t := SecondCheck(command, sent, file, remote, pos);
            && t.command == Some(command) && 2 <= t.acks <= 3
            && (t.acks == 2 ==> t.sent == sent && FailedAt(t, 2))
            && (t.acks == 3 ==> file.chunks.Some? && t.sent == sent + Copied(file.chunks.value) + [NUL] && FailedAt(t, 3))
            && (t.outcome == Failed(FileNotReadable) ==> t.acks == 2 && file.chunks.None?)
  {
    var second := DecodeAck(remote[pos..]);
    if second.Reply? && second.code == OK && file.chunks.Some? {
      ThirdCheckFacts(command, sent + Copied(file.chunks.value) + [NUL], remote, pos + second.used);
    }
  }

  lemma FirstCheckFacts(command: seq<byte>, lfile: seq<byte>, file: LocalFile, remote: seq<byte>)
    requires ReadsFit(file)
    ensures var t := FirstCheck(command, lfile, file, remote);
            && t.command == Some(command) && 1 <= t.acks <= 3
            && FailedAt(t, t.acks)
            && (t.acks == 1 ==> t.sent == [])
            && (t.acks == 2 ==> t.sent == ControlLine(file.size, BaseName(lfile)))
            && (t.acks == 3 ==> file.chunks.Some? && t.sent == Stream(lfile, file.size, file.chunks.value))
            && (t.outcome == Failed(FileNotReadable) ==> t.acks == 2 && file.chunks.None?)
  {
    var first := DecodeAck(remote);
    if first.Reply? && first.code == OK {
      SecondCheckFacts(command, ControlLine(file.size, BaseName(lfile)), file, remote, first.used);
    }
  }

  /**
   The remote command is issued exactly when there are two arguments and the
   destination splits, and it is "scp -p -t " followed by the remote path;
   before it, nothing is written or read.
   */
  lemma RunIssuesCommand(args: seq<seq<byte>>, file: LocalFile, remote: seq<byte>)
    requires ReadsFit(file)
    ensures var t := Run(args, file, remote);
            && (t.command.Some? <==> |args| == 2 && ParseDestination(args[1]).Some?)
            && (t.command.Some? ==> t.command.value == SINK_COMMAND + ParseDestination(args[1]).value.path)
            && (t.command.None? ==> t.sent == [] && t.acks == 0 && t.consumed == 0 && t.outcome.Failed?)
  {
    if |args| == 2 && ParseDestination(args[1]).Some? {
      FirstCheckFacts(RemoteCommand(ParseDestination(args[1]).value.path), args[0], file, remote);
    }
  }

  /**
   A run succeeds exactly when the arguments are well formed, the remote's
   first three bytes are 0 and the local file opens; it has then read exactly
   three acknowledgements of one byte each and written the control line, the
   bytes the copy loop read and a single 0 byte.
   */
  lemma RunSucceeds(args: seq<seq<byte>>, file: LocalFile, remote: seq<byte>)
    requires ReadsFit(file)
    ensures var t := Run(args, file, remote);
            && (t.outcome == Done <==>
                  |args| == 2 && ParseDestination(args[1]).Some? && |remote| >= 3 && remote[..3] == [0, 0, 0] && file.chunks.Some?)
            && (t.outcome == Done ==>
                  t.sent == Stream(args[0], file.size, file.chunks.value) && t.acks == 3 && t.consumed == 3)
  {
    if |args| == 2 && ParseDestination(args[1]).Some? {
      var command := RemoteCommand(ParseDestination(args[1]).value.path);
      assert Run(args, file, remote) == FirstCheck(command, args[0], file, remote);
      FirstCheckSucceeds(command, args[0], file, remote);
    }
  }

  lemma FirstCheckSucceeds(command: seq<byte>, lfile: seq<byte>, file: LocalFile, remote: seq<byte>)
    requires ReadsFit(file)
    ensures var t := FirstCheck(command, lfile, file, remote);
            && (t.outcome == Done <==> |remote| >= 3 && remote[..3] == [0, 0, 0] && file.chunks.Some?)
            && (t.outcome == Done ==> t.sent == Stream(lfile, file.size, file.chunks.value) && t.acks == 3 && t.consumed == 3)
  {
    DecodeOk(remote);
    if remote != [] && remote[0] == 0 {
      DecodeOk(remote[1..]);
      if |remote| > 1 && remote[1] == 0 {
        DecodeOk(remote[2..]);
      }
    }
    if |remote| >= 3 {
      assert remote[..3] == [remote[0], remote[1], remote[2]];
    }
  }

  /**
   A check that fails stops the run before the next write: after a failed
   first check nothing has been written, after a failed second check only the
   control line; a file that does not open ends the run right after the
   second check, with the control line sent and nothing more.
   Check k reads the remote's output after the k - 1 zero bytes that passed
   the earlier checks: the code and message are what DecodeAck finds there
   (the byte the remote sent, -1 when its output ended, and for codes 1 and 2
   the remote's line), and the run has consumed exactly those bytes.
   */
  lemma RunStopsAtFailedCheck(args: seq<seq<byte>>, file: LocalFile, remote: seq<byte>)
    requires ReadsFit(file)
    ensures var t := Run(args, file, remote);
            t.outcome.Failed? && t.outcome.error.AckFailed? ==>
              var k := t.outcome.error.check;
              && 1 <= k <= 3 && t.acks == k
              && t.outcome.error.code != OK
              && (StartsMessage(t.outcome.error.code) ==> IsMessageLine(t.outcome.error.message))
              && (k == 1 ==> t.sent == [])
              && (k == 2 ==> t.sent == ControlLine(file.size, BaseName(args[0])))
              && (k == 3 ==> file.chunks.Some? && t.sent == Stream(args[0], file.size, file.chunks.value))
    ensures var t := Run(args, file, remote);
            ReadsFailedCheck(t, remote)
    ensures var t := Run(args, file, remote);
            t.outcome == Failed(FileNotReadable) ==>
              t.acks == 2 && t.sent == ControlLine(file.size, BaseName(args[0])) && file.chunks.None?
  {
    if |args| == 2 && ParseDestination(args[1]).Some? {
      var command := RemoteCommand(ParseDestination(args[1]).value.path);
      FirstCheckFacts(command, args[0], file, remote);
      FirstCheckReads(command, args[0], file, remote);
    }
  }

  /**
   When t failed at check k, the remote's first k - 1 bytes are 0 and the
   code, message and bytes consumed at check k are what DecodeAck reads after them.
   */
  predicate ReadsFailedCheck(t: Trace, remote: seq<byte>) {
    t.outcome.Failed? && t.outcome.error.AckFailed? ==>
      var k := t.outcome.error.check;
      && 1 <= k && k - 1 <= t.consumed <= |remote|
      && (forall i | 0 <= i < k - 1 :: remote[i] == 0)
      && DecodeAck(remote[k - 1..]) == Reply(t.outcome.error.code, t.outcome.error.message, t.consumed - (k - 1))
  }

  /** Within the exchange: a failed check k decoded the remote's output after k - 1 zero bytes. */
  lemma FirstCheckReads(command: seq<byte>, lfile: seq<byte>, file: LocalFile, remote: seq<byte>)
    requires ReadsFit(file)
    ensures ReadsFailedCheck(FirstCheck(command, lfile, file, remote), remote)
  {
    DecodeOk(remote);
    if remote != [] && remote[0] == 0 {
      var line := ControlLine(file.size, BaseName(lfile));
      assert FirstCheck(command, lfile, file, remote) == SecondCheck(command, line, file, remote, 1);
      SecondCheckReads(command, line, file, remote);
    } else {
      assert remote[0..] == remote;
    }
  }

  /** After a first 0 byte: a failed check decoded the output after one or two 0 bytes. */
  lemma SecondCheckReads(command: seq<byte>, sent: seq<byte>, file: LocalFile, remote: seq<byte>)
    requires ReadsFit(file) && remote != [] && remote[0] == 0
    ensures ReadsFailedCheck(SecondCheck(command, sent, file, remote, 1), remote)
  {
    DecodeOk(remote[1..]);
    if |remote| > 1 && remote[1] == 0 && file.chunks.Some? {
      ThirdCheckReads(command, sent + Copied(file.chunks.value) + [NUL], remote);
    }
  }

  /** After two 0 bytes: a failed third check decoded the output after them. */
  lemma ThirdCheckReads(command: seq<byte>, sent: seq<byte>, remote: seq<byte>)
    requires |remote| >= 2 && remote[0] == 0 && remote[1] == 0
    ensures ReadsFailedCheck(ThirdCheck(command, sent, remote, 2), remote)
  {
    var t := ThirdCheck(command, sent, remote, 2);
    if t.outcome.Failed? {
      assert t.outcome.error.check == 3;
      assert forall i | 0 <= i < 2 :: remote[i] == 0;
    }
  }

  /**
   When the remote's output ends before the third acknowledgement, the check
   that finds it closed fails with code -1 and nothing more is written.
   */
  lemma RunEndOfStream(args: seq<seq<byte>>, file: LocalFile, remote: seq<byte>)
    requires ReadsFit(file) && |args| == 2 && ParseDestination(args[1]).Some?
    requires remote == [] || remote == [0] || remote == [0, 0]
    requires |remote| == 2 ==> file.chunks.Some?
    ensures var t := Run(args, file, remote);
            && t.outcome == Failed(AckFailed(|remote| + 1, END_OF_STREAM, []))
            && t.consumed == |remote|
  {
    var command := RemoteCommand(ParseDestination(args[1]).value.path);
    assert Run(args, file, remote) == FirstCheck(command, args[0], file, remote);
    FirstCheckAtEnd(command, args[0], file, remote);
  }

  lemma FirstCheckAtEnd(command: seq<byte>, lfile: seq<byte>, file: LocalFile, remote: seq<byte>)
    requires ReadsFit(file)
    requires remote == [] || remote == [0] || remote == [0, 0]
    requires remote == [0, 0] ==> file.chunks.Some?
    ensures var t := FirstCheck(command, lfile, file, remote);
            && t.outcome == Failed(AckFailed(|remote| + 1, END_OF_STREAM, []))
            && t.consumed == |remote|
  {
    var line := ControlLine(file.size, BaseName(lfile));
    if remote != [] {
      DecodeOk(remote);
      assert FirstCheck(command, lfile, file, remote) == SecondCheck(command, line, file, remote, 1);
      if remote == [0] {
        SecondCheckAtEnd(command, line, file, remote);
      } else {
        DecodeOk(remote[1..]);
        var sent := line + Copied(file.chunks.value) + [NUL];
        assert SecondCheck(command, line, file, remote, 1) == ThirdCheck(command, sent, remote, 2);
        ThirdCheckAtEnd(command, sent, remote);
      }
    }
  }

  lemma SecondCheckAtEnd(command: seq<byte>, sent: seq<byte>, file: LocalFile, remote: seq<byte>)
    requires ReadsFit(file)
    ensures SecondCheck(command, sent, file, remote, |remote|)
            == Trace(Some(command), sent, 2, |remote|, Failed(AckFailed(2, END_OF_STREAM, [])))
  {
    assert remote[|remote|..] == [];
  }

  lemma ThirdCheckAtEnd(command: seq<byte>, sent: seq<byte>, remote: seq<byte>)
    ensures ThirdCheck(command, sent, remote, |remote|)
            == Trace(Some(command), sent, 3, |remote|, Failed(AckFailed(3, END_OF_STREAM, [])))
  {
    assert remote[|remote|..] == [];
  }

  /**
   An error or fatal error at the first check, with its message line, ends the
   run with that code and message; the control line and the file's bytes are
   never sent.
   */
  lemma RunRejectedAtFirstCheck(args: seq<seq<byte>>, file: LocalFile, code: byte, message: seq<byte>, rest: seq<byte>)
    requires ReadsFit(file) && |args| == 2 && ParseDestination(args[1]).Some?
    requires StartsMessage(code as int) && IsMessageLine(message)
    ensures var t := Run(args, file, EncodeAck(code, message) + rest);
            && t.outcome == Failed(AckFailed(1, code as int, message))
            && t.sent == [] && t.acks == 1 && t.consumed == |message| + 1
  {
    DecodeEncodeAck(code, message, rest);
  }

  /**
   Whatever the file's length, streaming it through the buffer sends its
   content intact: a successful run writes the control line, the content
   and one 0 byte.
   */
  lemma RunSendsContent(args: seq<seq<byte>>, size: nat, content: seq<byte>, remote: seq<byte>)
    requires Run(args, LocalFile(size, Some(FileReads(content))), remote).outcome == Done
    ensures Run(args, LocalFile(size, Some(FileReads(content))), remote).sent
            == ControlLine(size, BaseName(args[0])) + content + [NUL]
  {
    RunSucceeds(args, LocalFile(size, Some(FileReads(content))), remote);
    CopiedFileReads(content);
  }

  /**
   The declared size is never compared with the bytes streamed: with three
   0 acknowledgements a run succeeds whatever size it declared.
   */
  lemma RunDoesNotCheckSize(args: seq<seq<byte>>, size: nat, content: seq<byte>)
    requires |args| == 2 && ParseDestination(args[1]).Some?
    ensures var t := Run(args, LocalFile(size, Some(FileReads(content))), [0, 0, 0]);
            t.outcome == Done && t.sent == ControlLine(size, BaseName(args[0])) + content + [NUL]
  {
    RunSucceeds(args, LocalFile(size, Some(FileReads(content))), [0, 0, 0]);
    CopiedFileReads(content);
  }

  /**
   The status a run exits with: -1 exactly when the argument count is wrong,
   0 exactly when the run succeeds, and 1 on every other failure (a malformed
   destination, a failed acknowledgement, a file that does not open).
   */
  lemma RunExitStatus(args: seq<seq<byte>>, file: LocalFile, remote: seq<byte>)
    requires ReadsFit(file) && !Run(args, file, remote).outcome.Hangs?
    ensures var status := ExitStatus(Run(args, file, remote).outcome);
            && (status == -1 <==> |args| != 2)
            && (status == 0 <==>
                  |args| == 2 && ParseDestination(args[1]).Some? && |remote| >= 3 && remote[..3] == [0, 0, 0] && file.chunks.Some?)
            && (status == 1 <==> |args| == 2 && !Run(args, file, remote).outcome.Done?)
  {
    RunSucceeds(args, file, remote);
  }
}
