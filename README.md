# SCP source side of `ScpToNoneCipher`

A Dafny model of the part of the JSch example program `ScpToNoneCipher` that
speaks the source side of the SCP protocol for one file. The program takes a
local path and a destination `user@host:path`, asks the remote host to run
`scp -p -t <path>`, and then, waiting for an acknowledgement after each step,
sends the control line `C0644 <size> <name>\n`, the file's bytes through a
1024-byte buffer, and a single 0 byte.

The remote is modelled as the bytes it sends back, the outgoing channel as the
sequence of bytes written to it, and the local file as its observed size plus
the answers its reads give. Process exits become the outcome of a run.

Modules, one per part of the program:

- `Bytes` (`bytes.dfy`): the byte type, Java's `indexOf`/`lastIndexOf` on one
  character, and the decimal rendering of the file size with its inverse.
- `Destination` (`destination.dfy`): splitting `user@host:path`.
- `Control` (`control_line.dfy`): the basename rule and the control line, with
  a reader of control lines as its inverse.
- `Ack` (`ack.dfy`): `checkAck` as a specification `DecodeAck` and as the
  method `CheckAck` proved equal to it, whose do-while loop is the method
  `ReadMessage`; an encoder is its inverse.
- `Copy` (`copy.dfy`): the copy loop over a reused buffer, `SendChunks`,
  proved to write `Copied(chunks)`, and lemmas that this is the file content.
- `Transfer` (`transfer.dfy`): the run as a specification `Run` (staged as
  `FirstCheck`, `SecondCheck`, `ThirdCheck`) and the program's `main` as the
  methods `ScpTo`, `Exchange`, `SendFile` and `Finish` proved equal to it,
  stage by stage.
- `TransferLemmas` (`transfer_lemmas.dfy`): what a run promises.

Behaviour of the code worth knowing (the model keeps it):

- The code strips the directory part of the local path only when the last
  `'/'` is at an index greater than 0, so `"/file1"` is sent as `"/file1"`
  (`Control.BaseNameKeepsLeadingSlash`).
- The code never compares the declared size with the number of bytes it
  streams; a run with a wrong size still succeeds
  (`TransferLemmas.RunDoesNotCheckSize`).
- An acknowledgement byte other than 0, 1, 2 or -1 is returned by `checkAck`
  like any other non-zero code and ends the run at that check.
- On a code 1 or 2 the code reads until a `'\n'` arrives and never stops at
  the end of the stream; a run in which the remote never ends its message
  reads forever (on a real JVM, until memory runs out; see "## Left out").
  The model names that outcome `Hangs(k)`.

## Model

| member | source | states |
|---|---|---|
| `Bytes.IndexOf` | examples/ScpToNoneCipher.java:40-43 | -1 exactly when the byte is absent; otherwise an index holding it with no earlier occurrence |
| `Bytes.LastIndexOf` | examples/ScpToNoneCipher.java:76-77 | -1 exactly when the byte is absent; otherwise an index holding it with no later occurrence |
| `Bytes.Decimal` | examples/ScpToNoneCipher.java:75 | the size is written as a non-empty string of decimal digits without a leading zero |
| `Bytes.ParseDecimalOfDecimal` | examples/ScpToNoneCipher.java:75 | reading the written digits back gives the size again |
| `Bytes.DecimalOfParseDecimal` | examples/ScpToNoneCipher.java:75 | every canonical digit string is what Decimal writes for its value, so the rendering is a bijection |
| `Destination.ParseDestination` | examples/ScpToNoneCipher.java:40-43 | fails exactly when there is no '@' or no ':' after the first '@'; on success user + '@' + host + ':' + path is the argument, the user holds no '@' and the host no ':' |
| `Destination.ParseFormat` | examples/ScpToNoneCipher.java:40-43 | every user@host:path whose user has no '@' and whose host has no ':' splits back into exactly those parts, later '@' and ':' staying in the path |
| `Control.BaseName` | examples/ScpToNoneCipher.java:76-81 | the name is a suffix of the path; when the path has a '/' past index 0 it is what follows the last '/' and holds no '/'; otherwise it is the whole path |
| `Control.BaseNameSlash` | examples/ScpToNoneCipher.java:73-81 | the name holds a '/' only when it is the whole path and the path's only '/' is its first byte |
| `Control.BaseNameStrips` | examples/ScpToNoneCipher.java:76-78 | dir + '/' + name is sent as name, for any non-empty dir and slash-free name |
| `Control.BaseNameKeepsLeadingSlash` | examples/ScpToNoneCipher.java:76-81 | '/' + name is sent verbatim, leading slash included |
| `Control.ControlLine` | examples/ScpToNoneCipher.java:75-82 | the mode field is always 0644 and the line ends in '\n' |
| `Control.ParseControlLineOfControlLine` | examples/ScpToNoneCipher.java:73-83 | the control line reads back as mode 0644, the declared size and the name, whatever the name holds |
| `Control.ControlLineOfParseControlLine` | examples/ScpToNoneCipher.java:73-83 | every line that reads back with mode 0644 is byte for byte the control line of its size and name, so the size has one rendering |
| `Ack.ReadAt` | examples/ScpToNoneCipher.java:119 | a read before the end yields the remote's next byte; it yields -1 exactly at the end of the remote's output |
| `Ack.DecodeAck` | examples/ScpToNoneCipher.java:118-143 | the code is the first byte read, unchanged (-1 at end of stream); codes other than 1 and 2 consume that byte alone; codes 1 and 2 consume up to and including the first '\n' and the message is exactly those bytes; decoding stalls exactly when that '\n' never comes |
| `Ack.DecodeEncodeAck` | examples/ScpToNoneCipher.java:127-134 | decoding a code followed by its message line gives back the code and the message and consumes just those bytes, whatever follows |
| `Ack.CheckAck` | examples/ScpToNoneCipher.java:118-143 | checkAck returns the code, message and bytes consumed that DecodeAck specifies |
| `Ack.ReadMessage` | examples/ScpToNoneCipher.java:128-134 | the do-while loop reads up to and including the first '\n' and nothing more |
| `Copy.Copied` | examples/ScpToNoneCipher.java:91-96 | what the loop writes is a prefix of everything the reads returned, in order |
| `Copy.CopiedAll` | examples/ScpToNoneCipher.java:91-96 | when no read comes back empty the loop writes the concatenation of all chunks, in order |
| `Copy.CopiedStops` | examples/ScpToNoneCipher.java:92-94 | nothing read after the first empty read is written |
| `Copy.FileReads` | examples/ScpToNoneCipher.java:93 | the reads of a file through the buffer each fit the 1024-byte buffer and none is empty before the end |
| `Copy.CopiedFileReads` | examples/ScpToNoneCipher.java:89-96 | copying a file through the buffer writes exactly its content, for any length |
| `Copy.SendChunks` | examples/ScpToNoneCipher.java:91-96 | the loop over the reused buffer writes exactly Copied(chunks): the chunks before the first read returning no bytes |
| `Transfer.RemoteCommand` | examples/ScpToNoneCipher.java:59 | the command is "scp -p -t " followed by the remote path verbatim |
| `Transfer.Run` | examples/ScpToNoneCipher.java:30-116 | a run reads at most three acknowledgements and no more than the remote sent, and issues a command exactly when it reads any acknowledgement |
| `Transfer.FirstCheck` | examples/ScpToNoneCipher.java:69-83 | once the command is issued, a run reads one to three acknowledgements and no more than the remote sent, and fails only by a failed acknowledgement or a file that does not open |
| `Transfer.SecondCheck` | examples/ScpToNoneCipher.java:85-102 | after the control line a run reads two or three acknowledgements, reads on from where the first check stopped, and writes nothing more when it stops at the second; it fails only by a failed acknowledgement or a file that does not open |
| `Transfer.ThirdCheck` | examples/ScpToNoneCipher.java:103-109 | the third check reads the last acknowledgement, writes nothing, and fails only by a failed acknowledgement |
| `Transfer.ExitStatus` | examples/ScpToNoneCipher.java:31-114 | the status is 0 exactly on success, -1 exactly on a usage error, and 1 exactly on every other failure |
| `Transfer.ScpTo` | examples/ScpToNoneCipher.java:30-116 | the program's main produces exactly the trace Run specifies |
| `Transfer.Exchange` | examples/ScpToNoneCipher.java:59-84 | the first check and the control line produce exactly the trace FirstCheck specifies |
| `Transfer.SendFile` | examples/ScpToNoneCipher.java:85-102 | the second check, the copy loop and the closing 0 byte produce exactly the trace SecondCheck specifies |
| `Transfer.Finish` | examples/ScpToNoneCipher.java:103-109 | the third check ends the run exactly as ThirdCheck specifies |
| `TransferLemmas.DecodeOk` | examples/ScpToNoneCipher.java:119-124 | an acknowledgement reads as 0 exactly when the next byte is 0, and then consumes that byte alone |
| `TransferLemmas.RunIssuesCommand` | examples/ScpToNoneCipher.java:31-61 | the remote command is issued exactly when there are two arguments and the destination splits; it is "scp -p -t " + path; without it nothing is written or read |
| `TransferLemmas.RunSucceeds` | examples/ScpToNoneCipher.java:59-109 | a run succeeds exactly when the arguments are well formed, the remote's first three bytes are 0 and the file opens; it then has read three one-byte acknowledgements and written control line, copied bytes and one 0 byte |
| `TransferLemmas.RunStopsAtFailedCheck` | examples/ScpToNoneCipher.java:69-105 | a failed check k is the last read and nothing is written after it: nothing after check 1, only the control line after check 2; the remote's first k - 1 bytes are 0, and the code, message and bytes consumed are what decoding the remote's output after them gives; a file that does not open fails after check 2 |
| `TransferLemmas.RunEndOfStream` | examples/ScpToNoneCipher.java:119-125 | when the remote's output ends before the third acknowledgement the next check fails with code -1 and consumes nothing more |
| `TransferLemmas.RunRejectedAtFirstCheck` | examples/ScpToNoneCipher.java:69-71 | an error or fatal error with its message at the first check ends the run with that code and message, nothing sent |
| `TransferLemmas.RunSendsContent` | examples/ScpToNoneCipher.java:89-101 | a successful run sends control line, the file's content intact and one 0 byte |
| `TransferLemmas.RunExitStatus` | examples/ScpToNoneCipher.java:31-114 | a run exits with -1 exactly when the argument count is wrong, with 0 exactly when the destination splits, the remote's first three bytes are 0 and the file opens, and with 1 on every other failure |
| `TransferLemmas.RunDoesNotCheckSize` | examples/ScpToNoneCipher.java:74-101 | with three 0 acknowledgements a run succeeds whatever size it declared, sending control line, content and 0 |

## Left out

- The SSH session: `JSch.getSession`, `connect`, the cipher preferences and
  `rekey`, `openChannel`, `setCommand`, `channel.connect` and
  `session.disconnect` (lines 45-67 and 107) are library calls whose
  behaviour is not visible here; the run records only the command it would
  set. Their failures (authentication, connection) are not modelled.
- The password prompt through `SwingDialogUserInfo` (line 49) is user interface.
- The file system: `File.length()` and `FileInputStream` are inputs (the size
  first observed, and the answers the reads give, or no file at all). An
  `IOException` in the middle of reading, and the close of the file, are not
  modelled.
- Character encoding: arguments and paths are taken as their ASCII bytes;
  `String.getBytes()` on non-ASCII text is not modelled.
- Printing: the message `checkAck` prints (lines 136 and 139) is returned
  instead; exception printing (line 112) is not modelled.
- Failures of the channel's streams (an `IOException` from `read` or `write`)
  are not modelled.
- Memory exhaustion is not modelled. After the channel closes, the message
  loop appends every -1 read to its buffer (line 132), so on a real JVM a
  never-ended message ends in an `OutOfMemoryError`, which the
  `catch(Exception)` at line 111 does not catch. `Hangs(k)` idealises this as
  reading forever.
- The remote's output is a finite sequence of bytes followed by the channel
  closing, so a read past its end returns -1. A remote that falls silent
  while keeping the channel open makes `in.read()` (lines 119 and 131) block
  forever, as the code sets no time-out; the model cannot represent that
  case, and treats such a remote as one whose output ended there.
- Process exit: `System.exit` is the outcome of the run; `ExitStatus` gives the
  argument passed to it, not the status the operating system reports.
- The file size is a natural number; the 64-bit range of Java's `long` is not
  modelled.
- Ack.CheckAck: requires that a code 1 or 2 is followed by a '\n', because the
  loop in the code never ends otherwise; that case is the `Stalled` reply of
  `DecodeAck` and the `Hangs` outcome of `Run`.
- Transfer.ScpTo: requires that the run does not hang, for the same reason.
- Transfer.Exchange, Transfer.SendFile, Transfer.Finish: the part of `main`
  after the session is set up is split here into one method per
  acknowledgement check; in the code it is inline in `main`.
