/**
 The copy loop: the local file is read through one reused 1024-byte buffer,
 and each chunk a read fills is written out before the next read, until a
 read returns no bytes.

 The local file is seen through the answers its reads give: the i-th read
 fills the buffer with chunks[i]; an empty answer stands for a read that
 returns 0 or -1, and every read after the last answer returns -1.
 */
module Copy {
  import opened Bytes

  const BUFFER_SIZE: nat := 1024

  /** No read hands back more bytes than the buffer holds. */
  predicate ChunksFit(chunks: seq<seq<byte>>) {
    forall i | 0 <= i < |chunks| :: |chunks[i]| <= BUFFER_SIZE
  }

  /** No read before the end of the file returns 0 or -1. */
  predicate AllNonEmpty(chunks: seq<seq<byte>>) {
    forall i | 0 <= i < |chunks| :: chunks[i] != []
  }

  /** All parts, one after the other. */
  function Flatten(parts: seq<seq<byte>>): (r: seq<byte>) {
    if parts == [] then [] else parts[0] + Flatten(parts[1..])
  }

  /** The bytes the loop writes: the chunks up to, not including, the first empty read. */
  function Copied(chunks: seq<seq<byte>>): (r: seq<byte>)
    ensures |r| <= |Flatten(chunks)| && r == Flatten(chunks)[..|r|]
  {
    if chunks == [] || chunks[0] == [] then []
    else
      var tail := Copied(chunks[1..]);
      assert (chunks[0] + Flatten(chunks[1..]))[..|chunks[0]| + |tail|] == chunks[0] + Flatten(chunks[1..])[..|tail|];
      chunks[0] + tail
  }

  /** When no read comes back empty, the loop writes the concatenation of all chunks. */
  lemma {:induction false} CopiedAll(chunks: seq<seq<byte>>)
    requires AllNonEmpty(chunks)
    ensures Copied(chunks) == Flatten(chunks)
  {
    if chunks != [] {
      assert AllNonEmpty(chunks[1..]) by {
        forall i | 0 <= i < |chunks[1..]| ensures chunks[1..][i] != [] {
          assert chunks[1..][i] == chunks[i + 1];
        }
      }
      CopiedAll(chunks[1..]);
    }
  }

  /** The loop stops at the first empty read: nothing read after it is written. */
  lemma {:induction false} CopiedStops(chunks: seq<seq<byte>>, rest: seq<seq<byte>>)
    requires AllNonEmpty(chunks)
    ensures Copied(chunks + [[]] + rest) == Flatten(chunks)
  {
    if chunks == [] {
      assert (chunks + [[]] + rest)[0] == [];
    } else {
      assert (chunks + [[]] + rest)[1..] == chunks[1..] + [[]] + rest;
      assert AllNonEmpty(chunks[1..]) by {
        forall i | 0 <= i < |chunks[1..]| ensures chunks[1..][i] != [] {
          assert chunks[1..][i] == chunks[i + 1];
        }
      }
      CopiedStops(chunks[1..], rest);
    }
  }

  /**
   How a file input stream answers chunks of a whole buffer on a file holding
   content: full buffers, then what remains, then end of file.
   */
  function FileReads(content: seq<byte>): (chunks: seq<seq<byte>>)
    ensures ChunksFit(chunks) && AllNonEmpty(chunks)
    decreases |content|
  {
    if content == [] then []
    else if |content| <= BUFFER_SIZE then [content]
    else [content[..BUFFER_SIZE]] + FileReads(content[BUFFER_SIZE..])
  }

  /** Copying a file read buffer by buffer writes exactly its content. */
  lemma {:induction false} CopiedFileReads(content: seq<byte>)
    ensures Copied(FileReads(content)) == content
    decreases |content|
  {
    if |content| > BUFFER_SIZE {
      var chunks := FileReads(content);
      assert chunks[1..] == FileReads(content[BUFFER_SIZE..]);
      CopiedFileReads(content[BUFFER_SIZE..]);
      assert content == content[..BUFFER_SIZE] + content[BUFFER_SIZE..];
    }
  }

  /**
   The copy loop: each read fills buf from its start, and the filled part is
   written out; the loop ends at the first read that returns 0 or -1.
   */
  method SendChunks(chunks: seq<seq<byte>>, buf: array<byte>) returns (written: seq<byte>)
    requires ChunksFit(chunks) && buf.Length == BUFFER_SIZE
    modifies buf
    ensures written == Copied(chunks)
  {
    written := [];
    var i := 0;
    while true
      invariant 0 <= i <= |chunks|
      invariant written + Copied(chunks[i..]) == Copied(chunks)
      decreases |chunks| - i
    {
      var len := if i < |chunks| then |chunks[i]| else -1;
      if len <= 0 {
        break;
      }
      var chunk := chunks[i];
      forall k | 0 <= k < len {
        buf[k] := chunk[k];
      }
      assert buf[..len] == chunk;
      assert chunks[i..][1..] == chunks[i + 1..];
      written := written + buf[..len];
      i := i + 1;
    }
  }
}
