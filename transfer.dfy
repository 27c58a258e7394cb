/**
 * `recv_file`: the loop that copies the data connection into the local file,
 * with its exact stopping rules. The connection is the sequence of results
 * of its `recv` calls and the file is the sequence of bytes written to it.
 */
module Transfer {
  import opened Replies

  type byte = b: int | 0 <= b < 256

  /** What one `recv` on the data connection gave: -1, or the bytes read (none once the peer has closed). */
  datatype Chunk = ReadError | Bytes(data: seq<byte>)

  /** The value `recv` returned. */
  function RecvLength(c: Chunk): int {
    match c
    case ReadError => -1
    case Bytes(data) => |data|
  }

  /** `recv` into a BUFSIZE buffer never returns more than BUFSIZE bytes. */
  predicate WellFormed(chunks: seq<Chunk>) {
    forall i :: 0 <= i < |chunks| ==> RecvLength(chunks[i]) <= BUFSIZE
  }

  /** The result of the `i`-th `recv`; past the scripted ones the connection reads as closed. */
  function ChunkAt(chunks: seq<Chunk>, i: nat): Chunk {
    if i < |chunks| then chunks[i] else Bytes([])
  }

  /** The bytes of the chunks, in order. */
  function Concat(chunks: seq<Chunk>): seq<byte> {
    if chunks == [] then [] else (if chunks[0].Bytes? then chunks[0].data else []) + Concat(chunks[1..])
  }

  /** Why the copy stopped: a 0-byte read, a -1 read, or the size bound already passed. */
  datatype Stop = PeerClosed | ReadFailed | SizeReached

  /**
   * What the loop does from the point where `received` bytes have been
   * written: the bytes it then writes, why it stops and how many more chunks
   * it writes. It reads a chunk; stops on 0 bytes; stops without writing if
   * `received` is already above the size; breaks without writing on -1;
   * otherwise writes the whole chunk and goes on. It writes no more chunks
   * than the connection delivers, and at least one byte per chunk written.
   */
  function Copy(chunks: seq<Chunk>, received: int, size: int): (r: (seq<byte>, Stop, nat))
    ensures r.2 <= |chunks| && |r.0| >= r.2
    ensures r.0 == [] <==> r.2 == 0
    decreases |chunks|
  {
    var c := ChunkAt(chunks, 0);
    if RecvLength(c) == 0 then ([], PeerClosed, 0)
    else if !(received <= size) then ([], SizeReached, 0)
    else if c.ReadError? then ([], ReadFailed, 0)
    else
      var (rest, stop, written) := Copy(chunks[1..], received + |c.data|, size);
      (c.data + rest, stop, written + 1)
  }

  /**
   * The copy writes the first `written` chunks, each non-empty, whole and in
   * order, and nothing else.
   */
  lemma {:induction false} CopyWritesWholeChunks(chunks: seq<Chunk>, received: int, size: int)
    ensures var (file, _, written) := Copy(chunks, received, size);
      && written <= |chunks|
      && file == Concat(chunks[..written])
      && (forall i :: 0 <= i < written ==> chunks[i].Bytes? && chunks[i].data != [])
    decreases |chunks|
  {
    var c := ChunkAt(chunks, 0);
    if RecvLength(c) != 0 && received <= size && c.Bytes? {
      var tail := chunks[1..];
      CopyWritesWholeChunks(tail, received + |c.data|, size);
      var (rest, stop, written) := Copy(tail, received + |c.data|, size);
      assert tail[..written] == chunks[1..written + 1];
      assert chunks[..written + 1] == [c] + chunks[1..written + 1];
      assert chunks[..written + 1][1..] == tail[..written];
    }
  }

  /**
   * The copy stops on a 0-byte read; on a -1 read, with the count still
   * within the size; or, without writing, on the first read after the count
   * has passed the size. Each chunk, the last one written included, is
   * written while the count is at most the size, so no more than BUFSIZE
   * bytes past the size are ever written.
   */
  lemma {:induction false} CopyStopsAtBound(chunks: seq<Chunk>, received: int, size: int)
    requires WellFormed(chunks)
    ensures var (file, stop, written) := Copy(chunks, received, size);
      && (stop == PeerClosed <==> RecvLength(ChunkAt(chunks, written)) == 0)
      && (stop == ReadFailed ==> ChunkAt(chunks, written).ReadError? && received + |file| <= size)
      && (stop == SizeReached ==> received + |file| > size)
      && (written > 0 ==> received <= size)
      && (written > 0 ==> received + |file| - RecvLength(chunks[written - 1]) <= size)
      && |file| <= if received <= size then size - received + BUFSIZE else 0
    decreases |chunks|
  {
    CopyWritesWithinSize(chunks, received, size);
    var c := ChunkAt(chunks, 0);
    if RecvLength(c) != 0 && received <= size && c.Bytes? {
      var tail := chunks[1..];
      assert WellFormed(tail) by {
        assert forall i :: 0 <= i < |tail| ==> tail[i] == chunks[i + 1];
      }
      CopyStopsAtBound(tail, received + |c.data|, size);
      var (rest, stop, written) := Copy(tail, received + |c.data|, size);
      assert ChunkAt(tail, written) == ChunkAt(chunks, written + 1);
    }
  }

  /**
   * The size test comes before every write: the last chunk written, like
   * every one before it, was written while the count was at most the size.
   */
  lemma {:induction false} CopyWritesWithinSize(chunks: seq<Chunk>, received: int, size: int)
    ensures var (file, _, written) := Copy(chunks, received, size);
      written > 0 ==> received + |file| - RecvLength(chunks[written - 1]) <= size
    decreases |chunks|
  {
    var c := ChunkAt(chunks, 0);
    if RecvLength(c) != 0 && received <= size && c.Bytes? {
      var tail := chunks[1..];
      CopyWritesWithinSize(tail, received + |c.data|, size);
      var (rest, stop, written) := Copy(tail, received + |c.data|, size);
      if written > 0 {
        assert tail[written - 1] == chunks[written];
      }
    }
  }

  /** The loop ends at the chunk at `i` when it reads 0 bytes, when the count has passed the size, or on -1. */
  lemma CopyHalts(chunks: seq<Chunk>, i: nat, received: int, size: int)
    requires i <= |chunks|
    ensures var c := ChunkAt(chunks, i);
      && (RecvLength(c) == 0 ==> Copy(chunks[i..], received, size) == ([], PeerClosed, 0))
      && (RecvLength(c) != 0 && received > size ==> Copy(chunks[i..], received, size) == ([], SizeReached, 0))
      && (c.ReadError? && received <= size ==> Copy(chunks[i..], received, size) == ([], ReadFailed, 0))
  {
    assert ChunkAt(chunks, i) == ChunkAt(chunks[i..], 0);
  }

  /** One pass of the loop body when the chunk at `i` is written. */
  lemma CopyStep(chunks: seq<Chunk>, i: nat, received: int, size: int)
    requires i < |chunks| && chunks[i].Bytes? && chunks[i].data != [] && received <= size
    ensures var (rest, stop, written) := Copy(chunks[i + 1..], received + |chunks[i].data|, size);
      Copy(chunks[i..], received, size) == (chunks[i].data + rest, stop, written + 1)
  {
    assert chunks[i..][1..] == chunks[i + 1..];
  }

  /**
   * `recv_file(serverdd, file, size)`: the bytes written to the file, why the
   * loop stopped and how many chunks it wrote. Every chunk before the stop is
   * written in full and in order, and at most BUFSIZE bytes past the size.
   */
  method RecvFile(chunks: seq<Chunk>, size: int) returns (file: seq<byte>, stop: Stop, written: nat)
    requires WellFormed(chunks)
    ensures (file, stop, written) == Copy(chunks, 0, size)
    ensures |file| <= if size >= 0 then size + BUFSIZE else 0
  {
    var received := 0;
    var i := 0;
    file := [];
    ghost var total := Copy(chunks, 0, size);
    assert chunks[0..] == chunks;
    assert [] + total.0 == total.0;
    while true
      invariant 0 <= i <= |chunks| && received == |file|
      invariant var (rest, s, w) := Copy(chunks[i..], received, size); total == (file + rest, s, i + w)
      decreases |chunks| - i
    {
      var c := ChunkAt(chunks, i);
      assert c == ChunkAt(chunks[i..], 0);
      var bufLen := RecvLength(c);
      CopyHalts(chunks, i, received, size);
      if !(bufLen != 0 && received <= size) {
        stop := if bufLen == 0 then PeerClosed else SizeReached;
        break;
      }
      if bufLen == -1 {
        stop := ReadFailed;
        break;
      }
      CopyStep(chunks, i, received, size);
      ghost var rest := Copy(chunks[i + 1..], received + bufLen, size).0;
      assert file + (c.data + rest) == (file + c.data) + rest;
      file := file + c.data;
      received := received + bufLen;
      i := i + 1;
    }
    written := i;
    assert file + [] == file;
    CopyStopsAtBound(chunks, 0, size);
  }
}
