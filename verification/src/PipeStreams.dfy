/** The ring buffer of a pipe as a byte stream. */
module PipeStreams {
  import opened Common
  import opened Descriptors

  const PIPE_BUF: nat := 512

  /** Positions count bytes since the pipe was made; at most a buffer of them is unread. */
  predicate PipeOk(q: Pipe) {
    |q.buf| == PIPE_BUF && q.readPos <= q.writePos < TWO64 && q.writePos - q.readPos <= PIPE_BUF
  }

  /** The bytes written and not yet read, oldest first. */
  function Content(q: Pipe): seq<nat>
    requires PipeOk(q)
  {
    seq(q.writePos - q.readPos, i requires 0 <= i < q.writePos - q.readPos => q.buf[(q.readPos + i) % PIPE_BUF])
  }

  predicate Full(q: Pipe) {
    (q.writePos - q.readPos) % TWO64 >= PIPE_BUF
  }

  function PutByte(q: Pipe, b: nat): Pipe
    requires |q.buf| == PIPE_BUF
  {
    q.(buf := q.buf[q.writePos % PIPE_BUF := b], writePos := (q.writePos + 1) % TWO64)
  }

  /** write_to_pipe: bytes go in until the data or the space runs out. */
  function PutBytes(q: Pipe, data: seq<nat>): Pipe
    requires |q.buf| == PIPE_BUF
    decreases |data|
  {
    if data == [] || Full(q) then q else PutBytes(PutByte(q, data[0]), data[1..])
  }

  /** What write_to_pipe returns. */
  function Accepted(q: Pipe, data: seq<nat>): nat
    requires PipeOk(q)
  {
    Min(|data|, PIPE_BUF - (q.writePos - q.readPos))
  }

  /** What read_from_pipe returns: as many bytes as asked for and available, oldest first. */
  function ReadBytes(q: Pipe, len: nat): seq<nat>
    requires PipeOk(q)
  {
    Content(q)[..Min(len, |Content(q)|)]
  }

  /** The pipe after read_from_pipe. */
  function AfterRead(q: Pipe, len: nat): Pipe
    requires PipeOk(q)
  {
    q.(readPos := q.readPos + Min(len, q.writePos - q.readPos))
  }

  lemma PutByteAppends(q: Pipe, b: nat)
    requires PipeOk(q) && !Full(q) && q.writePos + 1 < TWO64
    ensures PipeOk(PutByte(q, b)) && Content(PutByte(q, b)) == Content(q) + [b]
  {
    var q' := PutByte(q, b);
    var n := q.writePos - q.readPos;
    forall i | 0 <= i <= n ensures Content(q')[i] == (Content(q) + [b])[i] {
      if i < n { DistinctCells(q.readPos + i, q.writePos); }
    }
  }

  lemma DistinctCells(x: nat, y: nat)
    requires x < y < x + PIPE_BUF
    ensures x % PIPE_BUF != y % PIPE_BUF
  {
  }

  lemma JoinWrites(c: seq<nat>, data: seq<nat>, n: nat)
    requires 0 < n <= |data|
    ensures c + [data[0]] + data[1..][..n - 1] == c + data[..n]
  {
    assert [data[0]] + data[1..][..n - 1] == data[..n];
  }

  /** A write appends exactly the bytes it accepts: as many as fit. */
  lemma {:induction false} WriteAppends(q: Pipe, data: seq<nat>)
    requires PipeOk(q) && q.writePos + Accepted(q, data) < TWO64
    ensures
      var q' := PutBytes(q, data);
      && PipeOk(q')
      && q' == q.(buf := q'.buf, writePos := q.writePos + Accepted(q, data))
      && Content(q') == Content(q) + data[..Accepted(q, data)]
    decreases |data|
  {
    var n := Accepted(q, data);
    if n == 0 {
      NothingPut(q, data);
      assert data[..0] == [];
    } else {
      var q1, rest := PutByte(q, data[0]), data[1..];
      FirstPut(q, data);
      PutByteAppends(q, data[0]);
      assert Accepted(q1, rest) == n - 1;
      WriteAppends(q1, rest);
      JoinWrites(Content(q), data, n);
    }
  }

  /** A read takes the oldest bytes off the front. */
  lemma ReadTakesFront(q: Pipe, len: nat)
    requires PipeOk(q)
    ensures PipeOk(AfterRead(q, len))
    ensures ReadBytes(q, len) + Content(AfterRead(q, len)) == Content(q)
    ensures |ReadBytes(q, len)| == Min(len, |Content(q)|)
  {
  }

  lemma {:induction false} PutBytesPositions(q: Pipe, data: seq<nat>, room: nat)
    requires |q.buf| == PIPE_BUF && q.writePos < TWO64 && q.readPos < TWO64
    requires room <= PIPE_BUF && (q.writePos - q.readPos) % TWO64 == PIPE_BUF - room
    ensures PutBytes(q, data).writePos == (q.writePos + Min(|data|, room)) % TWO64
    ensures PutBytes(q, data).readPos == q.readPos
    decreases |data|
  {
    if data == [] || room == 0 {
      NothingPut(q, data);
    } else {
      var q1, rest := PutByte(q, data[0]), data[1..];
      FirstPut(q, data);
      NextDistance(q.writePos, q.readPos, PIPE_BUF - room);
      PutBytesPositions(q1, rest, room - 1);
      WrapAdd(q.writePos, Min(|rest|, room - 1));
    }
  }

  lemma NothingPut(q: Pipe, data: seq<nat>)
    requires |q.buf| == PIPE_BUF && q.writePos < TWO64 && (data == [] || Full(q))
    ensures PutBytes(q, data) == q && q.writePos == (q.writePos + 0) % TWO64
  {
  }

  lemma NextPut(q: Pipe, data: seq<nat>, k: nat)
    requires |q.buf| == PIPE_BUF && k < |data| && !Full(q)
    ensures PutBytes(q, data[k..]) == PutBytes(PutByte(q, data[k]), data[k + 1..])
  {
    assert data[k..][1..] == data[k + 1..];
  }

  lemma FirstPut(q: Pipe, data: seq<nat>)
    requires |q.buf| == PIPE_BUF && data != [] && !Full(q)
    ensures PutBytes(q, data) == PutBytes(PutByte(q, data[0]), data[1..])
  {
  }

  lemma NextDistance(w: nat, r: nat, d: nat)
    requires w < TWO64 && r < TWO64 && (w - r) % TWO64 == d < PIPE_BUF
    ensures ((w + 1) % TWO64 - r) % TWO64 == d + 1
  {
  }

  lemma WrapOnce(w: nat, n: nat)
    requires w < TWO64 && n <= PIPE_BUF
    ensures (w + n) % TWO64 == if w + n < TWO64 then w + n else w + n - TWO64
  {
  }

  lemma WrapAdd(w: nat, n: nat)
    requires w < TWO64
    ensures ((w + 1) % TWO64 + n) % TWO64 == (w + 1 + n) % TWO64
  {
  }

  /** The positions are 64-bit: a write leaves the stream readable exactly when it does not carry the
      write position past 2^64. */
  lemma ReadableIffNoWrap(q: Pipe, data: seq<nat>)
    requires PipeOk(q)
    ensures PutBytes(q, data).readPos <= PutBytes(q, data).writePos <==> q.writePos + Accepted(q, data) < TWO64
  {
    var room := PIPE_BUF - (q.writePos - q.readPos);
    PutBytesPositions(q, data, room);
    WrapOnce(q.writePos, Accepted(q, data));
  }

  /** write_to_pipe's loop. */
  method WriteToPipe(pipe: Pipe, data: seq<nat>) returns (after: Pipe, written: nat)
    requires PipeOk(pipe)
    ensures after == PutBytes(pipe, data) && written == Accepted(pipe, data)
  {
    after, written := pipe, 0;
    ghost var buffered := pipe.writePos - pipe.readPos;
    assert (pipe.writePos - pipe.readPos) % TWO64 == buffered;
    while written < |data| && (after.writePos - after.readPos) % TWO64 < PIPE_BUF
      invariant written <= |data| && |after.buf| == PIPE_BUF && after.writePos < TWO64
      invariant after.readPos == pipe.readPos && buffered + written <= PIPE_BUF
      invariant (after.writePos - after.readPos) % TWO64 == buffered + written
      invariant PutBytes(after, data[written..]) == PutBytes(pipe, data)
      decreases |data| - written
    {
      NextDistance(after.writePos, after.readPos, buffered + written);
      NextPut(after, data, written);
      after := after.(buf := after.buf[after.writePos % PIPE_BUF := data[written]],
                      writePos := (after.writePos + 1) % TWO64);
      written := written + 1;
    }
  }

  /** read_from_pipe's loop. */
  method ReadFromPipe(pipe: Pipe, len: nat) returns (after: Pipe, out: seq<nat>)
    requires PipeOk(pipe)
    ensures after == AfterRead(pipe, len) && out == ReadBytes(pipe, len)
  {
    after, out := pipe, [];
    while |out| < len && after.readPos < after.writePos
      invariant |out| <= len && |out| <= |Content(pipe)|
      invariant after == pipe.(readPos := pipe.readPos + |out|)
      invariant out == Content(pipe)[..|out|]
      decreases len - |out|
    {
      out := out + [after.buf[after.readPos % PIPE_BUF]];
      after := after.(readPos := after.readPos + 1);
    }
  }
}
