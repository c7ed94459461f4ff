// Copying from one stream to another through a fixed buffer.
module FileUtils {
  import opened Bytes
  import opened Sequences

  const BUFFER_LEN := 8092

  // std::istream over bytes that do not change: a short read sets the fail bit, and a stream that has failed neither
  // reads nor seeks.
  class InputStream {
    const data: Bytes
    var pos: nat
    var failed: bool

    constructor (data: Bytes)
      ensures this.data == data && pos == 0 && !failed
    {
      this.data := data;
      pos, failed := 0, false;
    }

    // Seeking past the end succeeds and leaves nothing to read; seeking before the start fails.
    method SeekFromStart(offset: int)
      modifies this
      ensures failed == (old(failed) || offset < 0)
      ensures pos == if failed then old(pos) else offset
    {
      if !failed {
        if offset < 0 { failed := true; } else { pos := offset; }
      }
    }

    method SeekToEnd()
      modifies this
      ensures failed == old(failed) && pos == if failed then old(pos) else |data|
    {
      if !failed { pos := |data|; }
    }

    method Tell() returns (p: int)
      ensures p == if failed then -1 else pos
    {
      p := if failed then -1 else pos;
    }

    ghost function Readable(): Bytes
      reads this
    {
      if failed || pos >= |data| then "" else data[pos..]
    }

    // read and gcount
    method Read(buffer: array<Byte>, n: nat) returns (got: nat)
      requires n <= buffer.Length
      modifies this, buffer
      ensures got == if |old(Readable())| < n then |old(Readable())| else n
      ensures buffer[..got] == old(Readable())[..got]
      ensures pos == old(pos) + got && failed == (old(failed) || got < n)
    {
      if failed { return 0; }
      if pos >= |data| {
        failed := 0 < n;
        return 0;
      }
      got := if |data| - pos < n then |data| - pos else n;
      for i := 0 to got
        invariant pos == old(pos) && !failed
        invariant buffer[..i] == data[pos..pos + i]
      {
        buffer[i] := data[pos + i];
      }
      pos := pos + got;
      failed := got < n;
    }
  }

  class OutputStream {
    var written: Bytes

    constructor ()
      ensures written == ""
    {
      written := "";
    }

    method Write(bytes: Bytes)
      modifies this
      ensures written == old(written) + bytes
    {
      written := written + bytes;
    }
  }

  // The part of the data from start on, at most count bytes of it.
  function Range(data: Bytes, start: nat, count: int): (r: Bytes) {
    if start >= |data| || count <= 0 then "" else data[start..if |data| - start < count then |data| else start + count]
  }

  // The range holds the bytes from start on, as many as were asked for and are there.
  lemma RangeBytes(data: Bytes, start: nat, count: int)
    ensures var r, left := Range(data, start, count), |data| - start;
      && |r| == (if count <= 0 || left <= 0 then 0 else if left < count then left else count)
      && forall i | 0 <= i < |r| :: r[i] == data[start + i]
  {
  }

  method StreamCopier(input: InputStream, output: OutputStream, count: int, bufferLen: nat := BUFFER_LEN)
    returns (copied: int)
    requires bufferLen > 0
    modifies input, output
    ensures var r := if old(input.failed) then "" else Range(input.data, old(input.pos), count);
      && copied == |r| && output.written == old(output.written) + r
      && input.pos == old(input.pos) + |r| && input.failed == (old(input.failed) || |r| < count)
  {
    copied := 0;
    var buffer := new Byte[bufferLen];
    ghost var r := if input.failed then "" else Range(input.data, input.pos, count);
    while copied < count
      invariant 0 <= copied <= |r| && input.pos == old(input.pos) + copied && input.failed == old(input.failed)
      invariant output.written == old(output.written) + r[..copied]
      decreases count - copied
    {
      hide Range;
      var chunk := if bufferLen < count - copied then bufferLen else count - copied;
      if !input.failed { NextChunk(input.data, old(input.pos), count, copied, chunk); }
      ghost var readable := input.Readable();
      var got := input.Read(buffer, chunk);
      if got <= 0 { break; }
      output.Write(buffer[..got]);
      Regroup(old(output.written), r[..copied], readable[..got]);
      copied := copied + got;
      if got < chunk { break; }
    }
    assert copied == |r| && r[..copied] == r;
  }

  lemma NextChunk(data: Bytes, pos: nat, count: nat, copied: nat, chunk: nat)
    requires copied <= |Range(data, pos, count)| && copied + chunk <= count
    ensures var r := Range(data, pos, count);
      var readable := if pos + copied >= |data| then "" else data[pos + copied..];
      var got := if |readable| < chunk then |readable| else chunk;
      && copied + got <= |r| && r[..copied + got] == r[..copied] + readable[..got]
      && (got < chunk ==> copied + got == |r|)
  {
  }

  // The whole stream, whatever its position was. One that has failed reports the length -1 and gives nothing.
  method StreamCopierWhole(input: InputStream, output: OutputStream, bufferLen: nat := BUFFER_LEN) returns (copied: int)
    requires bufferLen > 0
    modifies input, output
    ensures var r := if old(input.failed) then "" else input.data;
      copied == |r| && output.written == old(output.written) + r && input.failed == old(input.failed)
  {
    input.SeekToEnd();
    var count := input.Tell();
    input.SeekFromStart(0);
    copied := StreamCopier(input, output, count, bufferLen);
  }

  // The loop after the seek is the one above.
  method StreamCopierRange(input: InputStream, output: OutputStream, start: int, count: int,
                           bufferLen: nat := BUFFER_LEN)
    returns (copied: int)
    requires bufferLen > 0
    modifies input, output
    ensures var r := if old(input.failed) || start < 0 then "" else Range(input.data, start, count);
      && copied == |r| && output.written == old(output.written) + r
      && input.failed == (old(input.failed) || start < 0 || |r| < count)
  {
    input.SeekFromStart(start);
    copied := StreamCopier(input, output, count, bufferLen);
  }

  // ---- ranges put together ----

  function Sum(counts: seq<nat>): nat {
    if counts == [] then 0 else Sum(counts[..|counts| - 1]) + counts[|counts| - 1]
  }

  function Pieces(data: Bytes, counts: seq<nat>): Bytes {
    if counts == [] then ""
    else
      var before := counts[..|counts| - 1];
      Pieces(data, before) + Range(data, Sum(before), counts[|counts| - 1])
  }

  // Consecutive ranges give the file up to where they end; a partition of it gives the whole file.
  lemma {:induction false} PiecesMakeTheFile(data: Bytes, counts: seq<nat>)
    ensures Pieces(data, counts) == Range(data, 0, Sum(counts))
    ensures Sum(counts) >= |data| ==> Pieces(data, counts) == data
  {
    if counts != [] {
      var before, last := counts[..|counts| - 1], counts[|counts| - 1];
      PiecesMakeTheFile(data, before);
      RangesJoin(data, Sum(before), last);
    }
  }

  lemma RangesJoin(data: Bytes, n: nat, m: nat)
    ensures Range(data, 0, n) + Range(data, n, m) == Range(data, 0, n + m)
  {
  }

  // The same on one stream, range by range. A short read makes every later seek fail, but then nothing is left.
  method CopyInPieces(input: InputStream, output: OutputStream, counts: seq<nat>, bufferLen: nat := BUFFER_LEN)
    requires bufferLen > 0 && !input.failed
    modifies input, output
    ensures output.written == old(output.written) + Range(input.data, 0, Sum(counts))
  {
    var start := 0;
    for i := 0 to |counts|
      invariant start == Sum(counts[..i])
      invariant input.failed ==> start >= |input.data|
      invariant output.written == old(output.written) + Pieces(input.data, counts[..i])
    {
      assert counts[..i + 1][..i] == counts[..i];
      var piece := Range(input.data, start, counts[i]);
      var copied := StreamCopierRange(input, output, start, counts[i], bufferLen);
      Regroup(old(output.written), Pieces(input.data, counts[..i]), piece);
      start := start + counts[i];
    }
    assert counts[..|counts|] == counts;
    PiecesMakeTheFile(input.data, counts);
  }
}
