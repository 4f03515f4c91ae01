/** Reading a file piece by piece, as both file systems answer READ. */
module ChunkedRead {
  import opened Bytes

  /** The bytes from offset on, at most count of them, and whether the end of the file is reached. */
  function Chunk(file: seq<byte>, offset: nat, count: nat): (r: (seq<byte>, bool))
    ensures |r.0| <= count
  {
    var rest := if offset <= |file| then file[offset..] else [];
    (if |rest| <= count then rest else rest[..count], offset + count >= |file|)
  }

  /** The clamping of both ends; offset plus count must not exceed a machine word. */
  method ReadChunk(file: seq<byte>, offset: u64, count: u32) returns (buf: seq<byte>, eof: bool)
    requires |file| < 0x1_0000_0000_0000_0000 && offset + count < 0x1_0000_0000_0000_0000
    ensures (buf, eof) == Chunk(file, offset, count)
  {
    var start: nat := offset;
    var end: nat := offset + count;
    eof := end >= |file|;
    if start >= |file| { start := |file|; }
    if end > |file| { end := |file|; }
    buf := file[start..end];
    assert buf == Chunk(file, offset, count).0;
  }

  /** End of file is said exactly by the calls that reach the end. */
  lemma EofIsTheEnd(file: seq<byte>, offset: nat, count: nat)
    requires offset <= |file|
    ensures var (buf, eof) := Chunk(file, offset, count);
            && offset + |buf| <= |file| && buf == file[offset..offset + |buf|]
            && (eof <==> offset + |buf| == |file|)
  {}

  /** The client's calls from an offset until end of file: all bytes received, and the calls made. */
  function ReadOn(file: seq<byte>, offset: nat, counts: seq<u32>): (seq<byte>, nat, bool)
    decreases |counts|
  {
    if counts == [] then ([], 0, false)
    else
      var (buf, eof) := Chunk(file, offset, counts[0]);
      if eof then (buf, 1, true)
      else
        var (more, calls, done) := ReadOn(file, offset + |buf|, counts[1..]);
        (buf + more, calls + 1, done)
  }

  predicate Positive(counts: seq<u32>) { forall i | 0 <= i < |counts| :: counts[i] > 0 }

  lemma {:induction false} ReadsOn(file: seq<byte>, offset: nat, counts: seq<u32>)
    requires offset <= |file| && Positive(counts)
    ensures var (got, calls, done) := ReadOn(file, offset, counts);
            && offset + |got| <= |file| && got == file[offset..offset + |got|]
            && (done <==> counts != [] && offset + |got| == |file|)
            && calls <= (if offset == |file| then 1 else |file| - offset)
            && (!done ==> |got| >= |counts|)
    decreases |counts|
  {
    hide Chunk;
    if counts != [] {
      EofIsTheEnd(file, offset, counts[0]);
      ChunkProgress(file, offset, counts[0]);
      var (buf, eof) := Chunk(file, offset, counts[0]);
      if !eof {
        ReadsOn(file, offset + |buf|, counts[1..]);
        var next := offset + |buf|;
        SlicesJoin(file, offset, next, next + |ReadOn(file, next, counts[1..]).0|);
      }
    }
  }

  lemma ChunkProgress(file: seq<byte>, offset: nat, count: nat)
    requires offset <= |file| && count > 0
    ensures offset < |file| ==> Chunk(file, offset, count).0 != []
  {}

  /**
   Reading from offset 0 with any positive counts until end of file gives the whole file, within
   max(1, length) calls.
   */
  lemma {:induction false} ReadsWholeFile(file: seq<byte>, counts: seq<u32>)
    requires Positive(counts)
    ensures var (got, calls, done) := ReadOn(file, 0, counts);
            && (done ==> got == file)
            && calls <= (if file == [] then 1 else |file|)
            && (|counts| >= (if file == [] then 1 else |file|) ==> done)
  {
    ReadsOn(file, 0, counts);
    var got := ReadOn(file, 0, counts).0;
    assert got == file[0..|got|];
    if |got| == |file| { assert file[0..|got|] == file; }
  }
}
