/** The byte window `TCPClient.readFileChunk` cuts out of a file: chunk `i`
    of size `C` starts at `i * C` and runs for `C` bytes or to the end of the
    file, whichever comes first. The file is given as its contents; the read
    from disk is taken to deliver every byte asked for. */
module ChunkWindow {
  import opened Wrappers
  import opened JavaNumbers

  /** The two exceptions the window arithmetic can raise before any byte is
      read: a negative array length (`NegativeArraySizeException`) and a
      negative seek offset (the `IOException` of `RandomAccessFile.seek`). */
  datatype ChunkReadError = NegativeArraySize | NegativeSeek

  function Min(a: int, b: int): int {
    if a <= b then a else b
  }

  /** `(long) chunkId * chunkSize`: the product of two `int`s always fits a
      `long`, so the 64-bit multiplication never wraps. */
  function WindowStart(chunkId: int32, chunkSize: int32): (s: int)
    ensures LONG_MIN <= s <= LONG_MAX
    ensures s == chunkId as int * chunkSize as int
  {
    ProductFitsLong(chunkId, chunkSize);
    chunkId as int * chunkSize as int
  }

  lemma ProductFitsLong(a: int32, b: int32)
    ensures -0x4000_0000_0000_0000 <= a as int * b as int <= 0x4000_0000_0000_0000
  {
    var x: int := a;
    var y: int := b;
    var ax: nat := if x < 0 then -x else x;
    var ay: nat := if y < 0 then -y else y;
    BoundedProduct(ax, ay);
    assert x * y == ax * ay || x * y == -(ax * ay) by {
      SignedProduct(x, y);
    }
  }

  lemma BoundedProduct(x: nat, y: nat)
    requires x <= 0x8000_0000 && y <= 0x8000_0000
    ensures x * y <= 0x4000_0000_0000_0000
  {
    if y > 0 {
      MulMonotone(x, 0x8000_0000, y);
      MulMonotone(y, 0x8000_0000, 0x8000_0000);
    }
  }

  lemma SignedProduct(x: int, y: int)
    ensures x * y == (if x < 0 then -x else x) * (if y < 0 then -y else y) ||
            x * y == -((if x < 0 then -x else x) * (if y < 0 then -y else y))
  {
    if x < 0 {
      assert x * y == -((-x) * y);
    }
    if y < 0 {
      assert x * y == -(x * (-y));
    }
  }

  /** `readFileChunk(file, chunkId, chunkSize)`. A window starting at or past
      the end is empty; otherwise the length `min(chunkSize, fileSize -
      start)` is allocated first and the seek comes second, so a negative
      size is reported before a negative start. */
  function ReadFileChunk(file: seq<byte>, chunkId: int32, chunkSize: int32): (r: Result<seq<byte>, ChunkReadError>)
    ensures WindowStart(chunkId, chunkSize) >= |file| ==> r == Ok([])
    ensures WindowStart(chunkId, chunkSize) < |file| && chunkSize < 0 ==> r == Err(NegativeArraySize)
    ensures WindowStart(chunkId, chunkSize) < 0 && chunkSize >= 0 ==> r == Err(NegativeSeek)
    ensures chunkSize == 0 && WindowStart(chunkId, chunkSize) < |file| ==> r == Ok([])
    ensures r.Ok? && |r.value| > 0 ==>
              var start := WindowStart(chunkId, chunkSize);
              0 <= start && start + |r.value| <= |file| && r.value == file[start..start + |r.value|]
    ensures 0 <= WindowStart(chunkId, chunkSize) < |file| && chunkSize > 0 ==>
              r.Ok? && 1 <= |r.value| <= chunkSize &&
              (|r.value| == chunkSize || WindowStart(chunkId, chunkSize) + |r.value| == |file|)
  {
    var start := WindowStart(chunkId, chunkSize);
    if start >= |file| then Ok([])
    else
      var len := Min(chunkSize as int, |file| - start);
      if len < 0 then Err(NegativeArraySize)
      else if start < 0 then Err(NegativeSeek)
      else Ok(file[start..start + len])
  }

  /** The number of chunks of size `chunkSize` a file of `fileSize` bytes
      needs: the ceiling of the quotient. */
  function ChunkCount(fileSize: nat, chunkSize: nat): nat
    requires chunkSize > 0
  {
    (fileSize + chunkSize - 1) / chunkSize
  }

  /** Chunks `0 .. count - 1` read one after the other and concatenated; a
      failed read contributes nothing. */
  function Assemble(file: seq<byte>, chunkSize: int32, count: nat): seq<byte>
    requires count <= INT_MAX + 1
    decreases count
  {
    if count == 0 then []
    else
      var prev := Assemble(file, chunkSize, count - 1);
      match ReadFileChunk(file, (count - 1) as int32, chunkSize)
      case Ok(d) => prev + d
      case Err(_) => prev
  }

  /** The first `count` chunks are exactly the first `count * chunkSize`
      bytes of the file (all of it once that passes the end). */
  lemma {:induction false} AssembleIsPrefix(file: seq<byte>, chunkSize: int32, count: nat)
    requires chunkSize > 0 && count <= INT_MAX + 1
    ensures Assemble(file, chunkSize, count) == file[..Min(count * chunkSize, |file|)]
    decreases count
  {
    if count > 0 {
      var m := count - 1;
      var c: int := chunkSize;
      AssembleIsPrefix(file, chunkSize, m);
      var start := WindowStart(m as int32, chunkSize);
      MulSucc(m, c);
      assert count * c == start + c;
      var prev := file[..Min(start, |file|)];
      assert Assemble(file, chunkSize, m) == prev;
      if start < |file| {
        var d := ReadFileChunk(file, m as int32, chunkSize).value;
        assert |d| == Min(c, |file| - start);
        assert file[..start] + file[start..start + |d|] == file[..start + |d|];
      }
    }
  }

  lemma MulSucc(m: int, c: int)
    ensures m * c + c == (m + 1) * c
  {
  }

  lemma MulMonotone(a: int, b: int, c: int)
    requires a <= b && c > 0
    ensures a * c <= b * c
  {
    assert b * c - a * c == (b - a) * c;
  }

  /** Chunks `0 .. ceil(F / C) - 1` tile a file of `F` bytes: together they
      are the file, each of them is non-empty, and every later chunk id reads
      as empty. */
  lemma ChunksTileFile(file: seq<byte>, chunkSize: int32)
    requires chunkSize > 0 && ChunkCount(|file|, chunkSize) <= INT_MAX + 1
    ensures Assemble(file, chunkSize, ChunkCount(|file|, chunkSize)) == file
    ensures forall id: int32 :: 0 <= id < ChunkCount(|file|, chunkSize) ==>
              ReadFileChunk(file, id, chunkSize).Ok? && |ReadFileChunk(file, id, chunkSize).value| > 0
    ensures forall id: int32 :: id >= ChunkCount(|file|, chunkSize) ==> ReadFileChunk(file, id, chunkSize) == Ok([])
  {
    var f := |file|;
    var c: int := chunkSize;
    var n := ChunkCount(f, c);
    var rem := (f + c - 1) % c;
    assert n * c + rem == f + c - 1;
    assert n * c >= f;
    AssembleIsPrefix(file, chunkSize, n);
    assert (n - 1) * c < f by {
      MulSucc(n - 1, c);
    }
    forall id: int32 | 0 <= id < n
      ensures ReadFileChunk(file, id, chunkSize).Ok? && |ReadFileChunk(file, id, chunkSize).value| > 0
    {
      MulMonotone(id, n - 1, c);
      MulMonotone(0, id, c);
    }
    forall id: int32 | id >= n
      ensures ReadFileChunk(file, id, chunkSize) == Ok([])
    {
      MulMonotone(n, id, c);
    }
  }
}
