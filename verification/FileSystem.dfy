/** The read-only file system image of student-distrib/file_system.c: a boot block, inodes, then data blocks. */
module FileSystem {
  import opened Machine

  const BLOCK := 4096
  const MAX_BLOCKS := 1023

  /** The `k`th 32-bit little-endian word of the image. */
  function Word(img: seq<Byte>, k: nat): Word32
    requires 4 * k + 4 <= |img|
  {
    img[4 * k] as int + 0x100 * (img[4 * k + 1] as int) + 0x1_0000 * (img[4 * k + 2] as int) + 0x100_0000 * (img[4 * k + 3] as int)
  }

  function NumInodes(img: seq<Byte>): nat
    requires |img| >= BLOCK
  {
    Word(img, 1)
  }

  function NumBlocks(img: seq<Byte>): nat
    requires |img| >= BLOCK
  {
    Word(img, 2)
  }

  function FileLength(img: seq<Byte>, inode: nat): nat
    requires |img| >= BLOCK * (inode + 2)
  {
    Word(img, 1024 * (inode + 1))
  }

  function BlockNumber(img: seq<Byte>, inode: nat, k: nat): nat
    requires |img| >= BLOCK * (inode + 2) && k < MAX_BLOCKS
  {
    Word(img, 1024 * (inode + 1) + 1 + k)
  }

  /** The image has as many blocks as it says, and no file is longer than its inode can describe. */
  predicate Sound(img: seq<Byte>) {
    && |img| >= BLOCK
    && |img| == BLOCK * (1 + NumInodes(img) + NumBlocks(img))
    && forall i :: 0 <= i < NumInodes(img) ==> FileLength(img, i) <= BLOCK * MAX_BLOCKS
  }

  predicate GoodBlock(img: seq<Byte>, inode: nat, k: nat)
    requires Sound(img) && inode < NumInodes(img) && k < MAX_BLOCKS
  {
    BlockNumber(img, inode, k) < NumBlocks(img)
  }

  /** Where the `k`th block of a file starts in the image. */
  function BlockStart(img: seq<Byte>, inode: nat, k: nat): (p: nat)
    requires Sound(img) && inode < NumInodes(img) && k < MAX_BLOCKS && GoodBlock(img, inode, k)
    ensures p + BLOCK <= |img|
  {
    BLOCK * (NumInodes(img) + BlockNumber(img, inode, k) + 1)
  }

  /** The first block from `k` on that is bad or lies beyond the end of the file. */
  function StopBlock(img: seq<Byte>, inode: nat, k: nat): (n: nat)
    requires Sound(img) && inode < NumInodes(img)
    ensures k <= n
    ensures forall j :: k <= j < n ==> BLOCK * j < FileLength(img, inode) && j < MAX_BLOCKS && GoodBlock(img, inode, j)
    ensures BLOCK * n >= FileLength(img, inode) || !GoodBlock(img, inode, n)
    decreases MAX_BLOCKS - k
  {
    if BLOCK * k >= FileLength(img, inode) || !GoodBlock(img, inode, k) then k else StopBlock(img, inode, k + 1)
  }

  /** Byte `p` of a file, through its block. */
  function FileByte(img: seq<Byte>, inode: nat, p: nat): Byte
    requires Sound(img) && inode < NumInodes(img) && p < BLOCK * MAX_BLOCKS && GoodBlock(img, inode, p / BLOCK)
  {
    img[BlockStart(img, inode, p / BLOCK) + p % BLOCK]
  }

  /** The bytes from `from` up to `to` all lie in good blocks. */
  predicate Readable(img: seq<Byte>, inode: nat, from: nat, to: nat)
    requires Sound(img) && inode < NumInodes(img)
  {
    from <= to <= BLOCK * MAX_BLOCKS && forall p :: from <= p < to ==> GoodBlock(img, inode, p / BLOCK)
  }

  /** The file as one flat sequence, from `from` up to `to`. */
  function FileSlice(img: seq<Byte>, inode: nat, from: nat, to: nat): (s: seq<Byte>)
    requires Sound(img) && inode < NumInodes(img) && Readable(img, inode, from, to)
    ensures |s| == to - from
  {
    seq<Byte>(to - from, i requires 0 <= i < to - from => FileByte(img, inode, from + i))
  }

  // ----- What read_data delivers

  /** Where reading stops: at the length asked for, the end of the file, or a bad block, whichever comes first. */
  function ReadEnd(img: seq<Byte>, inode: nat, offset: nat, length: nat): (e: nat)
    requires Sound(img) && inode < NumInodes(img) && offset < FileLength(img, inode)
    requires GoodBlock(img, inode, offset / BLOCK)
    ensures offset <= e <= FileLength(img, inode) && e - offset <= length && Readable(img, inode, offset, e)
  {
    var stop := StopBlock(img, inode, offset / BLOCK);
    assert stop > offset / BLOCK;
    Min(Min(offset + length, FileLength(img, inode)), BLOCK * stop)
  }

  /** Reading stops early only at the end of the file or at the start of a bad block. */
  lemma ReadsOnUntilBadBlock(img: seq<Byte>, inode: nat, offset: nat, length: nat)
    requires Sound(img) && inode < NumInodes(img) && offset < FileLength(img, inode)
    requires GoodBlock(img, inode, offset / BLOCK)
    ensures var e := ReadEnd(img, inode, offset, length);
            && (e == offset + length || e == FileLength(img, inode) || (e % 4096 == 0 && !GoodBlock(img, inode, e / 4096)))
            && (length > 0 ==> e > offset)
  {
  }

  /** The length left to read, with the 32-bit sum of the source. */
  function Truncated(offset: Word32, length: Word32, fileLength: Word32): Word32
    requires offset < fileLength
  {
    if (offset + length) % 0x1_0000_0000 > fileLength then fileLength - offset else length
  }

  /** The truncation is right exactly when the sum does not wrap around. */
  lemma TruncationExact(offset: Word32, length: Word32, fileLength: Word32)
    requires offset < fileLength
    ensures Truncated(offset, length, fileLength) == Min(length, fileLength - offset) <==> offset + length < 0x1_0000_0000
  {
  }

  /** A read of almost 4 GB from the second byte of a two-byte file is not cut at all. */
  lemma WrappedSumIsNotCut(offset: Word32, length: Word32, fileLength: Word32)
    requires offset == 1 && length == 0xFFFF_FFFF && fileLength == 2
    ensures Truncated(offset, length, fileLength) == length > fileLength - offset
  {
  }

  method CopyIn(img: seq<Byte>, from: nat, buf: array<Byte>, at: nat, n: nat)
    requires from + n <= |img| && at + n <= buf.Length
    modifies buf
    ensures forall i :: 0 <= i < buf.Length ==> buf[i] == if at <= i < at + n then img[from + i - at] else old(buf[i])
  {
    for i := 0 to n
      invariant forall k :: 0 <= k < buf.Length ==> buf[k] == if at <= k < at + i then img[from + k - at] else old(buf[k])
    {
      buf[at + i] := img[from + i];
    }
  }

  /** The value read_data returns. */
  function ReadResult(img: seq<Byte>, inode: nat, offset: nat, length: nat): int
    requires Sound(img)
  {
    if inode >= NumInodes(img) then -1
    else if offset >= FileLength(img, inode) then 0
    else if !GoodBlock(img, inode, offset / BLOCK) then -1
    else ReadEnd(img, inode, offset, length) - offset
  }

  /** A read fails exactly on a bad inode or when the first block wanted is bad; behind the end there is nothing to read. */
  lemma FailsExactly(img: seq<Byte>, inode: nat, offset: nat, length: nat)
    requires Sound(img)
    ensures var r := ReadResult(img, inode, offset, length);
            && (r == -1 || 0 <= r <= length)
            && (r == -1 <==> inode >= NumInodes(img) || (offset < FileLength(img, inode) && !GoodBlock(img, inode, offset / 4096)))
            && (inode < NumInodes(img) && offset >= FileLength(img, inode) ==> r == 0)
  {
  }

  /** The bytes read_data stores: a slice of the flat file. */
  function ReadBytes(img: seq<Byte>, inode: nat, offset: nat, length: nat): (s: seq<Byte>)
    requires Sound(img)
    ensures ReadResult(img, inode, offset, length) >= 0 ==> |s| == ReadResult(img, inode, offset, length)
  {
    if ReadResult(img, inode, offset, length) <= 0 then []
    else FileSlice(img, inode, offset, ReadEnd(img, inode, offset, length))
  }

  /** Blocks `from` to `to - 1` are good blocks of the file. */
  predicate GoodRange(img: seq<Byte>, inode: nat, from: nat, to: nat)
    requires Sound(img) && inode < NumInodes(img)
  {
    forall j :: from <= j < to ==> BLOCK * j < FileLength(img, inode) && j < MAX_BLOCKS && GoodBlock(img, inode, j)
  }

  /** Bytes whose blocks are all in a good range are readable. */
  lemma RangeReadable(img: seq<Byte>, inode: nat, from: nat, to: nat, offset: nat, e: nat)
    requires Sound(img) && inode < NumInodes(img) && GoodRange(img, inode, from, to)
    requires BLOCK * from <= offset <= e && (e <= BLOCK * to || e == offset) && e <= BLOCK * MAX_BLOCKS
    ensures Readable(img, inode, offset, e)
  {
  }

  /** The number of bytes to take from the current block. */
  function Chunk(first: bool, start: nat, remaining: nat): (c: nat)
    requires start < BLOCK && remaining > 0 && (!first ==> start == 0)
    ensures 0 < c <= remaining && start + c <= BLOCK && (c < remaining ==> start + c == BLOCK)
  {
    if first && start + remaining > BLOCK then BLOCK - start
    else if first || remaining <= BLOCK then remaining
    else BLOCK
  }

  /** `now` is `was` with `done` bytes of the file from `offset` on stored at `at`. */
  ghost predicate Filled(now: seq<Byte>, was: seq<Byte>, at: nat, img: seq<Byte>, inode: nat, offset: nat, done: nat)
    requires Sound(img) && inode < NumInodes(img) && Readable(img, inode, offset, offset + done)
  {
    && |now| == |was| && at + done <= |now|
    && forall i :: 0 <= i < |now| ==>
         now[i] == if at <= i < at + done then FileByte(img, inode, offset + (i - at)) else was[i]
  }

  method CopyChunk(img: seq<Byte>, inode: nat, block: nat, start: nat, buf: array<Byte>, at: nat, done: nat, chunk: nat,
                   ghost was: seq<Byte>, ghost offset: nat)
    requires Sound(img) && inode < NumInodes(img) && block < MAX_BLOCKS && GoodBlock(img, inode, block)
    requires Readable(img, inode, offset, offset + done + chunk) && Readable(img, inode, offset, offset + done)
    requires offset + done == BLOCK * block + start && start + chunk <= BLOCK && at + done + chunk <= buf.Length
    requires Filled(buf[..], was, at, img, inode, offset, done)
    modifies buf
    ensures Filled(buf[..], was, at, img, inode, offset, done + chunk)
  {
    var from := BlockStart(img, inode, block) + start;
    CopyIn(img, from, buf, at + done, chunk);
    forall i | at + done <= i < at + done + chunk ensures buf[i] == FileByte(img, inode, offset + (i - at)) {
      InBlock(block, start + (i - (at + done)));
    }
  }

  lemma InBlock(block: nat, r: nat)
    requires r < BLOCK
    ensures (BLOCK * block + r) / BLOCK == block && (BLOCK * block + r) % BLOCK == r
  {
  }

  lemma FilledIsSlice(now: seq<Byte>, was: seq<Byte>, at: nat, img: seq<Byte>, inode: nat, offset: nat, done: nat)
    requires Sound(img) && inode < NumInodes(img) && Readable(img, inode, offset, offset + done)
    requires Filled(now, was, at, img, inode, offset, done)
    ensures now == was[..at] + FileSlice(img, inode, offset, offset + done) + was[at + done..]
  {
  }

  /** How much to copy from the current block; a short file read as a whole sets the remaining length to what it is. */
  method ChunkSize(img: seq<Byte>, inode: nat, offset: nat, length: nat, done: nat, start: nat, remaining: nat)
    returns (chunk: nat, left: nat)
    requires Sound(img) && inode < NumInodes(img) && offset < FileLength(img, inode)
    requires done + remaining == Min(length, FileLength(img, inode) - offset) && remaining > 0
    requires start < BLOCK && (done > 0 ==> start == 0)
    ensures chunk == Chunk(done == 0, start, remaining) && left == remaining
  {
    chunk, left := Chunk(done == 0, start, remaining), remaining;
    if done == 0 && start + remaining <= BLOCK && offset == 0 && length >= FileLength(img, inode) {
      left := FileLength(img, inode);
      chunk := left;
    }
  }

  /** The copy loop of read_data, `length` bytes having been asked for and `wanted` being left after truncation. */
  method ReadBlocks(img: seq<Byte>, inode: nat, offset: nat, buf: array<Byte>, at: nat, length: nat, wanted: nat)
    returns (done: nat)
    requires Sound(img) && inode < NumInodes(img) && offset < FileLength(img, inode)
    requires GoodBlock(img, inode, offset / BLOCK)
    requires wanted == Min(length, FileLength(img, inode) - offset) && at + wanted <= buf.Length
    modifies buf
    ensures offset + done == ReadEnd(img, inode, offset, length)
    ensures Filled(buf[..], old(buf[..]), at, img, inode, offset, done)
  {
    var start: nat, block: nat, remaining: nat := offset % BLOCK, offset / BLOCK, wanted;
    ghost var first := block;
    done := 0;
    while remaining > 0
      invariant done + remaining == wanted
      invariant first <= block && GoodRange(img, inode, first, block)
      invariant remaining > 0 ==> offset + done == BLOCK * block + start
      invariant start < BLOCK && (done > 0 ==> start == 0 && offset + done <= BLOCK * block)
      invariant Readable(img, inode, offset, offset + done)
      invariant Filled(buf[..], old(buf[..]), at, img, inode, offset, done)
    {
      if BlockNumber(img, inode, block) >= NumBlocks(img) {
        break;
      }
      var chunk;
      chunk, remaining := ChunkSize(img, inode, offset, length, done, start, remaining);
      RangeReadable(img, inode, first, block + 1, offset, offset + done + chunk);
      CopyChunk(img, inode, block, start, buf, at, done, chunk, old(buf[..]), offset);
      start, done, remaining, block := 0, done + chunk, remaining - chunk, block + 1;
    }
    StopsThere(img, inode, offset, length, wanted, first, block, done);
  }

  lemma StopsThere(img: seq<Byte>, inode: nat, offset: nat, length: nat, wanted: nat, first: nat, block: nat, done: nat)
    requires Sound(img) && inode < NumInodes(img) && offset < FileLength(img, inode) && first == offset / BLOCK
    requires GoodBlock(img, inode, first) && wanted == Min(length, FileLength(img, inode) - offset)
    requires first <= block && GoodRange(img, inode, first, block) && done <= wanted
    requires done > 0 ==> offset + done <= BLOCK * block
    requires done < wanted ==> offset + done == BLOCK * block && block < MAX_BLOCKS && !GoodBlock(img, inode, block)
    ensures offset + done == ReadEnd(img, inode, offset, length)
  {
  }

  method ReadData(img: seq<Byte>, inode: Word32, offset: Word32, buf: array<Byte>, at: nat, length: Word32) returns (r: int)
    requires Sound(img) && offset + length < 0x1_0000_0000 && at + length <= buf.Length
    modifies buf
    ensures r == ReadResult(img, inode, offset, length)
    ensures r >= 0 ==> buf[..] == old(buf[..at]) + ReadBytes(img, inode, offset, length) + old(buf[at + r..])
    ensures r < 0 ==> buf[..] == old(buf[..])
  {
    if inode >= NumInodes(img) {
      return -1;
    }
    var fileLength := FileLength(img, inode);
    if offset >= fileLength {
      return 0;
    }
    var remaining := Truncated(offset, length, fileLength);
    if BlockNumber(img, inode, offset / BLOCK) >= NumBlocks(img) {
      return -1;
    }
    r := ReadBlocks(img, inode, offset, buf, at, length, remaining);
    FilledIsSlice(buf[..], old(buf[..]), at, img, inode, offset, r);
  }

  // ----- Files without bad blocks

  predicate Intact(img: seq<Byte>, inode: nat)
    requires Sound(img) && inode < NumInodes(img)
  {
    forall k :: 0 <= k < MAX_BLOCKS && BLOCK * k < FileLength(img, inode) ==> GoodBlock(img, inode, k)
  }

  function Contents(img: seq<Byte>, inode: nat): (s: seq<Byte>)
    requires Sound(img) && inode < NumInodes(img) && Intact(img, inode)
    ensures |s| == FileLength(img, inode)
  {
    FileSlice(img, inode, 0, FileLength(img, inode))
  }

  /** At most `n` elements of `s` from `pos` on. */
  function TakeAt<T>(s: seq<T>, pos: nat, n: nat): seq<T> {
    if pos >= |s| then [] else s[pos..Min(pos + n, |s|)]
  }

  lemma TakeInTwo<T>(s: seq<T>, pos: nat, a: nat, b: nat)
    ensures TakeAt(s, pos, a) + TakeAt(s, pos + |TakeAt(s, pos, a)|, b) == TakeAt(s, pos, a + b)
  {
  }

  lemma SliceOfSlice(img: seq<Byte>, inode: nat, from: nat, to: nat, e: nat)
    requires Sound(img) && inode < NumInodes(img) && Readable(img, inode, 0, e) && from <= to <= e
    ensures Readable(img, inode, from, to)
    ensures FileSlice(img, inode, from, to) == FileSlice(img, inode, 0, e)[from..to]
  {
  }

  lemma IntactReadEnd(img: seq<Byte>, inode: nat, offset: nat, length: nat)
    requires Sound(img) && inode < NumInodes(img) && Intact(img, inode) && offset < FileLength(img, inode)
    ensures ReadEnd(img, inode, offset, length) == Min(offset + length, FileLength(img, inode))
  {
    var stop := StopBlock(img, inode, offset / BLOCK);
    assert BLOCK * stop >= FileLength(img, inode);
  }

  /** On an intact file a read is a slice of the contents, cut only by the end of the file. */
  lemma ReadIsSlice(img: seq<Byte>, inode: nat, offset: nat, length: nat)
    requires Sound(img) && inode < NumInodes(img) && Intact(img, inode)
    ensures ReadBytes(img, inode, offset, length) == TakeAt(Contents(img, inode), offset, length)
    ensures ReadResult(img, inode, offset, length) == |TakeAt(Contents(img, inode), offset, length)|
  {
    if offset < FileLength(img, inode) {
      IntactReadEnd(img, inode, offset, length);
      SliceOfSlice(img, inode, offset, ReadEnd(img, inode, offset, length), FileLength(img, inode));
    }
  }
}
