/** How an image is laid out: files are written to an image, and what is read from it is what was written. */
module Images {
  import opened Machine
  import opened Strings
  import opened FileSystem
  import opened Directory

  datatype Dentry = Dentry(name: seq<Byte>, kind: Word32, inode: Word32)
  datatype Inode = Inode(length: Word32, blocks: seq<Word32>)
  datatype Disk = Disk(entries: seq<Dentry>, inodes: seq<Inode>, blocks: seq<seq<Byte>>)

  predicate ValidDisk(d: Disk) {
    && |d.entries| <= 63 && |d.inodes| < 0x1_0000_0000 && |d.blocks| < 0x1_0000_0000
    && (forall e :: 0 <= e < |d.entries| ==> |d.entries[e].name| <= 32 && NulFree(d.entries[e].name))
    && (forall i :: 0 <= i < |d.inodes| ==> |d.inodes[i].blocks| <= 1023 && d.inodes[i].length <= 1023 * 4096)
    && (forall b :: 0 <= b < |d.blocks| ==> |d.blocks[b]| == 4096)
  }

  // ----- Parts of a sequence

  /** `part` stands in `s` at `at`. */
  ghost predicate At<T>(s: seq<T>, at: nat, part: seq<T>) {
    at + |part| <= |s| && s[at..at + |part|] == part
  }

  lemma AtElement<T>(s: seq<T>, at: nat, part: seq<T>, k: nat)
    requires At(s, at, part) && k < |part|
    ensures s[at + k] == part[k]
  {
    assert s[at..at + |part|][k] == s[at + k];
  }

  lemma AtPart<T>(s: seq<T>, at: nat, part: seq<T>, k: nat, inner: seq<T>)
    requires At(s, at, part) && At(part, k, inner)
    ensures At(s, at + k, inner)
  {
    forall i | 0 <= i < |inner| ensures s[at + k + i] == inner[i] {
      AtElement(part, k, inner, i);
      AtElement(s, at, part, k + i);
    }
  }

  lemma AtJoin<T>(a: seq<T>, b: seq<T>)
    ensures At(a + b, 0, a) && At(a + b, |a|, b)
  {
  }

  /** The parts one behind the other. */
  function Flat<T>(parts: seq<seq<T>>): seq<T> {
    if parts == [] then [] else parts[0] + Flat(parts[1..])
  }

  ghost predicate AllOf<T>(parts: seq<seq<T>>, n: nat) {
    forall k :: 0 <= k < |parts| ==> |parts[k]| == n
  }

  lemma {:induction false} FlatSize<T>(parts: seq<seq<T>>, n: nat)
    requires AllOf(parts, n)
    ensures |Flat(parts)| == n * |parts|
  {
    if parts != [] {
      FlatSize(parts[1..], n);
    }
  }

  lemma {:induction false} FlatAt<T>(parts: seq<seq<T>>, n: nat, k: nat)
    requires AllOf(parts, n) && k < |parts|
    ensures At(Flat(parts), n * k, parts[k])
  {
    AtJoin(parts[0], Flat(parts[1..]));
    if k > 0 {
      FlatAt(parts[1..], n, k - 1);
      assert parts[1..][k - 1] == parts[k] && n + n * (k - 1) == n * k;
      AtPart(Flat(parts), n, Flat(parts[1..]), n * (k - 1), parts[k]);
    }
  }

  // ----- Writing

  /** A 32-bit word, least byte first. */
  function Bytes4(w: Word32): (s: seq<Byte>)
    ensures |s| == 4
  {
    [w % 256, w / 256 % 256, w / 65536 % 256, w / 16777216]
  }

  function AllBytes4(ws: seq<Word32>): (s: seq<seq<Byte>>)
    ensures |s| == |ws| && forall k :: 0 <= k < |ws| ==> s[k] == Bytes4(ws[k])
  {
    seq(|ws|, k requires 0 <= k < |ws| => Bytes4(ws[k]))
  }

  function Words(ws: seq<Word32>): seq<Byte> {
    Flat(AllBytes4(ws))
  }

  function Padded(s: seq<Byte>, n: nat): (r: seq<Byte>)
    requires |s| <= n
    ensures |r| == n
  {
    s + Repeat(NUL, n - |s|)
  }

  /** A name of 32 bytes, the type, the inode and 24 reserved bytes. */
  function EntryBytes(e: Dentry): (r: seq<Byte>)
    requires |e.name| <= 32
    ensures |r| == 64
  {
    WordsSize([e.kind, e.inode]);
    Padded(e.name, 32) + Words([e.kind, e.inode]) + Repeat(NUL, 24)
  }

  function AllEntryBytes(es: seq<Dentry>): (s: seq<seq<Byte>>)
    requires forall e :: 0 <= e < |es| ==> |es[e].name| <= 32
    ensures |s| == |es| && AllOf(s, 64) && forall e :: 0 <= e < |es| ==> s[e] == EntryBytes(es[e])
  {
    seq(|es|, e requires 0 <= e < |es| => EntryBytes(es[e]))
  }

  lemma WordsSize(ws: seq<Word32>)
    ensures |Words(ws)| == 4 * |ws|
  {
    FlatSize(AllBytes4(ws), 4);
  }

  /** The three counts, 52 reserved bytes, then the entries. */
  function BootBlock(d: Disk): (r: seq<Byte>)
    requires ValidDisk(d)
    ensures |r| == 4096
  {
    WordsSize([|d.entries|, |d.inodes|, |d.blocks|]);
    FlatSize(AllEntryBytes(d.entries), 64);
    Padded(Words([|d.entries|, |d.inodes|, |d.blocks|]) + Repeat(NUL, 52) + Flat(AllEntryBytes(d.entries)), 4096)
  }

  /** The length, then the numbers of the data blocks. */
  function InodeBlock(n: Inode): (r: seq<Byte>)
    requires |n.blocks| <= 1023
    ensures |r| == 4096
  {
    WordsSize([n.length] + n.blocks);
    Padded(Words([n.length] + n.blocks), 4096)
  }

  function InodeBlocks(ns: seq<Inode>): (s: seq<seq<Byte>>)
    requires forall i :: 0 <= i < |ns| ==> |ns[i].blocks| <= 1023
    ensures |s| == |ns| && AllOf(s, 4096) && forall i :: 0 <= i < |ns| ==> s[i] == InodeBlock(ns[i])
  {
    seq(|ns|, i requires 0 <= i < |ns| => InodeBlock(ns[i]))
  }

  function Image(d: Disk): seq<Byte>
    requires ValidDisk(d)
  {
    BootBlock(d) + Flat(InodeBlocks(d.inodes)) + Flat(d.blocks)
  }

  // ----- Reading back

  lemma WordIs(img: seq<Byte>, k: nat, w: Word32)
    requires At(img, 4 * k, Bytes4(w))
    ensures 4 * k + 4 <= |img| && Word(img, k) == w
  {
    AtElement(img, 4 * k, Bytes4(w), 0);
    AtElement(img, 4 * k, Bytes4(w), 1);
    AtElement(img, 4 * k, Bytes4(w), 2);
    AtElement(img, 4 * k, Bytes4(w), 3);
    Digits(w);
  }

  lemma Digits(w: Word32)
    ensures w == w % 256 + 256 * (w / 256 % 256) + 65536 * (w / 65536 % 256) + 16777216 * (w / 16777216)
  {
    assert w / 65536 == w / 256 / 256 && w / 16777216 == w / 65536 / 256;
  }

  lemma WordOf(img: seq<Byte>, at: nat, ws: seq<Word32>, k: nat, i: nat)
    requires At(img, at, Words(ws)) && k < |ws| && 4 * i == at + 4 * k
    ensures 4 * i + 4 <= |img| && Word(img, i) == ws[k]
  {
    FlatAt(AllBytes4(ws), 4, k);
    AtPart(img, at, Words(ws), 4 * k, Bytes4(ws[k]));
    WordIs(img, i, ws[k]);
  }

  lemma WhereBlocksAre(d: Disk)
    requires ValidDisk(d)
    ensures |Image(d)| == 4096 * (1 + |d.inodes| + |d.blocks|) && At(Image(d), 0, BootBlock(d))
    ensures At(Image(d), 4096, Flat(InodeBlocks(d.inodes))) && At(Image(d), 4096 * (1 + |d.inodes|), Flat(d.blocks))
  {
    var boot, inodes, data := BootBlock(d), Flat(InodeBlocks(d.inodes)), Flat(d.blocks);
    FlatSize(InodeBlocks(d.inodes), 4096);
    FlatSize(d.blocks, 4096);
    AtJoin(boot + inodes, data);
    AtJoin(boot, inodes);
    AtPart(boot + inodes + data, 0, boot + inodes, 0, boot);
    AtPart(boot + inodes + data, 0, boot + inodes, 4096, inodes);
  }

  lemma WhereInodeIs(d: Disk, i: nat)
    requires ValidDisk(d) && i < |d.inodes|
    ensures At(Image(d), 4096 * (1 + i), Words([d.inodes[i].length] + d.inodes[i].blocks))
  {
    var ws := Words([d.inodes[i].length] + d.inodes[i].blocks);
    WhereBlocksAre(d);
    FlatAt(InodeBlocks(d.inodes), 4096, i);
    AtPart(Image(d), 4096, Flat(InodeBlocks(d.inodes)), 4096 * i, InodeBlock(d.inodes[i]));
    WordsSize([d.inodes[i].length] + d.inodes[i].blocks);
    AtJoin(ws, Repeat(NUL, 4096 - |ws|));
    AtPart(Image(d), 4096 * (1 + i), InodeBlock(d.inodes[i]), 0, ws);
  }

  lemma ReadsInode(d: Disk, i: nat)
    requires ValidDisk(d) && i < |d.inodes|
    ensures |Image(d)| >= BLOCK * (i + 2) && FileLength(Image(d), i) == d.inodes[i].length
    ensures forall k :: 0 <= k < |d.inodes[i].blocks| ==> BlockNumber(Image(d), i, k) == d.inodes[i].blocks[k]
  {
    hide Image, Words, Word;
    var ws := [d.inodes[i].length] + d.inodes[i].blocks;
    WhereBlocksAre(d);
    WhereInodeIs(d, i);
    WordOf(Image(d), 4096 * (1 + i), ws, 0, 1024 * (i + 1));
    forall k | 0 <= k < |d.inodes[i].blocks| ensures BlockNumber(Image(d), i, k) == d.inodes[i].blocks[k] {
      WordOf(Image(d), 4096 * (1 + i), ws, 1 + k, 1024 * (i + 1) + 1 + k);
    }
  }

  lemma WhereBootPartsAre(d: Disk)
    requires ValidDisk(d)
    ensures At(Image(d), 0, Words([|d.entries|, |d.inodes|, |d.blocks|]))
    ensures At(Image(d), 64, Flat(AllEntryBytes(d.entries)))
  {
    var head, entries := Words([|d.entries|, |d.inodes|, |d.blocks|]), Flat(AllEntryBytes(d.entries));
    var used := head + Repeat(NUL, 52) + entries;
    WhereBlocksAre(d);
    WordsSize([|d.entries|, |d.inodes|, |d.blocks|]);
    FlatSize(AllEntryBytes(d.entries), 64);
    AtJoin(head, Repeat(NUL, 52));
    AtJoin(head + Repeat(NUL, 52), entries);
    AtJoin(used, Repeat(NUL, 4096 - |used|));
    AtPart(Image(d), 0, BootBlock(d), 0, used);
    AtPart(Image(d), 0, used, 64, entries);
    AtPart(Image(d), 0, used, 0, head + Repeat(NUL, 52));
    AtPart(Image(d), 0, head + Repeat(NUL, 52), 0, head);
  }

  lemma ReadsCounts(d: Disk)
    requires ValidDisk(d)
    ensures |Image(d)| >= BLOCK && NumEntries(Image(d)) == |d.entries|
    ensures NumInodes(Image(d)) == |d.inodes| && NumBlocks(Image(d)) == |d.blocks|
  {
    var ws := [|d.entries|, |d.inodes|, |d.blocks|];
    WhereBlocksAre(d);
    WhereBootPartsAre(d);
    WordOf(Image(d), 0, ws, 0, 0);
    WordOf(Image(d), 0, ws, 1, 1);
    WordOf(Image(d), 0, ws, 2, 2);
  }

  /** The image of a disk is sound and has a directory. */
  lemma ImageIsSound(d: Disk)
    requires ValidDisk(d)
    ensures HasDirectory(Image(d)) && NumEntries(Image(d)) == |d.entries|
    ensures NumInodes(Image(d)) == |d.inodes| && NumBlocks(Image(d)) == |d.blocks|
  {
    ReadsCounts(d);
    WhereBlocksAre(d);
    forall i | 0 <= i < |d.inodes| ensures FileLength(Image(d), i) <= BLOCK * MAX_BLOCKS {
      ReadsInode(d, i);
    }
  }

  lemma PaddedName(name: seq<Byte>)
    requires |name| <= 32 && NulFree(name)
    ensures Prefix(Padded(name, 32)) == name
  {
    var p := Padded(name, 32);
    assert p[..|name|] == name;
    PrefixIs(p, |name|);
  }

  lemma WhereEntryIs(d: Disk, e: nat)
    requires ValidDisk(d) && e < |d.entries|
    ensures At(Image(d), 64 * (e + 1), Padded(d.entries[e].name, 32))
    ensures At(Image(d), 64 * (e + 1) + 32, Words([d.entries[e].kind, d.entries[e].inode]))
  {
    hide Image, Words, Flat, Padded;
    var name, ws := Padded(d.entries[e].name, 32), Words([d.entries[e].kind, d.entries[e].inode]);
    WhereBootPartsAre(d);
    FlatAt(AllEntryBytes(d.entries), 64, e);
    AtPart(Image(d), 64, Flat(AllEntryBytes(d.entries)), 64 * e, EntryBytes(d.entries[e]));
    AtJoin(name, ws);
    AtJoin(name + ws, Repeat(NUL, 24));
    AtPart(Image(d), 64 * (e + 1), EntryBytes(d.entries[e]), 0, name + ws);
    AtPart(Image(d), 64 * (e + 1), name + ws, 0, name);
    AtPart(Image(d), 64 * (e + 1), name + ws, 32, ws);
  }

  /** An entry is read back as it was written. */
  lemma ReadsEntry(d: Disk, e: nat)
    requires ValidDisk(d) && e < |d.entries|
    ensures IsEntry(Image(d), e) && EntryName(Image(d), e) == d.entries[e].name
    ensures EntryType(Image(d), e) == d.entries[e].kind && EntryInode(Image(d), e) == d.entries[e].inode
  {
    hide Image, Words, Word, Padded;
    var ws := [d.entries[e].kind, d.entries[e].inode];
    ImageIsSound(d);
    WhereEntryIs(d, e);
    PaddedName(d.entries[e].name);
    WordOf(Image(d), 64 * (e + 1) + 32, ws, 0, 16 * (e + 1) + 8);
    WordOf(Image(d), 64 * (e + 1) + 32, ws, 1, 16 * (e + 1) + 9);
  }

  /** A name in the directory is looked up at its first entry. */
  lemma LooksUp(d: Disk, e: nat)
    requires ValidDisk(d) && e < |d.entries| && forall i :: 0 <= i < e ==> d.entries[i].name != d.entries[e].name
    ensures HasDirectory(Image(d)) && Lookup(Image(d), d.entries[e].name) == Some(e)
  {
    hide Image, EntryName, EntryType, EntryInode;
    ReadsEntry(d, e);
    forall i | 0 <= i < e ensures EntryName(Image(d), i) != d.entries[e].name {
      ReadsEntry(d, i);
    }
  }

  /** Byte `p` of the file of an inode is byte `p % 4096` of its block `p / 4096`, wherever the blocks lie. */
  lemma ReadsByte(d: Disk, i: nat, p: nat)
    requires ValidDisk(d) && i < |d.inodes| && p / 4096 < |d.inodes[i].blocks|
    requires d.inodes[i].blocks[p / 4096] < |d.blocks|
    ensures Sound(Image(d)) && i < NumInodes(Image(d)) && p < BLOCK * MAX_BLOCKS && GoodBlock(Image(d), i, p / BLOCK)
    ensures FileByte(Image(d), i, p) == d.blocks[d.inodes[i].blocks[p / 4096]][p % 4096]
  {
    hide Image, Word, Flat, FileLength;
    var b: nat := d.inodes[i].blocks[p / 4096];
    ImageIsSound(d);
    ReadsInode(d, i);
    WhereBlocksAre(d);
    FlatAt(d.blocks, 4096, b);
    AtPart(Image(d), 4096 * (1 + |d.inodes|), Flat(d.blocks), 4096 * b, d.blocks[b]);
    AtElement(Image(d), 4096 * (1 + |d.inodes|) + 4096 * b, d.blocks[b], p % 4096);
  }

  /** The disk holds the file `s` at inode `i`, in blocks of any order. */
  ghost predicate Holds(d: Disk, i: nat, s: seq<Byte>) {
    && ValidDisk(d) && i < |d.inodes| && d.inodes[i].length == |s|
    && forall p :: 0 <= p < |s| ==>
         && p / 4096 < |d.inodes[i].blocks| && d.inodes[i].blocks[p / 4096] < |d.blocks|
         && d.blocks[d.inodes[i].blocks[p / 4096]][p % 4096] == s[p]
  }

  lemma HeldBytes(d: Disk, i: nat, s: seq<Byte>)
    requires Holds(d, i, s)
    ensures Sound(Image(d)) && i < NumInodes(Image(d)) && FileLength(Image(d), i) == |s| && Intact(Image(d), i)
    ensures forall p :: 0 <= p < |s| ==> GoodBlock(Image(d), i, p / BLOCK) && FileByte(Image(d), i, p) == s[p]
  {
    hide Image, FileByte, Word, FileLength, BlockNumber;
    ImageIsSound(d);
    ReadsInode(d, i);
    forall k | 0 <= k < MAX_BLOCKS && BLOCK * k < |s| ensures GoodBlock(Image(d), i, k) {
      ReadsByte(d, i, BLOCK * k);
    }
    forall p | 0 <= p < |s| ensures GoodBlock(Image(d), i, p / BLOCK) && FileByte(Image(d), i, p) == s[p] {
      ReadsByte(d, i, p);
    }
  }

  /** What a disk holds is read back from its image, whole or in part. */
  lemma ReadsFile(d: Disk, i: nat, s: seq<Byte>)
    requires Holds(d, i, s)
    ensures Sound(Image(d)) && i < NumInodes(Image(d)) && Intact(Image(d), i) && Contents(Image(d), i) == s
    ensures forall offset, n: nat :: ReadBytes(Image(d), i, offset, n) == TakeAt(s, offset, n)
  {
    hide Image, FileByte, FileLength, GoodBlock, Intact, ReadBytes, TakeAt;
    HeldBytes(d, i, s);
    assert Contents(Image(d), i) == s;
    forall offset, n: nat ensures ReadBytes(Image(d), i, offset, n) == TakeAt(s, offset, n) {
      ReadIsSlice(Image(d), i, offset, n);
    }
  }

  // ----- Any files can be stored

  /** The blocks of a file. */
  function Chunks(s: seq<Byte>): (r: seq<seq<Byte>>)
    ensures AllOf(r, 4096) && |r| == (|s| + 4095) / 4096
  {
    if |s| == 0 then [] else if |s| <= 4096 then [Padded(s, 4096)] else [s[..4096]] + Chunks(s[4096..])
  }

  lemma {:induction false} ChunkByte(s: seq<Byte>, p: nat)
    requires p < |s|
    ensures p / 4096 < |Chunks(s)| && Chunks(s)[p / 4096][p % 4096] == s[p]
  {
    if p >= 4096 {
      ChunkByte(s[4096..], p - 4096);
      assert (p - 4096) / 4096 == p / 4096 - 1 && (p - 4096) % 4096 == p % 4096;
    }
  }

  /** The blocks of all files, and where those of a file begin. */
  function AllChunks(files: seq<seq<Byte>>): (r: seq<seq<Byte>>)
    ensures AllOf(r, 4096)
  {
    if files == [] then [] else AllChunks(files[..|files| - 1]) + Chunks(files[|files| - 1])
  }

  function FirstChunk(files: seq<seq<Byte>>, i: nat): nat
    requires i <= |files|
  {
    |AllChunks(files[..i])|
  }

  lemma {:induction false} ChunksAt(files: seq<seq<Byte>>, i: nat)
    requires i < |files|
    ensures At(AllChunks(files), FirstChunk(files, i), Chunks(files[i]))
  {
    var rest, last := files[..|files| - 1], files[|files| - 1];
    AtJoin(AllChunks(rest), Chunks(last));
    if i < |rest| {
      ChunksAt(rest, i);
      assert rest[..i] == files[..i];
      AtPart(AllChunks(files), 0, AllChunks(rest), FirstChunk(files, i), Chunks(files[i]));
    }
  }

  predicate Storable(entries: seq<Dentry>, files: seq<seq<Byte>>) {
    && |entries| <= 63 && |files| < 0x1_0000_0000 && |AllChunks(files)| < 0x1_0000_0000
    && (forall e :: 0 <= e < |entries| ==> |entries[e].name| <= 32 && NulFree(entries[e].name))
    && (forall i :: 0 <= i < |files| ==> |files[i]| <= 1023 * 4096)
  }

  /** Each file in blocks of its own, one behind the other. */
  function Stored(entries: seq<Dentry>, files: seq<seq<Byte>>): (d: Disk)
    requires Storable(entries, files)
    ensures ValidDisk(d)
  {
    Disk(entries, seq(|files|, i requires 0 <= i < |files| => InodeFor(files, i)), AllChunks(files))
  }

  function InodeFor(files: seq<seq<Byte>>, i: nat): (n: Inode)
    requires i < |files| && |files[i]| <= 1023 * 4096 && |AllChunks(files)| < 0x1_0000_0000
    ensures |n.blocks| == |Chunks(files[i])| <= 1023
    ensures forall k :: 0 <= k < |n.blocks| ==> n.blocks[k] == FirstChunk(files, i) + k < |AllChunks(files)|
  {
    ChunksAt(files, i);
    Inode(|files[i]|, seq(|Chunks(files[i])|, k requires 0 <= k < |Chunks(files[i])| => ChunkNumber(files, i, k)))
  }

  function ChunkNumber(files: seq<seq<Byte>>, i: nat, k: nat): Word32
    requires i < |files| && k < |Chunks(files[i])| && |AllChunks(files)| < 0x1_0000_0000
  {
    ChunksAt(files, i);
    FirstChunk(files, i) + k
  }

  lemma StoredHolds(entries: seq<Dentry>, files: seq<seq<Byte>>, i: nat)
    requires Storable(entries, files) && i < |files|
    ensures Holds(Stored(entries, files), i, files[i])
  {
    var d := Stored(entries, files);
    ChunksAt(files, i);
    forall p | 0 <= p < |files[i]|
      ensures p / 4096 < |d.inodes[i].blocks| && d.inodes[i].blocks[p / 4096] < |d.blocks|
      ensures d.blocks[d.inodes[i].blocks[p / 4096]][p % 4096] == files[i][p]
    {
      ChunkByte(files[i], p);
      AtElement(AllChunks(files), FirstChunk(files, i), Chunks(files[i]), p / 4096);
    }
  }

  /** Every list of files is read back from the image that stores it, each under its own name. */
  lemma StoredIsReadBack(entries: seq<Dentry>, files: seq<seq<Byte>>, e: nat)
    requires Storable(entries, files) && e < |entries| && entries[e].inode < |files|
    requires forall i :: 0 <= i < e ==> entries[i].name != entries[e].name
    ensures var img := Image(Stored(entries, files));
            && HasDirectory(img) && Lookup(img, entries[e].name) == Some(e) && EntryType(img, e) == entries[e].kind
            && EntryInode(img, e) < NumInodes(img) && Intact(img, EntryInode(img, e))
            && Contents(img, EntryInode(img, e)) == files[entries[e].inode]
  {
    var d := Stored(entries, files);
    LooksUp(d, e);
    ReadsEntry(d, e);
    StoredHolds(entries, files, entries[e].inode);
    ReadsFile(d, entries[e].inode, files[entries[e].inode]);
  }
}
