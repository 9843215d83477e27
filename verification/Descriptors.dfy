/** File descriptors of one task: open, read, write and close (pcb.c, syscalls.c, terminal.c). */
module Descriptors {
  import opened Machine
  import opened FileSystem
  import opened Directory

  const MAX_DESC := 8

  /** The operation tables, by the device they serve. */
  datatype Ops = NoOps | StdinOps | StdoutOps | RtcOps | DirOps | FileOps

  datatype Desc = Desc(ops: Ops, inode: Word32, pos: Word32, used: bool)

  predicate CanRead(o: Ops) {
    o.StdinOps? || o.RtcOps? || o.DirOps? || o.FileOps?
  }

  predicate CanWrite(o: Ops) {
    o.StdoutOps? || o.RtcOps? || o.DirOps? || o.FileOps?
  }

  /** The terminal tables have no close operation. */
  predicate CanClose(o: Ops) {
    o.RtcOps? || o.DirOps? || o.FileOps?
  }

  const STDIN: seq<Byte> := [115, 116, 100, 105, 110]
  const STDOUT: seq<Byte> := [115, 116, 100, 111, 117, 116]

  /** The table a file gets; only the first five or six characters of the name are compared with the terminal names. */
  function OpsFor(name: seq<Byte>, fileType: nat): Ops
    requires fileType < 3
  {
    if STDIN <= name then StdinOps
    else if STDOUT <= name then StdoutOps
    else if fileType == 0 then RtcOps
    else if fileType == 1 then DirOps
    else FileOps
  }

  /** Every regular file has a sound inode. */
  predicate WellFormedImage(img: seq<Byte>) {
    && HasDirectory(img)
    && forall i :: 0 <= i < NumEntries(img) && EntryType(img, i) == 2 ==>
         EntryInode(img, i) < NumInodes(img) && Intact(img, EntryInode(img, i))
  }

  /** A descriptor is unused exactly when its table is the empty one; a file's is at a position of a sound file. */
  predicate DescOk(d: Desc, img: seq<Byte>)
    requires WellFormedImage(img)
  {
    && (d.used <==> d.ops != NoOps)
    && (d.ops.FileOps? ==> d.inode < NumInodes(img) && Intact(img, d.inode) && d.pos <= FileLength(img, d.inode))
  }

  /** All descriptors are in order, and 0 and 1 are stdin and stdout. */
  predicate Inv(fds: seq<Desc>, img: seq<Byte>)
    requires WellFormedImage(img)
  {
    && |fds| == MAX_DESC
    && (forall i :: 0 <= i < MAX_DESC ==> DescOk(fds[i], img))
    && fds[0].ops.StdinOps? && fds[1].ops.StdoutOps?
  }

  /** The least unused descriptor from `i` on, or 8. */
  function LeastUnused(fds: seq<Desc>, i: nat): (k: nat)
    requires |fds| == MAX_DESC && i <= MAX_DESC
    ensures i <= k <= MAX_DESC && (k < MAX_DESC ==> !fds[k].used)
    ensures forall j :: i <= j < k ==> fds[j].used
    decreases MAX_DESC - i
  {
    if i == MAX_DESC || !fds[i].used then i else LeastUnused(fds, i + 1)
  }

  /** The entry sys_open accepts for a name. */
  function Openable(img: seq<Byte>, name: seq<Byte>): Option<nat>
    requires HasDirectory(img)
  {
    var e := Lookup(img, name);
    if e.Some? && EntryType(img, e.value) < 3 then e else None
  }

  function NewDesc(img: seq<Byte>, name: seq<Byte>, entry: nat): Desc
    requires IsEntry(img, entry) && EntryType(img, entry) < 3
  {
    var ops := OpsFor(name, EntryType(img, entry));
    Desc(ops, if ops.StdinOps? || ops.StdoutOps? then 0 else EntryInode(img, entry), 0, true)
  }

  datatype Call = Open(name: seq<Byte>) | Read(fd: int, nbytes: int) | Write(fd: int, nbytes: int) | Close(fd: int)

  predicate InRange(fd: int) {
    0 <= fd < MAX_DESC
  }

  /** A read moves the position of its own descriptor only: by one entry, or by the bytes delivered. */
  function AfterRead(d: Desc, img: seq<Byte>, n: nat): Desc
    requires WellFormedImage(img) && DescOk(d, img)
  {
    if d.ops.DirOps? && d.pos < NumEntries(img) then d.(pos := d.pos + 1)
    else if d.ops.FileOps? then d.(pos := d.pos + |TakeAt(Contents(img, d.inode), d.pos, n)|)
    else d
  }

  /** The bytes a read of `n` delivers. A read of the clock waits for a tick and delivers none. */
  function Delivered(d: Desc, img: seq<Byte>, n: nat): seq<Byte>
    requires WellFormedImage(img) && DescOk(d, img)
  {
    if d.ops.FileOps? then TakeAt(Contents(img, d.inode), d.pos, n)
    else if d.ops.DirOps? then DirBytes(img, d.pos)[..DirResult(img, d.pos)]
    else []
  }

  /** The descriptors after a call. */
  function After(fds: seq<Desc>, img: seq<Byte>, c: Call): seq<Desc>
    requires WellFormedImage(img) && Inv(fds, img)
  {
    match c
    case Open(name) =>
      var e, k := Openable(img, name), LeastUnused(fds, 0);
      if e.Some? && k < MAX_DESC then fds[k := NewDesc(img, name, e.value)] else fds
    case Read(fd, n) => if InRange(fd) && n >= 0 then fds[fd := AfterRead(fds[fd], img, n)] else fds
    case Write(_, _) => fds
    case Close(fd) =>
      if 2 <= fd < MAX_DESC && CanClose(fds[fd].ops) then fds[fd := fds[fd].(ops := NoOps, used := false)] else fds
  }

  /** Every call keeps the descriptors in order. */
  lemma CallKeepsInv(fds: seq<Desc>, img: seq<Byte>, c: Call)
    requires WellFormedImage(img) && Inv(fds, img)
    ensures Inv(After(fds, img, c), img)
  {
    match c
    case Open(name) =>
      var e, k := Openable(img, name), LeastUnused(fds, 0);
      if e.Some? && k < MAX_DESC {
        assert DescOk(fds[0], img) && DescOk(fds[1], img);
        assert DescOk(NewDesc(img, name, e.value), img);
      }
    case Read(fd, n) =>
      if InRange(fd) && n >= 0 {
        assert DescOk(AfterRead(fds[fd], img, n), img);
      }
    case Write(_, _) =>
    case Close(_) =>
  }

  function AfterAll(fds: seq<Desc>, img: seq<Byte>, cs: seq<Call>): (r: seq<Desc>)
    requires WellFormedImage(img) && Inv(fds, img)
    ensures Inv(r, img)
    decreases cs
  {
    if cs == [] then fds
    else
      CallKeepsInv(fds, img, cs[0]);
      AfterAll(After(fds, img, cs[0]), img, cs[1..])
  }

  /** The value an open returns. */
  function OpenResult(fds: seq<Desc>, img: seq<Byte>, name: seq<Byte>): int
    requires HasDirectory(img) && |fds| == MAX_DESC
  {
    if Openable(img, name).Some? && LeastUnused(fds, 0) < MAX_DESC then LeastUnused(fds, 0) else -1
  }

  /** An accepted name is refused exactly when all eight descriptors are in use; else it gets the least free one. */
  lemma OpenTakesLeastFree(fds: seq<Desc>, img: seq<Byte>, name: seq<Byte>)
    requires WellFormedImage(img) && Inv(fds, img) && Openable(img, name).Some?
    ensures OpenResult(fds, img, name) == -1 <==> forall i :: 0 <= i < MAX_DESC ==> fds[i].used
    ensures var r, after := OpenResult(fds, img, name), After(fds, img, Open(name));
            r != -1 ==> && 2 <= r < MAX_DESC && !fds[r].used && (forall i :: 0 <= i < r ==> fds[i].used)
                        && after[r].used && after[r].pos == 0
                        && (forall i :: 0 <= i < MAX_DESC && i != r ==> after[i] == fds[i])
  {
    assert DescOk(fds[0], img) && DescOk(fds[1], img);
  }

  /** A close frees a descriptor from 2 on that has a close operation; a free descriptor can be taken again. */
  lemma CloseEffect(fds: seq<Desc>, img: seq<Byte>, fd: int)
    requires WellFormedImage(img) && Inv(fds, img)
    ensures var r := After(fds, img, Close(fd));
            && |r| == |fds| && (forall i :: 0 <= i < 8 && i != fd ==> r[i] == fds[i])
            && (0 <= fd < 8 ==> if fd >= 2 && (fds[fd].ops.RtcOps? || fds[fd].ops.DirOps? || fds[fd].ops.FileOps?)
                                then !r[fd].used && r[fd].ops == NoOps else r[fd] == fds[fd])
  {
  }

  /** A read moves the position of a directory by one entry up to the end, of a file by the bytes delivered, of others not. */
  lemma ReadEffect(fds: seq<Desc>, img: seq<Byte>, fd: int, n: int)
    requires WellFormedImage(img) && Inv(fds, img)
    ensures var r := After(fds, img, Read(fd, n));
            && |r| == |fds| && (forall i :: 0 <= i < 8 && i != fd ==> r[i] == fds[i])
            && (n < 0 ==> r == fds)
            && (0 <= fd < 8 && n >= 0 ==>
                  && DescOk(fds[fd], img) && r[fd] == fds[fd].(pos := r[fd].pos)
                  && r[fd].pos == fds[fd].pos + (
                       if fds[fd].ops.FileOps? then |Delivered(fds[fd], img, n)|
                       else if fds[fd].ops.DirOps? && fds[fd].pos < NumEntries(img) then 1 else 0))
  {
  }

  lemma TerminalStays(fds: seq<Desc>, img: seq<Byte>, k: nat, c: Call)
    requires WellFormedImage(img) && Inv(fds, img) && k < MAX_DESC
    requires fds[k].ops.StdinOps? || fds[k].ops.StdoutOps?
    ensures After(fds, img, c)[k] == fds[k]
  {
    assert DescOk(fds[k], img);
  }

  /** A file opened under a name that begins like a terminal's can never be closed again. */
  lemma {:induction false} TerminalNamesStick(fds: seq<Desc>, img: seq<Byte>, k: nat, cs: seq<Call>)
    requires WellFormedImage(img) && Inv(fds, img) && k < MAX_DESC
    requires fds[k].ops.StdinOps? || fds[k].ops.StdoutOps?
    ensures AfterAll(fds, img, cs)[k] == fds[k]
    decreases cs
  {
    if cs != [] {
      CallKeepsInv(fds, img, cs[0]);
      TerminalStays(fds, img, k, cs[0]);
      TerminalNamesStick(After(fds, img, cs[0]), img, k, cs[1..]);
    }
  }

  /** ... and no other name has that fate. */
  lemma OpenedIsClosable(img: seq<Byte>, name: seq<Byte>, e: nat)
    requires IsEntry(img, e) && EntryType(img, e) < 3
    ensures CanClose(NewDesc(img, name, e).ops) <==> !(STDIN <= name) && !(STDOUT <= name)
  {
  }

  /** The value a write of `n` bytes returns; `clockOk` is whether the clock accepts the rate written. */
  function WriteResult(d: Desc, n: nat, clockOk: bool): int {
    if d.ops.StdoutOps? || (d.ops.RtcOps? && clockOk) then n else -1
  }

  /**
   * How an opened file behaves, by its name and its type: the keyboard takes no writes, the screen gives no reads, a clock
   * delivers nothing and takes a rate, and directories and files deliver their own data and take no writes.
   */
  lemma OpenedBehaves(img: seq<Byte>, name: seq<Byte>, e: nat, n: nat, clockOk: bool)
    requires WellFormedImage(img) && IsEntry(img, e) && EntryType(img, e) < 3
    ensures var d := NewDesc(img, name, e);
            && d.used && d.pos == 0 && DescOk(d, img) && (STDIN <= name || STDOUT <= name ==> d.inode == 0)
            && (STDIN <= name ==> CanRead(d.ops) && !CanWrite(d.ops) && WriteResult(d, n, clockOk) == -1)
            && (STDOUT <= name ==> !CanRead(d.ops) && CanWrite(d.ops) && WriteResult(d, n, clockOk) == n)
            && (!(STDIN <= name) && !(STDOUT <= name) ==>
                  && CanRead(d.ops) && CanWrite(d.ops) && d.inode == EntryInode(img, e)
                  && WriteResult(d, n, clockOk) == (if EntryType(img, e) == 0 && clockOk then n else -1)
                  && Delivered(d, img, n) == (
                       if EntryType(img, e) == 0 then []
                       else if EntryType(img, e) == 1 then DirBytes(img, 0)[..DirResult(img, 0)]
                       else TakeAt(Contents(img, EntryInode(img, e)), 0, n)))
  {
    assert (STDIN <= name ==> name[3] == 105) && (STDOUT <= name ==> name[3] == 111);
  }

  // ----- Sequences of reads

  /** What one call delivers through descriptor `k`. */
  function DeliveredOn(fds: seq<Desc>, img: seq<Byte>, c: Call, k: nat): seq<Byte>
    requires WellFormedImage(img) && Inv(fds, img) && k < MAX_DESC
  {
    if c.Read? && c.fd == k && c.nbytes >= 0 then Delivered(fds[k], img, c.nbytes) else []
  }

  /** All that a sequence of calls delivers through descriptor `k`. */
  function ReadOn(fds: seq<Desc>, img: seq<Byte>, cs: seq<Call>, k: nat): seq<Byte>
    requires WellFormedImage(img) && Inv(fds, img) && k < MAX_DESC
    decreases cs
  {
    if cs == [] then []
    else
      CallKeepsInv(fds, img, cs[0]);
      DeliveredOn(fds, img, cs[0], k) + ReadOn(After(fds, img, cs[0]), img, cs[1..], k)
  }

  function AskedBy(c: Call, k: nat): nat {
    if c.Read? && c.fd == k && c.nbytes >= 0 then c.nbytes else 0
  }

  /** The bytes the calls ask for through descriptor `k`. */
  function AskedOn(cs: seq<Call>, k: nat): nat {
    if cs == [] then 0 else AskedBy(cs[0], k) + AskedOn(cs[1..], k)
  }

  /** A call on another descriptor leaves this one as it is. */
  lemma OnlyOwnReadsMove(fds: seq<Desc>, img: seq<Byte>, c: Call, k: nat)
    requires WellFormedImage(img) && Inv(fds, img) && k < MAX_DESC && fds[k].used && c != Close(k)
    ensures DescOk(fds[k], img)
    ensures After(fds, img, c)[k] == if c.Read? && c.fd == k && c.nbytes >= 0 then AfterRead(fds[k], img, c.nbytes) else fds[k]
  {
  }

  lemma FileReadOn(fds: seq<Desc>, img: seq<Byte>, c: Call, k: nat)
    requires WellFormedImage(img) && Inv(fds, img) && k < MAX_DESC && fds[k].ops.FileOps? && c != Close(k)
    ensures DescOk(fds[k], img)
    ensures DeliveredOn(fds, img, c, k) == TakeAt(Contents(img, fds[k].inode), fds[k].pos, AskedBy(c, k))
    ensures var bytes := DeliveredOn(fds, img, c, k);
            fds[k].pos + |bytes| <= FileLength(img, fds[k].inode) && After(fds, img, c)[k] == fds[k].(pos := fds[k].pos + |bytes|)
  {
    OnlyOwnReadsMove(fds, img, c, k);
  }

  predicate OpenFile(fds: seq<Desc>, img: seq<Byte>, k: nat, file: seq<Byte>) {
    && WellFormedImage(img) && Inv(fds, img) && k < MAX_DESC && fds[k].ops.FileOps? && DescOk(fds[k], img)
    && file == Contents(img, fds[k].inode)
  }

  /** A call not closing `k` delivers `first` through it and steps over it. */
  lemma FirstCall(fds: seq<Desc>, img: seq<Byte>, cs: seq<Call>, k: nat, file: seq<Byte>)
    returns (after: seq<Desc>, first: seq<Byte>)
    requires OpenFile(fds, img, k, file) && cs != [] && cs[0] != Close(k)
    ensures OpenFile(after, img, k, file) && after[k].pos == fds[k].pos + |first|
    ensures ReadOn(fds, img, cs, k) == first + ReadOn(after, img, cs[1..], k)
    ensures first == TakeAt(file, fds[k].pos, AskedBy(cs[0], k))
  {
    CallKeepsInv(fds, img, cs[0]);
    FileReadOn(fds, img, cs[0], k);
    after, first := After(fds, img, cs[0]), DeliveredOn(fds, img, cs[0], k);
  }

  /** The parts of a file that the calls ask for through `k`, one behind the other. */
  function Parts(file: seq<Byte>, pos: nat, cs: seq<Call>, k: nat): seq<Byte>
    decreases cs
  {
    if cs == [] then []
    else
      var first := TakeAt(file, pos, AskedBy(cs[0], k));
      first + Parts(file, pos + |first|, cs[1..], k)
  }

  lemma JoinReads<T>(s: seq<T>, pos: nat, a: nat, b: nat, n: nat, first: seq<T>, rest: seq<T>, all: seq<T>)
    requires first == TakeAt(s, pos, a) && rest == TakeAt(s, pos + |first|, b) && all == first + rest && n == a + b
    ensures all == TakeAt(s, pos, n)
  {
    TakeInTwo(s, pos, a, b);
  }

  lemma {:induction false} PartsAreOne(file: seq<Byte>, pos: nat, cs: seq<Call>, k: nat)
    ensures Parts(file, pos, cs, k) == TakeAt(file, pos, AskedOn(cs, k))
    decreases cs
  {
    if cs != [] {
      var first := TakeAt(file, pos, AskedBy(cs[0], k));
      PartsAreOne(file, pos + |first|, cs[1..], k);
      JoinReads(file, pos, AskedBy(cs[0], k), AskedOn(cs[1..], k), AskedOn(cs, k), first,
                Parts(file, pos + |first|, cs[1..], k), Parts(file, pos, cs, k));
    }
  }

  lemma FirstPart(file: seq<Byte>, pos: nat, next: nat, cs: seq<Call>, k: nat, first: seq<Byte>)
    requires cs != [] && first == TakeAt(file, pos, AskedBy(cs[0], k)) && next == pos + |first|
    ensures Parts(file, pos, cs, k) == first + Parts(file, next, cs[1..], k)
  {
  }

  lemma {:induction false} ReadsAreParts(fds: seq<Desc>, img: seq<Byte>, cs: seq<Call>, k: nat, file: seq<Byte>)
    requires OpenFile(fds, img, k, file) && Close(k) !in cs
    ensures ReadOn(fds, img, cs, k) == Parts(file, fds[k].pos, cs, k)
    decreases cs
  {
    if cs != [] {
      var after, first := FirstCall(fds, img, cs, k, file);
      ReadsAreParts(after, img, cs[1..], k, file);
      FirstPart(file, fds[k].pos, after[k].pos, cs, k, first);
    }
  }

  /** However the reads of an open file are cut up, and whatever calls come between, they deliver what one read would. */
  lemma ReadsConcatenate(fds: seq<Desc>, img: seq<Byte>, cs: seq<Call>, k: nat, file: seq<Byte>)
    requires OpenFile(fds, img, k, file) && Close(k) !in cs
    ensures ReadOn(fds, img, cs, k) == TakeAt(file, fds[k].pos, AskedOn(cs, k))
  {
    ReadsAreParts(fds, img, cs, k, file);
    PartsAreOne(file, fds[k].pos, cs, k);
  }

  /** The position of an open file counts the bytes delivered through its descriptor. */
  lemma {:induction false} PositionCountsBytes(fds: seq<Desc>, img: seq<Byte>, cs: seq<Call>, k: nat)
    requires WellFormedImage(img) && Inv(fds, img) && k < MAX_DESC && fds[k].ops.FileOps? && Close(k) !in cs
    ensures AfterAll(fds, img, cs)[k].pos == fds[k].pos + |ReadOn(fds, img, cs, k)|
    decreases cs
  {
    if cs != [] {
      CallKeepsInv(fds, img, cs[0]);
      FileReadOn(fds, img, cs[0], k);
      PositionCountsBytes(After(fds, img, cs[0]), img, cs[1..], k);
    }
  }
}
