/** System calls of one task on its descriptors and the file system (pcb.c, syscalls.c, file_system.c). */
module Tasks {
  import opened Machine
  import opened Strings
  import opened FileSystem
  import opened Directory
  import opened Descriptors

  lemma FirstOfSlice<T>(s: seq<T>, at: nat, r: nat, n: nat)
    requires r <= n && at + n <= |s|
    ensures s[at..at + r] == s[at..at + n][..r]
  {
  }

  class Task {
    const img: seq<Byte>
    const fds: array<Desc>
    /** Everything written to the terminal so far. */
    var out: seq<Byte>

    ghost predicate Valid()
      reads fds
    {
      WellFormedImage(img) && fds.Length == MAX_DESC && Inv(fds[..], img)
    }

    /** The descriptor loop of open_file_desc. */
    method TakeDescriptor(d: Desc) returns (r: int)
      requires fds.Length == MAX_DESC
      modifies fds
      ensures var k := LeastUnused(old(fds[..]), 0);
              if k < MAX_DESC then r == k && fds[..] == old(fds[..])[k := d] else r == -1 && fds[..] == old(fds[..])
    {
      var i := 0;
      while i < MAX_DESC
        invariant 0 <= i <= MAX_DESC && fds[..] == old(fds[..])
        invariant LeastUnused(fds[..], i) == LeastUnused(fds[..], 0)
      {
        if !fds[i].used {
          fds[i] := d;
          return i;
        }
        i := i + 1;
      }
      return -1;
    }

    /** init_pcb and terminal_open: all descriptors free, then stdin and stdout opened. */
    constructor (img: seq<Byte>)
      requires WellFormedImage(img)
      ensures Valid() && fresh(fds) && this.img == img && out == []
      ensures forall i :: 2 <= i < MAX_DESC ==> !fds[i].used
    {
      this.img := img;
      fds := new Desc[MAX_DESC](_ => Desc(NoOps, 0, 0, false));
      out := [];
      new;
      var k := TakeDescriptor(Desc(StdinOps, 0, 0, true));
      k := TakeDescriptor(Desc(StdoutOps, 0, 0, true));
    }

    method SysOpen(name: seq<Byte>) returns (r: int)
      requires Valid() && NulFree(name)
      modifies fds
      ensures Valid() && fds[..] == After(old(fds[..]), img, Open(name))
      ensures r == OpenResult(old(fds[..]), img, name)
    {
      CallKeepsInv(fds[..], img, Open(name));
      var e := ReadDentryByName(img, name);
      if e.None? || EntryType(img, e.value) >= 3 {
        return -1;
      }
      r := TakeDescriptor(NewDesc(img, name, e.value));
    }

    method CloseFileDesc(fd: nat)
      requires fd < fds.Length
      modifies fds
      ensures fds[..] == old(fds[..])[fd := old(fds[fd]).(ops := NoOps, used := false)]
    {
      fds[fd] := fds[fd].(ops := NoOps, used := false);
    }

    method SysClose(fd: int) returns (r: int)
      requires Valid()
      modifies fds
      ensures Valid() && fds[..] == After(old(fds[..]), img, Close(fd))
      ensures r == if 2 <= fd < MAX_DESC && CanClose(old(fds[..])[fd].ops) then 0 else -1
    {
      CallKeepsInv(fds[..], img, Close(fd));
      if fd < 2 || fd >= MAX_DESC || !CanClose(fds[fd].ops) {
        return -1;
      }
      CloseFileDesc(fd);
      return 0;
    }

    /** Frees all eight descriptors, the terminal's too. */
    method ClosePcb()
      requires fds.Length == MAX_DESC
      modifies fds
      ensures forall i :: 0 <= i < MAX_DESC ==> !fds[i].used && fds[i].ops == NoOps
    {
      var i := 0;
      while i < MAX_DESC
        invariant 0 <= i <= MAX_DESC
        invariant forall k :: 0 <= k < i ==> !fds[k].used && fds[k].ops == NoOps
      {
        if CanClose(fds[i].ops) {
          CloseFileDesc(i);
        }
        CloseFileDesc(i);
        i := i + 1;
      }
    }

    /** fsys_read_file on a descriptor of an open file. */
    method ReadFile(fd: nat, buf: array<Byte>, at: nat, nbytes: nat) returns (r: nat)
      requires Valid() && fd < MAX_DESC && fds[fd].ops.FileOps? && nbytes < 0x8000_0000 && at + nbytes <= buf.Length
      modifies fds, buf
      ensures Valid() && fds[..] == old(fds[..])[fd := AfterRead(old(fds[fd]), img, nbytes)]
      ensures var bytes := TakeAt(Contents(img, old(fds[fd].inode)), old(fds[fd].pos), nbytes);
              r == |bytes| && buf[..] == old(buf[..at]) + bytes + old(buf[at + |bytes|..])
    {
      var d := fds[fd];
      CallKeepsInv(fds[..], img, Read(fd, nbytes));
      r := ReadAt(d, buf, at, nbytes);
      if r > 0 {
        fds[fd] := d.(pos := d.pos + r);
      }
    }

    /** The bytes of an open file at its position; no sum of position and length wraps around here. */
    method ReadAt(d: Desc, buf: array<Byte>, at: nat, nbytes: nat) returns (r: nat)
      requires WellFormedImage(img) && DescOk(d, img) && d.ops.FileOps? && nbytes < 0x8000_0000 && at + nbytes <= buf.Length
      modifies buf
      ensures var bytes := TakeAt(Contents(img, d.inode), d.pos, nbytes);
              r == |bytes| && buf[..] == old(buf[..at]) + bytes + old(buf[at + |bytes|..])
    {
      if d.pos >= FileLength(img, d.inode) {
        return 0;
      }
      ReadIsSlice(img, d.inode, d.pos, nbytes);
      var n := ReadData(img, d.inode, d.pos, buf, at, nbytes);
      r := n;
    }

    /** fsys_read_dir on a descriptor of the directory. */
    method ReadDirectory(fd: nat, buf: array<Byte>, at: nat, ghost nbytes: nat) returns (r: nat)
      requires Valid() && fd < MAX_DESC && fds[fd].ops.DirOps? && at + NAME_LEN <= buf.Length
      modifies fds, buf
      ensures Valid() && fds[..] == old(fds[..])[fd := AfterRead(old(fds[fd]), img, nbytes)]
      ensures r == DirResult(img, old(fds[fd].pos)) && buf[at..at + r] == DirBytes(img, old(fds[fd].pos))[..r]
      ensures buf[at..at + NAME_LEN] == DirBytes(img, old(fds[fd].pos))
      ensures forall k :: 0 <= k < buf.Length && !(at <= k < at + NAME_LEN) ==> buf[k] == old(buf[k])
    {
      CallKeepsInv(fds[..], img, Read(fd, nbytes));
      var pos := fds[fd].pos;
      r := ReadDir(img, pos, buf, at);
      FirstOfSlice(buf[..], at, r, NAME_LEN);
      if pos < NumEntries(img) {
        fds[fd] := fds[fd].(pos := pos + 1);
      }
    }

    /** sys_read of a descriptor other than the keyboard's. */
    method SysRead(fd: int, buf: array<Byte>, at: nat, nbytes: int) returns (r: int)
      requires Valid() && nbytes < 0x8000_0000 && at <= buf.Length
      requires InRange(fd) ==>
        && !fds[fd].ops.StdinOps?
        && (fds[fd].ops.FileOps? ==> at + nbytes <= buf.Length)
        && (fds[fd].ops.DirOps? ==> at + NAME_LEN <= buf.Length)
      modifies fds, buf
      ensures Valid() && fds[..] == After(old(fds[..]), img, Read(fd, nbytes))
      ensures !InRange(fd) || nbytes < 0 || !CanRead(old(fds[..])[fd].ops) ==> r == -1 && buf[..] == old(buf[..])
      ensures InRange(fd) && nbytes >= 0 && CanRead(old(fds[..])[fd].ops) ==>
        var bytes := Delivered(old(fds[..])[fd], img, nbytes);
        r == |bytes| && at + |bytes| <= buf.Length && buf[at..at + |bytes|] == bytes
      ensures InRange(fd) && nbytes >= 0 && CanRead(old(fds[..])[fd].ops) && !old(fds[..])[fd].ops.DirOps? ==>
        buf[..at] == old(buf[..at]) && buf[at + r..] == old(buf[at + r..])
    {
      if !InRange(fd) || nbytes < 0 || !CanRead(fds[fd].ops) {
        assert InRange(fd) && nbytes >= 0 ==> fds[fd] == AfterRead(fds[fd], img, nbytes);
        return -1;
      }
      if fds[fd].ops.FileOps? {
        r := ReadFile(fd, buf, at, nbytes);
      } else if fds[fd].ops.DirOps? {
        r := ReadDirectory(fd, buf, at, nbytes);
      } else {
        r := 0;
        assert fds[..][fd := AfterRead(fds[fd], img, nbytes)] == fds[..];
      }
    }

    /** A write of `data` by the operation of the descriptor; `clockOk` is whether the clock accepts the rate written. */
    method WriteBytes(fd: nat, data: seq<Byte>, clockOk: bool) returns (r: int)
      requires fd < fds.Length && CanWrite(fds[fd].ops)
      modifies this`out
      ensures r == WriteResult(fds[fd], |data|, clockOk)
      ensures out == if fds[fd].ops.StdoutOps? then old(out) + data else old(out)
    {
      if fds[fd].ops.StdoutOps? {
        out := out + data;
        return |data|;
      }
      r := if fds[fd].ops.RtcOps? && clockOk then |data| else -1;
    }

    method SysWrite(fd: int, data: seq<Byte>, nbytes: int, clockOk: bool) returns (r: int)
      requires Valid() && nbytes <= |data|
      modifies this`out
      ensures r == if InRange(fd) && nbytes >= 0 then WriteResult(fds[fd], nbytes, clockOk) else -1
      ensures out == if InRange(fd) && nbytes >= 0 && fds[fd].ops.StdoutOps? then old(out) + data[..nbytes] else old(out)
    {
      if !InRange(fd) || nbytes < 0 || !CanWrite(fds[fd].ops) {
        return -1;
      }
      r := WriteBytes(fd, data[..nbytes], clockOk);
    }
  }
}
