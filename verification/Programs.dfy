/** The user programs cat and ls over the system calls (syscalls/ece391cat.c, syscalls/ece391ls.c). */
module Programs {
  import opened Machine
  import opened Strings
  import opened FileSystem
  import opened Directory
  import opened Descriptors
  import opened Tasks

  /** The bytes of an ASCII text. */
  function Text(s: string): (r: seq<Byte>)
    requires forall i :: 0 <= i < |s| ==> s[i] < 128 as char
    ensures |r| == |s|
  {
    seq(|s|, i requires 0 <= i < |s| => s[i] as int)
  }

  const NO_ARGUMENTS := Text("could not read arguments\n")
  const NOT_FOUND := Text("file not found\n")
  const READ_FAILED := Text("file read failed\n")
  const DIRECTORY_FAILED := Text("directory open failed\n")
  const ENTRY_FAILED := Text("directory entry read failed\n")

  /** The names of the directory from entry `i` on, one behind the other. */
  function Names(img: seq<Byte>, i: nat): seq<Byte>
    requires HasDirectory(img)
    decreases NumEntries(img) - i
  {
    if i >= NumEntries(img) then [] else EntryName(img, i) + Names(img, i + 1)
  }

  /** All that reading a descriptor to its end delivers. */
  function Stream(d: Desc, img: seq<Byte>): seq<Byte>
    requires WellFormedImage(img) && DescOk(d, img)
  {
    if d.ops.FileOps? then Contents(img, d.inode)[d.pos..]
    else if d.ops.DirOps? then Names(img, d.pos)
    else []
  }

  /** What is left to read, as a measure. */
  function Left(d: Desc, img: seq<Byte>): nat
    requires WellFormedImage(img) && DescOk(d, img)
  {
    if d.ops.FileOps? then FileLength(img, d.inode) - d.pos
    else if d.ops.DirOps? && d.pos < NumEntries(img) then NumEntries(img) - d.pos
    else 0
  }

  lemma TakeThenRest<T>(s: seq<T>, pos: nat, n: nat)
    requires pos <= |s| && n > 0
    ensures pos + |TakeAt(s, pos, n)| <= |s|
    ensures TakeAt(s, pos, n) + s[pos + |TakeAt(s, pos, n)|..] == s[pos..]
    ensures TakeAt(s, pos, n) == [] <==> pos == |s|
  {
  }

  predicate StepOf(d: Desc, img: seq<Byte>, n: nat)
    requires WellFormedImage(img) && DescOk(d, img) && DescOk(AfterRead(d, img, n), img)
  {
    var after, bytes := AfterRead(d, img, n), Delivered(d, img, n);
    && bytes + Stream(after, img) == Stream(d, img)
    && (bytes == [] ==> Stream(d, img) == [])
    && (bytes != [] ==> Left(after, img) < Left(d, img))
  }

  lemma FileStep(d: Desc, img: seq<Byte>, n: nat)
    requires WellFormedImage(img) && DescOk(d, img) && n > 0 && d.ops.FileOps?
    ensures DescOk(AfterRead(d, img, n), img) && StepOf(d, img, n)
  {
    TakeThenRest(Contents(img, d.inode), d.pos, n);
  }

  lemma DirStep(d: Desc, img: seq<Byte>, n: nat)
    requires WellFormedImage(img) && DescOk(d, img) && n > 0 && d.ops.DirOps? && TidyNames(img)
    ensures DescOk(AfterRead(d, img, n), img) && StepOf(d, img, n)
  {
    ReadYieldsName(img, d.pos);
  }

  /** A read delivers a first part of the stream and leaves the rest; it delivers nothing only at the end. */
  lemma StreamStep(d: Desc, img: seq<Byte>, n: nat)
    requires WellFormedImage(img) && TidyNames(img) && DescOk(d, img) && n > 0
    ensures DescOk(AfterRead(d, img, n), img) && StepOf(d, img, n)
  {
    if d.ops.FileOps? {
      FileStep(d, img, n);
    } else if d.ops.DirOps? {
      DirStep(d, img, n);
    }
  }

  /** A read of a descriptor, seen at that descriptor alone. */
  method ReadOne(task: Task, fd: nat, buf: array<Byte>, n: nat) returns (cnt: int)
    requires task.Valid() && 2 <= fd < MAX_DESC && !task.fds[fd].ops.StdinOps? && NAME_LEN <= n < 0x8000_0000 && n <= buf.Length
    modifies task.fds, buf
    ensures task.Valid() && DescOk(old(task.fds[fd]), task.img)
    ensures task.fds[..] == old(task.fds[..])[fd := AfterRead(old(task.fds[fd]), task.img, n)]
    ensures !CanRead(old(task.fds[fd].ops)) ==> cnt == -1
    ensures CanRead(old(task.fds[fd].ops)) ==>
      0 <= cnt <= buf.Length && buf[..cnt] == Delivered(old(task.fds[fd]), task.img, n)
  {
    assert DescOk(task.fds[fd], task.img);
    cnt := task.SysRead(fd, buf, 0, n);
    assert cnt >= 0 ==> buf[..cnt] == buf[0..cnt];
  }

  /** ece391_fdputs to the terminal. */
  method Puts(task: Task, text: seq<Byte>)
    requires task.Valid()
    modifies task`out
    ensures task.out == old(task.out) + text
  {
    assert text[..|text|] == text;
    var w := task.SysWrite(1, text, |text|, false);
  }

  /** The status of a program whose last read gave `cnt`; a failed read is reported. */
  method Finish(task: Task, cnt: int, report: seq<Byte>) returns (status: nat)
    requires task.Valid()
    modifies task`out
    ensures status == if cnt == 0 then 0 else 3
    ensures task.out == old(task.out) + if cnt == -1 then report else []
  {
    if cnt == -1 {
      Puts(task, report);
    }
    status := if cnt == 0 then 0 else 3;
  }

  /** One round of cat's loop: the bytes of a read are written to the terminal. */
  method CopySome(task: Task, fd: nat, buf: array<Byte>) returns (cnt: int, w: int)
    requires task.Valid() && 2 <= fd < MAX_DESC && !task.fds[fd].ops.StdinOps? && buf.Length == 1024
    modifies task`out, task.fds, buf
    ensures task.Valid() && DescOk(old(task.fds[fd]), task.img)
    ensures task.fds[..] == old(task.fds[..])[fd := AfterRead(old(task.fds[fd]), task.img, 1024)]
    ensures !CanRead(old(task.fds[fd].ops)) ==> cnt == -1 && task.out == old(task.out)
    ensures CanRead(old(task.fds[fd].ops)) ==>
      var bytes := Delivered(old(task.fds[fd]), task.img, 1024);
      cnt == |bytes| == w && task.out == old(task.out) + bytes
  {
    cnt := ReadOne(task, fd, buf, 1024);
    w := 0;
    if cnt != 0 && cnt != -1 {
      assert buf[..][..cnt] == buf[..cnt];
      w := task.SysWrite(1, buf[..], cnt, false);
    }
  }

  lemma JoinTail<T>(a: seq<T>, b: seq<T>, c: seq<T>, d: seq<T>)
    requires b + c == d
    ensures a + b + c == a + d && (d == [] ==> a + d == a)
  {
  }

  /** The output so far, with what the descriptor still delivers, makes up `goal`. */
  predicate Owes(out: seq<Byte>, d: Desc, img: seq<Byte>, goal: seq<Byte>)
    requires WellFormedImage(img) && DescOk(d, img)
  {
    out + Stream(d, img) == goal
  }

  lemma CopyKeepsGoal(out: seq<Byte>, now: seq<Byte>, d: Desc, after: Desc, img: seq<Byte>, n: nat, goal: seq<Byte>)
    requires WellFormedImage(img) && TidyNames(img) && DescOk(d, img) && n > 0 && Owes(out, d, img, goal)
    requires after == AfterRead(d, img, n) && now == out + Delivered(d, img, n)
    ensures DescOk(after, img) && Owes(now, after, img, goal)
    ensures Delivered(d, img, n) == [] ==> now == goal
    ensures Delivered(d, img, n) != [] ==> Left(after, img) < Left(d, img)
  {
    StreamStep(d, img, n);
    JoinTail(out, Delivered(d, img, n), Stream(after, img), Stream(d, img));
  }

  /** The rounds of cat's loop up to the read that ends it. */
  method CopyLoop(task: Task, fd: nat) returns (cnt: int, w: int)
    requires task.Valid() && TidyNames(task.img) && 2 <= fd < MAX_DESC && !task.fds[fd].ops.StdinOps?
    modifies task`out, task.fds
    ensures task.Valid() && DescOk(old(task.fds[fd]), task.img)
    ensures forall i :: 0 <= i < MAX_DESC && i != fd ==> task.fds[i] == old(task.fds[i])
    ensures CanRead(old(task.fds[fd].ops)) ==> cnt == 0 && task.out == old(task.out) + Stream(old(task.fds[fd]), task.img)
    ensures !CanRead(old(task.fds[fd].ops)) ==> cnt == -1 && task.out == old(task.out)
  {
    var buf := new Byte[1024];
    assert DescOk(task.fds[fd], task.img);
    ghost var d := task.fds[fd];
    ghost var goal := task.out + Stream(d, task.img);
    while true
      invariant task.Valid() && fresh(buf) && task.fds[fd] == d && DescOk(d, task.img) && d.ops == old(task.fds[fd].ops)
      invariant forall i :: 0 <= i < MAX_DESC && i != fd ==> task.fds[i] == old(task.fds[i])
      invariant if CanRead(d.ops) then Owes(task.out, d, task.img, goal) else task.out == old(task.out)
      decreases Left(d, task.img)
    {
      ghost var out, before := task.out, d;
      cnt, w := CopySome(task, fd, buf);
      d := task.fds[fd];
      if CanRead(before.ops) {
        CopyKeepsGoal(out, task.out, before, d, task.img, 1024, goal);
      }
      if cnt == 0 || cnt == -1 || w == -1 {
        break;
      }
    }
  }

  /** The loop of cat: all that the descriptor still delivers is written to the terminal. */
  method CopyAll(task: Task, fd: nat) returns (status: nat)
    requires task.Valid() && TidyNames(task.img) && 2 <= fd < MAX_DESC && !task.fds[fd].ops.StdinOps?
    modifies task`out, task.fds
    ensures task.Valid() && DescOk(old(task.fds[fd]), task.img)
    ensures forall i :: 0 <= i < MAX_DESC && i != fd ==> task.fds[i] == old(task.fds[i])
    ensures CanRead(old(task.fds[fd].ops)) ==> status == 0 && task.out == old(task.out) + Stream(old(task.fds[fd]), task.img)
    ensures !CanRead(old(task.fds[fd].ops)) ==> status == 3 && task.out == old(task.out) + READ_FAILED
  {
    var cnt, w := CopyLoop(task, fd);
    status := Finish(task, cnt, READ_FAILED);
  }

  /** An accepted name gives a descriptor that can be read, unless the name begins like a terminal's. */
  lemma OpenGives(fds: seq<Desc>, img: seq<Byte>, name: seq<Byte>)
    requires WellFormedImage(img) && Inv(fds, img) && OpenResult(fds, img, name) != -1 && !(STDIN <= name)
    ensures Openable(img, name).Some?
    ensures var r, d := OpenResult(fds, img, name), NewDesc(img, name, Openable(img, name).value);
            && 2 <= r < MAX_DESC && After(fds, img, Open(name))[r] == d && !d.ops.StdinOps?
            && DescOk(d, img) && (CanRead(d.ops) <==> !(STDOUT <= name))
  {
    OpenTakesLeastFree(fds, img, name);
  }

  /** Opening the name of a regular file gives the contents of that entry's inode. */
  lemma FileOpened(img: seq<Byte>, i: nat)
    requires WellFormedImage(img) && TidyNames(img) && i < NumEntries(img) && EntryType(img, i) == 2
    requires !(STDIN <= EntryName(img, i)) && !(STDOUT <= EntryName(img, i))
    ensures Openable(img, EntryName(img, i)) == Some(i)
    ensures var d := NewDesc(img, EntryName(img, i), i);
            DescOk(d, img) && Stream(d, img) == Contents(img, EntryInode(img, i))
  {
    ReadYieldsName(img, i);
    ListThenOpen(img, i);
  }

  /** cat: its argument, if any, names the file; everything the file delivers is written to the terminal. */
  method Cat(task: Task, arg: Option<seq<Byte>>) returns (status: nat)
    requires task.Valid() && TidyNames(task.img)
    requires arg.Some? ==> NulFree(arg.value) && !(STDIN <= arg.value)
    modifies task`out, task.fds
    ensures task.Valid()
    ensures arg.None? ==> status == 3 && task.out == old(task.out) + NO_ARGUMENTS
    ensures arg.Some? && OpenResult(old(task.fds[..]), task.img, arg.value) == -1 ==>
      status == 2 && task.out == old(task.out) + NOT_FOUND
    ensures arg.Some? && OpenResult(old(task.fds[..]), task.img, arg.value) != -1 ==>
      var d := NewDesc(task.img, arg.value, Openable(task.img, arg.value).value);
      && DescOk(d, task.img)
      && if STDOUT <= arg.value then status == 3 && task.out == old(task.out) + READ_FAILED
         else status == 0 && task.out == old(task.out) + Stream(d, task.img)
  {
    if arg.None? {
      Puts(task, NO_ARGUMENTS);
      return 3;
    }
    var fd := task.SysOpen(arg.value);
    if fd == -1 {
      Puts(task, NOT_FOUND);
      return 2;
    }
    OpenGives(old(task.fds[..]), task.img, arg.value);
    assert task.fds[fd] == task.fds[..][fd];
    status := CopyAll(task, fd);
  }

  // ----- ls

  /** The names of the directory from entry `i` on, each on a line of its own. */
  function Listing(img: seq<Byte>, i: nat): seq<Byte>
    requires HasDirectory(img)
    decreases NumEntries(img) - i
  {
    if i >= NumEntries(img) then [] else (EntryName(img, i) + NL) + Listing(img, i + 1)
  }

  /** One round of the loop of ls: the name read is written with a newline behind it. */
  method ListOne(task: Task, fd: nat, buf: array<Byte>) returns (cnt: int, w: int)
    requires task.Valid() && TidyNames(task.img) && 2 <= fd < MAX_DESC && task.fds[fd].ops.DirOps? && buf.Length == 33
    modifies task`out, task.fds, buf
    ensures task.Valid() && task.fds[fd].ops.DirOps?
    ensures old(task.fds[fd].pos) < NumEntries(task.img) ==>
      var name := EntryName(task.img, old(task.fds[fd].pos));
      && cnt == |name| && cnt > 0 && w == cnt + 1 && task.out == old(task.out) + (name + NL)
      && task.fds[fd].pos == old(task.fds[fd].pos) + 1
    ensures old(task.fds[fd].pos) >= NumEntries(task.img) ==> cnt == 0 && task.out == old(task.out)
  {
    ghost var pos := task.fds[fd].pos;
    ReadYieldsName(task.img, pos);
    cnt := ReadOne(task, fd, buf, 32);
    w := 0;
    if cnt != 0 && cnt != -1 {
      ghost var name := buf[..cnt];
      buf[cnt] := NEWLINE;
      assert buf[..cnt + 1] == name + NL;
      assert buf[..][..cnt + 1] == buf[..cnt + 1];
      w := task.SysWrite(1, buf[..], cnt + 1, false);
    }
  }

  /** The output so far, with the names from entry `i` on, makes up `goal`. */
  predicate Lacks(out: seq<Byte>, img: seq<Byte>, i: nat, goal: seq<Byte>)
    requires HasDirectory(img)
  {
    out + Listing(img, i) == goal
  }

  lemma ListedOne(out: seq<Byte>, now: seq<Byte>, img: seq<Byte>, i: nat, next: nat, goal: seq<Byte>)
    requires HasDirectory(img) && i < NumEntries(img) && next == i + 1
    requires now == out + (EntryName(img, i) + NL) && Lacks(out, img, i, goal)
    ensures Lacks(now, img, next, goal)
  {
    JoinTail(out, EntryName(img, i) + NL, Listing(img, i + 1), Listing(img, i));
  }

  method ListLoop(task: Task, fd: nat) returns (cnt: int, w: int)
    requires task.Valid() && TidyNames(task.img) && 2 <= fd < MAX_DESC && task.fds[fd].ops.DirOps?
    modifies task`out, task.fds
    ensures task.Valid() && cnt == 0
    ensures task.out == old(task.out) + Listing(task.img, old(task.fds[fd].pos))
  {
    var buf := new Byte[33];
    ghost var i: nat := task.fds[fd].pos;
    ghost var goal := task.out + Listing(task.img, i);
    while true
      invariant task.Valid() && task.fds[fd].ops.DirOps? && fresh(buf) && i == task.fds[fd].pos
      invariant Lacks(task.out, task.img, i, goal)
      decreases NumEntries(task.img) - i
    {
      ghost var out, at := task.out, i;
      cnt, w := ListOne(task, fd, buf);
      if cnt == 0 || cnt == -1 || w == -1 {
        break;
      }
      i := at + 1;
      ListedOne(out, task.out, task.img, at, i, goal);
    }
    JoinTail(task.out, [], [], Listing(task.img, i));
  }

  const DOT: seq<Byte> := [46]

  /** ls: where "." is a directory, every name of it is printed once, in order, on a line of its own. */
  method Ls(task: Task) returns (status: nat)
    requires task.Valid() && TidyNames(task.img)
    requires Openable(task.img, DOT).Some? ==> EntryType(task.img, Openable(task.img, DOT).value) == 1
    modifies task`out, task.fds
    ensures task.Valid()
    ensures if OpenResult(old(task.fds[..]), task.img, DOT) == -1
            then status == 2 && task.out == old(task.out) + DIRECTORY_FAILED
            else status == 0 && task.out == old(task.out) + Listing(task.img, 0)
  {
    var fd := task.SysOpen(DOT);
    if fd == -1 {
      Puts(task, DIRECTORY_FAILED);
      return 2;
    }
    OpenGives(old(task.fds[..]), task.img, DOT);
    assert task.fds[fd] == task.fds[..][fd];
    var cnt, w := ListLoop(task, fd);
    status := Finish(task, cnt, ENTRY_FAILED);
  }
}
