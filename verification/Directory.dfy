/** The directory in the boot block: lookup by name and reading it entry by entry (student-distrib/file_system.c). */
module Directory {
  import opened Machine
  import opened Strings
  import opened FileSystem

  const NAME_LEN := 32
  const ENTRY := 64

  function NumEntries(img: seq<Byte>): nat
    requires |img| >= BLOCK
  {
    Word(img, 0)
  }

  /** A sound image whose directory entries fit in the boot block. */
  predicate HasDirectory(img: seq<Byte>) {
    Sound(img) && ENTRY * (NumEntries(img) + 1) <= BLOCK
  }

  predicate IsEntry(img: seq<Byte>, i: nat) {
    HasDirectory(img) && i < NumEntries(img)
  }

  function EntryName(img: seq<Byte>, i: nat): (s: seq<Byte>)
    requires IsEntry(img, i)
    ensures |s| <= NAME_LEN && NulFree(s)
  {
    Field(img, ENTRY * (i + 1), NAME_LEN)
  }

  function EntryType(img: seq<Byte>, i: nat): Word32
    requires IsEntry(img, i)
  {
    Word(img, 16 * (i + 1) + 8)
  }

  function EntryInode(img: seq<Byte>, i: nat): Word32
    requires IsEntry(img, i)
  {
    Word(img, 16 * (i + 1) + 9)
  }

  /** The first entry from `i` on with that name. */
  function FindFrom(img: seq<Byte>, name: seq<Byte>, i: nat): (r: Option<nat>)
    requires HasDirectory(img)
    ensures r.Some? ==> i <= r.value < NumEntries(img) && EntryName(img, r.value) == name
    ensures forall j :: i <= j < (if r.Some? then r.value else NumEntries(img)) ==> EntryName(img, j) != name
    decreases NumEntries(img) - i
  {
    if i >= NumEntries(img) then None
    else if EntryName(img, i) == name then Some(i)
    else FindFrom(img, name, i + 1)
  }

  /** Names of more than 32 bytes are never found. */
  function Lookup(img: seq<Byte>, name: seq<Byte>): Option<nat>
    requires HasDirectory(img)
  {
    if |name| > NAME_LEN then None else FindFrom(img, name, 0)
  }

  lemma NameInBuffer(img: seq<Byte>, i: nat, poss: seq<Byte>, fname: seq<Byte>)
    requires IsEntry(img, i) && |poss| == NAME_LEN + 1 && NulFree(fname) && |fname| <= NAME_LEN
    requires poss[..NAME_LEN] == Padding(img, ENTRY * (i + 1), NAME_LEN)
    ensures Bounded(poss, NAME_LEN) == EntryName(img, i)
    ensures Bounded(fname + [NUL], NAME_LEN) == fname
  {
    var name := EntryName(img, i);
    assert poss[..NAME_LEN][..|name|] == name;
    PrefixIs(poss[..NAME_LEN], |name|);
    var f := (fname + [NUL])[..Min(NAME_LEN, |fname| + 1)];
    assert f[..|fname|] == fname;
    PrefixIs(f, |fname|);
  }

  /** The comparison of one entry's name, through a buffer. */
  method SameName(img: seq<Byte>, i: nat, poss: array<Byte>, fname: seq<Byte>) returns (same: bool)
    requires IsEntry(img, i) && NulFree(fname) && |fname| <= NAME_LEN && poss.Length == NAME_LEN + 1
    modifies poss
    ensures same <==> EntryName(img, i) == fname
  {
    Strncpy(poss, 0, img, ENTRY * (i + 1), NAME_LEN);
    assert poss[..][..NAME_LEN] == poss[0..NAME_LEN];
    NameInBuffer(img, i, poss[..], fname);
    var differ := Strncmp(poss[..], fname + [NUL], NAME_LEN);
    same := differ == 0;
  }

  /** read_dentry_by_name: the entry found, by its index. */
  method ReadDentryByName(img: seq<Byte>, fname: seq<Byte>) returns (r: Option<nat>)
    requires HasDirectory(img) && NulFree(fname)
    ensures r == Lookup(img, fname)
  {
    if |fname| > NAME_LEN {
      return None;
    }
    var poss := new Byte[NAME_LEN + 1](_ => NUL);
    var i := 0;
    while i < NumEntries(img)
      invariant 0 <= i <= NumEntries(img) && fresh(poss)
      invariant FindFrom(img, fname, i) == FindFrom(img, fname, 0)
    {
      var same := SameName(img, i, poss, fname);
      if same {
        return Some(i);
      }
      i := i + 1;
    }
    return None;
  }

  // ----- Reading the directory

  /** What one directory read returns: 0 at the end, else the length of a name, 32 if its last byte is set. */
  function DirResult(img: seq<Byte>, pos: nat): nat
    requires HasDirectory(img)
  {
    if pos >= NumEntries(img) then 0
    else if img[ENTRY * (pos + 1) + NAME_LEN - 1] != NUL then NAME_LEN
    else |EntryName(img, pos)|
  }

  /** The first 32 bytes of the buffer after a directory read. */
  function DirBytes(img: seq<Byte>, pos: nat): seq<Byte>
    requires HasDirectory(img)
  {
    if pos >= NumEntries(img) then Repeat(NUL, NAME_LEN) else Padding(img, ENTRY * (pos + 1), NAME_LEN)
  }

  lemma ShortName(img: seq<Byte>, i: nat)
    requires IsEntry(img, i) && img[ENTRY * (i + 1) + NAME_LEN - 1] == NUL
    ensures NUL in img[ENTRY * (i + 1)..]
    ensures Prefix(img[ENTRY * (i + 1)..]) == EntryName(img, i)
    ensures Field(img, ENTRY * (i + 1), |EntryName(img, i)|) == EntryName(img, i)
  {
    var at, name := ENTRY * (i + 1), EntryName(img, i);
    assert img[at..][NAME_LEN - 1] == NUL;
    assert img[at..at + NAME_LEN][NAME_LEN - 1] == NUL;
    assert img[at..][..|name|] == name;
    PrefixIs(img[at..], |name|);
    assert img[at..at + |name|][..|name|] == name;
    PrefixIs(img[at..at + |name|], |name|);
  }

  method ClearName(buf: array<Byte>, at: nat)
    requires at + NAME_LEN <= buf.Length
    modifies buf
    ensures forall k :: 0 <= k < buf.Length ==> buf[k] == if at <= k < at + NAME_LEN then NUL else old(buf[k])
  {
    for i := 0 to NAME_LEN
      invariant forall k :: 0 <= k < buf.Length ==> buf[k] == if at <= k < at + i then NUL else old(buf[k])
    {
      buf[at + i] := NUL;
    }
  }

  method CopyName(img: seq<Byte>, pos: nat, buf: array<Byte>, at: nat) returns (ret: nat)
    requires IsEntry(img, pos) && at + NAME_LEN <= buf.Length
    requires forall k :: at <= k < at + NAME_LEN ==> buf[k] == NUL
    modifies buf
    ensures ret == DirResult(img, pos) && buf[at..at + NAME_LEN] == DirBytes(img, pos)
    ensures forall k :: 0 <= k < buf.Length && !(at <= k < at + NAME_LEN) ==> buf[k] == old(buf[k])
  {
    var name := ENTRY * (pos + 1);
    if img[name + NAME_LEN - 1] != NUL {
      Strncpy(buf, at, img, name, NAME_LEN);
      ret := NAME_LEN;
    } else {
      ShortName(img, pos);
      ret := Strlen(img, name);
      Strncpy(buf, at, img, name, ret);
      assert buf[at..at + NAME_LEN] == buf[at..at + ret] + Repeat(NUL, NAME_LEN - ret);
    }
  }

  /** fsys_read_dir, but for the step of the position; 32 bytes of the buffer are written whatever was asked for. */
  method ReadDir(img: seq<Byte>, pos: nat, buf: array<Byte>, at: nat) returns (ret: nat)
    requires HasDirectory(img) && at + NAME_LEN <= buf.Length
    modifies buf
    ensures ret == DirResult(img, pos)
    ensures buf[at..at + NAME_LEN] == DirBytes(img, pos)
    ensures forall k :: 0 <= k < buf.Length && !(at <= k < at + NAME_LEN) ==> buf[k] == old(buf[k])
  {
    ClearName(buf, at);
    if pos >= NumEntries(img) {
      return 0;
    }
    ret := CopyName(img, pos, buf, at);
  }

  // ----- Listing and opening

  predicate IsPadded(img: seq<Byte>, i: nat)
    requires IsEntry(img, i)
  {
    img[ENTRY * (i + 1)..ENTRY * (i + 1) + NAME_LEN] == Padding(img, ENTRY * (i + 1), NAME_LEN)
  }

  /** Names are non-empty, distinct and filled up with NULs; a name may use all 32 bytes. */
  predicate TidyNames(img: seq<Byte>)
    requires HasDirectory(img)
  {
    && (forall i :: 0 <= i < NumEntries(img) ==> EntryName(img, i) != [])
    && (forall i, j :: 0 <= i < j < NumEntries(img) ==> EntryName(img, i) != EntryName(img, j))
    && (forall i :: 0 <= i < NumEntries(img) ==> IsPadded(img, i))
  }

  /** A directory read yields the whole name of its entry, terminated or not, and 0 only at the end. */
  lemma ReadYieldsName(img: seq<Byte>, i: nat)
    requires HasDirectory(img) && TidyNames(img)
    ensures DirResult(img, i) == 0 <==> i >= NumEntries(img)
    ensures i < NumEntries(img) ==> DirResult(img, i) == |EntryName(img, i)|
    ensures i < NumEntries(img) ==> DirBytes(img, i)[..DirResult(img, i)] == EntryName(img, i)
  {
    if i < NumEntries(img) {
      assert IsPadded(img, i);
      var at := ENTRY * (i + 1);
      assert img[at..at + NAME_LEN][NAME_LEN - 1] == img[at + NAME_LEN - 1];
    }
  }

  /** Opening a listed name finds the entry it was listed from. */
  lemma ListThenOpen(img: seq<Byte>, i: nat)
    requires HasDirectory(img) && TidyNames(img) && i < NumEntries(img)
    ensures Lookup(img, DirBytes(img, i)[..DirResult(img, i)]) == Some(i)
  {
    ReadYieldsName(img, i);
  }

  /** A lookup succeeds exactly on the names in the directory. */
  lemma LookupExact(img: seq<Byte>, name: seq<Byte>)
    requires HasDirectory(img)
    ensures Lookup(img, name).Some? <==> exists i :: 0 <= i < NumEntries(img) && EntryName(img, i) == name
  {
  }
}
