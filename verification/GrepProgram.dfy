/** The grep program over the system calls (syscalls/ece391grep.c, syscalls/ece391support.c). */
module GrepProgram {
  import opened Machine
  import opened Strings
  import opened Directory
  import opened Descriptors
  import opened Tasks
  import opened Programs
  import Grep

  const NO_ARGUMENT := Text("could not read argument\n")
  const OPEN_FAILED := Text("file open failed\n")
  const CLOSE_FAILED := Text("file close failed\n")

  // ----- String functions of the user library

  /** ece391_strcpy of a string at `from` down to the start of its own buffer; `e` is where the string ends. */
  method CopyDown(data: array<Byte>, from: nat, ghost e: nat)
    requires from <= e < data.Length && data[e] == NUL && forall k :: from <= k < e ==> data[k] != NUL
    modifies data
    ensures forall k {:trigger data[k]} :: 0 <= k <= e - from ==> data[k] == old(data[from + k])
    ensures forall k {:trigger data[k]} :: e - from < k < data.Length ==> data[k] == old(data[k])
  {
    var i := 0;
    while data[from + i] != NUL
      invariant from + i <= e
      invariant forall k {:trigger data[k]} :: 0 <= k < i ==> data[k] == old(data[from + k])
      invariant forall k {:trigger data[k]} :: i <= k < data.Length ==> data[k] == old(data[k])
      decreases e - i
    {
      data[i] := data[from + i];
      i := i + 1;
    }
    assert from + i == e;
    data[i] := data[from + i];
  }

  /** ece391_strncmp. */
  method Compare(s1: seq<Byte>, s2: seq<Byte>, n: nat) returns (r: int)
    requires Ends(s1, n) && Ends(s2, n)
    ensures r == 0 <==> Bounded(s1, n) == Bounded(s2, n)
    ensures r != 0 ==> exists i: nat :: DiffersAt(s1, s2, n, i) && (r < 0 <==> s1[i] < s2[i])
  {
    if n == 0 {
      return 0;
    }
    var i := 0;
    NotOver(s1, n, 0);
    NotOver(s2, n, 0);
    while s1[i] == s2[i]
      invariant 0 <= i < n && i < |s1| && i < |s2|
      invariant s1[..i] == s2[..i] && NulFree(s1[..i])
      decreases n - i
    {
      if s1[i] == NUL {
        DecidedHere(s1, s2, n, i);
        return 0;
      }
      if i + 1 == n {
        assert s1[..n] == s2[..n];
        return 0;
      }
      i := i + 1;
      NotOver(s1, n, i);
      NotOver(s2, n, i);
    }
    DecidedHere(s1, s2, n, i);
    assert DiffersAt(s1, s2, n, i);
    var a: int, b: int := s1[i], s2[i];
    r := a - b;
  }

  // ----- Searching one line

  /** The comparison at one place of a line that is terminated in its buffer. */
  lemma ComparesPattern(data: seq<Byte>, from: nat, e: nat, k: nat, s: seq<Byte>)
    requires from <= e < |data| && data[e] == NUL && NulFree(s) && k < e - from
    ensures Ends(data[from + k..], |s|) && Ends(s + [NUL], |s|)
    ensures Bounded(data[from + k..], |s|) == Bounded(s + [NUL], |s|) <==> s <= data[from..e][k..]
  {
    var line, t := data[from..e][k..], data[from + k..];
    assert t[e - from - k] == NUL && t[..|line|] == line;
    assert (s + [NUL])[..|s|] == s;
    PrefixIs(s, |s|);
    var b := t[..Min(|s|, |t|)];
    if s <= line {
      assert b == line[..|s|] == s;
    } else if |s| <= |line| {
      assert b == line[..|s|];
    } else {
      assert b[|line|] == NUL;
    }
  }

  /** The test at one place of the line, first the first byte as a signed char, then all of the pattern. */
  method SeenAt(data: array<Byte>, lineStart: nat, lineEnd: nat, check: nat, s: seq<Byte>, ghost line: seq<Byte>)
    returns (seen: bool)
    requires NulFree(s) && lineStart <= check < lineEnd < data.Length
    requires data[lineEnd] == NUL && data[lineStart..lineEnd] == line
    ensures seen <==> Grep.OccursAt(s, line, check - lineStart)
  {
    ComparesPattern(data[..], lineStart, lineEnd, check - lineStart, s);
    assert data[check] == line[check - lineStart];
    seen := false;
    if SignedByte((s + [NUL])[0]) == data[check] {
      var differ := Compare(data[check..], s + [NUL], |s|);
      seen := differ == 0;
    }
  }

  method SearchLine(task: Task, data: array<Byte>, lineStart: nat, lineEnd: nat, s: seq<Byte>, fname: seq<Byte>,
                    ghost line: seq<Byte>)
    requires task.Valid() && NulFree(s)
    requires lineStart <= lineEnd < data.Length && data[lineEnd] == NUL && data[lineStart..lineEnd] == line
    modifies task`out
    ensures task.out == old(task.out) + Grep.Printed(Grep.Match(s, line), fname)
  {
    var check := lineStart;
    while check < lineEnd
      invariant lineStart <= check <= lineEnd && task.out == old(task.out)
      invariant forall k :: 0 <= k < check - lineStart ==> !Grep.OccursAt(s, line, k)
    {
      var seen := SeenAt(data, lineStart, lineEnd, check, s, line);
      if seen {
        PrintLine(task, data, lineStart, fname, line);
        return;
      }
      check := check + 1;
    }
  }

  /** The string that begins at a line terminated in its buffer is the line as far as its first NUL. */
  lemma LineInBuffer(data: seq<Byte>, lineStart: nat, line: seq<Byte>)
    requires lineStart + |line| < |data| && data[lineStart + |line|] == NUL
    requires data[lineStart..lineStart + |line|] == line
    ensures NUL in data[lineStart..] && Prefix(data[lineStart..]) == Prefix(line)
  {
    var t := data[lineStart..];
    assert t[|line|] == NUL && t[..|line|] == line;
    var n := |Prefix(line)|;
    assert t[..n] == line[..n] && (n < |line| ==> t[n] == line[n]);
    PrefixIs(t, n);
  }

  method PrintLine(task: Task, data: array<Byte>, lineStart: nat, fname: seq<Byte>, ghost line: seq<Byte>)
    requires task.Valid()
    requires lineStart + |line| < data.Length && data[lineStart + |line|] == NUL
    requires data[lineStart..lineStart + |line|] == line
    modifies task`out
    ensures task.out == old(task.out) + (fname + Grep.COLON + Prefix(line) + NL)
  {
    LineInBuffer(data[..], lineStart, line);
    var len := Strlen(data[..], lineStart);
    PutLine(task, fname, data[lineStart..lineStart + len]);
  }

  method PutLine(task: Task, fname: seq<Byte>, line: seq<Byte>)
    requires task.Valid()
    modifies task`out
    ensures task.out == old(task.out) + (fname + Grep.COLON + line + NL)
  {
    Puts(task, fname);
    Puts(task, Grep.COLON);
    Puts(task, line);
    Puts(task, NL);
  }

  // ----- The sliding buffer

  /** The buffer from `from` to `last` holds the file from `at + from` on. */
  ghost predicate Window(data: array<Byte>, from: nat, last: nat, f: seq<Byte>, at: nat)
    requires last <= data.Length && at + last <= |f|
    reads data
  {
    forall k {:trigger data[k]} :: from <= k < last ==> data[k] == f[at + k]
  }

  method FindEnd(data: array<Byte>, lineStart: nat, last: nat) returns (lineEnd: nat)
    requires lineStart <= last <= data.Length
    ensures lineStart <= lineEnd <= last && (lineEnd < last ==> data[lineEnd] == NEWLINE)
    ensures forall k :: lineStart <= k < lineEnd ==> data[k] != NEWLINE
  {
    lineEnd := lineStart;
    while lineEnd < last && data[lineEnd] != NEWLINE
      invariant lineStart <= lineEnd <= last
      invariant forall k :: lineStart <= k < lineEnd ==> data[k] != NEWLINE
    {
      lineEnd := lineEnd + 1;
    }
  }

  /** The next piece of f[..end] is in the buffer from `lineStart` to `lineEnd`: a line, or all that is left. */
  ghost predicate PieceIn(f: seq<Byte>, at: nat, lineStart: nat, lineEnd: nat, last: nat, end: nat) {
    && lineStart <= lineEnd <= last <= Grep.BUFSIZE && at + lineEnd <= end <= |f|
    && (if lineEnd < last then at + lineEnd < end && f[at + lineEnd] == NEWLINE else at + last == end)
    && forall k :: at + lineStart <= k < at + lineEnd ==> f[k] != NEWLINE
  }

  /** The end of a piece, as seen in the buffer. */
  lemma PieceInBuffer(f: seq<Byte>, at: nat, lineStart: nat, lineEnd: nat, last: nat, end: nat)
    requires PieceIn(f, at, lineStart, lineEnd, last, end) && at + lineStart < end
    ensures Grep.PieceEnd(f, at + lineStart, end) == at + lineEnd
    ensures Grep.NextPiece(f, at + lineStart, end) == at + if lineEnd < last then lineEnd + 1 else last
  {
    Grep.LineEndIs(f, at + lineStart, Grep.Reach(at + lineStart, end), at + lineEnd);
  }

  lemma InBuffer(data: array<Byte>, lineStart: nat, lineEnd: nat, f: seq<Byte>, at: nat)
    requires lineStart <= lineEnd <= data.Length && at + lineEnd <= |f| && Window(data, lineStart, lineEnd, f, at)
    ensures data[lineStart..lineEnd] == f[at + lineStart..at + lineEnd]
  {
  }

  /** Searches the piece of the file from `p` to `e`, which is in the buffer from `lineStart` to `lineEnd`. */
  method SearchPiece(task: Task, data: array<Byte>, lineStart: nat, lineEnd: nat, s: seq<Byte>, fname: seq<Byte>,
                     ghost f: seq<Byte>, ghost p: nat, ghost e: nat, ghost next: nat, ghost end: nat,
                     ghost goal: seq<Byte>)
    requires task.Valid() && NulFree(s) && lineStart <= lineEnd < data.Length && p <= e <= next <= end <= |f|
    requires p < end ==> Grep.PieceEnd(f, p, end) == e && Grep.NextPiece(f, p, end) == next
    requires data[lineStart..lineEnd] == f[p..e] && Grep.Lacks(task.out, f, p, end, s, fname, goal)
    modifies task`out, data
    ensures forall k {:trigger data[k]} :: 0 <= k < data.Length ==> data[k] == if k == lineEnd then NUL else old(data[k])
    ensures Grep.Lacks(task.out, f, next, end, s, fname, goal)
  {
    ghost var out, piece := task.out, f[p..e];
    data[lineEnd] := NUL;
    assert data[lineStart..lineEnd] == piece;
    SearchLine(task, data, lineStart, lineEnd, s, fname, piece);
    Grep.PieceSearched(out, task.out, f, p, e, next, end, s, fname, goal);
  }

  method SearchHere(task: Task, data: array<Byte>, lineStart: nat, lineEnd: nat, ghost last: nat, s: seq<Byte>,
                    fname: seq<Byte>, ghost f: seq<Byte>, ghost at: nat, ghost end: nat, ghost goal: seq<Byte>)
    returns (ghost next: nat)
    requires task.Valid() && NulFree(s) && data.Length == Grep.BUFSIZE + 1
    requires PieceIn(f, at, lineStart, lineEnd, last, end) && Window(data, lineStart, lineEnd, f, at)
    requires Grep.Lacks(task.out, f, at + lineStart, end, s, fname, goal)
    modifies task`out, data
    ensures forall k {:trigger data[k]} :: 0 <= k < data.Length ==> data[k] == if k == lineEnd then NUL else old(data[k])
    ensures next == at + if lineEnd < last then lineEnd + 1 else last
    ensures Grep.Lacks(task.out, f, next, end, s, fname, goal)
  {
    ghost var p, e := at + lineStart, at + lineEnd;
    next := if lineEnd < last then e + 1 else e;
    if p < end {
      PieceInBuffer(f, at, lineStart, lineEnd, last, end);
    }
    InBuffer(data, lineStart, lineEnd, f, at);
    SearchPiece(task, data, lineStart, lineEnd, s, fname, f, p, e, next, end, goal);
  }

  /** What the buffer holds of the file from `at` on has been searched up to `n`. */
  ghost predicate Searched(data: array<Byte>, n: nat, f: seq<Byte>, at: nat)
    requires n <= data.Length && at + n <= |f|
    reads data
  {
    forall k {:trigger data[k]} :: 0 <= k < n ==> data[k] == Grep.Masked(f[at + k])
  }

  /** Where the string at `p` ends in the buffer that holds f[at..reach]. */
  lemma StringEnds(f: seq<Byte>, p: nat, reach: nat, m: nat)
    requires p <= reach <= |f| && m == |Prefix(f[p..reach])|
    ensures m <= reach - p && (m < reach - p ==> f[p + m] == NUL) && forall k :: p <= k < p + m ==> f[k] != NUL
  {
    var tail := f[p..reach];
    assert m < |tail| ==> tail[m] == f[p + m];
    forall k | p <= k < p + m ensures f[k] != NUL {
      assert tail[k - p] == f[k] == Prefix(tail)[k - p];
    }
  }

  lemma CarriedAt(f: seq<Byte>, at: nat, p: nat, reach: nat, m: nat, k: nat)
    requires at <= p <= reach <= |f| && m == |Prefix(f[p..reach])| && k < reach - p
    ensures Grep.Carried(f, at, p, reach)[p + k] == if k <= m then f[p + k] else Grep.Masked(f[at + k])
  {
  }

  /** The unfinished line at the end of the buffer is moved to its front. */
  method CarryDown(data: array<Byte>, lineStart: nat, last: nat, ghost f: seq<Byte>, ghost at: nat, ghost p: nat)
    requires data.Length == Grep.BUFSIZE + 1 && lineStart <= last <= Grep.BUFSIZE && at + last <= |f| && p == at + lineStart
    requires Searched(data, last, f, at) && forall k :: p <= k < at + last ==> f[k] != NEWLINE
    modifies data
    ensures Window(data, 0, last - lineStart, Grep.Carried(f, at, p, at + last), p)
    ensures forall k :: 0 <= k <= last ==> data[k] != NEWLINE
    ensures last < Grep.BUFSIZE ==> data[Grep.BUFSIZE] == old(data[Grep.BUFSIZE])
  {
    ghost var m := |Prefix(f[p..at + last])|;
    StringEnds(f, p, at + last, m);
    data[last] := NUL;
    assert forall k {:trigger data[k]} :: 0 <= k <= last ==> data[k] != NEWLINE;
    CopyDown(data, lineStart, lineStart + m);
    forall k | 0 <= k < last - lineStart ensures data[k] == Grep.Carried(f, at, p, at + last)[p + k] {
      CarriedAt(f, at, p, at + last, m, k);
    }
  }

  /** The last line of f[at..reach] begins at `p`, which is `reach` if a newline ends it. */
  ghost predicate LastLine(f: seq<Byte>, at: nat, reach: nat, p: nat) {
    && at <= p <= reach <= |f| && (p == at || f[p - 1] == NEWLINE)
    && forall k :: p <= k < reach ==> f[k] != NEWLINE
  }

  lemma {:induction false} TailIsLast(f: seq<Byte>, at: nat, reach: nat)
    requires at <= reach <= |f|
    ensures LastLine(f, at, reach, Grep.TailStart(f, at, reach))
    decreases reach - at
  {
    var e := Grep.LineEnd(f, at, reach);
    if e < reach {
      TailIsLast(f, e + 1, reach);
    }
  }

  lemma NewlineBefore(data: array<Byte>, lineStart: nat, filled: nat, f: seq<Byte>, at: nat, p: nat)
    requires filled <= data.Length && at + filled <= |f| && Window(data, lineStart, filled, f, at)
    requires LastLine(f, at, at + filled, p) && at + lineStart < p
    ensures data[p - 1 - at] == NEWLINE
  {
  }

  /** The next line in the buffer ends in front of the last, or is the last. */
  method FindLine(data: array<Byte>, lineStart: nat, filled: nat, ghost f: seq<Byte>, ghost at: nat, ghost p: nat)
    returns (lineEnd: nat)
    requires lineStart <= filled < data.Length && at + filled <= |f| && Window(data, lineStart, filled, f, at)
    requires LastLine(f, at, at + filled, p) && at + lineStart <= p
    ensures lineStart <= lineEnd <= filled && (lineEnd < filled ==> data[lineEnd] == f[at + lineEnd] == NEWLINE)
    ensures if lineEnd < filled then at + lineEnd < p else p == at + lineStart
    ensures forall k :: at + lineStart <= k < at + lineEnd ==> f[k] != NEWLINE
  {
    lineEnd := FindEnd(data, lineStart, filled);
    forall k | at + lineStart <= k < at + lineEnd ensures f[k] != NEWLINE {
      assert data[k - at] == f[k];
    }
    if lineEnd == filled && at + lineStart < p {
      NewlineBefore(data, lineStart, filled, f, at, p);
    }
  }

  /** The buffer holds f[at..at + filled], whose last line is at `p`, and has been searched up to `lineStart`. */
  ghost predicate Scanning(data: array<Byte>, lineStart: nat, filled: nat, f: seq<Byte>, at: nat, p: nat)
    reads data
  {
    && lineStart <= filled < data.Length && at + lineStart <= p <= at + filled <= |f|
    && Searched(data, lineStart, f, at) && Window(data, lineStart, filled, f, at)
  }

  /** The next line in the buffer is searched, unless it is the last and may be unfinished. */
  method ScanLine(task: Task, data: array<Byte>, lineStart: nat, filled: nat, cnt: nat, s: seq<Byte>, fname: seq<Byte>,
                  ghost f: seq<Byte>, ghost at: nat, ghost p: nat, ghost keeps: bool, ghost q: nat, ghost end: nat,
                  ghost goal: seq<Byte>)
    returns (lineEnd: nat, unfinished: bool, ghost next: nat)
    requires task.Valid() && NulFree(s) && data.Length == Grep.BUFSIZE + 1
    requires Scanning(data, lineStart, filled, f, at, p) && LastLine(f, at, at + filled, p)
    requires lineStart < filled || lineStart == 0
    requires keeps <==> cnt != 0 && data[filled] != NEWLINE && at < p < at + filled
    requires (cnt == 0 ==> lineStart == 0) && end == if keeps then p else at + filled
    requires q == at + lineStart && Grep.Lacks(task.out, f, q, end, s, fname, goal)
    modifies task`out, data
    ensures lineStart <= lineEnd <= filled && (filled < Grep.BUFSIZE ==> data[Grep.BUFSIZE] == old(data[Grep.BUFSIZE]))
    ensures lineEnd < filled ==>
      at + lineEnd < p && Scanning(data, lineEnd + 1, filled, f, at, p) && data[filled] == old(data[filled])
    ensures unfinished <==> lineEnd == filled && keeps
    ensures next == if unfinished then p else at + if lineEnd < filled then lineEnd + 1 else filled
    ensures lineEnd == filled ==> p == at + lineStart && Searched(data, filled, f, at)
    ensures lineEnd == filled && !unfinished ==> data[filled] == NUL
    ensures Grep.Lacks(task.out, f, next, end, s, fname, goal)
  {
    hide Grep.Lacks;
    lineEnd := FindLine(data, lineStart, filled, f, at, p);
    next := q;
    unfinished := data[lineEnd] != NEWLINE && cnt != 0 && lineStart != 0;
    if !unfinished {
      next := SearchHere(task, data, lineStart, lineEnd, filled, s, fname, f, at, end, goal);
    }
  }

  /** The lines in the buffer are searched up to an unfinished one. */
  method ScanLines(task: Task, data: array<Byte>, filled: nat, cnt: nat, s: seq<Byte>, fname: seq<Byte>,
                   ghost f: seq<Byte>, ghost at: nat, ghost p: nat, ghost keeps: bool, ghost end: nat)
    returns (lineStart: nat, unfinished: bool)
    requires task.Valid() && NulFree(s) && data.Length == Grep.BUFSIZE + 1
    requires filled <= Grep.BUFSIZE && at + filled <= |f| && Window(data, 0, filled, f, at) && LastLine(f, at, at + filled, p)
    requires keeps <==> cnt != 0 && data[filled] != NEWLINE && at < p < at + filled
    requires (cnt == 0 ==> p == at) && end == if keeps then p else at + filled
    modifies task`out, data
    ensures unfinished <==> keeps
    ensures Searched(data, filled, f, at) && (keeps ==> p == at + lineStart)
    ensures filled < Grep.BUFSIZE ==> data[Grep.BUFSIZE] == old(data[Grep.BUFSIZE])
    ensures filled == Grep.BUFSIZE && !keeps ==>
      (data[Grep.BUFSIZE] == NEWLINE <==> old(data[Grep.BUFSIZE]) == NEWLINE && p == at + filled)
    ensures task.out == old(task.out) + Grep.Printed(Grep.Found(f, at, end, s), fname)
  {
    ghost var next, goal := at, task.out + Grep.Printed(Grep.Found(f, at, end, s), fname);
    lineStart := 0;
    while true
      invariant next == at + lineStart && (lineStart < filled || lineStart == 0) && next <= end
      invariant Scanning(data, lineStart, filled, f, at, p) && (cnt == 0 ==> lineStart == 0)
      invariant data[filled] == old(data[filled]) && data[Grep.BUFSIZE] == old(data[Grep.BUFSIZE])
      invariant Grep.Lacks(task.out, f, next, end, s, fname, goal)
      decreases filled - lineStart
    {
      var lineEnd;
      lineEnd, unfinished, next := ScanLine(task, data, lineStart, filled, cnt, s, fname, f, at, p, keeps, next, end, goal);
      if unfinished {
        break;
      }
      lineStart := lineEnd + 1;
      if lineStart >= filled {
        break;
      }
    }
    Grep.NothingLacks(task.out, f, end, s, fname, goal);
  }

  /**
   * The lines in the buffer are searched; the last one, at `p`, is kept for the next round if it is not known to be
   * whole and does not fill the buffer. A newline behind a full buffer ends its last line.
   */
  method Scan(task: Task, data: array<Byte>, filled: nat, cnt: nat, s: seq<Byte>, fname: seq<Byte>,
              ghost f: seq<Byte>, ghost at: nat, ghost p: nat, ghost keeps: bool, ghost end: nat) returns (last: nat)
    requires task.Valid() && NulFree(s) && data.Length == Grep.BUFSIZE + 1
    requires filled <= Grep.BUFSIZE && at + filled <= |f| && Window(data, 0, filled, f, at) && LastLine(f, at, at + filled, p)
    requires keeps <==> cnt != 0 && data[filled] != NEWLINE && at < p < at + filled
    requires (cnt == 0 ==> p == at) && end == if keeps then p else at + filled
    modifies task`out, data
    ensures if keeps then last == at + filled - p && Window(data, 0, last, Grep.Carried(f, at, p, at + filled), p) else last == 0
    ensures forall k :: 0 <= k < filled ==> data[k] != NEWLINE
    ensures filled < Grep.BUFSIZE ==> data[Grep.BUFSIZE] == old(data[Grep.BUFSIZE])
    ensures filled == Grep.BUFSIZE ==>
      (data[Grep.BUFSIZE] == NEWLINE <==> old(data[Grep.BUFSIZE]) == NEWLINE && p == at + filled)
    ensures task.out == old(task.out) + Grep.Printed(Grep.Found(f, at, end, s), fname)
  {
    var lineStart, unfinished := ScanLines(task, data, filled, cnt, s, fname, f, at, p, keeps, end);
    last := 0;
    if unfinished {
      CarryDown(data, lineStart, filled, f, at, p);
      last := filled - lineStart;
    }
  }

  // ----- One file

  lemma SplitRest(f: seq<Byte>, p: nat, bytes: seq<Byte>, rest: seq<Byte>)
    requires p <= |f| && f[p..] == bytes + rest
    ensures p + |bytes| <= |f| && bytes == f[p..p + |bytes|] && rest == f[p + |bytes|..]
    ensures rest == [] <==> p + |bytes| == |f|
  {
    assert |f[p..]| == |bytes| + |rest|;
    assert f[p..p + |bytes|] == f[p..][..|bytes|] && f[p + |bytes|..] == f[p..][|bytes|..];
  }

  /** A read that delivers less than was asked for has reached the end. */
  lemma ShortRead(d: Desc, img: seq<Byte>, n: nat)
    requires WellFormedImage(img) && DescOk(d, img) && n > 0 && !d.ops.DirOps?
    ensures DescOk(AfterRead(d, img, n), img) && StepOf(d, img, n)
    ensures |Delivered(d, img, n)| <= n
    ensures |Delivered(d, img, n)| == n || |Stream(AfterRead(d, img, n), img)| == 0
  {
    if d.ops.FileOps? {
      FileStep(d, img, n);
    }
  }

  lemma ReadFull(d: Desc, img: seq<Byte>, n: nat, f: seq<Byte>, p: nat)
    requires WellFormedImage(img) && DescOk(d, img) && n > 0 && !d.ops.DirOps? && p <= |f| && f[p..] == Stream(d, img)
    ensures DescOk(AfterRead(d, img, n), img) && AfterRead(d, img, n).ops == d.ops
    ensures var bytes := Delivered(d, img, n);
            && |bytes| <= n && p + |bytes| <= |f| && bytes == f[p..p + |bytes|]
            && f[p + |bytes|..] == Stream(AfterRead(d, img, n), img)
            && (|bytes| == n || p + |bytes| == |f|)
  {
    ShortRead(d, img, n);
    SplitRest(f, p, Delivered(d, img, n), Stream(AfterRead(d, img, n), img));
  }

  method ReadBehind(task: Task, fd: nat, data: array<Byte>, last: nat, n: nat) returns (cnt: int)
    requires task.Valid() && 2 <= fd < MAX_DESC && !task.fds[fd].ops.StdinOps? && !task.fds[fd].ops.DirOps?
    requires last + n < data.Length < 0x8000_0000
    modifies task.fds, data
    ensures task.Valid() && DescOk(old(task.fds[fd]), task.img)
    ensures task.fds[..] == old(task.fds[..])[fd := AfterRead(old(task.fds[fd]), task.img, n)]
    ensures !CanRead(old(task.fds[fd].ops)) ==> cnt == -1 && data[..] == old(data[..])
    ensures CanRead(old(task.fds[fd].ops)) ==>
      var bytes := Delivered(old(task.fds[fd]), task.img, n);
      && cnt == |bytes| <= n && data[last..last + cnt] == bytes
      && forall k {:trigger data[k]} :: 0 <= k < last || last + cnt <= k < data.Length ==> data[k] == old(data[k])
  {
    assert DescOk(task.fds[fd], task.img);
    cnt := task.SysRead(fd, data, last, n);
    if cnt >= 0 {
      assert forall k :: 0 <= k < last ==> data[k] == data[..last][k];
      assert forall k :: last + cnt <= k < data.Length ==> data[k] == data[last + cnt..][k - last - cnt];
    }
  }

  /** Of the descriptors in `table` only `fd` has changed, and not in what it can do. */
  ghost predicate SameBut(task: Task, fd: nat, table: seq<Desc>)
    reads task.fds
  {
    && task.Valid() && 2 <= fd < MAX_DESC == |table| && task.fds[fd].ops == table[fd].ops
    && task.fds[..] == table[fd := task.fds[fd]]
  }

  /** The descriptor still has `rest` to deliver. */
  ghost predicate Reading(task: Task, fd: nat, table: seq<Desc>, rest: seq<Byte>)
    reads task.fds
  {
    && SameBut(task, fd, table) && DescOk(task.fds[fd], task.img) && !table[fd].ops.StdinOps? && !table[fd].ops.DirOps?
    && rest == Stream(task.fds[fd], task.img)
  }

  /** The buffer keeps `last` bytes of an unfinished line. No newline is left in it if there is more to come. */
  ghost predicate Keeping(data: array<Byte>, last: nat, f: seq<Byte>, at: nat)
    reads data
  {
    && data.Length == Grep.BUFSIZE + 1 && last < Grep.BUFSIZE && at + last <= |f| && Window(data, 0, last, f, at)
    && (forall k :: 0 <= k < last ==> data[k] != NEWLINE)
    && (at == 0 ==> last == 0)
    && (at > 0 && at + last < |f| ==> forall k :: 0 <= k < Grep.BUFSIZE ==> data[k] != NEWLINE)
  }

  /** A stale newline: at the end of the first read, or later just behind the buffer. */
  ghost predicate StaleAt(data: array<Byte>, f: seq<Byte>, at: nat)
    requires data.Length == Grep.BUFSIZE + 1
    reads data
  {
    data[if at == 0 then Min(|f|, Grep.BUFSIZE) else Grep.BUFSIZE] == NEWLINE
  }

  lemma LongerWindow(data: array<Byte>, last: nat, cnt: nat, f: seq<Byte>, at: nat)
    requires last + cnt <= data.Length && at + last + cnt <= |f| && Window(data, 0, last, f, at)
    requires data[last..last + cnt] == f[at + last..at + last + cnt]
    ensures Window(data, 0, last + cnt, f, at)
  {
    forall k | last <= k < last + cnt ensures data[k] == f[at + k] {
      assert data[k] == data[last..last + cnt][k - last];
    }
  }

  /** The buffer is filled up from the file behind the `last` bytes kept in it. */
  method Refill(task: Task, fd: nat, data: array<Byte>, last: nat, ghost table: seq<Desc>, ghost rest: seq<Byte>,
                ghost f: seq<Byte>, ghost at: nat) returns (cnt: int, ghost rest': seq<Byte>)
    requires Reading(task, fd, table, rest) && Keeping(data, last, f, at) && f[at + last..] == rest
    modifies task.fds, data
    ensures Reading(task, fd, table, rest')
    ensures if CanRead(table[fd].ops) then cnt >= 0
            else cnt == -1 && forall k {:trigger data[k]} :: 0 <= k < data.Length ==> data[k] == old(data[k])
    ensures cnt >= 0 ==>
      && Grep.Fills(f, at, last + cnt) && Window(data, 0, last + cnt, f, at) && f[at + last + cnt..] == rest'
      && (forall k {:trigger data[k]} :: 0 <= k < last || last + cnt <= k <= Grep.BUFSIZE ==> data[k] == old(data[k]))
  {
    hide AfterRead, Delivered, Stream;
    ReadFull(task.fds[fd], task.img, Grep.BUFSIZE - last, f, at + last);
    cnt := ReadBehind(task, fd, data, last, Grep.BUFSIZE - last);
    assert task.fds[fd] == task.fds[..][fd];
    rest' := Stream(task.fds[fd], task.img);
    if cnt >= 0 {
      LongerWindow(data, last, cnt, f, at);
    } else {
      assert forall k :: 0 <= k < data.Length ==> data[k] == data[..][k];
    }
  }

  lemma OneLine(data: array<Byte>, filled: nat, f: seq<Byte>, at: nat)
    requires filled <= data.Length && at + filled <= |f| && Window(data, 0, filled, f, at)
    requires forall k :: 0 <= k < filled ==> data[k] != NEWLINE
    ensures Grep.TailStart(f, at, at + filled) == at
  {
    forall k | at <= k < at + filled ensures f[k] != NEWLINE {
      assert data[k - at] == f[k];
    }
    Grep.LineEndIs(f, at, at + filled, at + filled);
  }

  /** The buffer holds f[at..at + filled] after a read of `cnt` bytes, and the byte behind them is the stale one. */
  ghost predicate Ready(data: array<Byte>, filled: nat, cnt: nat, f: seq<Byte>, at: nat, stale: bool)
    reads data
  {
    && data.Length == Grep.BUFSIZE + 1 && Grep.Fills(f, at, filled) && Window(data, 0, filled, f, at)
    && (cnt == 0 ==> filled < Grep.BUFSIZE && forall k :: 0 <= k < filled ==> data[k] != NEWLINE)
    && (cnt > 0 ==> (data[filled] == NEWLINE <==> stale && (at == 0 || filled == Grep.BUFSIZE)))
  }

  method Fill(task: Task, fd: nat, data: array<Byte>, last: nat, ghost table: seq<Desc>, ghost rest: seq<Byte>,
              ghost f: seq<Byte>, ghost at: nat) returns (cnt: int, ghost rest': seq<Byte>)
    requires Reading(task, fd, table, rest) && Keeping(data, last, f, at) && f[at + last..] == rest
    modifies task.fds, data
    ensures Reading(task, fd, table, rest')
    ensures if CanRead(table[fd].ops)
            then cnt >= 0 && Ready(data, last + cnt, cnt, f, at, old(StaleAt(data, f, at))) && f[at + last + cnt..] == rest'
            else cnt == -1
  {
    cnt, rest' := Refill(task, fd, data, last, table, rest, f, at);
  }

  /**
   * What a round is going to do with the buffer whose last line is at `p`: `end` is where the next round begins, and `f'`
   * the file as it is seen then.
   */
  ghost predicate Plan(more: bool, behind: bool, filled: nat, f: seq<Byte>, at: nat, p: nat, keeps: bool, end: nat,
                       f': seq<Byte>)
  {
    && |f'| == |f| && at + filled <= |f| && LastLine(f, at, at + filled, p) && f'[at + filled..] == f[at + filled..]
    && (keeps <==> more && !behind && at < p < at + filled) && (!more ==> p == at)
    && end == (if keeps then p else at + filled) && (keeps ==> f' == Grep.Carried(f, at, p, at + filled))
  }

  lemma PlanFor(f: seq<Byte>, at: nat, stale: bool, filled: nat, p: nat, more: bool, behind: bool)
    returns (keeps: bool, end: nat, f': seq<Byte>)
    requires Grep.Fills(f, at, filled) && p == Grep.TailStart(f, at, at + filled)
    requires if more then behind <==> stale && (at == 0 || filled == Grep.BUFSIZE) else p == at
    ensures Plan(more, behind, filled, f, at, p, keeps, end, f') && Grep.AfterRound(f, at, stale, filled, f', end)
  {
    TailIsLast(f, at, at + filled);
    Grep.CarriesIf(f, at, stale, filled, p, more, behind);
    keeps, end, f' := Grep.Carries(f, at, stale), at + filled, f;
    if keeps {
      end, f' := p, Grep.Carried(f, at, p, at + filled);
      Grep.CarriedKeeps(f, at, p, at + filled);
    }
  }

  lemma PlanRound(data: array<Byte>, filled: nat, cnt: nat, f: seq<Byte>, at: nat, stale: bool)
    returns (p: nat, keeps: bool, end: nat, f': seq<Byte>)
    requires Ready(data, filled, cnt, f, at, stale)
    ensures Plan(cnt != 0, data[filled] == NEWLINE, filled, f, at, p, keeps, end, f')
    ensures Grep.AfterRound(f, at, stale, filled, f', end)
    ensures filled > 0 ==> (p == at + filled <==> f[at + filled - 1] == NEWLINE)
  {
    p := Grep.TailStart(f, at, at + filled);
    if cnt == 0 {
      OneLine(data, filled, f, at);
    }
    keeps, end, f' := PlanFor(f, at, stale, filled, p, cnt != 0, data[filled] == NEWLINE);
  }

  /** The buffer after a round. */
  lemma KeepsOn(data: array<Byte>, filled: nat, f': seq<Byte>, at: nat, end: nat, last: nat)
    requires data.Length == Grep.BUFSIZE + 1 && Grep.Fills(f', at, filled) && at <= end && end + last == at + filled
    requires last < Grep.BUFSIZE && (last == 0 || at < end) && Window(data, 0, last, f', end)
    requires forall k :: 0 <= k < filled ==> data[k] != NEWLINE
    ensures Keeping(data, last, f', end)
  {
  }

  /** A filled buffer is searched; `f'` is the file as it is seen from then on. */
  method ScanFilled(task: Task, data: array<Byte>, filled: nat, cnt: nat, s: seq<Byte>, fname: seq<Byte>,
                    ghost f: seq<Byte>, ghost at: nat, ghost p: nat, ghost keeps: bool, ghost end: nat, ghost f': seq<Byte>)
    returns (last: nat)
    requires task.Valid() && NulFree(s) && data.Length == Grep.BUFSIZE + 1
    requires Grep.Fills(f, at, filled) && Window(data, 0, filled, f, at)
    requires Plan(cnt != 0, data[filled] == NEWLINE, filled, f, at, p, keeps, end, f')
    modifies task`out, data
    ensures end + last == at + filled && (cnt == 0 ==> last == 0) && Keeping(data, last, f', end)
    ensures filled == Grep.BUFSIZE ==> (data[Grep.BUFSIZE] == NEWLINE <==> old(data[Grep.BUFSIZE]) == NEWLINE && p == at + filled)
    ensures task.out == old(task.out) + Grep.Printed(Grep.Found(f, at, end, s), fname)
  {
    last := Scan(task, data, filled, cnt, s, fname, f, at, p, keeps, end);
    KeepsOn(data, filled, f', at, end, last);
  }

  method ScanRound(task: Task, data: array<Byte>, filled: nat, cnt: nat, s: seq<Byte>, fname: seq<Byte>,
                   ghost f: seq<Byte>, ghost at: nat, ghost stale: bool, ghost goal: seq<Byte>)
    returns (last: nat, ghost next: nat, ghost f': seq<Byte>, ghost stale': bool)
    requires task.Valid() && NulFree(s) && Ready(data, filled, cnt, f, at, stale)
    requires Grep.Ahead(task.out, f, at, s, stale, fname, goal)
    modifies task`out, data
    ensures next + last == at + filled && (cnt == 0 ==> last == 0)
    ensures |f'| == |f| && f'[at + filled..] == f[at + filled..] && Keeping(data, last, f', next)
    ensures stale' == StaleAt(data, f', next) && Grep.Ahead(task.out, f', next, s, stale', fname, goal)
  {
    ghost var p, keeps;
    p, keeps, next, f' := PlanRound(data, filled, cnt, f, at, stale);
    last := ScanFilled(task, data, filled, cnt, s, fname, f, at, p, keeps, next, f');
    stale' := StaleAt(data, f', next);
    Grep.RoundDone(old(task.out), task.out, f, at, s, stale, filled, f', next, data[Grep.BUFSIZE] == NEWLINE, fname, goal);
    if next == 0 {
      Grep.NothingAhead(task.out, f', s, data[Grep.BUFSIZE] == NEWLINE, stale', fname, goal);
    }
  }

  /** One round of grep's loop: -1 if the read failed, 0 at the end of the file. */
  method Round(task: Task, fd: nat, data: array<Byte>, kept: nat, s: seq<Byte>, fname: seq<Byte>, ghost table: seq<Desc>,
               ghost rest: seq<Byte>, ghost f: seq<Byte>, ghost from: nat, ghost stale: bool, ghost goal: seq<Byte>)
    returns (cnt: int, last: nat, ghost rest': seq<Byte>, ghost f': seq<Byte>, ghost at: nat, ghost stale': bool)
    requires Reading(task, fd, table, rest) && Keeping(data, kept, f, from) && f[from + kept..] == rest
    requires NulFree(s) && stale == StaleAt(data, f, from) && Grep.Ahead(task.out, f, from, s, stale, fname, goal)
    modifies task`out, task.fds, data
    ensures Reading(task, fd, table, rest')
    ensures if CanRead(table[fd].ops) then cnt >= 0 else cnt == -1 && task.out == old(task.out)
    ensures cnt >= 0 ==>
      && Keeping(data, last, f', at) && f'[at + last..] == rest' && at + last == from + kept + cnt && |f'| == |f|
      && stale' == StaleAt(data, f', at) && Grep.Ahead(task.out, f', at, s, stale', fname, goal) && (cnt == 0 ==> at == |f'|)
  {
    hide Grep.Ahead;
    cnt, rest' := Fill(task, fd, data, kept, table, rest, f, from);
    last, f', at, stale' := kept, f, from, stale;
    if cnt != -1 {
      last, at, f', stale' := ScanRound(task, data, kept + cnt, cnt, s, fname, f, from, stale, goal);
    }
  }

  /** The rounds up to the read that fails or finds the end of the file. */
  method GrepLoop(task: Task, fd: nat, data: array<Byte>, s: seq<Byte>, fname: seq<Byte>, ghost table: seq<Desc>,
                  ghost file: seq<Byte>) returns (cnt: int)
    requires Reading(task, fd, table, file) && data.Length == Grep.BUFSIZE + 1 && NulFree(s)
    modifies task`out, task.fds, data
    ensures SameBut(task, fd, table)
    ensures if CanRead(table[fd].ops)
            then cnt == 0 && task.out == old(task.out) + Grep.Grepped(file, s, fname, old(data[Min(|file|, Grep.BUFSIZE)]) == NEWLINE)
            else cnt == -1 && task.out == old(task.out)
  {
    ghost var rest, f, stale := file, file, StaleAt(data, file, 0);
    ghost var at: nat := 0;
    ghost var goal := task.out + Grep.Grepped(file, s, fname, stale);
    var last: nat := 0;
    while true
      invariant Reading(task, fd, table, rest) && Keeping(data, last, f, at) && f[at + last..] == rest
      invariant stale == StaleAt(data, f, at) && Grep.Ahead(task.out, f, at, s, stale, fname, goal)
      invariant !CanRead(table[fd].ops) ==> task.out == old(task.out)
      decreases |f| - (at + last)
    {
      cnt, last, rest, f, at, stale := Round(task, fd, data, last, s, fname, table, rest, f, at, stale, goal);
      if cnt == -1 || cnt == 0 {
        break;
      }
    }
    if cnt == 0 {
      Grep.NothingAhead(task.out, f, s, stale, false, fname, goal);
    }
  }

  method CloseOrReport(task: Task, fd: nat) returns (r: int)
    requires task.Valid()
    modifies task`out, task.fds
    ensures task.Valid() && task.fds[..] == After(old(task.fds[..]), task.img, Close(fd))
    ensures if 2 <= fd < MAX_DESC && CanClose(old(task.fds[..])[fd].ops) then r == 0 && task.out == old(task.out)
            else r == -1 && task.out == old(task.out) + CLOSE_FAILED
  {
    r := task.SysClose(fd);
    if r == -1 {
      Puts(task, CLOSE_FAILED);
    }
  }

  /** The search of an open file, closing it at the end; `data` is the buffer as it was on the stack. */
  method GrepOpened(task: Task, fd: nat, data: array<Byte>, s: seq<Byte>, fname: seq<Byte>, ghost f: seq<Byte>)
    returns (r: int)
    requires Reading(task, fd, task.fds[..], f) && data.Length == Grep.BUFSIZE + 1 && NulFree(s)
    modifies task`out, task.fds, data
    ensures task.Valid() && forall i :: 0 <= i < MAX_DESC && i != fd ==> task.fds[i] == old(task.fds[i])
    ensures CanClose(old(task.fds[fd].ops)) ==>
      && r == 0 && !task.fds[fd].used
      && task.out == old(task.out) + Grep.Grepped(f, s, fname, old(data[Min(|f|, Grep.BUFSIZE)]) == NEWLINE)
    ensures !CanRead(old(task.fds[fd].ops)) ==> r == -1 && task.out == old(task.out) + READ_FAILED
  {
    var cnt := GrepLoop(task, fd, data, s, fname, task.fds[..], f);
    assert forall i :: 0 <= i < MAX_DESC && i != fd ==> task.fds[i] == task.fds[..][i];
    if cnt == -1 {
      Puts(task, READ_FAILED);
      return -1;
    }
    r := CloseOrReport(task, fd);
  }

  /** What a name gives when it is opened and read to the end. */
  function FileOf(img: seq<Byte>, name: seq<Byte>): seq<Byte>
    requires WellFormedImage(img) && Openable(img, name).Some?
  {
    Stream(NewDesc(img, name, Openable(img, name).value), img)
  }

  /** The name is not taken for the keyboard or a directory. */
  predicate Searchable(img: seq<Byte>, name: seq<Byte>)
    requires WellFormedImage(img)
  {
    && NulFree(name) && !(STDIN <= name)
    && (Openable(img, name).Some? ==> !NewDesc(img, name, Openable(img, name).value).ops.DirOps?)
  }

  /** The output for a file when the buffer holds `stack` before. */
  function GreppedOver(stack: seq<Byte>, f: seq<Byte>, s: seq<Byte>, fname: seq<Byte>): seq<Byte>
    requires |stack| == Grep.BUFSIZE + 1
  {
    Grep.Grepped(f, s, fname, stack[Min(|f|, Grep.BUFSIZE)] == NEWLINE)
  }

  /** do_one_file; `stack` is what the buffer and the byte behind it hold before. */
  method DoOneFile(task: Task, s: seq<Byte>, fname: seq<Byte>, stack: seq<Byte>) returns (r: int)
    requires task.Valid() && NulFree(s) && Searchable(task.img, fname)
    requires |stack| == Grep.BUFSIZE + 1
    modifies task`out, task.fds
    ensures task.Valid() && forall i :: 0 <= i < MAX_DESC && old(task.fds[i].used) ==> task.fds[i] == old(task.fds[i])
    ensures OpenResult(old(task.fds[..]), task.img, fname) == -1 ==>
      r == -1 && task.out == old(task.out) + OPEN_FAILED && task.fds[..] == old(task.fds[..])
    ensures OpenResult(old(task.fds[..]), task.img, fname) != -1 ==>
      if STDOUT <= fname then r == -1 && task.out == old(task.out) + READ_FAILED
      else
        && r == 0
        && task.out == old(task.out) + GreppedOver(stack, FileOf(task.img, fname), s, fname)
        && forall i :: 0 <= i < MAX_DESC ==> task.fds[i].used == old(task.fds[i].used)
  {
    hide Grep.Grepped;
    var fd := task.SysOpen(fname);
    if fd == -1 {
      Puts(task, OPEN_FAILED);
      return -1;
    }
    OpenGives(old(task.fds[..]), task.img, fname);
    OpenTakesLeastFree(old(task.fds[..]), task.img, fname);
    OpenedIsClosable(task.img, fname, Openable(task.img, fname).value);
    assert task.fds[fd] == task.fds[..][fd] && forall i :: 0 <= i < MAX_DESC && i != fd ==> task.fds[..][i] == old(task.fds[i]);
    var data := new Byte[Grep.BUFSIZE + 1](i requires 0 <= i < |stack| => stack[i]);
    ghost var f := FileOf(task.img, fname);
    assert f[0..] == f;
    r := GrepOpened(task, fd, data, s, fname, f);
  }

  // ----- All files of the directory

  const PERIOD: Byte := 46

  /** Entry `i` is skipped, or an ordinary file or clock under a name of its own. */
  predicate EntryOk(img: seq<Byte>, i: nat)
    requires WellFormedImage(img) && TidyNames(img) && i < NumEntries(img)
  {
    var name := EntryName(img, i);
    name[0] == PERIOD || (Searchable(img, name) && EntryType(img, i) < 3 && !(STDOUT <= name))
  }

  predicate EntriesOk(img: seq<Byte>) {
    && WellFormedImage(img) && TidyNames(img)
    && forall i :: 0 <= i < NumEntries(img) ==> EntryOk(img, i)
  }

  /** What grep prints for entry `i`. */
  function EntryGrepped(img: seq<Byte>, i: nat, s: seq<Byte>, stack: seq<Byte>): seq<Byte>
    requires EntriesOk(img) && i < NumEntries(img) && |stack| == Grep.BUFSIZE + 1
  {
    var name := EntryName(img, i);
    if name[0] == PERIOD then []
    else
      assert EntryOk(img, i);
      EntryOpens(img, i);
      GreppedOver(stack, FileOf(img, name), s, name)
  }

  lemma EntryOpens(img: seq<Byte>, i: nat)
    requires WellFormedImage(img) && TidyNames(img) && i < NumEntries(img) && EntryType(img, i) < 3
    ensures Openable(img, EntryName(img, i)) == Some(i)
  {
    ReadYieldsName(img, i);
    ListThenOpen(img, i);
  }

  /** One buffer's old contents for each entry. */
  predicate Stacks(stacks: seq<seq<Byte>>) {
    forall i :: 0 <= i < |stacks| ==> |stacks[i]| == Grep.BUFSIZE + 1
  }

  function AllGrepped(img: seq<Byte>, i: nat, s: seq<Byte>, stacks: seq<seq<Byte>>): seq<Byte>
    requires EntriesOk(img) && Stacks(stacks) && |stacks| == NumEntries(img)
    decreases NumEntries(img) - i
  {
    if i >= NumEntries(img) then []
    else EntryGrepped(img, i, s, stacks[i]) + AllGrepped(img, i + 1, s, stacks)
  }

  /** The directory is open on `fd` and every other descriptor is free. */
  ghost predicate OnlyDirectory(task: Task, fd: nat)
    reads task.fds
  {
    && task.Valid() && 2 <= fd < MAX_DESC && task.fds[fd].ops.DirOps?
    && forall i :: 2 <= i < MAX_DESC && i != fd ==> !task.fds[i].used
  }

  /** Reads the next name; 0 at the end. */
  method NextName(task: Task, fd: nat, buf: array<Byte>) returns (cnt: int)
    requires OnlyDirectory(task, fd) && TidyNames(task.img) && buf.Length == 33
    modifies task.fds, buf
    ensures OnlyDirectory(task, fd)
    ensures var pos := old(task.fds[fd].pos);
            if pos < NumEntries(task.img)
            then cnt == |EntryName(task.img, pos)| && buf[..cnt] == EntryName(task.img, pos) && task.fds[fd].pos == pos + 1
            else cnt == 0
  {
    ReadYieldsName(task.img, task.fds[fd].pos);
    cnt := ReadOne(task, fd, buf, 32);
  }

  /** One entry of the directory: skipped, or searched. */
  method GrepEntry(task: Task, fd: nat, buf: array<Byte>, cnt: nat, s: seq<Byte>, stack: seq<Byte>, ghost i: nat)
    returns (r: int)
    requires OnlyDirectory(task, fd) && EntriesOk(task.img) && NulFree(s) && buf.Length == 33 && i < NumEntries(task.img)
    requires cnt == |EntryName(task.img, i)| && buf[..cnt] == EntryName(task.img, i)
    requires |stack| == Grep.BUFSIZE + 1
    modifies task`out, task.fds, buf
    ensures OnlyDirectory(task, fd) && task.fds[fd] == old(task.fds[fd]) && r == 0
    ensures task.out == old(task.out) + EntryGrepped(task.img, i, s, stack)
  {
    ghost var name := EntryName(task.img, i);
    assert EntryOk(task.img, i) && buf[0] == buf[..cnt][0];
    if buf[0] == PERIOD {
      return 0;
    }
    buf[cnt] := NUL;
    assert buf[..][..cnt] == name;
    PrefixIs(buf[..], cnt);
    EntryOpens(task.img, i);
    OpenTakesLeastFree(task.fds[..], task.img, name);
    assert !task.fds[if fd == 2 then 3 else 2].used;
    var len := Strlen(buf[..], 0);
    r := DoOneFile(task, s, buf[..len], stack);
  }

  lemma GreppedOne(out: seq<Byte>, img: seq<Byte>, i: nat, s: seq<Byte>, stacks: seq<seq<Byte>>)
    requires EntriesOk(img) && i < NumEntries(img) == |stacks| && Stacks(stacks)
    ensures var here := EntryGrepped(img, i, s, stacks[i]);
            out + here + AllGrepped(img, i + 1, s, stacks) == out + AllGrepped(img, i, s, stacks)
  {
    JoinTail(out, EntryGrepped(img, i, s, stacks[i]), AllGrepped(img, i + 1, s, stacks),
             AllGrepped(img, i, s, stacks));
  }

  method GrepNames(task: Task, fd: nat, s: seq<Byte>, stacks: seq<seq<Byte>>) returns (cnt: int, r: int)
    requires OnlyDirectory(task, fd) && task.fds[fd].pos == 0 && EntriesOk(task.img) && NulFree(s)
    requires Stacks(stacks) && |stacks| == NumEntries(task.img)
    modifies task`out, task.fds
    ensures task.Valid() && cnt == 0 && r == 0 && task.out == old(task.out) + AllGrepped(task.img, 0, s, stacks)
  {
    var buf := new Byte[33];
    ghost var goal := task.out + AllGrepped(task.img, 0, s, stacks);
    var i := 0;
    r := 0;
    while true
      invariant OnlyDirectory(task, fd) && fresh(buf) && i == task.fds[fd].pos && i <= NumEntries(task.img) && r == 0
      invariant task.out + AllGrepped(task.img, i, s, stacks) == goal
      decreases NumEntries(task.img) - i
    {
      cnt := NextName(task, fd, buf);
      if cnt == 0 || cnt == -1 {
        break;
      }
      GreppedOne(task.out, task.img, i, s, stacks);
      r := GrepEntry(task, fd, buf, cnt, s, stacks[i], i);
      if r != 0 {
        break;
      }
      i := i + 1;
    }
  }

  /** The grep program: the files of the directory are searched in order. */
  method GrepMain(task: Task, arg: Option<seq<Byte>>, stacks: seq<seq<Byte>>) returns (status: nat)
    requires task.Valid() && EntriesOk(task.img) && forall i :: 2 <= i < MAX_DESC ==> !task.fds[i].used
    requires Stacks(stacks) && |stacks| == NumEntries(task.img) && (arg.Some? ==> NulFree(arg.value))
    requires Openable(task.img, DOT).Some? ==> EntryType(task.img, Openable(task.img, DOT).value) == 1
    modifies task`out, task.fds
    ensures arg.None? ==> status == 3 && task.out == old(task.out) + NO_ARGUMENT
    ensures arg.Some? ==>
      if Openable(task.img, DOT).None? then status == 2 && task.out == old(task.out) + DIRECTORY_FAILED
      else status == 0 && task.out == old(task.out) + AllGrepped(task.img, 0, arg.value, stacks)
  {
    if arg.None? {
      Puts(task, NO_ARGUMENT);
      return 3;
    }
    if Openable(task.img, DOT).Some? {
      OpenTakesLeastFree(task.fds[..], task.img, DOT);
    }
    var fd := task.SysOpen(DOT);
    if fd == -1 {
      Puts(task, DIRECTORY_FAILED);
      return 2;
    }
    OpenGives(old(task.fds[..]), task.img, DOT);
    assert task.fds[fd] == task.fds[..][fd];
    var cnt, r := GrepNames(task, fd, arg.value, stacks);
    status := Finish(task, cnt, ENTRY_FAILED);
  }
}
