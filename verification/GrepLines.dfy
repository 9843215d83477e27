/** What grep finds, compared with the lines of the file (syscalls/ece391grep.c). */
module GrepLines {
  import opened Machine
  import opened Grep

  /**
   * The pieces found from `at` on if no line is moved. A stale newline just behind the buffer ends the buffer's last line
   * there, so that whole buffers are searched on their own, until one whose last byte is no newline overwrites it.
   */
  function FoundFrom(f: seq<Byte>, at: nat, s: seq<Byte>, stale: bool): seq<seq<Byte>>
    requires at <= |f|
    decreases |f| - at
  {
    var stop := at + BUFSIZE;
    if !stale || stop > |f| then Found(f, at, |f|, s)
    else Found(f, at, stop, s) + FoundFrom(f, stop, s, f[stop - 1] == NEWLINE)
  }

  // ----- Lines

  function NextLine(f: seq<Byte>, at: nat): (n: nat)
    requires at < |f|
    ensures at < n <= |f|
  {
    var e := LineEnd(f, at, |f|);
    if e < |f| then e + 1 else e
  }

  function LineAt(f: seq<Byte>, at: nat): seq<Byte>
    requires at <= |f|
  {
    f[at..LineEnd(f, at, |f|)]
  }

  predicate ContainsAt(s: seq<Byte>, line: seq<Byte>, k: nat)
    requires k <= |line|
  {
    s <= line[k..]
  }

  predicate Contains(s: seq<Byte>, line: seq<Byte>) {
    exists k :: 0 <= k < |line| && ContainsAt(s, line, k)
  }

  /** The line, if it contains the pattern. */
  function Listed(s: seq<Byte>, line: seq<Byte>): seq<seq<Byte>> {
    if Contains(s, line) then [line] else []
  }

  /** For a pattern that grep can find, to contain it and to be seen to are the same. */
  lemma SeenIfContained(s: seq<Byte>, line: seq<Byte>)
    requires Findable(s)
    ensures Occurs(s, line) <==> Contains(s, line)
    ensures Listed(s, line) == Match(s, line)
  {
    forall k | 0 <= k < |line| ensures OccursAt(s, line, k) <==> ContainsAt(s, line, k) {
    }
  }

  /** The lines from `at` on that contain the pattern, whatever the line and the pattern. */
  function MatchingLines(f: seq<Byte>, at: nat, s: seq<Byte>): seq<seq<Byte>>
    requires at <= |f|
    decreases |f| - at
  {
    if at == |f| then [] else Listed(s, LineAt(f, at)) + MatchingLines(f, NextLine(f, at), s)
  }

  /** A line of more than 1024 bytes contains the pattern. */
  predicate LongMatch(f: seq<Byte>, at: nat, s: seq<Byte>)
    requires at <= |f|
    decreases |f| - at
  {
    at < |f| && ((|LineAt(f, at)| > BUFSIZE && Contains(s, LineAt(f, at))) || LongMatch(f, NextLine(f, at), s))
  }

  lemma PieceIsLine(f: seq<Byte>, at: nat)
    requires at < |f| && |LineAt(f, at)| <= BUFSIZE
    ensures f[at..PieceEnd(f, at, |f|)] == LineAt(f, at)
    ensures var n := NextPiece(f, at, |f|);
            n == NextLine(f, at) || (n + 1 == NextLine(f, at) && f[n] == NEWLINE)
  {
    LineEndIs(f, at, Reach(at, |f|), LineEnd(f, at, |f|));
  }

  /** A newline just behind a full buffer is an empty piece, in which nothing is found. */
  lemma EmptyPiece(f: seq<Byte>, e: nat, s: seq<Byte>)
    requires e < |f| && f[e] == NEWLINE
    ensures Found(f, e, |f|, s) == Found(f, e + 1, |f|, s)
  {
    LineEndIs(f, e, Reach(e, |f|), e);
    assert f[e..e] == [] && !Occurs(s, []);
  }

  lemma FoundIs(f: seq<Byte>, at: nat, s: seq<Byte>, line: seq<Byte>, rest: seq<seq<Byte>>)
    requires at < |f| && line == f[at..PieceEnd(f, at, |f|)] && rest == Found(f, NextPiece(f, at, |f|), |f|, s)
    ensures Found(f, at, |f|, s) == Match(s, line) + rest
  {
  }

  lemma ShortLine(f: seq<Byte>, at: nat, s: seq<Byte>)
    requires at < |f| && |LineAt(f, at)| <= BUFSIZE
    ensures Found(f, at, |f|, s) == Match(s, LineAt(f, at)) + Found(f, NextLine(f, at), |f|, s)
  {
    PieceIsLine(f, at);
    if NextPiece(f, at, |f|) != NextLine(f, at) {
      EmptyPiece(f, NextPiece(f, at, |f|), s);
    }
    FoundIs(f, at, s, LineAt(f, at), Found(f, NextLine(f, at), |f|, s));
  }

  lemma SameBytes<T>(f: seq<T>, a: nat, p: nat, q: nat, b: nat, k: nat, n: nat)
    requires a <= p <= q <= b <= |f| && p + k + n <= q
    ensures f[a..b][p - a + k..][..n] == f[p..q][k..][..n]
  {
  }

  lemma OccursInWhole(s: seq<Byte>, f: seq<Byte>, a: nat, p: nat, q: nat, b: nat, k: nat)
    requires a <= p <= q <= b <= |f| && k < q - p && OccursAt(s, f[p..q], k)
    ensures OccursAt(s, f[a..b], p - a + k)
  {
    SameBytes(f, a, p, q, b, k, |s|);
    assert f[a..b][p - a + k] == f[p..q][k];
  }

  lemma AbsentFromPart(s: seq<Byte>, f: seq<Byte>, a: nat, p: nat, q: nat, b: nat)
    requires a <= p <= q <= b <= |f| && !Occurs(s, f[a..b])
    ensures !Occurs(s, f[p..q])
  {
    if k :| 0 <= k < |f[p..q]| && OccursAt(s, f[p..q], k) {
      OccursInWhole(s, f, a, p, q, b, k);
    }
  }

  /** A longer line is cut where the buffer ends. */
  lemma CutLine(f: seq<Byte>, at: nat)
    requires at < |f| && |LineAt(f, at)| > BUFSIZE
    ensures PieceEnd(f, at, |f|) == NextPiece(f, at, |f|) == at + BUFSIZE < |f|
    ensures LineEnd(f, at + BUFSIZE, |f|) == LineEnd(f, at, |f|) && NextLine(f, at + BUFSIZE) == NextLine(f, at)
  {
    LineEndIs(f, at, Reach(at, |f|), at + BUFSIZE);
    LineEndIs(f, at + BUFSIZE, |f|, LineEnd(f, at, |f|));
  }

  lemma NothingAdded<T>(a: seq<T>, b: seq<T>)
    requires a == []
    ensures a + b == b
  {
  }

  /** Nothing is found in the pieces of a line without the pattern, whatever its length. */
  lemma {:induction false} LineWithout(f: seq<Byte>, at: nat, s: seq<Byte>)
    requires at < |f| && !Occurs(s, LineAt(f, at))
    ensures Found(f, at, |f|, s) == Found(f, NextLine(f, at), |f|, s)
    decreases |f| - at
  {
    var e, p := LineEnd(f, at, |f|), at + BUFSIZE;
    if e - at <= BUFSIZE {
      ShortLine(f, at, s);
      NothingAdded(Match(s, LineAt(f, at)), Found(f, NextLine(f, at), |f|, s));
    } else {
      CutLine(f, at);
      AbsentFromPart(s, f, at, at, p, e);
      AbsentFromPart(s, f, at, p, e, e);
      NothingAdded(Match(s, f[at..p]), Found(f, p, |f|, s));
      LineWithout(f, p, s);
    }
  }

  /** A line is found right, with what is behind it, unless it is longer than the buffer and contains the pattern. */
  lemma LineFound(f: seq<Byte>, at: nat, s: seq<Byte>, rest: seq<seq<Byte>>)
    requires at < |f| && Findable(s) && rest == Found(f, NextLine(f, at), |f|, s)
    requires |LineAt(f, at)| <= BUFSIZE || !Contains(s, LineAt(f, at))
    ensures Found(f, at, |f|, s) == Listed(s, LineAt(f, at)) + rest
  {
    SeenIfContained(s, LineAt(f, at));
    if |LineAt(f, at)| <= BUFSIZE {
      ShortLine(f, at, s);
    } else {
      LineWithout(f, at, s);
      NothingAdded(Listed(s, LineAt(f, at)), rest);
    }
  }

  lemma {:induction false} ShortMatches(f: seq<Byte>, at: nat, s: seq<Byte>)
    requires at <= |f| && Findable(s) && !LongMatch(f, at, s)
    ensures Found(f, at, |f|, s) == MatchingLines(f, at, s)
    decreases |f| - at
  {
    if at < |f| {
      ShortMatches(f, NextLine(f, at), s);
      LineFound(f, at, s, MatchingLines(f, NextLine(f, at), s));
    }
  }

  lemma {:induction false} PiecesAreShort(f: seq<Byte>, at: nat, end: nat, s: seq<Byte>, i: nat)
    requires at <= end <= |f| && i < |Found(f, at, end, s)|
    ensures |Found(f, at, end, s)[i]| <= BUFSIZE
    decreases end - at
  {
    var here := |Match(s, f[at..PieceEnd(f, at, end)])|;
    if i >= here {
      PiecesAreShort(f, NextPiece(f, at, end), end, s, i - here);
    }
  }

  lemma {:induction false} AllPiecesAreShort(f: seq<Byte>, at: nat, s: seq<Byte>, stale: bool, i: nat)
    requires at <= |f| && i < |FoundFrom(f, at, s, stale)|
    ensures |FoundFrom(f, at, s, stale)[i]| <= BUFSIZE
    decreases |f| - at
  {
    var stop := at + BUFSIZE;
    if !stale || stop > |f| {
      PiecesAreShort(f, at, |f|, s, i);
    } else if i < |Found(f, at, stop, s)| {
      PiecesAreShort(f, at, stop, s, i);
    } else {
      AllPiecesAreShort(f, stop, s, f[stop - 1] == NEWLINE, i - |Found(f, at, stop, s)|);
    }
  }

  lemma {:induction false} LongMatchIsListed(f: seq<Byte>, at: nat, s: seq<Byte>) returns (i: nat)
    requires at <= |f| && LongMatch(f, at, s)
    ensures i < |MatchingLines(f, at, s)| && |MatchingLines(f, at, s)[i]| > BUFSIZE
    decreases |f| - at
  {
    var here := Listed(s, LineAt(f, at));
    if |LineAt(f, at)| > BUFSIZE && Contains(s, LineAt(f, at)) {
      i := 0;
    } else {
      i := LongMatchIsListed(f, NextLine(f, at), s);
      i := i + |here|;
    }
  }

  // ----- A stale newline behind the buffer

  /** The lines of f[q..stop] before its last part that contain the pattern. */
  function Head(f: seq<Byte>, q: nat, stop: nat, s: seq<Byte>): seq<seq<Byte>>
    requires q <= stop <= |f|
    decreases stop - q
  {
    if q == stop || LineEnd(f, q, stop) == stop then []
    else Listed(s, f[q..LineEnd(f, q, stop)]) + Head(f, LineEnd(f, q, stop) + 1, stop, s)
  }

  lemma Regroup<T>(all: seq<T>, a: seq<T>, bc: seq<T>, ab: seq<T>, b: seq<T>, c: seq<T>)
    requires all == a + bc && bc == b + c && ab == a + b
    ensures all == ab + c
  {
  }

  /** The first line of f[q..stop], when a newline ends it at `e`. */
  lemma FirstLine(f: seq<Byte>, q: nat, stop: nat, s: seq<Byte>, e: nat)
    requires q < stop <= |f| && e == LineEnd(f, q, stop) < stop
    ensures Head(f, q, stop, s) == Listed(s, f[q..e]) + Head(f, e + 1, stop, s)
  {
    var rest := Head(f, e + 1, stop, s);
    assert Head(f, q, stop, s) == Listed(s, f[q..e]) + rest;
  }

  lemma FirstMatch(f: seq<Byte>, q: nat, stop: nat, s: seq<Byte>, e: nat)
    requires q < stop <= |f| && e == LineEnd(f, q, stop) < stop
    ensures MatchingLines(f, q, s) == Listed(s, f[q..e]) + MatchingLines(f, e + 1, s)
  {
    LineEndIs(f, q, |f|, e);
    assert LineAt(f, q) == f[q..e] && NextLine(f, q) == e + 1;
  }

  lemma {:induction false} NoLongMatchLater(f: seq<Byte>, q: nat, stop: nat, s: seq<Byte>)
    requires q <= stop <= |f| && !LongMatch(f, q, s)
    ensures !LongMatch(f, TailStart(f, q, stop), s)
    decreases stop - q
  {
    var e := LineEnd(f, q, stop);
    if e < stop {
      LineEndIs(f, q, |f|, e);
      NoLongMatchLater(f, e + 1, stop, s);
    }
  }

  lemma LinesStep(f: seq<Byte>, q: nat, stop: nat, e: nat, s: seq<Byte>, rest: seq<seq<Byte>>)
    requires q < stop <= |f| && e == LineEnd(f, q, stop) < stop
    requires MatchingLines(f, e + 1, s) == Head(f, e + 1, stop, s) + rest
    ensures MatchingLines(f, q, s) == Head(f, q, stop, s) + rest
  {
    FirstLine(f, q, stop, s, e);
    FirstMatch(f, q, stop, s, e);
    Regroup(MatchingLines(f, q, s), Listed(s, f[q..e]), MatchingLines(f, e + 1, s), Head(f, q, stop, s),
            Head(f, e + 1, stop, s), rest);
  }

  lemma OnlyTail(f: seq<Byte>, q: nat, stop: nat, s: seq<Byte>)
    requires q <= stop <= |f| && LineEnd(f, q, stop) == stop
    ensures Head(f, q, stop, s) == [] && TailStart(f, q, stop) == q
  {
  }

  lemma {:induction false} LinesSplit(f: seq<Byte>, q: nat, stop: nat, p: nat, s: seq<Byte>)
    requires q <= stop <= |f| && p == TailStart(f, q, stop)
    ensures MatchingLines(f, q, s) == Head(f, q, stop, s) + MatchingLines(f, p, s)
    decreases stop - q
  {
    var e, rest := LineEnd(f, q, stop), MatchingLines(f, p, s);
    if e < stop {
      SameTail(f, q, stop, e);
      LinesSplit(f, e + 1, stop, p, s);
      LinesStep(f, q, stop, e, s, rest);
    } else {
      OnlyTail(f, q, stop, s);
      NothingAdded(Head(f, q, stop, s), rest);
    }
  }

  /** What is found in the last part of a buffer. */
  function Tail(f: seq<Byte>, p: nat, stop: nat, s: seq<Byte>): seq<seq<Byte>>
    requires p <= stop <= |f|
  {
    if p < stop then Match(s, f[p..stop]) else []
  }

  /** A piece of a buffer that is searched on its own. */
  lemma PieceOfBlock(f: seq<Byte>, q: nat, stop: nat, s: seq<Byte>, e: nat)
    requires q < stop <= |f| && stop - q <= BUFSIZE && e == LineEnd(f, q, stop)
    ensures Found(f, q, stop, s) == Match(s, f[q..e]) + Found(f, if e < stop then e + 1 else stop, stop, s)
  {
    var next := if e < stop then e + 1 else stop;
    assert PieceEnd(f, q, stop) == e && NextPiece(f, q, stop) == next;
  }

  lemma BlockStep(f: seq<Byte>, q: nat, stop: nat, e: nat, s: seq<Byte>, tail: seq<seq<Byte>>)
    requires q < stop <= |f| && stop - q <= BUFSIZE && Findable(s) && e == LineEnd(f, q, stop) < stop
    requires Found(f, e + 1, stop, s) == Head(f, e + 1, stop, s) + tail
    ensures Found(f, q, stop, s) == Head(f, q, stop, s) + tail
  {
    PieceOfBlock(f, q, stop, s, e);
    FirstLine(f, q, stop, s, e);
    SeenIfContained(s, f[q..e]);
    Regroup(Found(f, q, stop, s), Match(s, f[q..e]), Found(f, e + 1, stop, s), Head(f, q, stop, s),
            Head(f, e + 1, stop, s), tail);
  }

  lemma LastOfBlock(f: seq<Byte>, q: nat, stop: nat, s: seq<Byte>)
    requires q <= stop <= |f| && stop - q <= BUFSIZE && LineEnd(f, q, stop) == stop
    ensures Found(f, q, stop, s) == Tail(f, q, stop, s)
  {
    if q < stop {
      PieceOfBlock(f, q, stop, s, stop);
    }
  }

  /** What is found in a buffer that is searched on its own: its whole lines, then its last part. */
  lemma {:induction false} BlockFound(f: seq<Byte>, q: nat, stop: nat, p: nat, s: seq<Byte>, tail: seq<seq<Byte>>)
    requires q <= stop <= |f| && stop - q <= BUFSIZE && Findable(s)
    requires p == TailStart(f, q, stop) && tail == Tail(f, p, stop, s)
    ensures Found(f, q, stop, s) == Head(f, q, stop, s) + tail
    decreases stop - q
  {
    var e := LineEnd(f, q, stop);
    if e < stop {
      SameTail(f, q, stop, e);
      BlockFound(f, e + 1, stop, p, s, tail);
      BlockStep(f, q, stop, e, s, tail);
    } else {
      OnlyTail(f, q, stop, s);
      LastOfBlock(f, q, stop, s);
      NothingAdded(Head(f, q, stop, s), tail);
    }
  }

  /** The stale newline cuts a line in two that contains the pattern. */
  predicate CutMatch(f: seq<Byte>, at: nat, s: seq<Byte>)
    requires at <= |f|
    decreases |f| - at
  {
    && at + BUFSIZE <= |f|
    && var stop := at + BUFSIZE;
       var p := TailStart(f, at, stop);
       if p == stop then CutMatch(f, stop, s)
       else at < p && LineEnd(f, p, |f|) > stop && Contains(s, LineAt(f, p))
  }

  lemma PrefixSame<T>(a: seq<T>, x: seq<T>, y: seq<T>)
    ensures a + x == a + y <==> x == y
  {
    if a + x == a + y {
      assert x == (a + x)[|a|..] && y == (a + y)[|a|..];
    }
  }

  lemma JoinEqual<T>(a: seq<T>, b: seq<T>, x: seq<T>, y: seq<T>, all: seq<T>)
    requires a == x && b == y && all == x + y
    ensures a + b == all
  {
  }

  lemma FoundBehind(f: seq<Byte>, p: nat, stop: nat, s: seq<Byte>)
    requires p < stop <= |f| && LineEnd(f, p, |f|) == stop
    ensures Found(f, stop, |f|, s) == Found(f, NextLine(f, p), |f|, s)
  {
    assert NextLine(f, p) == if stop < |f| then stop + 1 else stop;
    if stop < |f| {
      EmptyPiece(f, stop, s);
    }
  }

  lemma BehindLine(f: seq<Byte>, p: nat, stop: nat, s: seq<Byte>)
    requires p < stop <= |f| && Findable(s) && !LongMatch(f, p, s) && LineEnd(f, p, |f|) == stop
    ensures Found(f, stop, |f|, s) == MatchingLines(f, NextLine(f, p), s)
  {
    FoundBehind(f, p, stop, s);
    ShortMatches(f, NextLine(f, p), s);
  }

  /** The line cut by the stale newline ends just there: nothing is lost. */
  lemma EndsAtCut(f: seq<Byte>, p: nat, stop: nat, s: seq<Byte>)
    requires p < stop <= |f| && stop - p <= BUFSIZE && Findable(s) && !LongMatch(f, p, s) && LineEnd(f, p, |f|) == stop
    ensures Match(s, f[p..stop]) + Found(f, stop, |f|, s) == MatchingLines(f, p, s)
  {
    var n := NextLine(f, p);
    SeenIfContained(s, LineAt(f, p));
    BehindLine(f, p, stop, s);
    JoinEqual(Match(s, f[p..stop]), Found(f, stop, |f|, s), Listed(s, LineAt(f, p)), MatchingLines(f, n, s),
              MatchingLines(f, p, s));
  }

  lemma RestOfLine(f: seq<Byte>, p: nat, stop: nat)
    requires p < |f| && p < stop < LineEnd(f, p, |f|)
    ensures LineEnd(f, stop, |f|) == LineEnd(f, p, |f|) && NextLine(f, stop) == NextLine(f, p)
  {
    LineEndIs(f, stop, |f|, LineEnd(f, p, |f|));
  }

  /** It goes on without the pattern: nothing is found in either part. */
  lemma CutWithout(f: seq<Byte>, p: nat, stop: nat, s: seq<Byte>)
    requires p < |f| && p < stop < LineEnd(f, p, |f|) && Findable(s) && !LongMatch(f, p, s) && !Contains(s, LineAt(f, p))
    ensures Match(s, f[p..stop]) + Found(f, stop, |f|, s) == MatchingLines(f, p, s)
  {
    var e := LineEnd(f, p, |f|);
    SeenIfContained(s, LineAt(f, p));
    RestOfLine(f, p, stop);
    AbsentFromPart(s, f, p, p, stop, e);
    AbsentFromPart(s, f, p, stop, e, e);
    LineWithout(f, stop, s);
    ShortMatches(f, NextLine(f, p), s);
  }

  lemma NotWhole<T>(a: seq<T>, b: seq<T>, line: T, rest: seq<T>, all: seq<T>)
    requires all == b + rest && |a| <= 1 && |b| <= 1 && line !in a && line !in b
    ensures a + all != [line] + rest
  {
    assert |a + all| == |a| + |b| + |rest| && ([line] + rest)[0] == line;
    assert a != [] ==> (a + all)[0] == a[0];
    assert a == [] && b != [] ==> (a + all)[0] == b[0];
  }

  /** It goes on and contains the pattern: the whole line is not found. */
  lemma CutWith(f: seq<Byte>, p: nat, stop: nat, s: seq<Byte>)
    requires p < |f| && p < stop < LineEnd(f, p, |f|) && Findable(s) && !LongMatch(f, p, s) && Contains(s, LineAt(f, p))
    ensures Match(s, f[p..stop]) + Found(f, stop, |f|, s) != MatchingLines(f, p, s)
  {
    var line, n := LineAt(f, p), NextLine(f, p);
    RestOfLine(f, p, stop);
    ShortLine(f, stop, s);
    ShortMatches(f, n, s);
    NotWhole(Match(s, f[p..stop]), Match(s, LineAt(f, stop)), line, MatchingLines(f, n, s), Found(f, stop, |f|, s));
  }

  /** It began with the buffer: it is cut there in any case. */
  lemma CutAtStart(f: seq<Byte>, p: nat, stop: nat, s: seq<Byte>)
    requires p < |f| && p < stop < LineEnd(f, p, |f|) && stop == p + BUFSIZE && Findable(s) && !LongMatch(f, p, s)
    ensures Match(s, f[p..stop]) + Found(f, stop, |f|, s) == MatchingLines(f, p, s)
  {
    CutLine(f, p);
    FoundIs(f, p, s, f[p..stop], Found(f, stop, |f|, s));
    ShortMatches(f, p, s);
  }

  /** The first buffer whose last line, at `p`, no newline ends. */
  lemma AtTheCut(f: seq<Byte>, at: nat, p: nat, s: seq<Byte>)
    requires at <= p < at + BUFSIZE <= |f| && p == TailStart(f, at, at + BUFSIZE)
    requires Findable(s) && !LongMatch(f, p, s)
    ensures Match(s, f[p..at + BUFSIZE]) + Found(f, at + BUFSIZE, |f|, s) == MatchingLines(f, p, s)
       <==> !(at < p && LineEnd(f, p, |f|) > at + BUFSIZE && Contains(s, LineAt(f, p)))
  {
    var stop := at + BUFSIZE;
    if LineEnd(f, p, |f|) == stop {
      EndsAtCut(f, p, stop, s);
    } else if !Contains(s, LineAt(f, p)) {
      CutWithout(f, p, stop, s);
    } else if at < p {
      CutWith(f, p, stop, s);
    } else {
      CutAtStart(f, p, stop, s);
    }
  }

  lemma JoinSame<T>(found: seq<T>, block: seq<T>, rest: seq<T>, head: seq<T>, tail: seq<T>, lines: seq<T>, last: seq<T>)
    requires found == block + rest && block == head + tail && lines == head + last
    ensures found == lines <==> tail + rest == last
  {
    assert found == head + (tail + rest);
    PrefixSame(head, tail + rest, last);
  }

  /** The whole lines of a buffer searched on its own are found right; the rest decides. */
  lemma BlockDecides(f: seq<Byte>, at: nat, stop: nat, p: nat, s: seq<Byte>)
    requires at < stop == at + BUFSIZE <= |f| && p == TailStart(f, at, stop) && Findable(s)
    ensures FoundFrom(f, at, s, true) == MatchingLines(f, at, s)
       <==> Tail(f, p, stop, s) + FoundFrom(f, stop, s, p == stop) == MatchingLines(f, p, s)
  {
    BlockFound(f, at, stop, p, s, Tail(f, p, stop, s));
    LinesSplit(f, at, stop, p, s);
    JoinSame(FoundFrom(f, at, s, true), Found(f, at, stop, s), FoundFrom(f, stop, s, p == stop), Head(f, at, stop, s),
             Tail(f, p, stop, s), MatchingLines(f, at, s), MatchingLines(f, p, s));
  }

  /** With no match in a line longer than the buffer, a stale newline does harm exactly by a line cut in two. */
  lemma {:induction false} StaleMatches(f: seq<Byte>, at: nat, s: seq<Byte>)
    requires at <= |f| && Findable(s) && !LongMatch(f, at, s)
    ensures FoundFrom(f, at, s, true) == MatchingLines(f, at, s) <==> !CutMatch(f, at, s)
    decreases |f| - at
  {
    var stop := at + BUFSIZE;
    if stop > |f| {
      ShortMatches(f, at, s);
    } else {
      var p := TailStart(f, at, stop);
      BlockDecides(f, at, stop, p, s);
      NoLongMatchLater(f, at, stop, s);
      if p == stop {
        StaleMatches(f, stop, s);
        NothingAdded(Tail(f, p, stop, s), FoundFrom(f, stop, s, true));
      } else {
        AtTheCut(f, at, p, s);
      }
    }
  }

  // ----- What grep finds

  lemma {:induction false} NothingFound(f: seq<Byte>, at: nat, end: nat, s: seq<Byte>)
    requires at <= end <= |f| && s != [] && !Findable(s)
    ensures Found(f, at, end, s) == []
    decreases end - at
  {
    if at < end {
      NothingFound(f, NextPiece(f, at, end), end, s);
    }
  }

  lemma {:induction false} NothingFoundFrom(f: seq<Byte>, at: nat, s: seq<Byte>, stale: bool)
    requires at <= |f| && s != [] && !Findable(s)
    ensures FoundFrom(f, at, s, stale) == []
    decreases |f| - at
  {
    var stop := at + BUFSIZE;
    if !stale || stop > |f| {
      NothingFound(f, at, |f|, s);
    } else {
      NothingFound(f, at, stop, s);
      NothingFoundFrom(f, stop, s, f[stop - 1] == NEWLINE);
    }
  }

  /** A match in a line longer than the buffer is never found whole. */
  lemma LongMatchIsMissed(f: seq<Byte>, s: seq<Byte>, stale: bool)
    requires LongMatch(f, 0, s)
    ensures FoundFrom(f, 0, s, stale) != MatchingLines(f, 0, s)
  {
    var i := LongMatchIsListed(f, 0, s);
    if i < |FoundFrom(f, 0, s, stale)| {
      AllPiecesAreShort(f, 0, s, stale, i);
    }
  }

  /**
   * The pieces found of a pattern that grep can find are exactly the lines that contain it, once each and in order, if
   * and only if no line longer than the buffer contains it and no stale newline cuts a line that does.
   */
  lemma FindsLinesExactly(f: seq<Byte>, s: seq<Byte>, stale: bool)
    requires Findable(s)
    ensures FoundFrom(f, 0, s, stale) == MatchingLines(f, 0, s) <==> !LongMatch(f, 0, s) && (stale ==> !CutMatch(f, 0, s))
  {
    if LongMatch(f, 0, s) {
      LongMatchIsMissed(f, s, stale);
    } else if stale {
      StaleMatches(f, 0, s);
    } else {
      ShortMatches(f, 0, s);
    }
  }

  /** A pattern across the cut of a longer line is missed. */
  lemma LongLineIsCut(f: seq<Byte>, s: seq<Byte>)
    requires f == Repeat(65, BUFSIZE - 1) + s && s == [66, 67]
    ensures Found(f, 0, |f|, s) == [] && MatchingLines(f, 0, s) == [f]
  {
    LineEndIs(f, 0, |f|, |f|);
    LineEndIs(f, 0, Reach(0, |f|), BUFSIZE);
    LineEndIs(f, BUFSIZE, Reach(BUFSIZE, |f|), |f|);
    assert f[0..|f|] == f && f[BUFSIZE - 1..] == s;
    assert ContainsAt(s, f, BUFSIZE - 1);
    assert forall k :: 0 <= k < BUFSIZE - 1 ==> f[k] == 65;
    forall k | 0 <= k < BUFSIZE ensures !OccursAt(s, f[0..BUFSIZE], k) {
      assert f[0..BUFSIZE][k..][0] == f[k];
    }
    assert !Occurs(s, f[BUFSIZE..|f|]);
    assert Found(f, |f|, |f|, s) == [];
    assert Found(f, BUFSIZE, |f|, s) == [];
    assert MatchingLines(f, |f|, s) == [];
  }

  /** A line that is the pattern is missed if its first byte is not ASCII. */
  lemma NonAsciiIsMissed(f: seq<Byte>, s: seq<Byte>, stale: bool)
    requires f == s == [200]
    ensures FoundFrom(f, 0, s, stale) == [] && MatchingLines(f, 0, s) == [f]
  {
    NothingFoundFrom(f, 0, s, stale);
    LineEndIs(f, 0, |f|, |f|);
    assert f[0..|f|] == f && ContainsAt(s, f, 0);
    assert MatchingLines(f, |f|, s) == [];
  }

  /** A pattern across the stale newline is missed in a line that fits the buffer. */
  lemma StaleNewlineCuts(f: seq<Byte>, s: seq<Byte>)
    requires f == NL + Repeat(65, BUFSIZE - 2) + s && s == [66, 67]
    ensures FoundFrom(f, 0, s, false) == MatchingLines(f, 0, s) != FoundFrom(f, 0, s, true)
  {
    assert f[0] == NEWLINE && forall k :: 1 <= k < |f| ==> f[k] != NEWLINE;
    LineEndIs(f, 0, |f|, 0);
    LineEndIs(f, 0, BUFSIZE, 0);
    LineEndIs(f, 1, |f|, |f|);
    LineEndIs(f, 1, BUFSIZE, BUFSIZE);
    assert !LongMatch(f, |f|, s) && !LongMatch(f, 1, s);
    assert !LongMatch(f, 0, s);
    assert TailStart(f, 0, BUFSIZE) == 1;
    assert LineAt(f, 1)[BUFSIZE - 2..] == s;
    assert ContainsAt(s, LineAt(f, 1), BUFSIZE - 2);
    FindsLinesExactly(f, s, false);
    FindsLinesExactly(f, s, true);
  }
}
