/** Files with NULs: the file as grep sees it, and what it prints (syscalls/ece391grep.c). */
module GrepNuls {
  import opened Machine
  import opened Strings
  import opened Grep
  import opened GrepLines

  // ----- Files that look alike up to the first NUL of every piece

  predicate SameBreaks(f: seq<Byte>, g: seq<Byte>) {
    |f| == |g| && forall i :: 0 <= i < |f| ==> (f[i] == NEWLINE <==> g[i] == NEWLINE)
  }

  lemma SameEnds(f: seq<Byte>, g: seq<Byte>, at: nat, stop: nat)
    requires SameBreaks(f, g) && at <= stop <= |f|
    ensures LineEnd(f, at, stop) == LineEnd(g, at, stop)
  {
    LineEndIs(g, at, stop, LineEnd(f, at, stop));
  }

  /** The pieces of f[at..end] and g[at..end] are the same strings. */
  predicate Alike(f: seq<Byte>, g: seq<Byte>, at: nat, end: nat)
    requires |f| == |g| && at <= end <= |f|
    decreases end - at
  {
    at == end
    || (Prefix(f[at..PieceEnd(f, at, end)]) == Prefix(g[at..PieceEnd(f, at, end)]) && Alike(f, g, NextPiece(f, at, end), end))
  }

  predicate AlikeFrom(f: seq<Byte>, g: seq<Byte>, at: nat, stale: bool)
    requires |f| == |g| && at <= |f|
    decreases |f| - at
  {
    var stop := at + BUFSIZE;
    if !stale || stop > |f| then Alike(f, g, at, |f|)
    else Alike(f, g, at, stop) && AlikeFrom(f, g, stop, f[stop - 1] == NEWLINE)
  }

  lemma NextAlike(f: seq<Byte>, g: seq<Byte>, at: nat, end: nat, e: nat, n: nat)
    requires |f| == |g| && at < end <= |f| && PieceEnd(f, at, end) == e && NextPiece(f, at, end) == n
    requires f[at..e] == g[at..e] && Alike(f, g, n, end)
    ensures Alike(f, g, at, end)
  {
  }

  lemma SamePart<T>(a: seq<T>, b: seq<T>, n: nat, i: nat, j: nat)
    requires i <= j <= n <= |a| == |b| && a[..n] == b[..n]
    ensures a[i..j] == b[i..j]
  {
    assert a[i..j] == a[..n][i..j] && b[i..j] == b[..n][i..j];
  }

  lemma {:induction false} AlikeSame(f: seq<Byte>, g: seq<Byte>, at: nat, end: nat)
    requires |f| == |g| && at <= end <= |f| && f[..end] == g[..end]
    ensures Alike(f, g, at, end)
    decreases end - at
  {
    if at < end {
      var e := PieceEnd(f, at, end);
      SamePart(f, g, end, at, e);
      AlikeSame(f, g, NextPiece(f, at, end), end);
      NextAlike(f, g, at, end, e, NextPiece(f, at, end));
    }
  }

  lemma SamePiece(f: seq<Byte>, f': seq<Byte>, at: nat, end: nat)
    requires |f| == |f'| && at < end <= |f| && f[at..] == f'[at..]
    ensures PieceEnd(f, at, end) == PieceEnd(f', at, end) && NextPiece(f, at, end) == NextPiece(f', at, end)
    ensures f[at..PieceEnd(f, at, end)] == f'[at..PieceEnd(f, at, end)]
    ensures f[NextPiece(f, at, end)..] == f'[NextPiece(f, at, end)..]
  {
    var e, n := PieceEnd(f, at, end), NextPiece(f, at, end);
    forall k | at <= k < |f| ensures f[k] == f'[k] {
      assert f[at..][k - at] == f'[at..][k - at];
    }
    LineEndIs(f', at, Reach(at, end), e);
  }

  /** Only what lies behind `at` matters. */
  lemma {:induction false} AlikeBehind(f: seq<Byte>, f': seq<Byte>, g: seq<Byte>, at: nat, end: nat)
    requires |f| == |f'| == |g| && at <= end <= |f| && f[at..] == f'[at..] && Alike(f', g, at, end)
    ensures Alike(f, g, at, end)
    decreases end - at
  {
    if at < end {
      SamePiece(f, f', at, end);
      AlikeBehind(f, f', g, NextPiece(f, at, end), end);
    }
  }

  /** The first line of a part of a file that one buffer holds is a piece. */
  lemma FirstPiece(f: seq<Byte>, q: nat, reach: nat, end: nat)
    requires q < reach <= end <= |f| && reach <= q + BUFSIZE && LineEnd(f, q, reach) < reach
    ensures PieceEnd(f, q, end) == LineEnd(f, q, reach) && NextPiece(f, q, end) == LineEnd(f, q, reach) + 1
  {
    LineEndIs(f, q, Reach(q, end), LineEnd(f, q, reach));
  }

  lemma {:induction false} AlikeUpTo(f: seq<Byte>, g: seq<Byte>, q: nat, p: nat, reach: nat, end: nat)
    requires |f| == |g| && q <= reach <= end <= |f| && reach <= q + BUFSIZE && p == TailStart(f, q, reach)
    requires f[..p] == g[..p] && Alike(f, g, p, end)
    ensures Alike(f, g, q, end)
    decreases reach - q
  {
    hide Alike;
    var e := LineEnd(f, q, reach);
    if e < reach {
      var n := e + 1;
      SameTail(f, q, reach, e);
      AlikeUpTo(f, g, n, p, reach, end);
      FirstPiece(f, q, reach, end);
      SamePart(f, g, p, q, e);
      NextAlike(f, g, q, end, e, n);
    }
  }

  // ----- The file as grep sees it

  /** The whole file as it is seen when it has been searched up to `at`. */
  function Seen(f: seq<Byte>, at: nat, stale: bool): (g: seq<Byte>)
    requires at <= |f|
    ensures |g| == |f| && g[..at] == f[..at]
    decreases |f| - at
  {
    var reach := Reach(at, |f|);
    if at == |f| then f
    else if Carries(f, at, stale) then
      var p := TailStart(f, at, reach);
      var g := Seen(Carried(f, at, p, reach), p, stale);
      CarriedKeeps(f, at, p, reach);
      assert g[..at] == g[..p][..at] == f[..p][..at];
      g
    else
      var g := Seen(f, reach, stale && f[reach - 1] == NEWLINE);
      assert g[..at] == g[..reach][..at] == f[..reach][..at];
      g
  }

  lemma PrefixOfBoth(a: seq<Byte>, b: seq<Byte>, m: nat)
    requires m < |a| && |a| == |b| && a[..m + 1] == b[..m + 1] && a[m] == NUL
    ensures Prefix(a) == Prefix(b)
  {
    var n := |Prefix(a)|;
    assert n <= m && b[m] == NUL;
    assert b[..n] == b[..m + 1][..n] && a[..n] == a[..m + 1][..n] && b[n] == b[..m + 1][n] && a[n] == a[..m + 1][n];
    PrefixIs(b, n);
  }

  /** A line moved to the front is the same string, and newlines stay where they are. */
  lemma CarriedAlike(f: seq<Byte>, at: nat, p: nat, reach: nat, e: nat)
    requires at <= p < reach <= e <= |f| && forall k :: p <= k < reach ==> f[k] != NEWLINE
    ensures SameBreaks(f, Carried(f, at, p, reach)) && Prefix(f[p..e]) == Prefix(Carried(f, at, p, reach)[p..e])
  {
    var f' := Carried(f, at, p, reach);
    var tail := f[p..reach];
    var m := |Prefix(tail)|;
    if m < |tail| {
      assert tail[m] == NUL && f[p..e][m] == f[p + m] == tail[m];
      assert f[p..e][..m + 1] == f'[p..e][..m + 1];
      PrefixOfBoth(f[p..e], f'[p..e], m);
    } else {
      assert f' == f;
    }
  }

  /** The piece at an unfinished line goes at least as far as the buffer did. */
  lemma UnfinishedPiece(f: seq<Byte>, at: nat, p: nat)
    requires at <= p <= |f| && p < Reach(at, |f|) && forall k :: p <= k < Reach(at, |f|) ==> f[k] != NEWLINE
    ensures Reach(at, |f|) <= PieceEnd(f, p, |f|) <= NextPiece(f, p, |f|)
  {
  }

  lemma FirstAlike(f: seq<Byte>, g: seq<Byte>, at: nat, end: nat, e: nat, n: nat)
    requires |f| == |g| && at < end <= |f| && Alike(f, g, at, end) && PieceEnd(f, at, end) == e && NextPiece(f, at, end) == n
    ensures Prefix(f[at..e]) == Prefix(g[at..e]) && Alike(f, g, n, end)
  {
  }

  lemma SameSuffix<T>(a: seq<T>, b: seq<T>, m: nat, n: nat)
    requires m <= n <= |a| == |b| && a[m..] == b[m..]
    ensures a[n..] == b[n..]
  {
    assert a[n..] == a[m..][n - m..] && b[n..] == b[m..][n - m..];
  }

  lemma SkipAlike(f: seq<Byte>, f': seq<Byte>, g: seq<Byte>, at: nat, p: nat, reach: nat)
    requires at <= p < reach <= |f| == |g| && reach == Reach(at, |f|) && f' == Carried(f, at, p, reach)
    requires forall k :: p <= k < reach ==> f[k] != NEWLINE
    requires Alike(f', g, p, |f|)
    ensures Alike(f, g, p, |f|)
  {
    var e, n := PieceEnd(f, p, |f|), NextPiece(f, p, |f|);
    UnfinishedPiece(f, at, p);
    CarriedAlike(f, at, p, reach, e);
    SameEnds(f, f', p, Reach(p, |f|));
    FirstAlike(f', g, p, |f|, e, n);
    CarriedKeeps(f, at, p, reach);
    SameSuffix(f, f', reach, n);
    AlikeBehind(f, f', g, n, |f|);
  }

  lemma SameBreaksBoth(f: seq<Byte>, f': seq<Byte>, g: seq<Byte>)
    requires SameBreaks(f, f') && SameBreaks(f', g)
    ensures SameBreaks(f, g)
  {
  }

  /** A whole buffer without an unfinished line to move, or with one that fills it. */
  lemma BufferAlike(f: seq<Byte>, g: seq<Byte>, at: nat, reach: nat, p: nat)
    requires at < reach <= |f| == |g| && reach == Reach(at, |f|) && p == TailStart(f, at, reach) && (p == at || p == reach)
    requires f[..reach] == g[..reach] && Alike(f, g, reach, |f|)
    ensures Alike(f, g, at, |f|)
  {
    if p == reach {
      AlikeUpTo(f, g, at, p, reach, |f|);
    } else {
      LineEndIs(f, at, reach, reach);
      SamePart(f, g, reach, at, reach);
    }
  }

  /** The file as grep sees it has its newlines in the same places, and its pieces are the same strings. */
  lemma {:induction false} SeenAlike(f: seq<Byte>, at: nat, stale: bool, g: seq<Byte>)
    requires at <= |f| && g == Seen(f, at, stale)
    ensures SameBreaks(f, g) && AlikeFrom(f, g, at, stale)
    decreases |f| - at
  {
    var reach := Reach(at, |f|);
    if at < |f| {
      var p := TailStart(f, at, reach);
      if Carries(f, at, stale) {
        var f' := Carried(f, at, p, reach);
        SeenAlike(f', p, stale, g);
        CarriedAlike(f, at, p, reach, reach);
        SameBreaksBoth(f, f', g);
        SkipAlike(f, f', g, at, p, reach);
        CarriedKeeps(f, at, p, reach);
        AlikeUpTo(f, g, at, p, reach, |f|);
      } else {
        SeenAlike(f, reach, stale && f[reach - 1] == NEWLINE, g);
        if stale || reach == |f| {
          AlikeSame(f, g, at, reach);
        } else {
          BufferAlike(f, g, at, reach, p);
        }
      }
    }
  }

  // ----- Round after round

  lemma PieceOfBoth(f: seq<Byte>, g: seq<Byte>, q: nat, e: nat, p: nat, end: nat)
    requires q <= e < p <= end <= |f| == |g| && p <= q + BUFSIZE && f[..p] == g[..p]
    requires f[e] == NEWLINE && forall k :: q <= k < e ==> f[k] != NEWLINE
    ensures PieceEnd(f, q, p) == PieceEnd(g, q, end) == e && NextPiece(f, q, p) == NextPiece(g, q, end) == e + 1
    ensures f[q..e] == g[q..e]
  {
    SamePart(f, g, p, q, e);
    forall k | q <= k <= e ensures g[k] == f[k] {
      assert g[..p][k] == f[..p][k];
    }
    LineEndIs(f, q, Reach(q, p), e);
    LineEndIs(g, q, Reach(q, end), e);
  }

  lemma FoundNext(f: seq<Byte>, at: nat, end: nat, s: seq<Byte>, e: nat, n: nat)
    requires at < end <= |f| && PieceEnd(f, at, end) == e && NextPiece(f, at, end) == n
    ensures Found(f, at, end, s) == Match(s, f[at..e]) + Found(f, n, end, s)
  {
  }

  /** The whole lines of a buffer, and what comes after them. */
  lemma {:induction false} FoundUpTo(f: seq<Byte>, g: seq<Byte>, q: nat, p: nat, reach: nat, end: nat, s: seq<Byte>,
                                     rest: seq<seq<Byte>>)
    requires q <= reach <= end <= |f| == |g| && reach <= q + BUFSIZE && p == TailStart(f, q, reach) && f[..p] == g[..p]
    requires rest == Found(g, p, end, s)
    ensures Found(g, q, end, s) == Found(f, q, p, s) + rest
    decreases reach - q
  {
    hide Found;
    var e := LineEnd(f, q, reach);
    if e < reach {
      var n := e + 1;
      SameTail(f, q, reach, e);
      FoundUpTo(f, g, n, p, reach, end, s, rest);
      PieceOfBoth(f, g, q, e, p, end);
      FoundNext(f, q, p, s, e, n);
      FoundNext(g, q, end, s, e, n);
      Regroup(Found(g, q, end, s), Match(s, f[q..e]), Found(g, n, end, s), Found(f, q, p, s), Found(f, n, p, s), rest);
    } else {
      EmptyPart(f, q, s);
      NothingAdded(Found(f, q, p, s), rest);
    }
  }

  lemma {:induction false} FoundSame(f: seq<Byte>, g: seq<Byte>, at: nat, end: nat, s: seq<Byte>)
    requires at <= end <= |f| == |g| && f[..end] == g[..end]
    ensures Found(f, at, end, s) == Found(g, at, end, s)
    decreases end - at
  {
    if at < end {
      var e, n := PieceEnd(f, at, end), NextPiece(f, at, end);
      SamePart(f, g, end, at, e);
      forall k | at <= k < end ensures g[k] == f[k] {
        assert g[..end][k] == f[..end][k];
      }
      LineEndIs(g, at, Reach(at, end), e);
      FoundSame(f, g, n, end, s);
      hide Found;
      FoundNext(f, at, end, s, e, n);
      FoundNext(g, at, end, s, e, n);
    }
  }

  /** A buffer without a line to move. */
  lemma FoundBuffer(f: seq<Byte>, g: seq<Byte>, at: nat, reach: nat, p: nat, s: seq<Byte>, rest: seq<seq<Byte>>)
    requires at < reach <= |f| == |g| && reach == Reach(at, |f|) && p == TailStart(f, at, reach) && (p == at || p == reach)
    requires f[..reach] == g[..reach] && rest == Found(g, reach, |f|, s)
    ensures Found(g, at, |f|, s) == Found(f, at, reach, s) + rest
  {
    hide Found;
    if p == reach {
      FoundUpTo(f, g, at, p, reach, |f|, s, rest);
    } else {
      forall k | at <= k < reach ensures g[k] == f[k] {
        assert g[..reach][k] == f[..reach][k];
      }
      LineEndIs(f, at, reach, reach);
      LineEndIs(g, at, reach, reach);
      SamePart(f, g, reach, at, reach);
      FoundNext(f, at, reach, s, reach, reach);
      FoundNext(g, at, |f|, s, reach, reach);
      EmptyPart(f, reach, s);
    }
  }

  /** The rounds find the pieces of the file as grep sees it. */
  lemma {:induction false} RoundsFind(f: seq<Byte>, at: nat, s: seq<Byte>, stale: bool, g: seq<Byte>)
    requires at <= |f| && g == Seen(f, at, stale)
    ensures Rounds(f, at, s, stale) == FoundFrom(g, at, s, stale)
    decreases |f| - at
  {
    hide Found, Rounds, Carried, TailStart;
    if at == |f| {
      NoRounds(f, s, stale);
      EmptyPart(f, at, s);
    } else {
      var reach := Reach(at, |f|);
      var p := TailStart(f, at, reach);
      if Carries(f, at, stale) {
        var f' := Carried(f, at, p, reach);
        RoundsFind(f', p, s, stale, g);
        RoundMoved(f, at, s, stale, p, reach);
        CarriedKeeps(f, at, p, reach);
        FoundUpTo(f, g, at, p, reach, |f|, s, Found(g, p, |f|, s));
      } else {
        var again := stale && f[reach - 1] == NEWLINE;
        RoundsFind(f, reach, s, again, g);
        RoundPlain(f, at, s, stale, reach);
        if stale || reach == |f| {
          FoundSame(f, g, at, reach, s);
          EmptyPart(g, |f|, s);
        } else {
          FoundBuffer(f, g, at, reach, p, s, Found(g, reach, |f|, s));
        }
      }
    }
  }

  // ----- The pieces found and the lines of the file

  /** Each line as far as its first NUL. */
  function Cut(lines: seq<seq<Byte>>): (r: seq<seq<Byte>>)
    ensures |r| == |lines| && forall i :: 0 <= i < |r| ==> r[i] == Prefix(lines[i])
  {
    seq(|lines|, i requires 0 <= i < |lines| => Prefix(lines[i]))
  }

  predicate Whole(lines: seq<seq<Byte>>) {
    forall i :: 0 <= i < |lines| ==> NulFree(lines[i])
  }

  lemma PrefixOfWhole(s: seq<Byte>)
    ensures NulFree(s) <==> Prefix(s) == s
  {
    if NulFree(s) {
      assert s[..|s|] == s;
      PrefixIs(s, |s|);
    }
  }

  lemma CutWhole(lines: seq<seq<Byte>>)
    requires Whole(lines)
    ensures Cut(lines) == lines
  {
    forall i | 0 <= i < |lines| ensures Cut(lines)[i] == lines[i] {
      PrefixOfWhole(lines[i]);
    }
  }

  /** The output is that for the lines cut. */
  lemma {:induction false} PrintedCut(lines: seq<seq<Byte>>, fname: seq<Byte>)
    ensures Printed(Cut(lines), fname) == Printed(lines, fname)
  {
    if lines != [] {
      assert Cut(lines)[1..] == Cut(lines[1..]);
      PrintedCut(lines[1..], fname);
      PrefixOfWhole(Prefix(lines[0]));
    }
  }

  /** `x` is found in g[a..b], which is a part of one line and the same string as f[a..b]. */
  ghost predicate FoundAt(f: seq<Byte>, g: seq<Byte>, s: seq<Byte>, x: seq<Byte>, a: nat, b: nat) {
    && a < b <= |f| == |g| && x == g[a..b] && Occurs(s, x) && Prefix(f[a..b]) == Prefix(x)
    && forall k :: a <= k < b ==> f[k] != NEWLINE
  }

  lemma SamePieces(f: seq<Byte>, g: seq<Byte>, at: nat, end: nat)
    requires SameBreaks(f, g) && at < end <= |f|
    ensures PieceEnd(f, at, end) == PieceEnd(g, at, end) && NextPiece(f, at, end) == NextPiece(g, at, end)
  {
    SameEnds(f, g, at, Reach(at, end));
  }

  /** An element of a list made of two parts. */
  lemma InJoin<T>(all: seq<T>, a: seq<T>, b: seq<T>, i: nat)
    requires all == a + b && i < |all|
    ensures if i < |a| then all[i] == a[i] else i - |a| < |b| && all[i] == b[i - |a|]
  {
  }

  lemma {:induction false} WhereFound(f: seq<Byte>, g: seq<Byte>, at: nat, end: nat, s: seq<Byte>, i: nat)
    returns (a: nat, b: nat)
    requires SameBreaks(f, g) && at <= end <= |f| && Alike(f, g, at, end) && i < |Found(g, at, end, s)|
    ensures FoundAt(f, g, s, Found(g, at, end, s)[i], a, b)
    decreases end - at
  {
    assert at < end;
    hide Found, Alike;
    SamePieces(f, g, at, end);
    var e, n := PieceEnd(g, at, end), NextPiece(g, at, end);
    var here := Match(s, g[at..e]);
    FoundNext(g, at, end, s, e, n);
    FirstAlike(f, g, at, end, e, n);
    InJoin(Found(g, at, end, s), here, Found(g, n, end, s), i);
    if i < |here| {
      a, b := at, e;
    } else {
      a, b := WhereFound(f, g, n, end, s, i - |here|);
    }
  }

  lemma {:induction false} WhereFoundFrom(f: seq<Byte>, g: seq<Byte>, at: nat, s: seq<Byte>, stale: bool, i: nat)
    returns (a: nat, b: nat)
    requires SameBreaks(f, g) && at <= |f| && AlikeFrom(f, g, at, stale) && i < |FoundFrom(g, at, s, stale)|
    ensures FoundAt(f, g, s, FoundFrom(g, at, s, stale)[i], a, b)
    decreases |f| - at
  {
    hide Found, Alike, FoundAt;
    var stop := at + BUFSIZE;
    if !stale || stop > |f| {
      a, b := WhereFound(f, g, at, |f|, s, i);
    } else if i < |Found(g, at, stop, s)| {
      a, b := WhereFound(f, g, at, stop, s, i);
    } else {
      a, b := WhereFoundFrom(f, g, stop, s, g[stop - 1] == NEWLINE, i - |Found(g, at, stop, s)|);
    }
  }

  lemma ContainsInWhole(s: seq<Byte>, f: seq<Byte>, a: nat, p: nat, q: nat, b: nat)
    requires a <= p <= q <= b <= |f| && Contains(s, f[p..q])
    ensures Contains(s, f[a..b])
  {
    var k :| 0 <= k < |f[p..q]| && ContainsAt(s, f[p..q], k);
    SameBytes(f, a, p, q, b, k, |s|);
    assert ContainsAt(s, f[a..b], p - a + k);
  }

  lemma FirstListed(f: seq<Byte>, q: nat, s: seq<Byte>)
    requires q < |f| && Contains(s, LineAt(f, q))
    ensures MatchingLines(f, q, s) != [] && MatchingLines(f, q, s)[0] == LineAt(f, q)
  {
  }

  lemma LaterListed(f: seq<Byte>, q: nat, s: seq<Byte>, j: nat) returns (i: nat)
    requires q < |f| && j < |MatchingLines(f, NextLine(f, q), s)|
    ensures i < |MatchingLines(f, q, s)| && MatchingLines(f, q, s)[i] == MatchingLines(f, NextLine(f, q), s)[j]
  {
    i := |Listed(s, LineAt(f, q))| + j;
  }

  /** A part of a line that contains the pattern lies in a matching line. */
  lemma {:induction false} LineAround(f: seq<Byte>, q: nat, a: nat, b: nat, s: seq<Byte>) returns (i: nat, line: nat)
    requires q <= a < b <= |f| && Contains(s, f[a..b]) && forall k :: a <= k < b ==> f[k] != NEWLINE
    ensures i < |MatchingLines(f, q, s)| && line <= a && b <= LineEnd(f, line, |f|)
    ensures MatchingLines(f, q, s)[i] == LineAt(f, line)
    decreases |f| - q
  {
    var e := LineEnd(f, q, |f|);
    if a < e {
      ContainsInWhole(s, f, q, a, b, e);
      FirstListed(f, q, s);
      i, line := 0, q;
    } else {
      i, line := LineAround(f, NextLine(f, q), a, b, s);
      i := LaterListed(f, q, s, i);
    }
  }

  lemma PartOfPart<T>(f: seq<T>, q: nat, a: nat, b: nat, e: nat)
    requires q <= a <= b <= e <= |f|
    ensures f[q..e][a - q..b - q] == f[a..b]
  {
    forall k | 0 <= k < b - a ensures f[q..e][a - q..b - q][k] == f[a..b][k] {
      assert f[q..e][a - q + k] == f[a + k];
    }
  }

  /** If no line with a NUL contains the pattern, no part of such a line does. */
  lemma PartIsWhole(f: seq<Byte>, a: nat, b: nat, s: seq<Byte>)
    requires Whole(MatchingLines(f, 0, s))
    requires a < b <= |f| && Contains(s, f[a..b]) && forall k :: a <= k < b ==> f[k] != NEWLINE
    ensures NulFree(f[a..b])
  {
    var i, q := LineAround(f, 0, a, b, s);
    var line := LineAt(f, q);
    NulFreePart(line, a - q, b - q);
    PartOfPart(f, q, a, b, LineEnd(f, q, |f|));
  }

  lemma SameString(a: seq<Byte>, b: seq<Byte>)
    requires |a| == |b| && Prefix(a) == Prefix(b)
    ensures NulFree(a) <==> NulFree(b)
    ensures NulFree(a) ==> a == b
  {
    PrefixOfWhole(a);
    PrefixOfWhole(b);
  }

  lemma SameMatch(f: seq<Byte>, g: seq<Byte>, at: nat, e: nat, s: seq<Byte>)
    requires at <= e <= |f| == |g| && Prefix(f[at..e]) == Prefix(g[at..e])
    requires Whole(Match(s, f[at..e])) && Whole(Match(s, g[at..e]))
    ensures Match(s, f[at..e]) == Match(s, g[at..e])
  {
    var x, y := f[at..e], g[at..e];
    SameString(x, y);
    assert Occurs(s, x) ==> Match(s, x)[0] == x;
    assert Occurs(s, y) ==> Match(s, y)[0] == y;
  }

  lemma WholeParts(a: seq<seq<Byte>>, b: seq<seq<Byte>>, ab: seq<seq<Byte>>)
    requires ab == a + b && Whole(ab)
    ensures Whole(a) && Whole(b)
  {
    assert forall i :: 0 <= i < |a| ==> a[i] == ab[i];
    assert forall i :: 0 <= i < |b| ==> b[i] == ab[|a| + i];
  }

  /** Alike files in which only whole pieces are found have the same pieces found. */
  lemma {:induction false} SameFound(f: seq<Byte>, g: seq<Byte>, at: nat, end: nat, s: seq<Byte>)
    requires SameBreaks(f, g) && at <= end <= |f| && Alike(f, g, at, end)
    requires Whole(Found(f, at, end, s)) && Whole(Found(g, at, end, s))
    ensures Found(f, at, end, s) == Found(g, at, end, s)
    decreases end - at
  {
    if at < end {
      var e, n := PieceEnd(f, at, end), NextPiece(f, at, end);
      SamePieces(f, g, at, end);
      WholeParts(Match(s, f[at..e]), Found(f, n, end, s), Found(f, at, end, s));
      WholeParts(Match(s, g[at..e]), Found(g, n, end, s), Found(g, at, end, s));
      SameMatch(f, g, at, e, s);
      SameFound(f, g, n, end, s);
    }
  }

  lemma {:induction false} SameFoundFrom(f: seq<Byte>, g: seq<Byte>, at: nat, s: seq<Byte>, stale: bool)
    requires SameBreaks(f, g) && at <= |f| && AlikeFrom(f, g, at, stale)
    requires Whole(FoundFrom(f, at, s, stale)) && Whole(FoundFrom(g, at, s, stale))
    ensures FoundFrom(f, at, s, stale) == FoundFrom(g, at, s, stale)
    decreases |f| - at
  {
    var stop := at + BUFSIZE;
    if !stale || stop > |f| {
      SameFound(f, g, at, |f|, s);
    } else {
      var again := f[stop - 1] == NEWLINE;
      WholeParts(Found(f, at, stop, s), FoundFrom(f, stop, s, again), FoundFrom(f, at, s, stale));
      WholeParts(Found(g, at, stop, s), FoundFrom(g, stop, s, again), FoundFrom(g, at, s, stale));
      SameFound(f, g, at, stop, s);
      SameFoundFrom(f, g, stop, s, again);
    }
  }

  lemma {:induction false} AlikeItself(f: seq<Byte>, at: nat, stale: bool)
    requires at <= |f|
    ensures AlikeFrom(f, f, at, stale)
    decreases |f| - at
  {
    var stop := at + BUFSIZE;
    AlikeSame(f, f, at, if !stale || stop > |f| then |f| else stop);
    if stale && stop <= |f| {
      AlikeItself(f, stop, f[stop - 1] == NEWLINE);
    }
  }

  lemma OccursContains(s: seq<Byte>, line: seq<Byte>)
    requires Occurs(s, line)
    ensures Contains(s, line)
  {
    var k :| 0 <= k < |line| && OccursAt(s, line, k);
    assert ContainsAt(s, line, k);
  }

  /** If no line with a NUL contains the pattern, only whole pieces of the file itself are found. */
  lemma FoundIsWhole(f: seq<Byte>, s: seq<Byte>, stale: bool)
    requires Whole(MatchingLines(f, 0, s))
    ensures Whole(FoundFrom(f, 0, s, stale))
  {
    AlikeItself(f, 0, stale);
    forall i | 0 <= i < |FoundFrom(f, 0, s, stale)| ensures NulFree(FoundFrom(f, 0, s, stale)[i]) {
      var a, b := WhereFoundFrom(f, f, 0, s, stale, i);
      OccursContains(s, f[a..b]);
      PartIsWhole(f, a, b, s);
    }
  }

  lemma {:induction false} MatchContains(f: seq<Byte>, at: nat, s: seq<Byte>, i: nat)
    requires at <= |f| && i < |MatchingLines(f, at, s)|
    ensures Contains(s, MatchingLines(f, at, s)[i])
    decreases |f| - at
  {
    var here := Listed(s, LineAt(f, at));
    if i >= |here| {
      MatchContains(f, NextLine(f, at), s, i - |here|);
    }
  }

  /** If no line with a NUL contains the pattern, neither does the text of a part of such a line. */
  lemma NoSuchText(f: seq<Byte>, a: nat, b: nat, s: seq<Byte>)
    requires Whole(MatchingLines(f, 0, s)) && a < b <= |f| && !NulFree(f[a..b]) && forall k :: a <= k < b ==> f[k] != NEWLINE
    ensures !Contains(s, Prefix(f[a..b]))
  {
    var n := |Prefix(f[a..b])|;
    assert Prefix(f[a..b]) == f[a..a + n];
    if Contains(s, f[a..a + n]) {
      ContainsInWhole(s, f, a, a, a + n, b);
      PartIsWhole(f, a, b, s);
    }
  }

  /** A piece with a NUL in which the pattern is seen is printed, though no line is that text. */
  lemma StrayPiece(f: seq<Byte>, g: seq<Byte>, s: seq<Byte>, stale: bool, i: nat)
    requires SameBreaks(f, g) && AlikeFrom(f, g, 0, stale) && Whole(MatchingLines(f, 0, s))
    requires i < |FoundFrom(g, 0, s, stale)| && !NulFree(FoundFrom(g, 0, s, stale)[i])
    ensures Cut(FoundFrom(g, 0, s, stale)) != MatchingLines(f, 0, s)
  {
    var found := FoundFrom(g, 0, s, stale);
    var a, b := WhereFoundFrom(f, g, 0, s, stale, i);
    SameString(f[a..b], g[a..b]);
    NoSuchText(f, a, b, s);
    assert Cut(found)[i] == Prefix(f[a..b]);
    if Cut(found) == MatchingLines(f, 0, s) {
      MatchContains(f, 0, s, i);
    }
  }

  /** With a pattern that grep can find. */
  lemma PrintsFindable(f: seq<Byte>, g: seq<Byte>, s: seq<Byte>, stale: bool)
    requires g == Seen(f, 0, stale) && Findable(s)
    ensures Cut(FoundFrom(g, 0, s, stale)) == MatchingLines(f, 0, s)
       <==> && Whole(MatchingLines(f, 0, s)) && Whole(FoundFrom(g, 0, s, stale))
            && !LongMatch(f, 0, s) && (stale ==> !CutMatch(f, 0, s))
  {
    var found := FoundFrom(g, 0, s, stale);
    SeenAlike(f, 0, stale, g);
    if Whole(MatchingLines(f, 0, s)) {
      if Whole(found) {
        FoundIsWhole(f, s, stale);
        SameFoundFrom(f, g, 0, s, stale);
        CutWhole(found);
        FindsLinesExactly(f, s, stale);
      } else {
        var i :| 0 <= i < |found| && !NulFree(found[i]);
        StrayPiece(f, g, s, stale, i);
      }
    } else {
      assert Whole(Cut(found));
    }
  }

  /** An empty pattern is seen in a line with a NUL. */
  lemma EmptyPattern(f: seq<Byte>, g: seq<Byte>, stale: bool)
    requires g == Seen(f, 0, stale) && FoundFrom(g, 0, [], stale) != []
    ensures !Whole(MatchingLines(f, 0, []))
  {
    SeenAlike(f, 0, stale, g);
    var a, b := WhereFoundFrom(f, g, 0, [], stale, 0);
    SameString(f[a..b], g[a..b]);
    assert ContainsAt([], f[a..b], 0);
    if Whole(MatchingLines(f, 0, [])) {
      PartIsWhole(f, a, b, []);
    }
  }

  /**
   * Whatever the file holds, grep prints exactly the lines that contain the pattern, once each and in order, if and only
   * if the pattern begins with an ASCII byte, no line with a NUL contains it, nor does a piece with a NUL that grep finds,
   * no line longer than the buffer contains it, and no stale newline cuts a line that does. With any other pattern this
   * is right only if no line contains it.
   */
  lemma PrintsLinesExactly(f: seq<Byte>, s: seq<Byte>, stale: bool)
    ensures Cut(Rounds(f, 0, s, stale)) == MatchingLines(f, 0, s)
       <==> if Findable(s) then
              && Whole(MatchingLines(f, 0, s)) && Whole(Rounds(f, 0, s, stale))
              && !LongMatch(f, 0, s) && (stale ==> !CutMatch(f, 0, s))
            else MatchingLines(f, 0, s) == []
  {
    var g := Seen(f, 0, stale);
    RoundsFind(f, 0, s, stale, g);
    if Findable(s) {
      PrintsFindable(f, g, s, stale);
    } else if s == [] {
      if FoundFrom(g, 0, s, stale) != [] {
        EmptyPattern(f, g, stale);
        assert Whole(Cut(FoundFrom(g, 0, s, stale)));
      }
    } else {
      NothingFoundFrom(g, 0, s, stale);
    }
  }

  // ----- Text files

  lemma {:induction false} LinesOfText(f: seq<Byte>, at: nat, s: seq<Byte>)
    requires at <= |f| && NulFree(f)
    ensures Whole(MatchingLines(f, at, s))
    decreases |f| - at
  {
    if at < |f| {
      NulFreePart(f, at, LineEnd(f, at, |f|));
      LinesOfText(f, NextLine(f, at), s);
    }
  }

  lemma {:induction false} TextIsSeen(f: seq<Byte>, at: nat, stale: bool)
    requires at <= |f| && NulFree(f)
    ensures Seen(f, at, stale) == f
    decreases |f| - at
  {
    if at < |f| {
      var reach := Reach(at, |f|);
      var p := TailStart(f, at, reach);
      if Carries(f, at, stale) {
        NulFreePart(f, p, reach);
        PrefixOfWhole(f[p..reach]);
        assert Carried(f, at, p, reach) == f;
        TextIsSeen(f, p, stale);
      } else {
        TextIsSeen(f, reach, stale && f[reach - 1] == NEWLINE);
      }
    }
  }

  /** For a file without NULs the length of its lines and the stale newline alone decide. */
  lemma PrintsTextExactly(f: seq<Byte>, s: seq<Byte>, stale: bool)
    requires NulFree(f)
    ensures Cut(Rounds(f, 0, s, stale)) == Rounds(f, 0, s, stale)
    ensures Rounds(f, 0, s, stale) == MatchingLines(f, 0, s)
       <==> if Findable(s) then !LongMatch(f, 0, s) && (stale ==> !CutMatch(f, 0, s)) else MatchingLines(f, 0, s) == []
  {
    LinesOfText(f, 0, s);
    TextIsSeen(f, 0, stale);
    RoundsFind(f, 0, s, stale, f);
    FoundIsWhole(f, s, stale);
    CutWhole(Rounds(f, 0, s, stale));
    PrintsLinesExactly(f, s, stale);
  }

  // ----- Where a NUL does harm

  lemma OneLineFile(f: seq<Byte>, s: seq<Byte>)
    requires 0 < |f| <= BUFSIZE && Contains(s, f) && forall k :: 0 <= k < |f| ==> f[k] != NEWLINE
    ensures MatchingLines(f, 0, s) == [f]
  {
    LineEndIs(f, 0, |f|, |f|);
    assert f[0..|f|] == f && MatchingLines(f, |f|, s) == [];
  }

  /** A line is printed as far as its NUL only. */
  lemma NulCutsLine(f: seq<Byte>, s: seq<Byte>, stale: bool)
    requires f == [65, NUL, 66] && s == [65]
    ensures MatchingLines(f, 0, s) == [f] && Cut(Rounds(f, 0, s, stale)) != [f]
  {
    assert ContainsAt(s, f, 0);
    OneLineFile(f, s);
    assert f[1] == NUL && MatchingLines(f, 0, s)[0] == f;
    PrintsLinesExactly(f, s, stale);
  }

  lemma MovedLine(f: seq<Byte>, f': seq<Byte>)
    requires f == [120, 121, 122, 119, NEWLINE, 97, NUL, 99, 100] && f' == f[7 := 122][8 := 119]
    ensures TailStart(f, 0, 9) == 5 && TailStart(f', 5, 9) == 5 && Carried(f, 0, 5, 9) == f'
  {
    LineEndIs(f, 0, 9, 4);
    LineEndIs(f, 5, 9, 9);
    LineEndIs(f', 5, 9, 9);
    assert f[5..9] == [97, NUL, 99, 100];
    PrefixIs(f[5..9], 1);
    forall i | 0 <= i < 9 ensures CarriedByte(f, 0, 5, 9, i) == f'[i] {
    }
  }

  lemma FirstLineFound(f: seq<Byte>, s: seq<Byte>)
    requires f == [120, 121, 122, 119, NEWLINE, 97, NUL, 99, 100] && s == [122, 119]
    ensures Found(f, 0, 5, s) == [f[0..4]] && MatchingLines(f, 0, s) == [f[0..4]]
  {
    LineEndIs(f, 0, 5, 4);
    LineEndIs(f, 0, 9, 4);
    LineEndIs(f, 5, 9, 9);
    assert f[0..4][2..] == s && OccursAt(s, f[0..4], 2) && ContainsAt(s, f[0..4], 2);
    EmptyPart(f, 5, s);
    assert forall k :: 0 <= k < |f[5..9]| ==> f[5..9][k] != 122;
    assert !Contains(s, f[5..9]);
    assert MatchingLines(f, 9, s) == [];
    assert MatchingLines(f, 5, s) == [];
  }

  lemma SecondLineFound(f: seq<Byte>, s: seq<Byte>, line: seq<Byte>)
    requires f == [120, 121, 122, 119, NEWLINE, 97, NUL, 122, 119] && s == [122, 119] && line == f[5..9]
    ensures Rounds(f, 5, s, false) == [line] && Prefix(line) == [97]
  {
    LineEndIs(f, 5, 9, 9);
    RoundPlain(f, 5, s, false, 9);
    FoundNext(f, 5, 9, s, 9, 9);
    EmptyPart(f, 9, s);
    assert line[2..] == s && OccursAt(s, line, 2);
    PrefixIs(line, 1);
    assert line[..1] == [97];
  }

  /** A pattern is seen in a line that does not contain it: behind the NUL the buffer still held an earlier line. */
  lemma MovedLineIsSeen(f: seq<Byte>, s: seq<Byte>)
    requires f == [120, 121, 122, 119, NEWLINE, 97, NUL, 99, 100] && s == [122, 119]
    ensures MatchingLines(f, 0, s) == [f[0..4]] && Cut(Rounds(f, 0, s, false)) == [f[0..4], [97]]
  {
    hide Found, Rounds, MatchingLines;
    var f' := f[7 := 122][8 := 119];
    var first, second := f[0..4], f'[5..9];
    MovedLine(f, f');
    FirstLineFound(f, s);
    SecondLineFound(f', s, second);
    RoundMoved(f, 0, s, false, 5, 9);
    assert Rounds(f, 0, s, false) == [first, second];
    PrefixOfWhole(first);
  }
}
