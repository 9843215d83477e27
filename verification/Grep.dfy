/** What the grep program prints for a file (syscalls/ece391grep.c). */
module Grep {
  import opened Machine
  import opened Strings

  const BUFSIZE := 1024

  // ----- The pieces in which grep searches a file

  /** The first newline in f[at..stop], or `stop`. */
  function LineEnd(f: seq<Byte>, at: nat, stop: nat): (e: nat)
    requires at <= stop <= |f|
    ensures at <= e <= stop && (e < stop ==> f[e] == NEWLINE)
    ensures forall k :: at <= k < e ==> f[k] != NEWLINE
    decreases stop - at
  {
    if at == stop || f[at] == NEWLINE then at else LineEnd(f, at + 1, stop)
  }

  lemma LineEndIs(f: seq<Byte>, at: nat, stop: nat, e: nat)
    requires at <= e <= stop <= |f| && (e < stop ==> f[e] == NEWLINE)
    requires forall k :: at <= k < e ==> f[k] != NEWLINE
    ensures LineEnd(f, at, stop) == e
  {
  }

  /** How far the buffer reaches when it begins at `at` and the file ends at `end`. */
  function Reach(at: nat, end: nat): nat
    requires at <= end
  {
    Min(at + BUFSIZE, end)
  }

  /** The end of the piece of the file searched at `at`: a newline, or the end of what one buffer holds. */
  function PieceEnd(f: seq<Byte>, at: nat, end: nat): nat
    requires at <= end <= |f|
  {
    LineEnd(f, at, Reach(at, end))
  }

  /** Where the next piece begins: behind the newline if there is one. */
  function NextPiece(f: seq<Byte>, at: nat, end: nat): (n: nat)
    requires at < end <= |f|
    ensures at < n <= end
  {
    if PieceEnd(f, at, end) < Reach(at, end) then PieceEnd(f, at, end) + 1 else PieceEnd(f, at, end)
  }

  /** The patterns grep can find: the first byte is compared as a signed char, so only an ASCII one is ever equal. */
  predicate Findable(s: seq<Byte>) {
    s != [] && s[0] < 128
  }

  /** Grep sees the pattern in the line at `k`; an empty pattern, whose first byte is its end, at every NUL. */
  predicate OccursAt(s: seq<Byte>, line: seq<Byte>, k: nat)
    requires k < |line|
  {
    if s == [] then line[k] == NUL else Findable(s) && s <= line[k..]
  }

  predicate Occurs(s: seq<Byte>, line: seq<Byte>) {
    exists k :: 0 <= k < |line| && OccursAt(s, line, k)
  }

  /** The line, if grep sees the pattern in it. */
  function Match(s: seq<Byte>, line: seq<Byte>): seq<seq<Byte>> {
    if Occurs(s, line) then [line] else []
  }

  /** The pieces of f[at..end] in which grep sees the pattern. */
  function Found(f: seq<Byte>, at: nat, end: nat, s: seq<Byte>): seq<seq<Byte>>
    requires at <= end <= |f|
    decreases end - at
  {
    if at == end then [] else Match(s, f[at..PieceEnd(f, at, end)]) + Found(f, NextPiece(f, at, end), end, s)
  }

  // ----- Lines moved to the front of the buffer

  /** Where the last line of f[q..stop] begins; `stop` itself if a newline ends it. */
  function TailStart(f: seq<Byte>, q: nat, stop: nat): (p: nat)
    requires q <= stop <= |f|
    ensures q <= p <= stop && forall k :: p <= k < stop ==> f[k] != NEWLINE
    ensures q < stop ==> (p == stop <==> f[stop - 1] == NEWLINE)
    decreases stop - q
  {
    if q == stop || LineEnd(f, q, stop) == stop then q else TailStart(f, LineEnd(f, q, stop) + 1, stop)
  }

  lemma SameTail(f: seq<Byte>, q: nat, stop: nat, e: nat)
    requires q < stop <= |f| && e == LineEnd(f, q, stop) < stop
    ensures TailStart(f, q, stop) == TailStart(f, e + 1, stop)
  {
  }

  /** A byte that has been searched: a NUL has taken the place of a newline. */
  function Masked(b: Byte): Byte {
    if b == NEWLINE then NUL else b
  }

  function CarriedByte(f: seq<Byte>, at: nat, p: nat, reach: nat, i: nat): Byte
    requires at <= p <= reach <= |f| && i < |f|
  {
    if p + |Prefix(f[p..reach])| < i < reach then Masked(f[at + (i - p)]) else f[i]
  }

  /**
   * The file as it is seen after the unfinished line at `p` has been moved to the front of the buffer that holds
   * f[at..reach]. The copy ends at the first NUL of the line; behind it the buffer keeps what it held before.
   */
  function Carried(f: seq<Byte>, at: nat, p: nat, reach: nat): (r: seq<Byte>)
    requires at <= p <= reach <= |f|
    ensures |r| == |f|
  {
    seq(|f|, i requires 0 <= i < |f| => CarriedByte(f, at, p, reach, i))
  }

  lemma CarriedKeeps(f: seq<Byte>, at: nat, p: nat, reach: nat)
    requires at <= p <= reach <= |f|
    ensures Carried(f, at, p, reach)[..p] == f[..p] && Carried(f, at, p, reach)[reach..] == f[reach..]
  {
  }

  /** An unfinished line is moved unless it began with the buffer or a stale newline seems to end it. */
  predicate Carries(f: seq<Byte>, at: nat, stale: bool)
    requires at <= |f|
  {
    at < TailStart(f, at, Reach(at, |f|)) < Reach(at, |f|) && !(stale && (at == 0 || at + BUFSIZE <= |f|))
  }

  /** f[at..at + filled] is what the buffer holds. */
  predicate Fills(f: seq<Byte>, at: nat, filled: nat) {
    filled <= BUFSIZE && at + filled <= |f| && (filled == BUFSIZE || at + filled == |f|)
  }

  /** What the program tests: whether the read delivered anything, and whether the byte behind it is a newline. */
  lemma CarriesIf(f: seq<Byte>, at: nat, stale: bool, filled: nat, p: nat, more: bool, behind: bool)
    requires Fills(f, at, filled) && p == TailStart(f, at, at + filled)
    requires if more then behind <==> stale && (at == 0 || filled == BUFSIZE) else p == at
    ensures Carries(f, at, stale) <==> more && !behind && at < p < at + filled
  {
  }

  // ----- Rounds

  /**
   * The pieces of the file from `at` on in which grep sees the pattern, one buffer after the other. `stale` is whether a
   * newline lies where the first read ends, or later just behind the buffer. It seems to end the buffer's last line.
   */
  function Rounds(f: seq<Byte>, at: nat, s: seq<Byte>, stale: bool): seq<seq<Byte>>
    requires at <= |f|
    decreases |f| - at
  {
    if at == |f| then []
    else
      var reach := Reach(at, |f|);
      var p := TailStart(f, at, reach);
      if Carries(f, at, stale) then Found(f, at, p, s) + Rounds(Carried(f, at, p, reach), p, s, stale)
      else Found(f, at, reach, s) + Rounds(f, reach, s, stale && f[reach - 1] == NEWLINE)
  }

  /** With less than a buffer left a stale newline does not matter, except in the first buffer. */
  lemma {:induction false} RoundsShort(f: seq<Byte>, at: nat, s: seq<Byte>, x: bool, y: bool)
    requires 0 < at <= |f| < at + BUFSIZE
    ensures Rounds(f, at, s, x) == Rounds(f, at, s, y)
    decreases |f| - at
  {
    if at < |f| {
      var p := TailStart(f, at, |f|);
      if at < p < |f| {
        RoundsShort(Carried(f, at, p, |f|), p, s, x, y);
      }
    }
  }

  // ----- Output

  const COLON: seq<Byte> := [58]

  /** The output for the pieces found in a file, each as far as its first NUL. */
  function Printed(lines: seq<seq<Byte>>, fname: seq<Byte>): seq<Byte> {
    if lines == [] then [] else fname + COLON + Prefix(lines[0]) + NL + Printed(lines[1..], fname)
  }

  lemma {:induction false} PrintedJoin(a: seq<seq<Byte>>, b: seq<seq<Byte>>, fname: seq<Byte>)
    ensures Printed(a, fname) + Printed(b, fname) == Printed(a + b, fname)
  {
    if a == [] {
      assert a + b == b;
    } else {
      assert (a + b)[1..] == a[1..] + b;
      PrintedJoin(a[1..], b, fname);
    }
  }

  /** The output for a file; `stale` is whether a newline lies where the first read ends. */
  function Grepped(f: seq<Byte>, s: seq<Byte>, fname: seq<Byte>, stale: bool): seq<Byte> {
    Printed(Rounds(f, 0, s, stale), fname)
  }

  /** The output so far, with that for f[at..end], makes up `goal`. */
  predicate Lacks(out: seq<Byte>, f: seq<Byte>, at: nat, end: nat, s: seq<Byte>, fname: seq<Byte>, goal: seq<Byte>)
    requires at <= end <= |f|
  {
    out + Printed(Found(f, at, end, s), fname) == goal
  }

  lemma OutJoin<T>(out: seq<T>, a: seq<T>, b: seq<T>, ab: seq<T>, now: seq<T>, goal: seq<T>)
    requires a + b == ab && out + ab == goal && now == out + a
    ensures now + b == goal
  {
  }

  /** Printing a piece with the pattern takes the output one piece further. */
  lemma PieceSearched(out: seq<Byte>, now: seq<Byte>, f: seq<Byte>, at: nat, e: nat, next: nat, end: nat, s: seq<Byte>,
                      fname: seq<Byte>, goal: seq<Byte>)
    requires at <= e <= next <= end <= |f| && Lacks(out, f, at, end, s, fname, goal)
    requires at < end ==> PieceEnd(f, at, end) == e && NextPiece(f, at, end) == next
    requires now == out + Printed(Match(s, f[at..e]), fname)
    ensures Lacks(now, f, next, end, s, fname, goal)
  {
    var here, rest := Match(s, f[at..e]), Found(f, next, end, s);
    assert at == end ==> !Occurs(s, f[at..e]) && here + rest == Found(f, at, end, s);
    PrintedJoin(here, rest, fname);
    OutJoin(out, Printed(here, fname), Printed(rest, fname), Printed(here + rest, fname), now, goal);
  }

  lemma NothingLacks(out: seq<Byte>, f: seq<Byte>, end: nat, s: seq<Byte>, fname: seq<Byte>, goal: seq<Byte>)
    requires end <= |f| && Lacks(out, f, end, end, s, fname, goal)
    ensures out == goal
  {
  }

  /** The output so far, with that of the rounds from `at` on, makes up `goal`. */
  predicate Ahead(out: seq<Byte>, f: seq<Byte>, at: nat, s: seq<Byte>, stale: bool, fname: seq<Byte>, goal: seq<Byte>)
    requires at <= |f|
  {
    out + Printed(Rounds(f, at, s, stale), fname) == goal
  }

  /** The file as it is seen after a round, and where the next one begins. */
  predicate AfterRound(f: seq<Byte>, at: nat, stale: bool, filled: nat, f': seq<Byte>, next: nat)
    requires Fills(f, at, filled)
  {
    var p := TailStart(f, at, at + filled);
    if Carries(f, at, stale) then f' == Carried(f, at, p, at + filled) && next == p else f' == f && next == at + filled
  }

  lemma NoRounds(f: seq<Byte>, s: seq<Byte>, stale: bool)
    ensures Rounds(f, |f|, s, stale) == []
  {
  }

  lemma RoundMoved(f: seq<Byte>, at: nat, s: seq<Byte>, stale: bool, p: nat, reach: nat)
    requires at < |f| && reach == Reach(at, |f|) && p == TailStart(f, at, reach) && Carries(f, at, stale)
    ensures Rounds(f, at, s, stale) == Found(f, at, p, s) + Rounds(Carried(f, at, p, reach), p, s, stale)
  {
    hide Found, Carried;
  }

  lemma RoundPlain(f: seq<Byte>, at: nat, s: seq<Byte>, stale: bool, reach: nat)
    requires at < |f| && reach == Reach(at, |f|) && !Carries(f, at, stale)
    ensures Rounds(f, at, s, stale) == Found(f, at, reach, s) + Rounds(f, reach, s, stale && f[reach - 1] == NEWLINE)
  {
    hide Found, Carried;
  }

  /** One round, and the others; `stale'` is whether a newline is behind the buffer after that. */
  lemma FirstRound(f: seq<Byte>, at: nat, s: seq<Byte>, stale: bool, filled: nat, f': seq<Byte>, next: nat, stale': bool)
    requires Fills(f, at, filled) && AfterRound(f, at, stale, filled, f', next)
    requires filled == BUFSIZE ==> (stale' <==> stale && f[at + filled - 1] == NEWLINE)
    ensures at <= next <= |f| == |f'| && Rounds(f, at, s, stale) == Found(f, at, next, s) + Rounds(f', next, s, stale')
  {
    hide Found, Rounds, Carried;
    if at == |f| {
      EmptyPart(f, at, s);
      NoRounds(f, s, stale);
      NoRounds(f, s, stale');
    } else if Carries(f, at, stale) {
      RoundMoved(f, at, s, stale, next, at + filled);
      if filled < BUFSIZE {
        RoundsShort(f', next, s, stale, stale');
      }
    } else {
      RoundPlain(f, at, s, stale, at + filled);
      if filled < BUFSIZE {
        NoRounds(f, s, stale && f[|f| - 1] == NEWLINE);
        NoRounds(f, s, stale');
      }
    }
  }

  lemma EmptyPart(f: seq<Byte>, at: nat, s: seq<Byte>)
    requires at <= |f|
    ensures Found(f, at, at, s) == []
  {
  }

  lemma RoundDone(out: seq<Byte>, now: seq<Byte>, f: seq<Byte>, at: nat, s: seq<Byte>, stale: bool, filled: nat,
                  f': seq<Byte>, next: nat, stale': bool, fname: seq<Byte>, goal: seq<Byte>)
    requires Fills(f, at, filled) && AfterRound(f, at, stale, filled, f', next)
    requires filled == BUFSIZE ==> (stale' <==> stale && f[at + filled - 1] == NEWLINE)
    requires Ahead(out, f, at, s, stale, fname, goal) && now == out + Printed(Found(f, at, next, s), fname)
    ensures next <= |f'| && Ahead(now, f', next, s, stale', fname, goal)
  {
    FirstRound(f, at, s, stale, filled, f', next, stale');
    var here, rest := Found(f, at, next, s), Rounds(f', next, s, stale');
    PrintedJoin(here, rest, fname);
    OutJoin(out, Printed(here, fname), Printed(rest, fname), Printed(here + rest, fname), now, goal);
  }

  lemma NothingAhead(out: seq<Byte>, f: seq<Byte>, s: seq<Byte>, x: bool, y: bool, fname: seq<Byte>, goal: seq<Byte>)
    requires Ahead(out, f, |f|, s, x, fname, goal)
    ensures Ahead(out, f, |f|, s, y, fname, goal) && out == goal
  {
  }
}
