/** Memory primitives of student-distrib/lib.c over one flat byte memory; addresses are indices. */
module Memory {
  import opened Machine

  /** `m` with the `n` bytes at `dest` replaced by the bytes that were at `src`. */
  function Moved(m: seq<Byte>, dest: nat, src: nat, n: nat): (r: seq<Byte>)
    requires dest + n <= |m| && src + n <= |m|
    ensures |r| == |m|
    ensures forall i :: 0 <= i < |m| ==> r[i] == if dest <= i < dest + n then m[i - dest + src] else m[i]
  {
    seq(|m|, i requires 0 <= i < |m| => if dest <= i < dest + n then m[i - dest + src] else m[i])
  }

  /** `m` with the `n` 16-bit words at `dest` set to the little-endian word `w`. */
  function WordsSet(m: seq<Byte>, dest: nat, w: Word16, n: nat): (r: seq<Byte>)
    requires dest + 2 * n <= |m|
    ensures |r| == |m|
  {
    seq(|m|, i requires 0 <= i < |m| =>
      if dest <= i < dest + 2 * n then (if (i - dest) % 2 == 0 then w % 0x100 else w / 0x100) else m[i])
  }

  /** An ascending copy reads every source byte before it is overwritten: disjoint regions, or copying down. */
  predicate Ascends(dest: nat, src: nat, n: nat) {
    dest <= src || src + n <= dest
  }

  /** A further `k` bytes of the copy. */
  lemma MovedOn(m: seq<Byte>, dest: nat, src: nat, n: nat, done: nat, k: nat)
    requires dest + n <= |m| && src + n <= |m| && Ascends(dest, src, n) && done + k <= n
    ensures Moved(Moved(m, dest, src, done), dest + done, src + done, k) == Moved(m, dest, src, done + k)
  {
  }

  /** One `movb` pair or, with four bytes read before any is written, one `movsl`. */
  method MoveUnit(mem: array<Byte>, edi: nat, esi: nat, long: bool)
    requires edi + (if long then 4 else 1) <= mem.Length && esi + (if long then 4 else 1) <= mem.Length
    modifies mem
    ensures mem[..] == Moved(old(mem[..]), edi, esi, if long then 4 else 1)
  {
    if long {
      mem[edi], mem[edi + 1], mem[edi + 2], mem[edi + 3] := mem[esi], mem[esi + 1], mem[esi + 2], mem[esi + 3];
    } else {
      mem[edi] := mem[esi];
    }
  }

  /** The copy loops go on from `done` bytes by `k` bytes, singly or by fours. */
  method MoveOn(mem: array<Byte>, dest: nat, src: nat, ghost n: nat, done: nat, k: nat, long: bool, ghost m: seq<Byte>)
    requires dest + n <= mem.Length == |m| && src + n <= mem.Length && Ascends(dest, src, n)
    requires done + k <= n && (long ==> k % 4 == 0) && mem[..] == Moved(m, dest, src, done)
    modifies mem
    ensures mem[..] == Moved(m, dest, src, done + k)
  {
    var unit := if long then 4 else 1;
    var left := k / unit;
    while left > 0
      invariant 0 <= unit * left <= k && mem[..] == Moved(m, dest, src, done + k - unit * left)
    {
      var at := done + k - unit * left;
      MovedOn(m, dest, src, n, at, unit);
      MoveUnit(mem, dest + at, src + at, long);
      left := left - 1;
    }
  }

  /** Bytes up to a multiple of four, then words of four bytes, then the rest. */
  method Memcpy(mem: array<Byte>, dest: nat, src: nat, n: nat)
    requires dest + n <= mem.Length && src + n <= mem.Length && Ascends(dest, src, n)
    modifies mem
    ensures mem[..] == Moved(old(mem[..]), dest, src, n)
  {
    ghost var m := mem[..];
    var done: nat := 0;
    while done < n && (dest + done) % 4 != 0
      invariant done <= n && mem[..] == Moved(m, dest, src, done)
    {
      MoveOn(mem, dest, src, n, done, 1, false, m);
      done := done + 1;
    }
    var longs, tail := (n - done) / 4, (n - done) % 4;
    MoveOn(mem, dest, src, n, done, 4 * longs, true, m);
    MoveOn(mem, dest, src, n, done + 4 * longs, tail, false, m);
  }

  method Memmove(mem: array<Byte>, dest: nat, src: nat, n: nat)
    requires dest + n <= mem.Length && src + n <= mem.Length
    modifies mem
    ensures mem[..] == Moved(old(mem[..]), dest, src, n)
  {
    var done := 0;
    if src >= dest {
      while done < n
        invariant done <= n
        invariant forall i :: 0 <= i < mem.Length ==>
          mem[i] == if dest <= i < dest + done then old(mem[i - dest + src]) else old(mem[i])
      {
        mem[dest + done] := mem[src + done];
        done := done + 1;
      }
    } else {
      while done < n
        invariant done <= n
        invariant forall i :: 0 <= i < mem.Length ==>
          mem[i] == if dest + n - done <= i < dest + n then old(mem[i - dest + src]) else old(mem[i])
      {
        mem[dest + n - 1 - done] := mem[src + n - 1 - done];
        done := done + 1;
      }
    }
  }

  method MemsetWord(mem: array<Byte>, dest: nat, w: Word16, n: nat)
    requires dest + 2 * n <= mem.Length
    modifies mem
    ensures mem[..] == WordsSet(old(mem[..]), dest, w, n)
  {
    var i := 0;
    while i < n
      invariant i <= n
      invariant mem[..] == WordsSet(old(mem[..]), dest, w, i)
    {
      mem[dest + 2 * i], mem[dest + 2 * i + 1] := w % 0x100, w / 0x100;
      i := i + 1;
    }
  }
}
