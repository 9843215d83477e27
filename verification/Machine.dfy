/** Fixed-width integers and the small datatypes shared by the model. */
module Machine {

  type Byte = x: int | 0 <= x < 0x100
  type Word16 = x: int | 0 <= x < 0x1_0000
  type Word32 = x: int | 0 <= x < 0x1_0000_0000

  datatype Option<+T> = None | Some(value: T)

  const NUL: Byte := 0
  const BACKSPACE: Byte := 8
  const NEWLINE: Byte := 10
  const RETURN: Byte := 13
  const SPACE: Byte := 32

  const NL: seq<Byte> := [NEWLINE]

  /** Virtual terminals, and slots for processes. */
  const TERMS := 3
  const SLOTS := 6

  function Min(a: int, b: int): int {
    if a <= b then a else b
  }

  /** Two's-complement reading of an 8-bit value (a plain C `char` on this target). */
  function SignedByte(b: Byte): int {
    if b < 0x80 then b else b - 0x100
  }

  /** Two's-complement reading of a 16-bit value. */
  function SignedWord16(w: Word16): int {
    if w < 0x8000 then w else w - 0x1_0000
  }

  /** A run of `n` equal elements. */
  function Repeat<T>(x: T, n: nat): (s: seq<T>)
    ensures |s| == n
    ensures forall i :: 0 <= i < n ==> s[i] == x
  {
    seq(n, _ => x)
  }
}
