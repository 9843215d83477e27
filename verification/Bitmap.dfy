/** The process-slot bitmap of student-distrib/pcb.c: the SWAR bit count and first-fit allocation. */
module Bitmap {

  /** `1 << k` */
  function OneShl(k: nat): bv32 {
    if k == 0 then 1 else OneShl(k - 1) << 1
  }

  predicate Hit(v: bv32, mask: bv32) {
    v & mask != 0
  }

  predicate BitAt(v: bv32, k: nat) {
    Hit(v, OneShl(k))
  }

  predicate Apart(a: bv32, b: bv32) {
    a & b == 0
  }

  function WithMask(v: bv32, mask: bv32): bv32 {
    v | mask
  }

  function WithoutMask(v: bv32, mask: bv32): bv32 {
    v & !mask
  }

  function SetBit(v: bv32, k: nat): bv32 {
    WithMask(v, OneShl(k))
  }

  function ClearBit(v: bv32, k: nat): bv32 {
    WithoutMask(v, OneShl(k))
  }

  /** How many of the `n` lowest bits are set. */
  function CountBelow(v: bv32, n: nat): nat {
    if n == 0 then 0 else CountBelow(v, n - 1) + if BitAt(v, n - 1) then 1 else 0
  }

  lemma {:induction false} NoBits(n: nat)
    ensures CountBelow(0, n) == 0
  {
    if n > 0 {
      NoBits(n - 1);
      NoHit(OneShl(n - 1));
    }
  }

  lemma NoHit(mask: bv32)
    ensures !Hit(0, mask)
  {
  }

  // ----- The powers of two

  lemma ShlStep(k: nat)
    requires k > 0
    ensures OneShl(k) == OneShl(k - 1) << 1
  {
  }

  lemma BitTable0()
    ensures OneShl(0) == 0x1 && OneShl(1) == 0x2 && OneShl(2) == 0x4 && OneShl(3) == 0x8
    ensures OneShl(4) == 0x10 && OneShl(5) == 0x20 && OneShl(6) == 0x40 && OneShl(7) == 0x80
  {
    ShlStep(1);
    ShlStep(2);
    ShlStep(3);
    ShlStep(4);
    ShlStep(5);
    ShlStep(6);
    ShlStep(7);
  }

  lemma BitTable1()
    ensures OneShl(8) == 0x100 && OneShl(9) == 0x200 && OneShl(10) == 0x400 && OneShl(11) == 0x800
    ensures OneShl(12) == 0x1000 && OneShl(13) == 0x2000 && OneShl(14) == 0x4000 && OneShl(15) == 0x8000
  {
    BitTable0();
    ShlStep(8);
    ShlStep(9);
    ShlStep(10);
    ShlStep(11);
    ShlStep(12);
    ShlStep(13);
    ShlStep(14);
    ShlStep(15);
  }

  lemma BitTable2()
    ensures OneShl(16) == 0x10000 && OneShl(17) == 0x20000 && OneShl(18) == 0x40000 && OneShl(19) == 0x80000
    ensures OneShl(20) == 0x100000 && OneShl(21) == 0x200000 && OneShl(22) == 0x400000 && OneShl(23) == 0x800000
  {
    BitTable1();
    ShlStep(16);
    ShlStep(17);
    ShlStep(18);
    ShlStep(19);
    ShlStep(20);
    ShlStep(21);
    ShlStep(22);
    ShlStep(23);
  }

  lemma BitTable3()
    ensures OneShl(24) == 0x1000000 && OneShl(25) == 0x2000000 && OneShl(26) == 0x4000000 && OneShl(27) == 0x8000000
    ensures OneShl(28) == 0x10000000 && OneShl(29) == 0x20000000 && OneShl(30) == 0x40000000 && OneShl(31) == 0x80000000
  {
    BitTable2();
    ShlStep(24);
    ShlStep(25);
    ShlStep(26);
    ShlStep(27);
    ShlStep(28);
    ShlStep(29);
    ShlStep(30);
    ShlStep(31);
  }

  lemma {:induction false} OneShlNonzero(k: nat)
    requires k < 32
    ensures OneShl(k) != 0
    decreases 31 - k
  {
    if k == 31 {
      BitTable3();
    } else {
      OneShlNonzero(k + 1);
      ShlStep(k + 1);
    }
  }

  lemma {:induction false} OneShlApart(i: nat, j: nat)
    requires i != j
    ensures Apart(OneShl(i), OneShl(j))
    decreases i + j
  {
    if i == 0 || j == 0 {
    } else {
      OneShlApart(i - 1, j - 1);
      ShiftedApart(OneShl(i - 1), OneShl(j - 1));
    }
  }

  lemma ShiftedApart(a: bv32, b: bv32)
    requires Apart(a, b)
    ensures Apart(a << 1, b << 1)
  {
  }

  lemma SameMask(v: bv32, a: bv32)
    requires a != 0
    ensures Hit(WithMask(v, a), a) && !Hit(WithoutMask(v, a), a)
  {
  }

  lemma OrMask(v: bv32, a: bv32, b: bv32)
    requires a & b == 0
    ensures (v | a) & b == v & b
  {
  }

  lemma AndNotMask(v: bv32, a: bv32, b: bv32)
    requires a & b == 0
    ensures (v & !a) & b == v & b
  {
  }

  lemma WithApart(v: bv32, a: bv32, b: bv32, w: bv32)
    requires Apart(a, b) && w == WithMask(v, a)
    ensures Hit(w, b) == Hit(v, b)
  {
    OrMask(v, a, b);
  }

  lemma WithoutApart(v: bv32, a: bv32, b: bv32, w: bv32)
    requires Apart(a, b) && w == WithoutMask(v, a)
    ensures Hit(w, b) == Hit(v, b)
  {
    AndNotMask(v, a, b);
  }

  lemma SetAndClear(v: bv32, i: nat, j: nat)
    requires i < 32 && j < 32
    ensures BitAt(SetBit(v, i), j) == (i == j || BitAt(v, j))
    ensures BitAt(ClearBit(v, i), j) == (i != j && BitAt(v, j))
  {
    if i == j {
      OneShlNonzero(i);
      SameMask(v, OneShl(i));
    } else {
      OneShlApart(i, j);
      WithApart(v, OneShl(i), OneShl(j), SetBit(v, i));
      WithoutApart(v, OneShl(i), OneShl(j), ClearBit(v, i));
    }
  }

  // ----- The SWAR count

  function EightBits(v: bv32): bv32 {
    (v & 1) + ((v >> 1) & 1) + ((v >> 2) & 1) + ((v >> 3) & 1)
    + ((v >> 4) & 1) + ((v >> 5) & 1) + ((v >> 6) & 1) + ((v >> 7) & 1)
  }

  function FourBits(v: bv32): bv32 {
    (v & 1) + ((v >> 1) & 1) + ((v >> 2) & 1) + ((v >> 3) & 1)
  }

  lemma FourAndFour(v: bv32, low: bv32, high: bv32)
    requires low == v && high == v >> 4
    ensures EightBits(v) == FourBits(low) + FourBits(high) && FourBits(low) <= 4 && FourBits(high) <= 4
  {
  }

  lemma TwoFours(v: bv32, low: bv32, high: bv32)
    requires low == v && high == v >> 4
    ensures EightBits(v) as nat == FourBits(low) as nat + FourBits(high) as nat
  {
    FourAndFour(v, low, high);
    AddSmall(FourBits(low), FourBits(high));
  }

  /** The intermediate values of the SWAR count: sums in 2-bit, 4-bit and then 8-bit lanes. */
  predicate IsByteCounts(v: bv32, pairs: bv32, nibbles: bv32, b: bv32) {
    && pairs == v - ((v >> 1) & 0x55555555)
    && nibbles == (pairs & 0x33333333) + ((pairs >> 2) & 0x33333333)
    && b == (nibbles + (nibbles >> 4)) & 0x0F0F0F0F
  }

  lemma CountNext(v: bv32, n: nat, mask: bv32)
    requires mask == OneShl(n)
    ensures CountBelow(v, n + 1) == CountBelow(v, n) + if Hit(v, mask) then 1 else 0
  {
  }

  lemma CountLow0(v: bv32)
    ensures CountBelow(v, 4) == CountBelow(v, 0) + FourBits(v >> 0) as nat
  {
    BitTable0();
    CountNext(v, 0, 0x1);
    CountNext(v, 1, 0x2);
    CountNext(v, 2, 0x4);
    CountNext(v, 3, 0x8);
  }

  lemma CountHigh0(v: bv32)
    ensures CountBelow(v, 8) == CountBelow(v, 4) + FourBits(v >> 4) as nat
  {
    BitTable0();
    CountNext(v, 4, 0x10);
    CountNext(v, 5, 0x20);
    CountNext(v, 6, 0x40);
    CountNext(v, 7, 0x80);
  }

  lemma CountByte0(v: bv32)
    ensures CountBelow(v, 8) == EightBits(v) as nat
  {
    CountLow0(v);
    CountHigh0(v);
    TwoFours(v, v >> 0, v >> 4);
  }

  lemma Lane0(v: bv32, pairs: bv32, nibbles: bv32, b: bv32)
    requires IsByteCounts(v, pairs, nibbles, b)
    ensures b & 0xFF == EightBits(v)
  {
  }

  lemma CountLow1(v: bv32)
    ensures CountBelow(v, 12) == CountBelow(v, 8) + FourBits(v >> 8) as nat
  {
    BitTable1();
    CountNext(v, 8, 0x100);
    CountNext(v, 9, 0x200);
    CountNext(v, 10, 0x400);
    CountNext(v, 11, 0x800);
  }

  lemma CountHigh1(v: bv32)
    ensures CountBelow(v, 16) == CountBelow(v, 12) + FourBits(v >> 12) as nat
  {
    BitTable1();
    CountNext(v, 12, 0x1000);
    CountNext(v, 13, 0x2000);
    CountNext(v, 14, 0x4000);
    CountNext(v, 15, 0x8000);
  }

  lemma CountByte1(v: bv32)
    ensures CountBelow(v, 16) == CountBelow(v, 8) + EightBits(v >> 8) as nat
  {
    CountLow1(v);
    CountHigh1(v);
    TwoFours(v >> 8, v >> 8, v >> 12);
  }

  lemma Lane1(v: bv32, pairs: bv32, nibbles: bv32, b: bv32)
    requires IsByteCounts(v, pairs, nibbles, b)
    ensures (b >> 8) & 0xFF == EightBits(v >> 8)
  {
  }

  lemma CountLow2(v: bv32)
    ensures CountBelow(v, 20) == CountBelow(v, 16) + FourBits(v >> 16) as nat
  {
    BitTable2();
    CountNext(v, 16, 0x10000);
    CountNext(v, 17, 0x20000);
    CountNext(v, 18, 0x40000);
    CountNext(v, 19, 0x80000);
  }

  lemma CountHigh2(v: bv32)
    ensures CountBelow(v, 24) == CountBelow(v, 20) + FourBits(v >> 20) as nat
  {
    BitTable2();
    CountNext(v, 20, 0x100000);
    CountNext(v, 21, 0x200000);
    CountNext(v, 22, 0x400000);
    CountNext(v, 23, 0x800000);
  }

  lemma CountByte2(v: bv32)
    ensures CountBelow(v, 24) == CountBelow(v, 16) + EightBits(v >> 16) as nat
  {
    CountLow2(v);
    CountHigh2(v);
    TwoFours(v >> 16, v >> 16, v >> 20);
  }

  lemma Lane2(v: bv32, pairs: bv32, nibbles: bv32, b: bv32)
    requires IsByteCounts(v, pairs, nibbles, b)
    ensures (b >> 16) & 0xFF == EightBits(v >> 16)
  {
  }

  lemma CountLow3(v: bv32)
    ensures CountBelow(v, 28) == CountBelow(v, 24) + FourBits(v >> 24) as nat
  {
    BitTable3();
    CountNext(v, 24, 0x1000000);
    CountNext(v, 25, 0x2000000);
    CountNext(v, 26, 0x4000000);
    CountNext(v, 27, 0x8000000);
  }

  lemma CountHigh3(v: bv32)
    ensures CountBelow(v, 32) == CountBelow(v, 28) + FourBits(v >> 28) as nat
  {
    BitTable3();
    CountNext(v, 28, 0x10000000);
    CountNext(v, 29, 0x20000000);
    CountNext(v, 30, 0x40000000);
    CountNext(v, 31, 0x80000000);
  }

  lemma CountByte3(v: bv32)
    ensures CountBelow(v, 32) == CountBelow(v, 24) + EightBits(v >> 24) as nat
  {
    CountLow3(v);
    CountHigh3(v);
    TwoFours(v >> 24, v >> 24, v >> 28);
  }

  lemma Lane3(v: bv32, pairs: bv32, nibbles: bv32, b: bv32)
    requires IsByteCounts(v, pairs, nibbles, b)
    ensures b >> 24 == EightBits(v >> 24)
  {
  }

  lemma EightBitsBound(v: bv32)
    ensures EightBits(v) <= 8
  {
  }

  /** The four byte lanes count the bits of the four bytes. */
  lemma LanesCount(v: bv32, pairs: bv32, nibbles: bv32, b: bv32, b0: bv32, b1: bv32, b2: bv32, b3: bv32)
    requires IsByteCounts(v, pairs, nibbles, b)
    requires b0 == b & 0xFF && b1 == (b >> 8) & 0xFF && b2 == (b >> 16) & 0xFF && b3 == b >> 24
    ensures b0 <= 8 && b1 <= 8 && b2 <= 8 && b3 <= 8
    ensures CountBelow(v, 32) == b0 as nat + b1 as nat + b2 as nat + b3 as nat
  {
    assert CountBelow(v, 8) == b0 as nat && b0 <= 8 by {
      Lane0(v, pairs, nibbles, b);
      CountByte0(v);
      EightBitsBound(v);
    }
    assert CountBelow(v, 16) == CountBelow(v, 8) + b1 as nat && b1 <= 8 by {
      Lane1(v, pairs, nibbles, b);
      CountByte1(v);
      EightBitsBound(v >> 8);
    }
    assert CountBelow(v, 24) == CountBelow(v, 16) + b2 as nat && b2 <= 8 by {
      Lane2(v, pairs, nibbles, b);
      CountByte2(v);
      EightBitsBound(v >> 16);
    }
    assert CountBelow(v, 32) == CountBelow(v, 24) + b3 as nat && b3 <= 8 by {
      Lane3(v, pairs, nibbles, b);
      CountByte3(v);
      EightBitsBound(v >> 24);
    }
  }

  /** The multiplication adds the four lanes into the top byte. */
  lemma MultiplyAddsLanes(b: bv32, b0: bv32, b1: bv32, b2: bv32, b3: bv32)
    requires b0 == b & 0xFF && b1 == (b >> 8) & 0xFF && b2 == (b >> 16) & 0xFF && b3 == b >> 24
    requires b0 <= 8 && b1 <= 8 && b2 <= 8 && b3 <= 8
    ensures (b * 0x01010101) >> 24 == b0 + b1 + b2 + b3
  {
  }

  lemma AddSmall(a: bv32, b: bv32)
    requires a <= 24 && b <= 8
    ensures (a + b) as nat == a as nat + b as nat
  {
  }

  lemma AddFour(a: bv32, b: bv32, c: bv32, d: bv32, ab: bv32, abc: bv32)
    requires a <= 8 && b <= 8 && c <= 8 && d <= 8 && ab == a + b && abc == ab + c
    ensures (abc + d) as nat == a as nat + b as nat + c as nat + d as nat
  {
    AddSmall(a, b);
    AddSmall(ab, c);
    AddSmall(abc, d);
  }

  lemma CountFromLanes(v: bv32, pairs: bv32, nibbles: bv32, b: bv32, result: bv32)
    requires IsByteCounts(v, pairs, nibbles, b)
    requires result == (b * 0x01010101) >> 24
    ensures result as nat == CountBelow(v, 32)
  {
    var b0, b1, b2, b3 := b & 0xFF, (b >> 8) & 0xFF, (b >> 16) & 0xFF, b >> 24;
    LanesCount(v, pairs, nibbles, b, b0, b1, b2, b3);
    MultiplyAddsLanes(b, b0, b1, b2, b3);
    AddFour(b0, b1, b2, b3, b0 + b1, b0 + b1 + b2);
  }

  method OurPopcount(value: bv32) returns (result: bv32)
    ensures result as nat == CountBelow(value, 32)
  {
    var pairs := value - ((value >> 1) & 0x55555555);
    var nibbles := (pairs & 0x33333333) + ((pairs >> 2) & 0x33333333);
    var bytes := (nibbles + (nibbles >> 4)) & 0x0F0F0F0F;
    result := (bytes * 0x01010101) >> 24;
    CountFromLanes(value, pairs, nibbles, bytes, result);
  }

  /** our_popcount as an unbounded number. */
  method SlotsTaken(status: bv32) returns (n: nat)
    ensures n == CountBelow(status, 32)
  {
    var count := OurPopcount(status);
    n := count as nat;
  }

  // ----- First fit

  /** `offset` is the least clear bit. */
  ghost predicate LeastClear(status: bv32, offset: nat) {
    !BitAt(status, offset) && forall i :: 0 <= i < offset ==> BitAt(status, i)
  }

  lemma ShiftRightBit(v: bv32, k: nat)
    ensures BitAt(v >> 1, k) == BitAt(v, k + 1)
  {
    ShiftMask(v, OneShl(k));
  }

  lemma ShiftMask(v: bv32, m: bv32)
    ensures Hit(v >> 1, m) == Hit(v, m << 1)
  {
  }

  lemma OddHalves(temp: bv32)
    requires temp & 1 == 1
    ensures temp >> 1 < temp
  {
  }

  /** First fit: set bits are shifted out at the right until a clear one is met. */
  method FindEmptyPcb(status: bv32) returns (offset: nat, status': bv32)
    ensures LeastClear(status, offset)
    ensures status' == SetBit(status, offset)
  {
    var temp := status;
    offset := 0;
    while temp & 1 == 1
      invariant forall i :: 0 <= i < offset ==> BitAt(status, i)
      invariant forall i: nat :: BitAt(temp, i) == BitAt(status, i + offset)
      decreases temp
    {
      OddHalves(temp);
      assert BitAt(temp, 0);
      var half := temp >> 1;
      forall i: nat ensures BitAt(half, i) == BitAt(status, i + (offset + 1)) {
        ShiftRightBit(temp, i);
      }
      offset := offset + 1;
      temp := half;
    }
    assert !BitAt(temp, 0);
    status' := SetBit(status, offset);
  }
}
