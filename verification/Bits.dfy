/** Bytes, single-bit masks and bit counting, as the C code uses them on its bitmaps. */
module Bits {

  type byte = x: int | 0 <= x < 256

  function Pow2(n: nat): (r: nat)
    ensures r > 0
  {
    if n == 0 then 1 else 2 * Pow2(n - 1)
  }

  /** b & (1 << i) != 0 */
  predicate Bit(b: nat, i: nat) {
    if i == 0 then b % 2 == 1 else Bit(b / 2, i - 1)
  }

  /** b | (1 << i) */
  function SetBit(b: nat, i: nat): nat {
    if Bit(b, i) then b else b + Pow2(i)
  }

  /** b & ~(1 << i) */
  function ClearBit(b: nat, i: nat): (r: nat)
    ensures r <= b
  {
    if Bit(b, i) then BitAtLeast(b, i); b - Pow2(i) else b
  }

  lemma {:induction false} BitAtLeast(b: nat, i: nat)
    requires Bit(b, i)
    ensures b >= Pow2(i)
  {
    if i > 0 {
      BitAtLeast(b / 2, i - 1);
    }
  }

  lemma {:induction false} AddPow2(b: nat, i: nat, j: nat)
    requires !Bit(b, i)
    ensures Bit(b + Pow2(i), j) == (i == j || Bit(b, j))
  {
    if i > 0 {
      assert (b + Pow2(i)) / 2 == b / 2 + Pow2(i - 1);
      assert (b + Pow2(i)) % 2 == b % 2;
      if j > 0 {
        AddPow2(b / 2, i - 1, j - 1);
      }
    } else if j > 0 {
      assert (b + 1) / 2 == b / 2;
    }
  }

  lemma {:induction false} SubPow2(b: nat, i: nat)
    requires Bit(b, i)
    ensures b >= Pow2(i) && !Bit(b - Pow2(i), i)
  {
    BitAtLeast(b, i);
    if i > 0 {
      SubPow2(b / 2, i - 1);
      assert (b - Pow2(i)) / 2 == b / 2 - Pow2(i - 1);
    }
  }

  lemma SetBitAt(b: nat, i: nat, j: nat)
    ensures Bit(SetBit(b, i), j) == (i == j || Bit(b, j))
  {
    if !Bit(b, i) {
      AddPow2(b, i, j);
    }
  }

  lemma ClearBitAt(b: nat, i: nat, j: nat)
    ensures Bit(ClearBit(b, i), j) == (i != j && Bit(b, j))
  {
    if Bit(b, i) {
      SubPow2(b, i);
      AddPow2(b - Pow2(i), i, j);
    }
  }

  /** A byte stays a byte when one of its eight bits is set. */
  lemma {:induction false} SetBitRange(b: nat, i: nat, n: nat)
    requires b < Pow2(n) && i < n
    ensures SetBit(b, i) < Pow2(n)
  {
    var half: nat := b / 2;
    assert Pow2(n) == 2 * Pow2(n - 1) && b == 2 * half + b % 2 && half < Pow2(n - 1);
    if !Bit(b, i) && i > 0 {
      assert !Bit(half, i - 1) && Pow2(i) == 2 * Pow2(i - 1);
      SetBitRange(half, i - 1, n - 1);
    }
  }

  lemma Pow2Of8()
    ensures Pow2(8) == 256
  {
    assert Pow2(4) == 16;
  }

  /** b | (1 << i) on an eight-bit byte. */
  function SetBit8(b: byte, i: nat): (r: byte)
    requires i < 8
    ensures forall j: nat :: Bit(r, j) == (i == j || Bit(b, j))
  {
    Pow2Of8();
    SetBitRange(b, i, 8);
    assert forall j: nat :: Bit(SetBit(b, i), j) == (i == j || Bit(b, j)) by {
      forall j: nat { SetBitAt(b, i, j); }
    }
    SetBit(b, i)
  }

  /** b & ~(1 << i) on an eight-bit byte. */
  function ClearBit8(b: byte, i: nat): (r: byte)
    requires i < 8
    ensures forall j: nat :: Bit(r, j) == (i != j && Bit(b, j))
  {
    assert forall j: nat :: Bit(ClearBit(b, i), j) == (i != j && Bit(b, j)) by {
      forall j: nat { ClearBitAt(b, i, j); }
    }
    ClearBit(b, i)
  }

  // ---- Bitmaps stored as byte strings --------------------------------------

  /** get_bit of src/eeprom-fs.c: bitmap[bit / 8] & (1 << (bit % 8)). */
  predicate GetBit(bitmap: seq<byte>, bit: nat)
    requires bit / 8 < |bitmap|
  {
    Bit(bitmap[bit / 8], bit % 8)
  }

  /** set_bit of src/eeprom-fs.c. */
  function PutBit(bitmap: seq<byte>, bit: nat, state: bool): (r: seq<byte>)
    requires bit / 8 < |bitmap|
    ensures |r| == |bitmap|
  {
    bitmap[bit / 8 := if state then SetBit8(bitmap[bit / 8], bit % 8) else ClearBit8(bitmap[bit / 8], bit % 8)]
  }

  lemma PutBitAt(bitmap: seq<byte>, bit: nat, state: bool, j: nat)
    requires bit / 8 < |bitmap| && j / 8 < |bitmap|
    ensures GetBit(PutBit(bitmap, bit, state), j) == if j == bit then state else GetBit(bitmap, j)
  {
    if j / 8 == bit / 8 && j % 8 == bit % 8 {
      assert j == bit;
    }
  }

  /** The first n bits of a bitmap. */
  function Flags(bitmap: seq<byte>, n: nat): (r: seq<bool>)
    requires (n + 7) / 8 <= |bitmap|
    ensures |r| == n
  {
    seq(n, k requires 0 <= k < n => GetBit(bitmap, k))
  }

  lemma FlagPut(bitmap: seq<byte>, n: nat, k: nat, state: bool)
    requires (n + 7) / 8 <= |bitmap| && k < n
    ensures Flags(PutBit(bitmap, k, state), n) == Flags(bitmap, n)[k := state]
  {
    hide GetBit, PutBit;
    forall j: nat | j < n ensures GetBit(PutBit(bitmap, k, state), j) == if j == k then state else GetBit(bitmap, j) {
      PutBitAt(bitmap, k, state, j);
    }
  }

  lemma {:induction false} NoBits(i: nat)
    ensures !Bit(0, i)
  {
    if i > 0 {
      NoBits(i - 1);
    }
  }

  // ---- Population count -----------------------------------------------------

  function BitValue(b: nat, i: nat): (r: nat)
    ensures r <= 1
  {
    if Bit(b, i) then 1 else 0
  }

  /** Number of bits set among the lowest n bits of b. */
  function PopCount(b: nat, n: nat): (r: nat)
    ensures r <= n
  {
    if n == 0 then 0 else PopCount(b, n - 1) + BitValue(b, n - 1)
  }

  /** a & 0x55, a & 0x33 and a & 0x0f: the digits the masks keep. */
  function And55(a: nat): nat {
    a % 2 + 4 * (a / 4 % 2) + 16 * (a / 16 % 2) + 64 * (a / 64 % 2)
  }

  function And33(a: nat): nat {
    a % 4 + 16 * (a / 16 % 4)
  }

  function And0f(a: nat): nat {
    a % 16
  }

  /** The parallel bit count that sectors_free applies to each byte of a DNP bitfield. */
  function ParallelCount(b: byte): nat {
    var x := And55(b) + And55(b / 2);
    var y := And33(x) + And33(x / 4);
    And0f(y) + And0f(y / 16)
  }

  lemma {:induction false} PopCountShift(b: nat, n: nat)
    ensures PopCount(b, n + 1) == b % 2 + PopCount(b / 2, n)
  {
    if n > 0 {
      PopCountShift(b, n - 1);
    } else {
      assert PopCount(b, 1) == PopCount(b, 0) + BitValue(b, 0);
    }
  }

  /** Bits set in a byte, two digits at a time. */
  lemma PopCountPairs(b: byte)
    ensures PopCount(b, 8) == (b % 2 + b / 2 % 2) + (b / 4 % 2 + b / 8 % 2)
                            + (b / 16 % 2 + b / 32 % 2) + (b / 64 % 2 + b / 128 % 2)
  {
    PopCountPair(b, 6);
    PopCountPair(b / 4, 4);
    PopCountPair(b / 16, 2);
    PopCountPair(b / 64, 0);
    assert b / 4 / 4 == b / 16 && b / 16 / 4 == b / 64;
    assert b / 4 / 2 == b / 8 && b / 16 / 2 == b / 32 && b / 64 / 2 == b / 128;
  }

  lemma PopCountPair(b: nat, n: nat)
    ensures PopCount(b, n + 2) == b % 2 + b / 2 % 2 + PopCount(b / 4, n)
  {
    PopCountShift(b, n + 1);
    PopCountShift(b / 2, n);
    assert b / 2 / 2 == b / 4;
  }

  /** The parallel count is the number of bits set. */
  lemma ParallelCountIsPopCount(b: byte)
    ensures ParallelCount(b) == PopCount(b, 8)
  {
    PopCountPairs(b);
    FirstFold(b, b % 2 + b / 2 % 2, b / 4 % 2 + b / 8 % 2, b / 16 % 2 + b / 32 % 2, b / 64 % 2 + b / 128 % 2);
  }

  lemma FirstFold(b: byte, f0: nat, f1: nat, f2: nat, f3: nat)
    requires f0 == b % 2 + b / 2 % 2 && f1 == b / 4 % 2 + b / 8 % 2
    requires f2 == b / 16 % 2 + b / 32 % 2 && f3 == b / 64 % 2 + b / 128 % 2
    ensures ParallelCount(b) == f0 + f1 + f2 + f3
  {
    assert b / 2 / 4 == b / 8 && b / 2 / 16 == b / 32 && b / 2 / 64 == b / 128;
    assert And55(b) + And55(b / 2) == f0 + 4 * f1 + 16 * f2 + 64 * f3;
    SecondFold(f0, f1, f2, f3);
  }

  lemma SecondFold(f0: nat, f1: nat, f2: nat, f3: nat)
    requires f0 <= 2 && f1 <= 2 && f2 <= 2 && f3 <= 2
    ensures var x := f0 + 4 * f1 + 16 * f2 + 64 * f3;
            var y := And33(x) + And33(x / 4);
            And0f(y) + And0f(y / 16) == f0 + f1 + f2 + f3
  {
    hide And33, And0f;
    var x := f0 + 4 * f1 + 16 * f2 + 64 * f3;
    assert x == (f0 + 4 * f1) + 16 * (f2 + 4 * f3) && x / 4 == (f1 + 4 * f2) + 16 * f3;
    Keep33(f0, f1, f2, f3);
    Keep33(f1, f2, f3, 0);
    assert And33(x) == f0 + 16 * f2 && And33(x / 4) == f1 + 16 * f3;
    Keep0f(f0 + f1, f2 + f3);
  }

  /** The masks on sums of small digits. */
  lemma Keep33(f0: nat, f1: nat, f2: nat, f3: nat)
    requires f0 <= 2 && f1 <= 2 && f2 <= 2 && f3 <= 2
    ensures And33(f0 + 4 * f1 + 16 * f2 + 64 * f3) == f0 + 16 * f2
  {
    var x := f0 + 4 * f1 + 16 * f2 + 64 * f3;
    assert x == 4 * (f1 + 4 * f2 + 16 * f3) + f0;
    assert x == 16 * (f2 + 4 * f3) + (f0 + 4 * f1);
    assert x / 16 == f2 + 4 * f3;
  }

  lemma Keep0f(low: nat, high: nat)
    requires low <= 4 && high <= 4
    ensures And0f(low + 16 * high) == low && And0f((low + 16 * high) / 16) == high
  {}
}
