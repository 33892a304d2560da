/** The frame bitmap as a set: block b is bit b % 32 of word b / 32 (kernel/pmm.c:9-22). */
module Bitmap {
  import opened Machine
  import opened Bits

  /** w | (1 << bit) */
  function SetBit(w: u32, bit: nat): u32
    requires bit < 32
  {
    OrFits(w, bit, 1);
    Or(w, Shl(1, bit))
  }

  /** w & ~(1 << bit) */
  function ClearBit(w: u32, bit: nat): u32
    requires bit < 32
  {
    AndNot(w, Shl(1, bit))
  }

  /** (w & (1 << bit)) != 0 */
  predicate TestBit(w: u32, bit: nat)
    requires bit < 32
  {
    And(w, Shl(1, bit)) != 0
  }

  /** One byte of a word overwritten with 0xff: one step of a byte-wise fill. */
  function FillLane(w: u32, lane: nat): u32
    requires lane < 4
  {
    OrFits(w, 8 * lane, 8);
    Or(w, Shl(0xff, 8 * lane))
  }

  predicate IsUsed(words: seq<u32>, block: nat)
    requires block < 32 * |words|
  {
    TestBit(words[block / 32], block % 32)
  }

  ghost function UsedSet(words: seq<u32>): set<nat> {
    set b: nat | b < 32 * |words| && IsUsed(words, b)
  }

  lemma OrFits(w: u32, shift: nat, width: nat)
    requires shift + width <= 32
    ensures Or(w, Shl(Pow2(width) - 1, shift)) < WORD
    ensures Pow2(1) == 2 && Pow2(8) == 0x100
  {
    Pow2Of32();
    ShlFits(Pow2(width) - 1, width, shift);
    Pow2Grows(width + shift, 32);
    Or32(w, Shl(Pow2(width) - 1, shift));
  }

  lemma OneShiftedBit(j: nat, k: nat)
    ensures Bit(Shl(1, j), k) <==> j == k
  {
    ShlBit(1, j, k);
    if j < k { ZeroBits(k - j - 1); }
  }

  lemma TestIsBit(w: u32, k: nat)
    requires k < 32
    ensures TestBit(w, k) <==> Bit(w, k)
  {
    AndShlBit(w, k);
  }

  lemma SetOneBit(w: u32, j: nat, k: nat)
    requires j < 32 && k < 32
    ensures TestBit(SetBit(w, j), k) <==> TestBit(w, k) || j == k
  {
    TestIsBit(w, k);
    TestIsBit(SetBit(w, j), k);
    OrBit(w, Shl(1, j), k);
    OneShiftedBit(j, k);
  }

  lemma ClearOneBit(w: u32, j: nat, k: nat)
    requires j < 32 && k < 32
    ensures TestBit(ClearBit(w, j), k) <==> TestBit(w, k) && j != k
  {
    TestIsBit(w, k);
    TestIsBit(ClearBit(w, j), k);
    AndNotBit(w, Shl(1, j), k);
    OneShiftedBit(j, k);
  }

  lemma FillOneLane(w: u32, lane: nat, k: nat)
    requires lane < 4 && k < 32
    ensures TestBit(FillLane(w, lane), k) <==> TestBit(w, k) || k / 8 == lane
  {
    TestIsBit(w, k);
    TestIsBit(FillLane(w, lane), k);
    OrBit(w, Shl(0xff, 8 * lane), k);
    ShlBit(0xff, 8 * lane, k);
    assert Pow2(8) == 0x100;
    if 8 * lane <= k { LowOnes(8, k - 8 * lane); }
  }

  /** Setting one bit adds exactly that block, across word and bit boundaries. */
  lemma SetBlock(words: seq<u32>, block: nat)
    requires block < 32 * |words|
    ensures UsedSet(words[block / 32 := SetBit(words[block / 32], block % 32)]) == UsedSet(words) + {block}
  {
    hide SetBit, TestBit;
    var after := words[block / 32 := SetBit(words[block / 32], block % 32)];
    forall b: nat | b < 32 * |words|
      ensures IsUsed(after, b) <==> IsUsed(words, b) || b == block
    {
      SetOneBit(words[block / 32], block % 32, b % 32);
    }
  }

  /** Clearing one bit removes exactly that block. */
  lemma ClearBlock(words: seq<u32>, block: nat)
    requires block < 32 * |words|
    ensures UsedSet(words[block / 32 := ClearBit(words[block / 32], block % 32)]) == UsedSet(words) - {block}
  {
    hide ClearBit, TestBit;
    var after := words[block / 32 := ClearBit(words[block / 32], block % 32)];
    forall b: nat | b < 32 * |words|
      ensures IsUsed(after, b) <==> IsUsed(words, b) && b != block
    {
      ClearOneBit(words[block / 32], block % 32, b % 32);
    }
  }

  /** Filling byte number `byte` with 0xff adds its eight blocks. */
  lemma FillByte(words: seq<u32>, byte: nat)
    requires byte < 4 * |words|
    ensures UsedSet(words[byte / 4 := FillLane(words[byte / 4], byte % 4)])
         == UsedSet(words) + Interval(8 * byte, 8 * byte + 8)
  {
    hide FillLane, TestBit, Interval;
    var after := words[byte / 4 := FillLane(words[byte / 4], byte % 4)];
    forall b: nat | b < 32 * |words|
      ensures IsUsed(after, b) <==> IsUsed(words, b) || 8 * byte <= b < 8 * byte + 8
    {
      FillOneLane(words[byte / 4], byte % 4, b % 32);
      assert b / 32 == byte / 4 && (b % 32) / 8 == byte % 4 <==> b / 8 == byte;
    }
  }
}
