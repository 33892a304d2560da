/**
 * The heap's bytes, and how a list of blocks lies in them: struct Block of kernel/kmalloc.h is a
 * next pointer, a size, a flag byte padded to four, and a canary.
 */
module HeapMemory {
  import opened Machine
  import opened HeapModel

  const CANARY := 0x6942_0691

  /** The bytes from HEAP_START on, with room for a header that starts at HEAP_END. */
  type Bytes = m: seq<u8> | |m| == 0x1000_0010 witness seq(0x1000_0010, i => 0)

  predicate InWindow(a: nat, len: nat) {
    HEAP_START <= a && a + len <= HEAP_START + 0x1000_0010
  }

  function Byte(m: Bytes, a: nat): u8
    requires InWindow(a, 1)
  {
    m[a - HEAP_START]
  }

  function StoreByte(m: Bytes, a: nat, v: u8): Bytes
    requires InWindow(a, 1)
  {
    m[a - HEAP_START := v]
  }

  /** A little-endian word at any alignment. */
  function Load32(m: Bytes, a: nat): u32
    requires InWindow(a, 4)
  {
    Byte(m, a) + 0x100 * Byte(m, a + 1) + 0x1_0000 * Byte(m, a + 2) + 0x100_0000 * Byte(m, a + 3)
  }

  function Store32(m: Bytes, a: nat, v: u32): Bytes
    requires InWindow(a, 4)
  {
    StoreByte(StoreByte(StoreByte(StoreByte(m, a, v % 0x100), a + 1, v / 0x100 % 0x100),
                        a + 2, v / 0x1_0000 % 0x100), a + 3, v / 0x100_0000)
  }

  /** The bytes outside [lo, lo + len) are the same in both memories. */
  ghost predicate SameOutside(m: Bytes, n: Bytes, lo: nat, len: nat) {
    forall x: nat {:trigger Byte(n, x)} :: InWindow(x, 1) && !(lo <= x < lo + len) ==> Byte(n, x) == Byte(m, x)
  }

  lemma StoreThenLoad(m: Bytes, a: nat, v: u32)
    requires InWindow(a, 4)
    ensures Load32(Store32(m, a, v), a) == v && SameOutside(m, Store32(m, a, v), a, 4)
  {
    WordBytes(v);
    var n := Store32(m, a, v);
    assert Byte(n, a) == v % 0x100 && Byte(n, a + 1) == v / 0x100 % 0x100;
    assert Byte(n, a + 2) == v / 0x1_0000 % 0x100 && Byte(n, a + 3) == v / 0x100_0000;
  }

  lemma WordBytes(v: u32)
    ensures v % 0x100 + 0x100 * (v / 0x100 % 0x100) + 0x1_0000 * (v / 0x1_0000 % 0x100)
            + 0x100_0000 * (v / 0x100_0000) == v
  {
    hide *;
    assert v / 0x1_0000 == v / 0x100 / 0x100;
    assert v / 0x100_0000 == v / 0x1_0000 / 0x100;
  }

  lemma LoadKept(m: Bytes, n: Bytes, a: nat, lo: nat, len: nat)
    requires InWindow(a, 4) && SameOutside(m, n, lo, len) && (a + 4 <= lo || lo + len <= a)
    ensures Load32(n, a) == Load32(m, a)
  {
  }

  // ----- headers -----

  datatype Header = Header(next: u32, size: u32, free: bool, canary: u32)

  function HeaderAt(m: Bytes, a: nat): Header
    requires InWindow(a, META)
  {
    Header(Load32(m, a), Load32(m, a + 4), Byte(m, a + 8) != 0, Load32(m, a + 12))
  }

  function WithNext(m: Bytes, a: nat, next: u32): Bytes
    requires InWindow(a, META)
  {
    Store32(m, a, next)
  }

  function WithSize(m: Bytes, a: nat, size: u32): Bytes
    requires InWindow(a, META)
  {
    Store32(m, a + 4, size)
  }

  function WithFree(m: Bytes, a: nat, free: bool): Bytes
    requires InWindow(a, META)
  {
    StoreByte(m, a + 8, if free then 1 else 0)
  }

  function WithCanary(m: Bytes, a: nat): Bytes
    requires InWindow(a, META)
  {
    Store32(m, a + 12, CANARY)
  }

  lemma SetNext(m: Bytes, a: nat, v: u32)
    requires InWindow(a, META)
    ensures HeaderAt(WithNext(m, a, v), a) == HeaderAt(m, a).(next := v)
    ensures SameOutside(m, WithNext(m, a, v), a, META)
  {
    var n := WithNext(m, a, v);
    StoreThenLoad(m, a, v);
    LoadKept(m, n, a + 4, a, 4);
    LoadKept(m, n, a + 12, a, 4);
  }

  lemma SetSize(m: Bytes, a: nat, v: u32)
    requires InWindow(a, META)
    ensures HeaderAt(WithSize(m, a, v), a) == HeaderAt(m, a).(size := v)
    ensures SameOutside(m, WithSize(m, a, v), a, META)
  {
    var n := WithSize(m, a, v);
    StoreThenLoad(m, a + 4, v);
    LoadKept(m, n, a, a + 4, 4);
    LoadKept(m, n, a + 12, a + 4, 4);
  }

  lemma SetFree(m: Bytes, a: nat, v: bool)
    requires InWindow(a, META)
    ensures HeaderAt(WithFree(m, a, v), a) == HeaderAt(m, a).(free := v)
    ensures SameOutside(m, WithFree(m, a, v), a, META)
  {
  }

  lemma FreeAgain(m: Bytes, a: nat)
    requires InWindow(a, META) && !HeaderAt(m, a).free
    ensures WithFree(m, a, false) == m
  {
    assert Byte(m, a + 8) == 0;
  }

  lemma SetCanary(m: Bytes, a: nat)
    requires InWindow(a, META)
    ensures HeaderAt(WithCanary(m, a), a) == HeaderAt(m, a).(canary := CANARY)
    ensures SameOutside(m, WithCanary(m, a), a, META)
  {
    var n := WithCanary(m, a);
    StoreThenLoad(m, a + 12, CANARY);
    LoadKept(m, n, a, a + 12, 4);
    LoadKept(m, n, a + 4, a + 12, 4);
  }

  lemma HeaderKept(m: Bytes, n: Bytes, a: nat, lo: nat, len: nat)
    requires InWindow(a, META) && SameOutside(m, n, lo, len) && (a + META <= lo || lo + len <= a)
    ensures HeaderAt(n, a) == HeaderAt(m, a)
  {
  }

  // ----- a list of blocks in memory -----

  function NextAddr(blocks: seq<Block>, i: nat): nat
    requires i < |blocks|
  {
    if i + 1 < |blocks| then blocks[i + 1].addr else 0
  }

  /** The header that block i of the list has in memory. */
  function ListHeader(blocks: seq<Block>, i: nat): Header
    requires i < |blocks| && blocks[i].size < WORD && NextAddr(blocks, i) < WORD
  {
    Header(NextAddr(blocks, i), blocks[i].size, blocks[i].IsFree(), CANARY)
  }

  /** The header of block i is in memory, with its link, its size, its flag and its canary. */
  ghost predicate Listed(m: Bytes, blocks: seq<Block>, i: nat)
    requires i < |blocks|
  {
    InWindow(blocks[i].addr, META) && blocks[i].size < WORD && NextAddr(blocks, i) < WORD
    && HeaderAt(m, blocks[i].addr) == ListHeader(blocks, i)
  }

  ghost predicate Represents(m: Bytes, blocks: seq<Block>) {
    forall i: nat :: i < |blocks| ==> Listed(m, blocks, i)
  }

  /** A header that did not change stays listed wherever the block is in the new list. */
  lemma StaysListed(m: Bytes, n: Bytes, blocks: seq<Block>, i: nat, after: seq<Block>, j: nat)
    requires i < |blocks| && j < |after| && Listed(m, blocks, i)
    requires HeaderAt(n, blocks[i].addr) == HeaderAt(m, blocks[i].addr)
    requires after[j] == blocks[i] && NextAddr(after, j) == NextAddr(blocks, i)
    ensures Listed(n, after, j)
  {
  }
}
