/** The 12-bit file allocation table (boot/stage2/FAT.c:24-35). */
module Fat12 {
  import opened Machine
  import opened Bits

  /** Entries from here on end a chain. */
  const END_OF_CHAIN := 0xFF8

  type Entry = e: int | 0 <= e < 0x1000

  /** Where entry c starts, in 32-bit arithmetic. */
  function ByteOffset(c: u32): nat {
    Wrap(c * 3) / 2
  }

  predicate InTable(fat: seq<u8>, c: u32) {
    ByteOffset(c) + 1 < |fat|
  }

  /** What the standard says those bits are: an odd entry is the high 12 bits of its two bytes. */
  function EntryBits(b0: u8, b1: u8, odd: bool): Entry {
    var word: int := 256 * (b1 as int) + b0;
    if odd then word / 16 else word % 0x1000
  }

  lemma EntryIs(b0: u8, b1: u8)
    ensures And(Or(b0 / 16, Shl(b1, 4)), 0x0FFF) == EntryBits(b0, b1, true)
    ensures And(Or(b0, Shl(And(b1, 0x0F), 8)), 0x0FFF) == EntryBits(b0, b1, false)
  {
    OddEntry(b0, b1);
    EvenEntry(b0, b1);
  }

  lemma OddEntry(b0: u8, b1: u8)
    ensures And(Or(b0 / 16, Shl(b1, 4)), 0x0FFF) == EntryBits(b0, b1, true)
  {
    hide And, Or, Shl;
    assert Pow2(4) == 16;
    FieldsAdd(b1, b0 / 16, 4);
    MaskFits(b0 / 16 + b1 * 16);
  }

  lemma EvenEntry(b0: u8, b1: u8)
    ensures And(Or(b0, Shl(And(b1, 0x0F), 8)), 0x0FFF) == EntryBits(b0, b1, false)
  {
    hide And, Or, Shl;
    LowNibble(b1);
    assert Pow2(8) == 256;
    FieldsAdd(b1 % 16, b0, 8);
    MaskFits(b0 + b1 % 16 * 256);
  }

  lemma FieldsAdd(high: nat, low: nat, n: nat)
    requires low < Pow2(n)
    ensures Or(low, Shl(high, n)) == low + high * Pow2(n)
  {
    hide Or, Shl;
    OrLowBits(high, 0, low, n);
    OrCommutes(low, Shl(high, n));
    OrZero(low);
    ShlIsProduct(high, n);
  }

  lemma MaskFits(x: nat)
    requires x < 0x1000
    ensures And(x, 0x0FFF) == x
  {
    hide And, Shl;
    assert Pow2(12) == 0x1000;
    AndLowBits(0, x, 12);
    ShlIsProduct(0, 12);
  }

  lemma LowNibble(b: u8)
    ensures And(b, 0x0F) == b % 16
  {
    hide And, Shl;
    assert Pow2(4) == 16;
    ShlIsProduct(b / 16, 4);
    AndLowBits(b / 16, b % 16, 4);
  }

  /** Shifts and masks of get_next_cluster on its two bytes. */
  function EntryOf(b0: u8, b1: u8, odd: bool): (next: Entry)
    ensures next == EntryBits(b0, b1, odd)
  {
    EntryIs(b0, b1);
    And(if odd then Or(b0 / 16, Shl(b1, 4)) else Or(b0, Shl(And(b1, 0x0F), 8)), 0x0FFF)
  }

  /** get_next_cluster */
  function GetNextCluster(fat: seq<u8>, c: u32): (next: Entry)
    requires InTable(fat, c)
    ensures next == EntryBits(fat[ByteOffset(c)], fat[ByteOffset(c) + 1], c % 2 == 1)
  {
    EntryOf(fat[ByteOffset(c)], fat[ByteOffset(c) + 1], c % 2 == 1)
  }

  // ----- the layout of the standard -----

  /** Two entries in three bytes, as section "FAT Data Structure" of the FAT overview lays them out. */
  function Pack(entries: seq<Entry>): (bytes: seq<u8>)
    ensures |bytes| == (3 * |entries| + 1) / 2
  {
    if entries == [] then []
    else if |entries| == 1 then [entries[0] % 256, entries[0] / 256]
    else Triple(entries[0], entries[1]) + Pack(entries[2..])
  }

  function Triple(a: Entry, b: Entry): (bytes: seq<u8>)
    ensures |bytes| == 3
  {
    [a % 256, a / 256 + 16 * (b % 16), b / 16]
  }

  lemma EntryParts(b0: u8, b1: u8)
    ensures EntryBits(b0, b1, true) == b0 / 16 + 16 * b1
    ensures EntryBits(b0, b1, false) == b0 + 256 * (b1 % 16)
  {
    hide And, Or, Shl;
    assert 256 * b1 == 0x1000 * (b1 / 16) + 256 * (b1 % 16);
  }

  lemma TripleEntries(a: Entry, b: Entry)
    ensures EntryBits(Triple(a, b)[0], Triple(a, b)[1], false) == a
    ensures EntryBits(Triple(a, b)[1], Triple(a, b)[2], true) == b
  {
    hide And, Or, Shl, EntryBits;
    var t := Triple(a, b);
    EntryParts(t[0], t[1]);
    EntryParts(t[1], t[2]);
    Middle(a / 256, b % 16);
  }

  lemma Middle(low: nat, high: nat)
    requires low < 16 && high < 16
    ensures (low + 16 * high) % 16 == low && (low + 16 * high) / 16 == high
  {
    hide *;
  }

  lemma TripleOf(b0: u8, b1: u8, b2: u8)
    ensures Triple(EntryBits(b0, b1, false), EntryBits(b1, b2, true)) == [b0, b1, b2]
  {
    hide And, Or, Shl, EntryBits;
    EntryParts(b0, b1);
    EntryParts(b1, b2);
    Nibbles(b0, b1, b2);
  }

  lemma Nibbles(b0: u8, b1: u8, b2: u8)
    ensures (b0 + 256 * (b1 % 16)) % 256 == b0 && (b0 + 256 * (b1 % 16)) / 256 == b1 % 16
    ensures (b1 / 16 + 16 * b2) % 16 == b1 / 16 && (b1 / 16 + 16 * b2) / 16 == b2
    ensures b1 % 16 + 16 * (b1 / 16) == b1
  {
    hide *;
  }

  lemma FirstOffsets()
    ensures ByteOffset(0) == 0 && ByteOffset(1) == 1
  {
  }

  /** Reading entry i of a packed table gives back what was packed, for odd and even i. */
  lemma {:induction false} PackThenRead(entries: seq<Entry>, i: nat)
    requires i < |entries| < 0x1000_0000
    ensures InTable(Pack(entries), i) && GetNextCluster(Pack(entries), i) == entries[i]
    decreases |entries|
  {
    FirstOffsets();
    hide GetNextCluster, Triple, EntryBits, ByteOffset, And, Or, Shl;
    var bytes := Pack(entries);
    if |entries| > 1 {
      TripleEntries(entries[0], entries[1]);
    } else {
      EntryParts(bytes[0], bytes[1]);
    }
    if i >= 2 {
      PackThenRead(entries[2..], i - 2);
      SameEntry(bytes, Pack(entries[2..]), i);
    }
  }

  /** Changing one entry changes at most its own two bytes, and no other entry. */
  lemma UpdateIsLocal(entries: seq<Entry>, i: nat, v: Entry, j: nat)
    requires i < |entries| < 0x1000_0000 && j < |entries|
    ensures InTable(Pack(entries[i := v]), j)
    ensures GetNextCluster(Pack(entries[i := v]), j) == if j == i then v else entries[j]
    ensures OnlyEntryDiffers(Pack(entries), Pack(entries[i := v]), i)
  {
    hide GetNextCluster, Pack;
    PackThenRead(entries[i := v], j);
    UpdateBytes(entries, i, v);
  }

  /** The two tables differ at most in the two bytes that hold entry i. */
  ghost predicate OnlyEntryDiffers(before: seq<u8>, after: seq<u8>, i: nat)
    requires |before| == |after|
  {
    forall b: nat :: b < |before| && before[b] != after[b] ==> 3 * i / 2 <= b <= 3 * i / 2 + 1
  }

  lemma {:induction false} UpdateBytes(entries: seq<Entry>, i: nat, v: Entry)
    requires i < |entries|
    ensures OnlyEntryDiffers(Pack(entries), Pack(entries[i := v]), i)
    decreases |entries|
  {
    hide Triple;
    var after := entries[i := v];
    if |entries| > 1 {
      TripleUpdate(entries[0], entries[1], i, v);
    }
    if i >= 2 {
      UpdateBytes(entries[2..], i - 2, v);
      assert after[2..] == entries[2..][i - 2 := v];
      var (x, y) := (Pack(entries[2..]), Pack(after[2..]));
      assert forall b: nat :: 3 <= b < |x| + 3 ==> Pack(entries)[b] == x[b - 3] && Pack(after)[b] == y[b - 3];
    } else if |entries| > 1 {
      assert after[2..] == entries[2..];
    }
  }

  lemma TripleUpdate(x: Entry, y: Entry, i: nat, v: Entry)
    ensures i == 0 ==> Triple(v, y)[2] == Triple(x, y)[2]
    ensures i == 1 ==> Triple(x, v)[0] == Triple(x, y)[0]
  {
  }

  lemma OffsetStep(i: nat)
    requires 2 <= i < 0x1000_0000
    ensures ByteOffset(i) == ByteOffset(i - 2) + 3 && i % 2 == (i - 2) % 2
  {
  }

  /** Three bytes further on, the same two bytes hold the entry with a number two higher. */
  lemma SameEntry(bytes: seq<u8>, rest: seq<u8>, i: nat)
    requires 2 <= i < 0x1000_0000 && |bytes| >= 3 && bytes[3..] == rest
    ensures InTable(bytes, i) <==> InTable(rest, i - 2)
    ensures InTable(rest, i - 2) ==> GetNextCluster(bytes, i) == GetNextCluster(rest, i - 2)
  {
    OffsetStep(i);
    hide GetNextCluster, EntryBits, ByteOffset, And, Or, Shl;
    var o := ByteOffset(i - 2);
    if InTable(rest, i - 2) {
      assert bytes[o + 3] == rest[o] && bytes[o + 4] == rest[o + 1];
    }
  }

  /** The first n entries of a table. */
  function ReadAll(fat: seq<u8>, n: nat): (entries: seq<Entry>)
    requires n < 0x1000_0000 && (3 * n + 1) / 2 <= |fat|
    ensures |entries| == n
  {
    seq(n, i requires 0 <= i < n => GetNextCluster(fat, i))
  }

  /** And reading a table of whole pairs and packing what was read gives back every byte. */
  lemma {:induction false} ReadThenPack(fat: seq<u8>, pairs: nat)
    requires |fat| == 3 * pairs && pairs < 0x800_0000
    ensures Pack(ReadAll(fat, 2 * pairs)) == fat
    decreases pairs
  {
    hide GetNextCluster, EntryBits, Triple, And, Or, Shl;
    if pairs > 0 {
      TripleOf(fat[0], fat[1], fat[2]);
      ReadThenPack(fat[3..], pairs - 1);
      ReadRest(fat, pairs);
      assert fat == [fat[0], fat[1], fat[2]] + fat[3..];
    }
  }

  lemma ReadRest(fat: seq<u8>, pairs: nat)
    requires |fat| == 3 * pairs && 0 < pairs < 0x800_0000
    ensures ReadAll(fat, 2 * pairs)[2..] == ReadAll(fat[3..], 2 * pairs - 2)
  {
    hide GetNextCluster, EntryBits, And, Or, Shl;
    forall i: nat | i < 2 * pairs - 2
      ensures ReadAll(fat, 2 * pairs)[2..][i] == ReadAll(fat[3..], 2 * pairs - 2)[i]
    {
      SameEntry(fat, fat[3..], i + 2);
    }
  }

  // ----- chains -----

  /** chain[i] is not the last cluster: the table leads from it to chain[i + 1]. */
  ghost predicate Leads(fat: seq<u8>, chain: seq<u32>, i: nat)
    requires i + 1 < |chain|
  {
    && InTable(fat, chain[i])
    && chain[i + 1] == GetNextCluster(fat, chain[i])
    && chain[i + 1] < END_OF_CHAIN
  }

  ghost predicate EndsAt(fat: seq<u8>, c: u32) {
    InTable(fat, c) && GetNextCluster(fat, c) >= END_OF_CHAIN
  }

  /** The clusters the loop of read_file visits in its first |chain| rounds. */
  ghost predicate IsWalk(fat: seq<u8>, start: u32, chain: seq<u32>) {
    && chain != [] && chain[0] == start
    && (forall i: nat :: i < |chain| - 1 ==> Leads(fat, chain, i))
    && InTable(fat, chain[|chain| - 1])
  }

  /** All of them: the loop stops in front of the first end mark. */
  ghost predicate IsChain(fat: seq<u8>, start: u32, chain: seq<u32>) {
    IsWalk(fat, start, chain) && EndsAt(fat, chain[|chain| - 1])
  }

  /** One step by the bytes of the table: three bytes hold two entries, and from 0xFF8 on an entry is an end mark. */
  lemma StepLaws(fat: seq<u8>, c: u32, d: u32)
    requires c < 0x5555_5555
    ensures Leads(fat, [c, d], 0) <==>
              c * 3 / 2 + 1 < |fat| && d < 0xFF8 && d == NextByBytes(fat[c * 3 / 2], fat[c * 3 / 2 + 1], c % 2 == 1)
    ensures EndsAt(fat, c) <==>
              c * 3 / 2 + 1 < |fat| && NextByBytes(fat[c * 3 / 2], fat[c * 3 / 2 + 1], c % 2 == 1) >= 0xFF8
  {
    hide And, Or, Shl, EntryBits;
    if c * 3 / 2 + 1 < |fat| {
      EntryParts(fat[c * 3 / 2], fat[c * 3 / 2 + 1]);
    }
  }

  /** An odd entry is the high half of its first byte and all of its second, an even one all and the low half. */
  function NextByBytes(first: u8, second: u8, odd: bool): int {
    if odd then first / 16 + 16 * second else first + 256 * (second % 16)
  }

  lemma ChainTail(fat: seq<u8>, start: u32, chain: seq<u32>, k: nat)
    requires IsChain(fat, start, chain) && k < |chain|
    ensures IsChain(fat, chain[k], chain[k..])
  {
    hide GetNextCluster, InTable;
    var t := chain[k..];
    forall i: nat | i < |t| - 1
      ensures Leads(fat, t, i)
    {
      assert Leads(fat, chain, k + i);
    }
  }

  /** A start cluster has one chain at most. */
  lemma {:induction false} ChainUnique(fat: seq<u8>, start: u32, a: seq<u32>, b: seq<u32>)
    requires IsChain(fat, start, a) && IsChain(fat, start, b)
    ensures a == b
    decreases |a|
  {
    hide GetNextCluster, InTable;
    if |a| > 1 { assert Leads(fat, a, 0); }
    if |b| > 1 { assert Leads(fat, b, 0); }
    if |a| > 1 && |b| > 1 {
      ChainTail(fat, start, a, 1);
      ChainTail(fat, start, b, 1);
      ChainUnique(fat, a[1], a[1..], b[1..]);
      assert a == [start] + a[1..] && b == [start] + b[1..];
    }
  }

  /** A chain that ends visits no cluster twice: the remaining clusters are its termination measure. */
  lemma ChainHasNoRepeats(fat: seq<u8>, start: u32, chain: seq<u32>, i: nat, j: nat)
    requires IsChain(fat, start, chain) && i < j < |chain|
    ensures chain[i] != chain[j]
  {
    hide GetNextCluster, InTable;
    if chain[i] == chain[j] {
      ChainTail(fat, start, chain, i);
      ChainTail(fat, start, chain, j);
      ChainUnique(fat, chain[i], chain[i..], chain[j..]);
    }
  }

  /** So it is no longer than the entries that can be linked to, and the start. */
  lemma ChainLength(fat: seq<u8>, start: u32, chain: seq<u32>)
    requires IsChain(fat, start, chain)
    ensures |chain| <= END_OF_CHAIN + 1
  {
    hide GetNextCluster, InTable;
    var tail := chain[1..];
    forall i: nat, j: nat | i < j < |tail|
      ensures tail[i] != tail[j]
    {
      ChainHasNoRepeats(fat, start, chain, i + 1, j + 1);
    }
    forall i: nat | i < |tail|
      ensures tail[i] < END_OF_CHAIN
    {
      assert Leads(fat, chain, i);
    }
    DistinctFit(tail, END_OF_CHAIN);
  }

  lemma {:induction false} DistinctFit(s: seq<u32>, n: nat)
    requires forall i: nat, j: nat :: i < j < |s| ==> s[i] != s[j]
    requires forall i: nat :: i < |s| ==> s[i] < n
    ensures |s| <= n
    decreases n
  {
    if s != [] {
      assert s[0] < n;
      if k: nat :| k < |s| && s[k] == n - 1 {
        DistinctFit(s[..k] + s[k + 1..], n - 1);
      } else {
        DistinctFit(s, n - 1);
      }
    }
  }

  // ----- which start clusters have a chain -----

  /** The cluster after n rounds of the loop, as long as it stays inside the table. */
  function Follow(fat: seq<u8>, start: u32, n: nat): Option<u32> {
    if n == 0 then Some(start)
    else
      var c := Follow(fat, start, n - 1);
      if c.Some? && InTable(fat, c.value) then Some(GetNextCluster(fat, c.value)) else None
  }

  ghost predicate EndMarkAfter(fat: seq<u8>, start: u32, n: nat) {
    Follow(fat, start, n).Some? && Follow(fat, start, n).value >= END_OF_CHAIN
  }

  /**
   * From any start cluster and in any table, the loop ends exactly when one of the first 0xFF9 rounds
   * meets an end mark; otherwise it leaves the table or has run into a cycle, in which it never ends.
   */
  lemma ChainExistsIff(fat: seq<u8>, start: u32)
    ensures (exists chain :: IsChain(fat, start, chain))
       <==> (exists n: nat :: 1 <= n <= END_OF_CHAIN + 1 && EndMarkAfter(fat, start, n))
  {
    hide GetNextCluster, InTable, EntryBits, And, Or, Shl;
    if chain :| IsChain(fat, start, chain) {
      ChainLength(fat, start, chain);
      ChainFollows(fat, start, chain, |chain| - 1);
      assert EndMarkAfter(fat, start, |chain|);
    }
    if n: nat :| 1 <= n <= END_OF_CHAIN + 1 && EndMarkAfter(fat, start, n) {
      ChainTo(fat, start, n);
    }
  }

  lemma {:induction false} ChainFollows(fat: seq<u8>, start: u32, chain: seq<u32>, k: nat)
    requires IsChain(fat, start, chain) && k < |chain|
    ensures Follow(fat, start, k) == Some(chain[k])
    decreases k
  {
    hide GetNextCluster, InTable, EntryBits, And, Or, Shl;
    if k > 0 {
      ChainFollows(fat, start, chain, k - 1);
      assert Leads(fat, chain, k - 1);
    }
  }

  lemma {:induction false} ChainTo(fat: seq<u8>, start: u32, n: nat)
    requires n >= 1 && EndMarkAfter(fat, start, n)
    ensures exists chain :: IsChain(fat, start, chain)
    decreases n
  {
    hide GetNextCluster, EntryBits, And, Or, Shl, IsChain;
    if m: nat :| 1 <= m < n && EndMarkAfter(fat, start, m) {
      ChainTo(fat, start, m);
    } else {
      FirstRounds(fat, start, n);
    }
  }

  /** The loop is still inside the table after i rounds if it is after n. */
  lemma {:induction false} FollowEarlier(fat: seq<u8>, start: u32, i: nat, n: nat)
    requires i < n && Follow(fat, start, n).Some?
    ensures Follow(fat, start, i).Some? && InTable(fat, Follow(fat, start, i).value)
    ensures Follow(fat, start, i + 1) == Some(GetNextCluster(fat, Follow(fat, start, i).value))
    decreases n
  {
    hide GetNextCluster, InTable, EntryBits, And, Or, Shl;
    if i < n - 1 { FollowEarlier(fat, start, i, n - 1); }
  }

  ghost function Rounds(fat: seq<u8>, start: u32, n: nat): (chain: seq<u32>)
    requires n > 0 ==> Follow(fat, start, n - 1).Some?
    ensures |chain| == n && forall i :: 0 <= i < n ==> Follow(fat, start, i) == Some(chain[i])
    decreases n
  {
    if n == 0 then []
    else
      if n > 1 then
        FollowEarlier(fat, start, n - 2, n - 1);
        Rounds(fat, start, n - 1) + [Follow(fat, start, n - 1).value]
      else [start]
  }

  lemma FirstRounds(fat: seq<u8>, start: u32, n: nat)
    requires n >= 1 && EndMarkAfter(fat, start, n)
    requires forall m: nat :: 1 <= m < n ==> !EndMarkAfter(fat, start, m)
    ensures exists chain :: IsChain(fat, start, chain)
  {
    hide GetNextCluster, InTable, EntryBits, And, Or, Shl, Rounds, Follow;
    FollowEarlier(fat, start, n - 1, n);
    var chain := Rounds(fat, start, n);
    FirstRound(fat, start);
    forall i: nat | i < |chain| - 1
      ensures Leads(fat, chain, i)
    {
      FollowEarlier(fat, start, i, n);
      assert !EndMarkAfter(fat, start, i + 1);
    }
    assert IsChain(fat, start, chain);
  }

  lemma FirstRound(fat: seq<u8>, start: u32)
    ensures Follow(fat, start, 0) == Some(start)
  {
  }
}
