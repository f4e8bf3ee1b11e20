/** The byte layout of the mapped BAR: header registers, 20-byte descriptors from offset 80, 512-byte blocks from
    offset 512. */
module Layout {
  import opened Words
  import opened RingSpec

  const MAGIC_OFF: nat := 0
  const STATE_OFF: nat := 4
  const AVAIL_OFF: nat := 8
  const USED_OFF: nat := 12
  const NUM_OFF: nat := 16
  const MAX_BLK_OFF: nat := 20
  const DESC0_OFF: nat := 80
  const BLOCK_SIZE: nat := 512

  /** Offset of the descriptor that counter value c selects. */
  function DescOff(c: u32, num: u32): nat
    requires num > 0
  {
    DESC0_OFF + SlotOf(c, num) * 20
  }

  /** Offset of data block blk; the increment is done in 32 bits. */
  function BlkOff(blk: u32): nat { Wrap32(blk + 1) * BLOCK_SIZE }

  /** The five words at byte offset off. */
  function DescAt(b: seq<byte>, off: nat): Desc
    requires off + 20 <= |b|
  {
    Desc(Get32(b, off), Get32(b, off + 4), Get32(b, off + 8), Get32(b, off + 12), Get32(b, off + 16))
  }

  function Slots(b: seq<byte>, num: u32): (ds: seq<Desc>)
    ensures DESC0_OFF + 20 * num <= |b| ==>
      |ds| == num && forall s :: 0 <= s < num ==> ds[s] == DescAt(b, DESC0_OFF + 20 * s)
  {
    if DESC0_OFF + 20 * num <= |b|
    then seq(num, s requires 0 <= s < num => DescAt(b, DESC0_OFF + 20 * s))
    else []
  }

  function Blocks(b: seq<byte>, maxBlk: u32): (bs: seq<seq<byte>>)
    ensures BLOCK_SIZE * (maxBlk + 1) <= |b| ==>
      |bs| == maxBlk && forall k :: 0 <= k < maxBlk ==> bs[k] == b[BLOCK_SIZE * (k + 1)..BLOCK_SIZE * (k + 2)]
  {
    if BLOCK_SIZE * (maxBlk + 1) <= |b|
    then seq(maxBlk, k requires 0 <= k < maxBlk => b[BLOCK_SIZE * (k + 1)..BLOCK_SIZE * (k + 2)])
    else []
  }

  /** The ring that the bytes of the BAR represent. */
  function Parse(b: seq<byte>): Shared
    requires |b| >= DESC0_OFF
  {
    var num, maxBlk := Get32(b, NUM_OFF), Get32(b, MAX_BLK_OFF);
    Shared(Get32(b, AVAIL_OFF), Get32(b, USED_OFF), num, maxBlk, Slots(b, num), Blocks(b, maxBlk))
  }

  /** Descriptors end before the first data block. */
  predicate SlotsFit(b: seq<byte>) {
    |b| >= BLOCK_SIZE && Get32(b, NUM_OFF) <= 21
  }

  function SetWord(d: Desc, j: nat, v: u32): Desc
    requires j < 5
  {
    match j
    case 0 => d.(cmd := v)
    case 1 => d.(size := v)
    case 2 => d.(lo := v)
    case 3 => d.(hi := v)
    case 4 => d.(blk := v)
  }

  // ---------------------------------------- every write touches one field

  /** Two BARs that agree outside [lo, hi). */
  ghost predicate SameOutside(b: seq<byte>, c: seq<byte>, lo: nat, hi: nat) {
    && |b| == |c|
    && forall i :: 0 <= i < |b| && !(lo <= i < hi) ==> c[i] == b[i]
  }

  lemma SlotsUnchanged(b: seq<byte>, c: seq<byte>, num: u32, lo: nat, hi: nat)
    requires SameOutside(b, c, lo, hi) && (hi <= DESC0_OFF || DESC0_OFF + 20 * num <= lo)
    ensures Slots(c, num) == Slots(b, num)
  {
    if DESC0_OFF + 20 * num <= |b| {
      forall s | 0 <= s < num ensures DescAt(c, DESC0_OFF + 20 * s) == DescAt(b, DESC0_OFF + 20 * s) {}
    }
  }

  lemma BlocksUnchanged(b: seq<byte>, c: seq<byte>, maxBlk: u32, lo: nat, hi: nat)
    requires SameOutside(b, c, lo, hi) && hi <= BLOCK_SIZE
    ensures Blocks(c, maxBlk) == Blocks(b, maxBlk)
  {
    if BLOCK_SIZE * (maxBlk + 1) <= |b| {
      forall k | 0 <= k < maxBlk ensures Blocks(c, maxBlk)[k] == Blocks(b, maxBlk)[k] {}
    }
  }

  /** Writing `used` or `avail` changes that register and nothing else of the ring. */
  lemma RegisterWrite(b: seq<byte>, v: u32)
    requires |b| >= DESC0_OFF
    ensures Parse(Put32(b, USED_OFF, v)) == Parse(b).(used := v)
    ensures Parse(Put32(b, AVAIL_OFF, v)) == Parse(b).(avail := v)
  {
    SlotsUnchanged(b, Put32(b, USED_OFF, v), Get32(b, NUM_OFF), 12, 16);
    BlocksUnchanged(b, Put32(b, USED_OFF, v), Get32(b, MAX_BLK_OFF), 12, 16);
    SlotsUnchanged(b, Put32(b, AVAIL_OFF, v), Get32(b, NUM_OFF), 8, 12);
    BlocksUnchanged(b, Put32(b, AVAIL_OFF, v), Get32(b, MAX_BLK_OFF), 8, 12);
  }

  /** Writing word j of slot s changes that word and nothing else of the ring. */
  lemma DescWordWrite(b: seq<byte>, s: nat, j: nat, v: u32)
    requires SlotsFit(b) && s < Get32(b, NUM_OFF) && j < 5
    ensures var sh := Parse(b);
      Parse(Put32(b, DESC0_OFF + 20 * s + 4 * j, v)) == sh.(slots := sh.slots[s := SetWord(sh.slots[s], j, v)])
  {
    var lo := DESC0_OFF + 20 * s + 4 * j;
    BlocksUnchanged(b, Put32(b, lo, v), Get32(b, MAX_BLK_OFF), lo, lo + 4);
    SlotsWrite(b, Get32(b, NUM_OFF), s, j, v);
    hide Slots, Blocks, Get32, SetWord;
  }

  lemma SlotsWrite(b: seq<byte>, num: u32, s: nat, j: nat, v: u32)
    requires DESC0_OFF + 20 * num <= |b| && s < num && j < 5
    ensures Slots(Put32(b, DESC0_OFF + 20 * s + 4 * j, v), num)
         == Slots(b, num)[s := SetWord(Slots(b, num)[s], j, v)]
  {
    hide Slots;
    var c := Put32(b, DESC0_OFF + 20 * s + 4 * j, v);
    forall t | 0 <= t < num ensures Slots(c, num)[t] == Slots(b, num)[s := SetWord(Slots(b, num)[s], j, v)][t] {
      OneSlotWritten(b, s, j, v, t);
      hide Get32, SetWord, DescAt;
    }
  }

  lemma OneSlotWritten(b: seq<byte>, s: nat, j: nat, v: u32, t: nat)
    requires DESC0_OFF + 20 * s + 20 <= |b| && DESC0_OFF + 20 * t + 20 <= |b| && j < 5
    ensures var d := DescAt(b, DESC0_OFF + 20 * t);
      DescAt(Put32(b, DESC0_OFF + 20 * s + 4 * j, v), DESC0_OFF + 20 * t) == if t == s then SetWord(d, j, v) else d
  {
    hide Get32, SetWord, DescAt;
    var lo := DESC0_OFF + 20 * s + 4 * j;
    if t == s {
      DescAtSame(b, DESC0_OFF + 20 * s, j, v);
    } else {
      DescAtOther(b, Put32(b, lo, v), DESC0_OFF + 20 * t, lo, lo + 4);
    }
  }

  lemma DescAtSame(b: seq<byte>, off: nat, j: nat, v: u32)
    requires off + 20 <= |b| && j < 5
    ensures DescAt(Put32(b, off + 4 * j, v), off) == SetWord(DescAt(b, off), j, v)
  {}

  lemma DescAtOther(b: seq<byte>, c: seq<byte>, off: nat, lo: nat, hi: nat)
    requires SameOutside(b, c, lo, hi) && off + 20 <= |b| && (off + 20 <= lo || hi <= off)
    ensures DescAt(c, off) == DescAt(b, off)
  {}

  lemma BlocksMeanMapped(b: seq<byte>)
    requires |b| >= DESC0_OFF
    ensures |Parse(b).blocks| == Parse(b).maxBlk > 0 ==>
      && BLOCK_SIZE * (Parse(b).maxBlk + 1) <= |b|
      && forall k :: 0 <= k < Parse(b).maxBlk ==> |Parse(b).blocks[k]| == BLOCK_SIZE
  {}

  /** Writing byte k of block n changes that byte and nothing else of the ring. */
  lemma BlockByteWrite(b: seq<byte>, n: u32, k: nat, x: byte)
    requires SlotsFit(b) && n < Get32(b, MAX_BLK_OFF) && BLOCK_SIZE * (Get32(b, MAX_BLK_OFF) + 1) <= |b|
    requires k < BLOCK_SIZE
    ensures var sh := Parse(b);
      Parse(SetByte(b, BLOCK_SIZE * (n + 1) + k, x)) == sh.(blocks := sh.blocks[n := SetByte(sh.blocks[n], k, x)])
  {
    var at := BLOCK_SIZE * (n + 1) + k;
    SlotsUnchanged(b, SetByte(b, at, x), Get32(b, NUM_OFF), at, at + 1);
    BlocksWrite(b, Get32(b, MAX_BLK_OFF), n, k, x);
    hide Slots, Blocks;
  }

  lemma BlocksWrite(b: seq<byte>, maxBlk: u32, n: u32, k: nat, x: byte)
    requires BLOCK_SIZE * (maxBlk + 1) <= |b| && n < maxBlk && k < BLOCK_SIZE
    ensures Blocks(SetByte(b, BLOCK_SIZE * (n + 1) + k, x), maxBlk)
         == Blocks(b, maxBlk)[n := SetByte(Blocks(b, maxBlk)[n], k, x)]
  {
    var c := SetByte(b, BLOCK_SIZE * (n + 1) + k, x);
    forall m | 0 <= m < maxBlk
      ensures Blocks(c, maxBlk)[m] == if m == n then SetByte(Blocks(b, maxBlk)[m], k, x) else Blocks(b, maxBlk)[m]
    {}
  }

  // ------------------------------------------------------------- exactness

  /** Writing v to word j of slot s leaves every data block alone. */
  ghost predicate WriteKeepsBlocks(b: seq<byte>, s: nat, j: nat, v: u32)
    requires |b| >= DESC0_OFF && DESC0_OFF + 20 * s + 4 * j + 4 <= |b|
  {
    Parse(Put32(b, DESC0_OFF + 20 * s + 4 * j, v)).blocks == Parse(b).blocks
  }

  /** Descriptor writes never touch a data block exactly when num <= 21. */
  lemma DescriptorsClearOfBlocksExactly(b: seq<byte>, num: u32, maxBlk: u32)
    requires |b| >= DESC0_OFF + 20 * num && num == Get32(b, NUM_OFF)
    requires 0 < maxBlk == Get32(b, MAX_BLK_OFF) && BLOCK_SIZE * (maxBlk + 1) <= |b|
    ensures (forall s: nat, j: nat, v: u32 :: s < num && j < 5 ==> WriteKeepsBlocks(b, s, j, v)) <==> num <= 21
  {
    if num <= 21 {
      forall s: nat, j: nat, v: u32 | s < num && j < 5 ensures WriteKeepsBlocks(b, s, j, v) {
        DescWordWrite(b, s, j, v);
      }
    } else {
      Slot21HitsBlock0(b, num, maxBlk);
    }
  }

  lemma Slot21HitsBlock0(b: seq<byte>, num: u32, maxBlk: u32)
    requires |b| >= DESC0_OFF + 20 * num && num == Get32(b, NUM_OFF) > 21
    requires 0 < maxBlk == Get32(b, MAX_BLK_OFF) && BLOCK_SIZE * (maxBlk + 1) <= |b|
    ensures exists v: u32 :: !WriteKeepsBlocks(b, 21, 3, v)
  {
    var v: u32 := if b[512] == 0 then 1 else 0;
    var c := Put32(b, 512, v);
    assert c[512] != b[512];
    assert Get32(c, MAX_BLK_OFF) == maxBlk;
    assert Blocks(b, maxBlk)[0][0] == b[512] && Blocks(c, maxBlk)[0][0] == c[512];
    assert !WriteKeepsBlocks(b, 21, 3, v);
  }

  /** The map-size test of pcie_ring_ctx_init can be relied on: the block count's successor does not wrap, or the map
      is so large that it does not matter. */
  predicate MapTestReliable(maxBlk: u32, mapSize: nat) {
    maxBlk != 0xffff_ffff || mapSize >= 0x200_0000_0000
  }

  /** That is exactly when the maps it admits hold every block. */
  lemma MapTestSufficesExactly(maxBlk: u32, mapSize: nat)
    requires maxBlk > 0 && Wrap32(maxBlk + 1) * BLOCK_SIZE <= mapSize
    ensures (forall blk: u32 :: blk < maxBlk ==> BlkOff(blk) + BLOCK_SIZE <= mapSize) <==>
      MapTestReliable(maxBlk, mapSize)
  {
    assert BlkOff(maxBlk - 1) == maxBlk * BLOCK_SIZE;
  }
}
