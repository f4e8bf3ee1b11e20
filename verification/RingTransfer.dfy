/** Posting entries and streaming one image over the ring. */
module RingTransfer {
  import opened Words
  import opened RingSpec
  import opened RingPost
  import opened Layout
  import opened Images
  import opened RingHost

  /** Between r and u the host posted exactly es, and the EP moved on at will. */
  ghost predicate Posted(r: Ring, u: Ring, es: seq<Entry>) {
    && u.posted == r.posted + es && u.base == r.base && u.mem0 == r.mem0
    && u.sh.num == r.sh.num && u.sh.maxBlk == r.sh.maxBlk && |u.sh.blocks| == |r.sh.blocks|
    && |r.trace| <= |u.trace|
  }

  lemma PostedTwice(r: Ring, t: Ring, u: Ring, es: seq<Entry>, fs: seq<Entry>)
    requires Posted(r, t, es) && Posted(t, u, fs)
    ensures Posted(r, u, es + fs)
  {
    assert r.posted + es + fs == r.posted + (es + fs);
  }

  lemma RelyPostsNothing(r: Ring, u: Ring)
    requires Rely(r, u)
    ensures Posted(r, u, [])
  {
    assert r.posted + [] == r.posted;
  }

  /** The EP cannot change a drained ring. */
  lemma DrainedUnderRely(r: Ring, t: Ring)
    requires Inv(r) && Inv(t) && Drained(r) && Rely(r, t)
    ensures t == r
  {}

  /** A view v of the BAR within the history of r, while entry i is pending. */
  ghost predicate Sees(v: Ring, r: Ring, i: nat) {
    Inv(v) && Pending(v, i) && r.posted <= v.posted && v.base == r.base && v.sh.num == r.sh.num
  }

  /** Slot s describes e, and the block that it names starts with e's data. */
  ghost predicate Describes(sh: Shared, s: nat, e: Entry) {
    && s < |sh.slots|
    && sh.slots[s].cmd == e.cmd && sh.slots[s].size == e.size && sh.slots[s].blk == e.blk
    && sh.slots[s].lo + 0x1_0000_0000 * sh.slots[s].hi == e.addr
    && forall k :: 0 <= k < |e.payload| ==> BlockByteIs(sh, e.blk, k, e.payload[k])
  }

  ghost predicate BlockByteIs(sh: Shared, b: nat, k: nat, x: byte) {
    b < |sh.blocks| && k < |sh.blocks[b]| && sh.blocks[b][k] == x
  }

  lemma PendingReads(v: Ring, i: nat)
    requires Inv(v) && Pending(v, i)
    ensures 0 < v.sh.num && Describes(v.sh, SlotAt(v, i), v.posted[i])
  {
    hide Inv, SlotOf, Wrap32, Decode, Describes;
    IntactWhilePending(v, i);
    DecodedDescribes(v.sh, SlotAt(v, i));
  }

  lemma SeenAsPosted(v: Ring, r: Ring, i: nat)
    requires r.sh.num > 0 && i < |r.posted| && Sees(v, r, i)
    ensures Describes(v.sh, SlotAt(r, i), r.posted[i])
  {
    hide Inv, SlotOf, Wrap32, Describes;
    PendingReads(v, i);
    assert SlotAt(v, i) == SlotAt(r, i) && v.posted[i] == r.posted[i];
  }

  lemma IntactWhilePending(v: Ring, i: nat)
    requires Inv(v) && Pending(v, i)
    ensures 0 < v.sh.num == |v.sh.slots| && Decode(v.sh, SlotAt(v, i)) == v.posted[i]
  {
    assert Intact(v, i);
    hide Replay, Wrap32, SlotOf, Decode;
  }

  lemma DecodedDescribes(sh: Shared, s: nat)
    requires s < |sh.slots|
    ensures Describes(sh, s, Decode(sh, s))
  {}

  /** An EP that reads the descriptor of a pending entry word by word and its block byte by byte, each at a different
      moment while the host goes on posting, sees the entry as it was posted. */
  lemma PiecemealReadIsExact(r: Ring, i: nat, words: seq<Ring>, bytes: seq<Ring>)
    requires Inv(r) && Pending(r, i) && |words| == 5 && |bytes| == |r.posted[i].payload|
    requires forall v :: v in words || v in bytes ==> Sees(v, r, i)
    ensures var e, s := r.posted[i], SlotAt(r, i);
      && (forall v :: v in words ==> s < |v.sh.slots|)
      && words[0].sh.slots[s].cmd == e.cmd && words[1].sh.slots[s].size == e.size
      && words[2].sh.slots[s].lo + 0x1_0000_0000 * words[3].sh.slots[s].hi == e.addr
      && words[4].sh.slots[s].blk == e.blk
      && forall k :: 0 <= k < |bytes| ==> BlockByteIs(bytes[k].sh, e.blk, k, e.payload[k])
  {
    forall v | v in words || v in bytes ensures Describes(v.sh, SlotAt(r, i), r.posted[i]) {
      SeenAsPosted(v, r, i);
    }
    hide Sees, Inv, Wrap32, SlotOf, BlockByteIs;
    assert words[0] in words && words[1] in words && words[2] in words && words[3] in words && words[4] in words;
    SameAddress(words[2].sh.slots[SlotAt(r, i)], words[3].sh.slots[SlotAt(r, i)]);
    forall k | 0 <= k < |bytes| ensures BlockByteIs(bytes[k].sh, r.posted[i].blk, k, r.posted[i].payload[k]) {
      assert bytes[k] in bytes;
    }
  }

  /** The two halves of an address are determined by it. */
  lemma SameAddress(c: Desc, d: Desc)
    ensures c.lo + 0x1_0000_0000 * c.hi == d.lo + 0x1_0000_0000 * d.hi ==> c.lo == d.lo && c.hi == d.hi
  {}

  /** The steps of a post, seen together: descriptor, data, publish. */
  lemma DataPostSteps(w: Ring, t: Ring, u: Ring, cursor: u32, e: Entry)
    requires Inv(w) && Inv(u) && Postable(w, e) && e.cmd == CMD_DATA
    requires var s := SlotOf(cursor, w.sh.num);
      && Rely(WriteSlot(w, s, DescFor(e.cmd, e.size, e.addr, e.blk)), t)
      && Rely(WriteBlock(t, e.blk, Overlay(t.sh.blocks[e.blk], e.payload)), u)
    ensures var s := SlotOf(cursor, w.sh.num); s < |u.sh.slots| && Decode(u.sh, s) == e
    ensures forall v: Ring :: Rely(Publish(u, e), v) ==> Rely(AfterPost(w, cursor, e), v)
  {
    DescRoundTrip(e.addr);
    hide Intact, Replay, SlotOf, Wrap32, Counters;
  }

  /** What the EP did before the post does not matter to what is left afterwards. */
  lemma RelyAround(r: Ring, w: Ring, v: Ring, cursor: u32, e: Entry)
    requires Rely(r, w) && Postable(w, e) && Rely(AfterPost(w, cursor, e), v)
    ensures Postable(r, e) && Rely(AfterPost(r, cursor, e), v)
  {
    hide SlotOf, Wrap32, Overlay, DescFor;
  }

  lemma AvailIsRegister(b: seq<byte>)
    requires |b| >= DESC0_OFF
    ensures Parse(b).avail == Get32(b, AVAIL_OFF)
  {}

  // ---------------------------------------------- the ring in plain bytes

  /** The 20 bytes of the descriptor in slot s. */
  predicate DescriptorBytes(b: seq<byte>, s: nat, cmd: int, size: int, addr: int, blk: int) {
    && LittleEndian(b, 80 + 20 * s, cmd) && LittleEndian(b, 80 + 20 * s + 4, size)
    && LittleEndian(b, 80 + 20 * s + 8, addr % 0x1_0000_0000) && LittleEndian(b, 80 + 20 * s + 12, addr / 0x1_0000_0000)
    && LittleEndian(b, 80 + 20 * s + 16, blk)
  }

  /** The first bytes of data block k. */
  predicate BlockBytes(b: seq<byte>, k: nat, data: seq<byte>) {
    512 * (k + 1) + |data| <= |b| && b[512 * (k + 1)..512 * (k + 1) + |data|] == data
  }

  /** The word at 12 went up by one. */
  ghost predicate UsedAdvanced(b: seq<byte>, c: seq<byte>) {
    forall used: u32 :: LittleEndian(b, 12, used) ==> LittleEndian(c, 12, (used + 1) % 0x1_0000_0000)
  }

  /** Nothing but the word at 8, which is the endpoint's, may differ. */
  ghost predicate HostWroteNothing(b: seq<byte>, c: seq<byte>) {
    |b| == |c| && forall i :: 0 <= i < |b| && !(8 <= i < 12) ==> c[i] == b[i]
  }

  lemma DescriptorInBytes(b: seq<byte>, s: nat, cmd: u32, size: u32, addr: u64, blk: u32)
    requires |b| >= DESC0_OFF && s < |Parse(b).slots| && Parse(b).slots[s] == DescFor(cmd, size, addr, blk)
    ensures DescriptorBytes(b, s, cmd, size, addr, blk)
  {
    var off := DESC0_OFF + 20 * s;
    SlotInBytes(b, s);
    WordIsLittleEndian(b, off, cmd);
    WordIsLittleEndian(b, off + 4, size);
    WordIsLittleEndian(b, off + 8, Wrap32(addr));
    WordIsLittleEndian(b, off + 12, addr / 0x1_0000_0000);
    WordIsLittleEndian(b, off + 16, blk);
    hide Get32, Slots, Blocks, LittleEndian, Parse;
  }

  lemma SlotInBytes(b: seq<byte>, s: nat)
    requires |b| >= DESC0_OFF && s < |Parse(b).slots|
    ensures DESC0_OFF + 20 * s + 20 <= |b| && Parse(b).slots[s] == DescAt(b, DESC0_OFF + 20 * s)
  {
    hide Get32, Blocks;
  }

  lemma BlockInBytes(b: seq<byte>, k: nat, data: seq<byte>)
    requires |b| >= DESC0_OFF && k < |Parse(b).blocks| && |data| <= 512 && data <= Parse(b).blocks[k]
    ensures BlockBytes(b, k, data)
  {
    hide Get32, Slots;
    assert Parse(b).blocks[k] == b[512 * (k + 1)..512 * (k + 2)];
  }

  lemma UsedInBytes(b: seq<byte>, c: seq<byte>)
    requires |b| >= DESC0_OFF && |c| >= DESC0_OFF && Parse(c).used == Wrap32(Parse(b).used + 1)
    ensures UsedAdvanced(b, c)
  {
    forall used: u32 | LittleEndian(b, 12, used) ensures LittleEndian(c, 12, (used + 1) % 0x1_0000_0000) {
      WordIsLittleEndian(b, 12, used);
      WordIsLittleEndian(c, 12, Wrap32(used as int + 1));
      hide Get32, LittleEndian, Slots, Blocks;
    }
  }

  /** What a post leaves in the BAR, read off the ring that it leaves. */
  lemma PostInBytes(b: seq<byte>, c: seq<byte>, r: Ring, v: Ring, cursor: u32, e: Entry)
    requires |b| >= DESC0_OFF && |c| >= DESC0_OFF && r.sh == Parse(b) && v.sh == Parse(c)
    requires Postable(r, e) && Rely(AfterPost(r, cursor, e), v) && |e.payload| <= 512
    ensures DescriptorBytes(c, SlotOf(cursor, r.sh.num), e.cmd, e.size, e.addr, e.blk) && UsedAdvanced(b, c)
    ensures e.cmd == CMD_DATA ==> BlockBytes(c, e.blk, e.payload)
  {
    hide Get32, Slots, Blocks, Parse, SlotOf, Wrap32, DescriptorBytes, UsedAdvanced, BlockBytes;
    DescriptorInBytes(c, SlotOf(cursor, r.sh.num), e.cmd, e.size, e.addr, e.blk);
    UsedInBytes(b, c);
    if e.cmd == CMD_DATA { BlockInBytes(c, e.blk, e.payload); }
  }

  // ------------------------------------------------------------ the waits

  /** While a slot is free the wait for it passes, whatever steps the endpoint takes. */
  lemma FreeSlotIsSteady(r: Ring, b: seq<byte>, cursor: u32, k: nat)
    requires Inv(r) && |b| >= DESC0_OFF && |r.posted| - |r.trace| < r.sh.num && cursor == Wrap32(r.base + |r.posted|)
    ensures Met(Put32(b, AVAIL_OFF, EpSteps(r, k).sh.avail), AVAIL_OFF, cursor, false)
  {
    hide Get32, Put32, Wrap32, Replay, Intact, EpSteps;
    EpStepsKeepInv(r, k);
    RegisterTestsAreExact(EpSteps(r, k));
  }

  /** And it passes once the endpoint has caught up. */
  lemma FreeSlotSettles(r: Ring, b: seq<byte>, cursor: u32)
    requires 0 < r.sh.num && |b| >= DESC0_OFF && cursor == Wrap32(r.base + |r.posted|)
    ensures Met(Put32(b, AVAIL_OFF, Wrap32(r.base + |r.posted| + r.sh.num)), AVAIL_OFF, cursor, false)
  {
    hide Get32, Put32;
    WrapInjective(r.base + |r.posted| + r.sh.num, r.base + |r.posted|);
  }

  lemma BlockDeadAfterDesc(w: Ring, t: Ring, s: nat, d: Desc, b: nat)
    requires s < |w.sh.slots| && BlockDead(w, b) && Rely(WriteSlot(w, s, d), t)
    ensures BlockDead(t, b)
  {
    assert forall i :: Pending(t, i) ==> Pending(w, i);
  }

  lemma CmdPostSteps(r: Ring, w: Ring, u: Ring, cursor: u32, e: Entry)
    requires Inv(r) && Inv(u) && Postable(r, e) && e.cmd != CMD_DATA
    requires Rely(r, w) && Rely(WriteSlot(w, SlotOf(cursor, r.sh.num), DescFor(e.cmd, e.size, e.addr, e.blk)), u)
    ensures var s := SlotOf(cursor, r.sh.num); s < |u.sh.slots| && Decode(u.sh, s) == e
    ensures forall v: Ring :: Rely(Publish(u, e), v) ==> Rely(AfterPost(r, cursor, e), v)
  {
    DescRoundTrip(e.addr);
    hide Intact, Replay, SlotOf, Wrap32, Counters;
  }

  /** What the host posted, and what the ring is if the EP took no step meanwhile. */
  lemma PostsEntry(r: Ring, v: Ring, cursor: u32, e: Entry)
    requires Inv(r) && Inv(v) && Postable(r, e) && Rely(AfterPost(r, cursor, e), v)
    ensures Posted(r, v, [e])
    ensures |v.trace| == |r.trace| ==> v == AfterPost(r, cursor, e)
  {
    PostDescribes(r, cursor, e);
    Uninterrupted(r, AfterPost(r, cursor, e), v);
    hide Inv, SlotOf, Wrap32, AfterPost, Decode;
  }

  /** Interference keeps a session, and a free slot free. */
  lemma SessionUnderRely(r: Ring, t: Ring, first: nat, curAvail: u32, curBlk: u32)
    requires Inv(t) && Session(r, first, curAvail, curBlk) && Rely(r, t)
    ensures Session(t, first, curAvail, curBlk) && |t.sh.slots| == t.sh.num
  {}

  /** The session after one more DATA entry in the round-robin block. */
  lemma SessionGrows(r: Ring, v: Ring, first: nat, curAvail: u32, curBlk: u32, e: Entry)
    requires Inv(v) && Session(r, first, curAvail, curBlk) && Posted(r, v, [e])
    requires e.cmd == CMD_DATA && e.blk == SlotOf(curBlk, r.sh.maxBlk)
    ensures Session(v, first, Wrap32(curAvail + 1), Wrap32(curBlk + 1))
  {
    assert |v.trace| <= |v.posted|;
    hide Wrap32, SlotOf, Inv;
    WrapLinear(r.base + |r.posted|, 1);
    WrapLinear(|r.posted| - first, 1);
  }

  /** From the start of the session to this post the slot counter's wrap-around does no harm. */
  ghost predicate SlotRoom(r: Ring, first: nat) {
    && first <= |r.posted|
    && (r.sh.num > 0 ==> NoBadWrap(r.base + first, r.base + |r.posted|, r.sh.num, r.sh.num))
  }

  /** And the blocks last for one more chunk. */
  ghost predicate BlockRoom(r: Ring, first: nat) {
    && first <= |r.posted|
    && (r.sh.maxBlk > 0 ==> BlocksLast(r.sh.num, r.sh.maxBlk, |r.posted| - first + 1))
  }

  /** The test with which a context is set up: neither count is zero, and one block more than there are, counted in
      32 bits, fits the map. */
  predicate CanStart(sh: Shared, mapSize: nat) {
    sh.num > 0 && sh.maxBlk > 0 && 512 * ((sh.maxBlk + 1) % 0x1_0000_0000) <= mapSize
  }

  lemma StartTest(sh: Shared, mapSize: nat)
    ensures CanStart(sh, mapSize) <==> sh.num != 0 && sh.maxBlk != 0 && Wrap32(sh.maxBlk + 1) * 512 <= mapSize
  {}

  lemma SameStart(r: Ring, t: Ring, mapSize: nat)
    requires Rely(r, t)
    ensures CanStart(t.sh, mapSize) == CanStart(r.sh, mapSize)
  {}

  lemma RegistersOf(b: seq<byte>)
    requires |b| >= DESC0_OFF
    ensures Parse(b).num == Get32(b, NUM_OFF) && Parse(b).maxBlk == Get32(b, MAX_BLK_OFF)
    ensures Parse(b).avail == Get32(b, AVAIL_OFF)
  {}

  lemma InitInBytes(b: seq<byte>, num: u32, maxBlk: u32, avail: u32)
    requires |b| >= DESC0_OFF && num == Get32(b, NUM_OFF) && maxBlk == Get32(b, MAX_BLK_OFF)
    requires avail == Get32(b, AVAIL_OFF)
    ensures LittleEndian(b, 16, num) && LittleEndian(b, 20, maxBlk)
    ensures LittleEndian(b, 8, (Wrap32(avail - num) + num) % 0x1_0000_0000)
  {
    WordIsLittleEndian(b, 16, num);
    WordIsLittleEndian(b, 20, maxBlk);
    WordIsLittleEndian(b, 8, avail);
    CursorPlusNum(avail, num);
    hide Get32, LittleEndian, Wrap32;
  }

  lemma CursorPlusNum(avail: u32, num: u32)
    ensures (Wrap32(avail - num) + num) % 0x1_0000_0000 == avail
  {
    var a: int, n: int := avail, num;
    if a >= n { WrapSmall(a - n); } else { assert Wrap32(a - n) == a - n + 0x1_0000_0000; }
  }

  /** The wait before a post: the slot is free when it passes, and it can pass. */
  lemma SlotIsFree(w: Ring, b: seq<byte>, cursor: u32)
    requires Inv(w) && 0 < w.sh.num && |b| >= DESC0_OFF && w.sh == Parse(b) && cursor == Wrap32(w.base + |w.posted|)
    requires Met(b, AVAIL_OFF, cursor, false)
    ensures |w.posted| - |w.trace| < w.sh.num
  {
    hide Get32, Slots, Blocks, Inv, Wrap32;
    AvailIsRegister(b);
    WaitSucceedsExactlyWhenSlotFree(w);
  }

  lemma WaitCanPass(r: Ring, b: seq<byte>, cursor: u32)
    requires Inv(r) && 0 < r.sh.num && |b| >= DESC0_OFF && cursor == Wrap32(r.base + |r.posted|)
    ensures |r.posted| - |r.trace| < r.sh.num ==>
      forall k: nat :: Met(Put32(b, AVAIL_OFF, EpSteps(r, k).sh.avail), AVAIL_OFF, cursor, false)
    ensures Met(Put32(b, AVAIL_OFF, Wrap32(r.base + |r.posted| + r.sh.num)), AVAIL_OFF, cursor, false)
  {
    FreeSlotSettles(r, b, cursor);
    hide Inv, Met, EpSteps, Put32, Wrap32;
    if |r.posted| - |r.trace| < r.sh.num {
      forall k: nat ensures Met(Put32(b, AVAIL_OFF, EpSteps(r, k).sh.avail), AVAIL_OFF, cursor, false) {
        assert |r.sh.slots| == r.sh.num by { SlotsOfInv(r); }
        FreeSlotIsSteady(r, b, cursor, k);
      }
    }
  }

  lemma SlotsOfInv(r: Ring)
    requires Inv(r)
    ensures |r.sh.slots| == r.sh.num
  {}

  /** What the context that Init sets up knows. */
  lemma InitSync(b: seq<byte>, r: Ring, mapSize: nat)
    requires |b| >= DESC0_OFF && mapSize <= |b| && r.sh == Parse(b) && Inv(r)
    requires CanStart(r.sh, mapSize)
    ensures Wrap32(r.sh.avail - r.sh.num) == r.sh.used <==> Drained(r)
    ensures Drained(r) && MapTestReliable(r.sh.maxBlk, mapSize) ==>
      Session(r, |r.posted|, Wrap32(r.sh.avail - r.sh.num), 0)
  {
    ResyncExactlyWhenDrained(r);
    WrapSmall(0);
    hide Get32, Slots;
  }

  /** struct pcie_ring_ctx. */
  class RingCtx {
    var num: u32
    var maxBlk: u32
    var curAvail: u32
    var curBlk: u32
    ghost var first: nat

    /** The context describes a session on this BAR. */
    ghost predicate Live(bar: Bar)
      reads this, bar, bar.io
    {
      && bar.Valid()
      && num == bar.View().sh.num && maxBlk == bar.View().sh.maxBlk
      && Session(bar.View(), first, curAvail, curBlk)
    }

    constructor () {
      num, maxBlk, curAvail, curBlk := 0, 0, 0, 0;
    }

    /** pcie_ring_ctx_init.  The cursor agrees with `used` exactly when the ring is drained at the end, and then host
        and ring are in step; neither that nor the reliability of the map-size test is checked. */
    method Init(bar: Bar, mapSize: nat) returns (ret: Errno)
      requires bar.Valid() && mapSize <= bar.io.Length
      modifies this, bar`up, bar`slack, bar`mem, bar`trace, bar.io
      ensures bar.Valid() && Rely(old(bar.View()), bar.View())
      ensures ret == OK || ret == EINVAL
      ensures ret == OK <==> CanStart(bar.View().sh, mapSize)
      ensures ret == OK ==> num == bar.View().sh.num && maxBlk == bar.View().sh.maxBlk && curBlk == 0
      ensures ret == OK ==>
        && LittleEndian(bar.io[..], 16, num) && LittleEndian(bar.io[..], 20, maxBlk)
        && LittleEndian(bar.io[..], 8, (curAvail + num) % 0x1_0000_0000)
      ensures ret == OK ==> (curAvail == bar.View().sh.used <==> Drained(bar.View()))
      ensures ret == OK && Drained(bar.View()) && MapTestReliable(maxBlk, mapSize) ==>
        Live(bar) && first == |bar.posted|
    {
      hide Inv, Get32, Put32, Slots, Blocks, Wrap32, Counters, Session, MapTestReliable, LittleEndian, CanStart, Parse;
      var n := bar.Peek32(NUM_OFF);
      RegistersOf(bar.io[..]);
      var blocks := bar.Peek32(MAX_BLK_OFF);
      SameStart(old(bar.View()), bar.View(), mapSize);
      StartTest(bar.View().sh, mapSize);
      RegistersOf(bar.io[..]);
      if n == 0 || blocks == 0 {
        return EINVAL;
      }
      if Wrap32(blocks as int + 1) * 512 > mapSize {
        return EINVAL;
      }
      ghost var t := bar.View();
      num, maxBlk := n, blocks;
      var avail := bar.Peek32(AVAIL_OFF);
      curAvail := Wrap32(avail as int - n as int);
      curBlk := 0;
      first := |bar.posted|;
      SameStart(t, bar.View(), mapSize);
      RegistersOf(bar.io[..]);
      InitSync(bar.io[..], bar.View(), mapSize);
      InitInBytes(bar.io[..], num, maxBlk, avail);
      return OK;
    }

    /** Descriptor, data and `used` of a DATA post, into a slot and a block that no pending entry uses. */
    method WriteData(bar: Bar, chunk: array<byte>, csz: u32, epAddr: u64)
      requires bar.Valid() && num == bar.View().sh.num > 0
      requires maxBlk == bar.View().sh.maxBlk == |bar.View().sh.blocks| > 0
      requires |bar.posted| - |bar.trace| < num && curAvail == Wrap32(bar.base + |bar.posted|)
      requires SlotDead(bar.View(), SlotOf(curAvail, num)) && BlockDead(bar.View(), SlotOf(curBlk, maxBlk))
      requires chunk != bar.io && csz <= chunk.Length && csz <= BLOCK_SIZE
      modifies bar`up, bar`slack, bar`mem, bar`trace, bar`posted, bar.io
      ensures bar.Valid()
      ensures var e := Entry(CMD_DATA, csz, epAddr, SlotOf(curBlk, maxBlk), chunk[..csz]);
        Postable(old(bar.View()), e) && Rely(AfterPost(old(bar.View()), curAvail, e), bar.View())
    {
      hide Get32, Slots, Blocks, Parse, Inv, Decode, Wrap32, SlotDead, BlockDead, DescFor, AfterPost, Overlay;
      ghost var w := bar.View();
      SlotsOfInv(w);
      ghost var s, b := SlotOf(curAvail, num), SlotOf(curBlk, maxBlk);
      ghost var e := Entry(CMD_DATA, csz, epAddr, b, chunk[..csz]);
      var desc := DescOff(curAvail, num);
      var d := DescFor(CMD_DATA, csz, epAddr, SlotOf(curBlk, maxBlk));
      bar.WriteDesc(desc, s, d);
      ghost var t := bar.View();
      BlockDeadAfterDesc(w, t, s, d, b);

      WrapSmall(b + 1);
      var dst := BlkOff(SlotOf(curBlk, maxBlk));
      ghost var block := bar.CopyToIo(dst, b, chunk, csz);
      DataPostSteps(w, t, bar.View(), curAvail, e);
      bar.PublishUsed(e);
    }

    /** pcie_ring_post_data.  With interference, the result is the host's own writes and what the EP did around them;
        without, it is the host's writes alone.  It waits for a free slot, and only for that. */
    method PostData(bar: Bar, chunk: array<byte>, csz: u32, epAddr: u64, patience: nat) returns (ret: Errno)
      requires Live(bar) && SlotRoom(bar.View(), first) && BlockRoom(bar.View(), first)
      requires chunk != bar.io && csz <= chunk.Length && csz <= BLOCK_SIZE
      modifies this`curAvail, this`curBlk, bar`up, bar`slack, bar`mem, bar`trace, bar`posted, bar.io
      ensures bar.Valid() && chunk[..] == old(chunk[..])
      ensures ret == OK || ret == ETIMEDOUT
      ensures ret == OK ==> Live(bar) && curBlk == Wrap32(old(curBlk) + 1) && curAvail == Wrap32(old(curAvail) + 1)
      ensures ret == OK ==>
        var e := Entry(CMD_DATA, csz, epAddr, SlotOf(old(curBlk), maxBlk), chunk[..csz]);
        && Posted(old(bar.View()), bar.View(), [e])
        && Postable(old(bar.View()), e)
        && (|bar.trace| == |old(bar.trace)| ==> bar.View() == AfterPost(old(bar.View()), old(curAvail), e))
      ensures ret == OK ==>
        && 0 < num && 0 < maxBlk
        && DescriptorBytes(bar.io[..], old(curAvail) % num, 1, csz, epAddr, old(curBlk) % maxBlk)
        && BlockBytes(bar.io[..], old(curBlk) % maxBlk, chunk[..csz])
        && UsedAdvanced(old(bar.io[..]), bar.io[..])
      ensures ret != OK ==> Posted(old(bar.View()), bar.View(), []) && HostWroteNothing(old(bar.io[..]), bar.io[..])
      ensures patience > 0 && |old(bar.posted)| - |old(bar.trace)| < num ==> ret == OK
      ensures bar.Prompt(patience) ==> ret == OK
    {
      hide Get32, Put32, Slots, Blocks, Parse, Inv, Decode, Wrap32, NoBadWrap, BlocksLast, SlotDead, BlockDead, DescFor;
      hide AfterPost, Overlay, Met, DescriptorBytes, UsedAdvanced, BlockBytes;
      ghost var r, before := bar.View(), bar.io[..];
      SessionUnderRely(r, r, first, curAvail, curBlk);
      WaitCanPass(r, before, curAvail);
      ret := bar.WaitU32(AVAIL_OFF, curAvail, false, patience);
      ghost var w := bar.View();
      RelyPostsNothing(r, w);
      if ret != OK {
        return;
      }
      SessionUnderRely(r, w, first, curAvail, curBlk);
      SlotIsFree(w, bar.io[..], curAvail);
      CursorSlotSafe(w, first, curAvail, curBlk);
      CursorBlockSafe(w, first, curAvail, curBlk);

      ghost var e := Entry(CMD_DATA, csz, epAddr, SlotOf(curBlk, maxBlk), chunk[..csz]);
      WriteData(bar, chunk, csz, epAddr);
      RelyAround(r, w, bar.View(), curAvail, e);
      curBlk := Wrap32(curBlk as int + 1);
      PostsEntry(r, bar.View(), curAvail, e);
      PostInBytes(before, bar.io[..], r, bar.View(), curAvail, e);
      SessionGrows(r, bar.View(), first, curAvail, old(curBlk), e);
      curAvail := Wrap32(curAvail as int + 1);
    }

    /** pcie_ring_post_cmd; the block counter does not move, so the session ends here. */
    method PostCmd(bar: Bar, cmd: u32, size: u32, addr: u64, patience: nat) returns (ret: Errno)
      requires Live(bar) && SlotRoom(bar.View(), first) && cmd != CMD_DATA
      modifies this`curAvail, bar`up, bar`slack, bar`mem, bar`trace, bar`posted, bar.io
      ensures bar.Valid()
      ensures ret == OK || ret == ETIMEDOUT
      ensures ret == OK ==>
        var e := Entry(cmd, size, addr, 0, []);
        && Posted(old(bar.View()), bar.View(), [e])
        && Postable(old(bar.View()), e) && curAvail == Wrap32(old(curAvail) + 1)
        && (|bar.trace| == |old(bar.trace)| ==> bar.View() == AfterPost(old(bar.View()), old(curAvail), e))
      ensures ret == OK ==>
        && 0 < num
        && DescriptorBytes(bar.io[..], old(curAvail) % num, cmd, size, addr, 0)
        && UsedAdvanced(old(bar.io[..]), bar.io[..])
      ensures ret != OK ==> Posted(old(bar.View()), bar.View(), []) && HostWroteNothing(old(bar.io[..]), bar.io[..])
      ensures patience > 0 && |old(bar.posted)| - |old(bar.trace)| < num ==> ret == OK
      ensures bar.Prompt(patience) ==> ret == OK
    {
      hide Get32, Put32, Slots, Blocks, Parse, Inv, Decode, Wrap32, NoBadWrap, SlotDead, BlockDead, DescFor, AfterPost;
      hide Met, DescriptorBytes, UsedAdvanced;
      ghost var r, before := bar.View(), bar.io[..];
      SessionUnderRely(r, r, first, curAvail, curBlk);
      WaitCanPass(r, before, curAvail);
      ret := bar.WaitU32(AVAIL_OFF, curAvail, false, patience);
      ghost var w := bar.View();
      RelyPostsNothing(r, w);
      if ret != OK {
        return;
      }
      SessionUnderRely(r, w, first, curAvail, curBlk);
      SlotIsFree(w, bar.io[..], curAvail);
      CursorSlotSafe(w, first, curAvail, curBlk);

      ghost var s, e := SlotOf(curAvail, num), Entry(cmd, size, addr, 0, []);
      var desc := DescOff(curAvail, num);
      var d := DescFor(cmd, size, addr, 0);
      bar.WriteDesc(desc, s, d);
      CmdPostSteps(r, w, bar.View(), curAvail, e);

      bar.PublishUsed(e);
      PostsEntry(r, bar.View(), curAvail, e);
      PostInBytes(before, bar.io[..], r, bar.View(), curAvail, e);
      curAvail := Wrap32(curAvail as int + 1);
    }
  }

  // ------------------------------------------------------------- one image

  /** struct amba_pci_fw_image_desc. */
  datatype ImageDesc = ImageDesc(kind: u32, offset: u64, length: u64)

  /** The bytes of the user's blob that a descriptor names. */
  function ImageBytes(user: seq<byte>, img: ImageDesc): (b: image)
    requires img.offset + img.length <= |user|
    ensures |b| == img.length
  {
    user[img.offset..img.offset + img.length]
  }

  /** The chunk buffer for stream position pos: image bytes, then zeros.  faults: access to user memory may fail. */
  method FillChunk(chunk: array<byte>, user: seq<byte>, img: ImageDesc, pos: nat, csz: nat, faults: bool)
    returns (ret: Errno)
    requires img.offset + img.length <= |user|
    requires csz <= chunk.Length && pos + csz <= Total(img.length)
    modifies chunk
    ensures ret == OK || (ret == EFAULT && faults)
    ensures ret == OK ==> chunk[..csz] == Streamed(ImageBytes(user, img))[pos..pos + csz]
  {
    var nfile := 0;
    if pos >= img.length {
      forall i | 0 <= i < csz { chunk[i] := 0; }
    } else {
      nfile := if csz < img.length - pos then csz else img.length - pos;
      var fault: bool := *;
      if faults && fault {
        return EFAULT;
      }
      forall i | 0 <= i < nfile { chunk[i] := user[img.offset + pos + i]; }
      if nfile < csz {
        forall i | nfile <= i < csz { chunk[i] := 0; }
      }
    }
    ghost var data := Streamed(ImageBytes(user, img));
    assert forall i :: 0 <= i < csz ==> chunk[i] == data[pos + i];
    assert chunk[..csz] == data[pos..pos + csz];
    return OK;
  }

  /** Both counters have room for a session of this many chunks and its tail command that begins at position at. */
  ghost predicate RoomAt(num: u32, maxBlk: u32, at: nat, chunks: nat) {
    && (num > 0 ==> NoBadWrap(at, at + chunks, num, num))
    && (maxBlk > 0 ==> BlocksLast(num, maxBlk, chunks))
  }

  ghost predicate Room(r: Ring, chunks: nat) { RoomAt(r.sh.num, r.sh.maxBlk, r.base + |r.posted|, chunks) }

  lemma RoomForChunk(r: Ring, t: Ring, es: seq<Entry>, chunks: nat)
    requires Posted(r, t, es) && Room(r, chunks) && |es| <= chunks
    ensures SlotRoom(t, |r.posted|)
    ensures |es| < chunks ==> BlockRoom(t, |r.posted|)
  {
    if |es| < chunks && r.sh.maxBlk > 0 { BlocksLastForFewer(r.sh.num, r.sh.maxBlk, chunks, |es| + 1); }
    hide BlocksLast;
  }

  /** The entry that PostData publishes for chunk k is the expected one. */
  lemma ChunkIsExpected(data: seq<byte>, load: u64, maxBlk: u32, k: nat, curBlk: u32, csz: u32, payload: seq<byte>)
    requires maxBlk > 0 && 512 * k < |data| && curBlk == Wrap32(k)
    requires csz == ChunkSize(512 * k, |data|) && payload == data[512 * k..512 * k + csz]
    ensures k < Chunks(|data|)
    ensures DataEntries(data, load, maxBlk, k + 1) == DataEntries(data, load, maxBlk, k)
         + [Entry(CMD_DATA, csz, Wrap64(load + 512 * k), SlotOf(curBlk, maxBlk), payload)]
  {}

  lemma {:induction false} DataEntriesPrefix(data: seq<byte>, load: u64, maxBlk: u32, k: nat, n: nat)
    requires maxBlk > 0 && k <= n <= Chunks(|data|)
    ensures DataEntries(data, load, maxBlk, n)[..k] == DataEntries(data, load, maxBlk, k)
    decreases n
  {
    if k < n { DataEntriesPrefix(data, load, maxBlk, k, n - 1); }
  }

  lemma DataPrefixOfImage(kind: u32, img: image, maxBlk: u32, k: nat)
    requires maxBlk > 0 && k <= Chunks(Total(|img|))
    ensures ImageEntries(kind, img, maxBlk)[..k] == DataEntries(Streamed(img), LoadAddr(kind), maxBlk, k)
    ensures k == Chunks(Total(|img|)) ==>
      ImageEntries(kind, img, maxBlk) == ImageEntries(kind, img, maxBlk)[..k] + [TailEntry(kind, |img|)]
    ensures ImageEntries(kind, img, maxBlk)[..k] + [] == ImageEntries(kind, img, maxBlk)[..k]
  {
    DataEntriesPrefix(Streamed(img), LoadAddr(kind), maxBlk, k, Chunks(Total(|img|)));
  }

  /** Since a drained state r the host posted es: whatever happened, the EP executed a prefix of es, and memory is what
      that prefix makes of it; once the ring is drained again the prefix is all of es. */
  lemma PrefixExecuted(r: Ring, u: Ring, es: seq<Entry>)
    requires Inv(r) && Inv(u) && Drained(r) && Posted(r, u, es)
    ensures r.trace <= u.trace && |u.trace| <= |r.trace| + |es|
    ensures var done := es[..|u.trace| - |r.trace|]; u.trace == r.trace + done && u.mem == Replay(r.mem, done)
    ensures Drained(u) ==> u.trace == r.trace + es && u.mem == Replay(r.mem, es)
  {
    var done := es[..|u.trace| - |r.trace|];
    assert r.posted[..|r.trace|] == r.posted;
    assert u.trace == r.trace + done;
    ReplayConcat(r.mem0, r.trace, done);
    if Drained(u) { assert done == es; }
    hide Replay, Intact, Counters;
  }

  /** The loop invariant of the chunk loop: k chunks of img are posted in a live session that began at r. */
  ghost predicate Streaming(r: Ring, bar: Bar, ring: RingCtx, kind: u32, img: image, k: nat)
    reads bar, bar.io, ring
  {
    && ring.Live(bar) && ring.maxBlk == r.sh.maxBlk > 0
    && ring.first == |r.posted| && ring.curBlk == Wrap32(k)
    && k <= Chunks(Total(|img|))
    && Posted(r, bar.View(), DataEntries(Streamed(img), LoadAddr(kind), r.sh.maxBlk, k))
  }

  /** Which results are possible when. */
  predicate Explained(ret: Errno, canStart: bool, prompt: bool, faults: bool) {
    match ret
    case OK => canStart
    case EINVAL => !canStart
    case ETIMEDOUT => canStart && !prompt
    case ENOMEM => faults
    case EFAULT => canStart && faults
    case _ => false
  }

  /** The body of the chunk loop. */
  method SendChunk(bar: Bar, ring: RingCtx, chunk: array<byte>, user: seq<byte>, img: ImageDesc, pos: nat, csz: u32,
                   patience: nat, faults: bool, ghost r: Ring, ghost k: nat)
    returns (ret: Errno)
    requires img.offset + img.length <= |user|
    requires Streaming(r, bar, ring, img.kind, ImageBytes(user, img), k)
    requires pos == 512 * k < Total(img.length) && csz == ChunkSize(pos, Total(img.length))
    requires Room(r, Chunks(Total(img.length)))
    requires chunk != bar.io && chunk.Length == 512
    modifies chunk, ring`curAvail, ring`curBlk, bar`up, bar`slack, bar`mem, bar`trace, bar`posted, bar.io
    ensures bar.Valid()
    ensures ret == OK ==> Streaming(r, bar, ring, img.kind, ImageBytes(user, img), k + 1)
    ensures ret == OK || (ret == EFAULT && faults) || (ret == ETIMEDOUT && !bar.Prompt(patience))
    ensures ret != OK ==>
      Posted(r, bar.View(), DataEntries(Streamed(ImageBytes(user, img)), LoadAddr(img.kind), r.sh.maxBlk, k))
  {
    hide Get32, Slots, Blocks, Parse, Inv, Wrap32, Wrap64, Session, Posted, NoBadWrap, BlocksLast;
    hide Room, SlotRoom, BlockRoom;
    hide DataEntries, Streamed, DescriptorBytes, BlockBytes, UsedAdvanced, HostWroteNothing;
    ghost var data, load := Streamed(ImageBytes(user, img)), LoadAddr(img.kind);
    ghost var t, es := bar.View(), DataEntries(data, load, r.sh.maxBlk, k);
    RoomForChunk(r, t, es, Chunks(Total(img.length)));
    var addr := Wrap64(LoadAddr(img.kind) as int + pos);
    ret := FillChunk(chunk, user, img, pos, csz, faults);
    if ret != OK {
      return;
    }
    ret := ring.PostData(bar, chunk, csz, addr, patience);
    if ret != OK {
      PostedTwice(r, t, bar.View(), es, []);
      assert es + [] == es;
      return;
    }
    ghost var e := Entry(CMD_DATA, csz, addr, SlotOf(Wrap32(k), r.sh.maxBlk), chunk[..csz]);
    PostedTwice(r, t, bar.View(), es, [e]);
    ChunkIsExpected(data, load, r.sh.maxBlk, k, Wrap32(k), csz, chunk[..csz]);
    WrapLinear(k, 1);
  }

  /** The chunk loop. */
  method SendChunks(bar: Bar, ring: RingCtx, chunk: array<byte>, user: seq<byte>, img: ImageDesc,
                    patience: nat, faults: bool, ghost r: Ring)
    returns (ret: Errno, ghost k: nat)
    requires img.offset + img.length <= |user|
    requires Streaming(r, bar, ring, img.kind, ImageBytes(user, img), 0)
    requires Room(r, Chunks(Total(img.length)))
    requires chunk != bar.io && chunk.Length == 512
    modifies chunk, ring`curAvail, ring`curBlk, bar`up, bar`slack, bar`mem, bar`trace, bar`posted, bar.io
    ensures bar.Valid() && k <= Chunks(Total(img.length))
    ensures Posted(r, bar.View(), DataEntries(Streamed(ImageBytes(user, img)), LoadAddr(img.kind), r.sh.maxBlk, k))
    ensures ret == OK ==> k == Chunks(Total(img.length)) && Streaming(r, bar, ring, img.kind, ImageBytes(user, img), k)
    ensures ret == OK || (ret == EFAULT && faults) || (ret == ETIMEDOUT && !bar.Prompt(patience))
  {
    hide Inv, Wrap32, Session, Posted, Room, DataEntries, Streamed, Parse;
    k := 0;
    var pos, total := 0, Total(img.length);
    ret := OK;
    while pos < total
      invariant ret == OK && Streaming(r, bar, ring, img.kind, ImageBytes(user, img), k)
      invariant pos == if 512 * k < total then 512 * k else total
      invariant pos == total ==> k == Chunks(total)
      decreases total - pos
    {
      var csz := ChunkSize(pos, total);
      ret := SendChunk(bar, ring, chunk, user, img, pos, csz, patience, faults, r, k);
      if ret != OK {
        return;
      }
      pos := pos + csz;
      k := k + 1;
    }
  }

  /** The end of a transfer: the command, and the poll. */
  method SendTail(bar: Bar, ring: RingCtx, img: ImageDesc, loadAddr: u64, patience: nat,
                  ghost r: Ring, ghost bytes: image, ghost k: nat)
    returns (ret: Errno, ghost sent: nat)
    requires Streaming(r, bar, ring, img.kind, bytes, k) && k == Chunks(Total(img.length)) && |bytes| == img.length
    requires loadAddr == LoadAddr(img.kind) && Room(r, Chunks(Total(img.length)))
    modifies ring`curAvail, bar`up, bar`slack, bar`mem, bar`trace, bar`posted, bar.io
    ensures bar.Valid()
    ensures var es := ImageEntries(img.kind, bytes, r.sh.maxBlk);
      sent <= |es| && Posted(r, bar.View(), es[..sent]) && (ret == OK ==> sent == |es| && Posted(r, bar.View(), es))
    ensures ret == OK ==> 0 < bar.View().sh.num && 0 < bar.View().sh.maxBlk && Drained(bar.View())
    ensures ret == OK || (ret == ETIMEDOUT && !bar.Prompt(patience))
  {
    hide Get32, Slots, Blocks, Parse, Inv, Wrap32, Session, Posted, NoBadWrap, BlocksLast, Room, SlotRoom, BlockRoom;
    hide DataEntries, ImageEntries, Streamed, DescriptorBytes, UsedAdvanced, HostWroteNothing, PollPasses;
    ghost var es, t := ImageEntries(img.kind, bytes, r.sh.maxBlk), bar.View();
    DataPrefixOfImage(img.kind, bytes, r.sh.maxBlk, k);
    SessionHasSlots(t, ring.first, ring.curAvail, ring.curBlk);
    SameCounts(r, t, DataEntries(Streamed(bytes), LoadAddr(img.kind), r.sh.maxBlk, k));
    sent := k;
    var cmd, tailSize := SetCommand(img.kind), if img.kind == ROOTFS then Wrap32(img.length) else 0;
    RoomForChunk(r, t, es[..k], Chunks(Total(img.length)));
    ret := ring.PostCmd(bar, cmd, tailSize, loadAddr, patience);
    ghost var u := bar.View();
    if ret != OK {
      PostedTwice(r, t, u, es[..k], []);
      return;
    }
    PostedTwice(r, t, u, es[..k], [TailEntry(img.kind, img.length)]);
    sent := k + 1;
    assert es[..sent] == es && es + [] == es;
    SameCounts(r, u, es);

    ret := bar.XferPoll(patience);
    RelyPostsNothing(u, bar.View());
    PostedTwice(r, u, bar.View(), es, []);
    SameCounts(r, bar.View(), es);
  }

  lemma SessionHasSlots(r: Ring, first: nat, curAvail: u32, curBlk: u32)
    requires Session(r, first, curAvail, curBlk)
    ensures 0 < r.sh.num && 0 < r.sh.maxBlk
  {}

  lemma SameCounts(r: Ring, u: Ring, es: seq<Entry>)
    requires Posted(r, u, es)
    ensures u.sh.num == r.sh.num && u.sh.maxBlk == r.sh.maxBlk
  {}

  /** pcie_ring_xfer_user.  On success, under every interleaving, the EP executed exactly the entries of this image,
      the ring is drained again, and EP memory is the old memory with the padded image stored at its load address;
      on failure a prefix of those entries was posted.  It succeeds when the ring can be started, the EP keeps up with
      the waits, and allocation and user memory do not fail; each error has one of these causes. */
  method XferUser(bar: Bar, mapSize: nat, user: seq<byte>, img: ImageDesc, patience: nat, faults: bool)
    returns (ret: Errno, ghost sent: nat)
    requires bar.Valid() && Drained(bar.View()) && mapSize <= bar.io.Length
    requires MapTestReliable(bar.View().sh.maxBlk, mapSize)
    requires img.offset + img.length <= |user|
    requires Room(bar.View(), Chunks(Total(img.length)))
    modifies bar`up, bar`slack, bar`mem, bar`trace, bar`posted, bar.io
    ensures bar.Valid()
    ensures var es := ImageStream(img.kind, ImageBytes(user, img), old(bar.View()).sh.maxBlk);
      && sent <= |es| && Posted(old(bar.View()), bar.View(), es[..sent])
      && (ret == OK ==> sent == |es| && bar.trace == old(bar.trace) + es)
    ensures ret == OK ==> 0 < bar.View().sh.num && 0 < bar.View().sh.maxBlk && Drained(bar.View())
    ensures ret == OK ==> bar.mem == Store(old(bar.mem), LoadAddr(img.kind), Streamed(ImageBytes(user, img)))
    ensures Explained(ret, CanStart(old(bar.View()).sh, mapSize), bar.Prompt(patience), faults)
  {
    hide Get32, Slots, Blocks, Parse, Inv, Wrap32, Wrap64, Session, Posted, NoBadWrap, BlocksLast;
    hide Room, SlotRoom, BlockRoom;
    hide DataEntries, ImageEntries, Streamed, Replay, Store, LittleEndian;
    hide DescriptorBytes, BlockBytes, UsedAdvanced, HostWroteNothing, PollPasses;
    ghost var r := bar.View();
    ghost var bytes := ImageBytes(user, img);
    ghost var es := ImageStream(img.kind, bytes, r.sh.maxBlk);
    RelyPostsNothing(r, r);
    sent := 0;
    assert es[..0] == [];

    var loadAddr := LoadAddr(img.kind);
    var gotMemory: bool := *;
    if faults && !gotMemory {
      return ENOMEM, 0;
    }
    var chunk := new byte[512];
    var total := Total(img.length);
    var ring := new RingCtx();
    ret := ring.Init(bar, mapSize);
    DrainedUnderRely(r, bar.View());
    if ret != OK {
      return;
    }

    ghost var k;
    WrapSmall(0);
    ret, k := SendChunks(bar, ring, chunk, user, img, patience, faults, r);
    sent := k;
    DataPrefixOfImage(img.kind, bytes, r.sh.maxBlk, k);
    if ret != OK {
      return;
    }
    ret, sent := SendTail(bar, ring, img, loadAddr, patience, r, bytes, k);
    if ret == OK {
      PrefixExecuted(r, bar.View(), es);
      ReplayImage(r.mem, img.kind, bytes, r.sh.maxBlk);
    }
  }
}
