/** The host's side of the ring protocol: which writes are safe, and what posting an entry does. */
module RingPost {
  import opened Words
  import opened RingSpec

  /** No pending entry uses slot s. */
  ghost predicate SlotDead(r: Ring, s: nat) {
    r.sh.num > 0 ==> forall i :: Pending(r, i) ==> SlotAt(r, i) != s
  }

  /** No pending entry uses data block b. */
  ghost predicate BlockDead(r: Ring, b: nat) {
    forall i :: Pending(r, i) && r.posted[i].cmd == CMD_DATA ==> r.posted[i].blk != b
  }

  function WriteSlot(r: Ring, s: nat, d: Desc): Ring
    requires s < |r.sh.slots|
  {
    r.(sh := r.sh.(slots := r.sh.slots[s := d]))
  }

  function WriteBlock(r: Ring, b: nat, bs: seq<byte>): Ring
    requires b < |r.sh.blocks|
  {
    r.(sh := r.sh.(blocks := r.sh.blocks[b := bs]))
  }

  /** The host increments `used`, which hands entry e to the EP. */
  function Publish(r: Ring, e: Entry): Ring {
    r.(sh := r.sh.(used := Wrap32(r.sh.used + 1)), posted := r.posted + [e])
  }

  lemma WriteDeadSlotKeepsInv(r: Ring, s: nat, d: Desc)
    requires Inv(r) && s < |r.sh.slots| && SlotDead(r, s)
    ensures Inv(WriteSlot(r, s, d))
  {
    forall i | Pending(r, i) ensures Intact(WriteSlot(r, s, d), i) { assert Intact(r, i); }
  }

  lemma WriteDeadBlockKeepsInv(r: Ring, b: nat, bs: seq<byte>)
    requires Inv(r) && b < |r.sh.blocks| && BlockDead(r, b)
    ensures Inv(WriteBlock(r, b, bs))
  {
    forall i | Pending(r, i) ensures Intact(WriteBlock(r, b, bs), i) { assert Intact(r, i); }
  }

  lemma PublishKeepsCounters(r: Ring, e: Entry)
    requires Counters(r) && |r.posted| - |r.trace| < r.sh.num
    ensures Counters(Publish(r, e))
  {
    WrapLinear(r.base + |r.posted|, 1);
  }

  lemma SameButUsed(r: Ring, s: Ring, i: nat)
    requires |r.sh.slots| == r.sh.num > 0 && s.sh == r.sh.(used := s.sh.used) && s.base == r.base
    ensures SlotAt(s, i) == SlotAt(r, i) && Decode(s.sh, SlotAt(s, i)) == Decode(r.sh, SlotAt(r, i))
  {
    hide SlotOf, Wrap32;
  }

  /** Publishing keeps the invariant when a slot is free and the slot at the cursor describes e. */
  lemma PublishKeepsInv(r: Ring, e: Entry)
    requires Inv(r) && |r.posted| - |r.trace| < r.sh.num
    requires Decode(r.sh, SlotAt(r, |r.posted|)) == e
    ensures Inv(Publish(r, e))
  {
    var s := Publish(r, e);
    PublishKeepsCounters(r, e);
    assert s.trace == s.posted[..|s.trace|] by { assert |r.trace| <= |r.posted|; }
    hide Counters, SlotOf, Wrap32, Replay;
    forall i | Pending(s, i) ensures Intact(s, i) {
      SameButUsed(r, s, i);
      if i < |r.posted| { assert Intact(r, i); }
      hide Decode;
    }
  }

  /** Interference before a write and after it are the same to the reader of the contract. */
  lemma InterferenceAroundSlotWrite(r: Ring, t: Ring, s: nat, d: Desc)
    requires s < |r.sh.slots| && Rely(r, t) && SlotDead(r, s)
    ensures SlotDead(t, s) && SlotDead(WriteSlot(t, s, d), s)
    ensures Rely(WriteSlot(r, s, d), WriteSlot(t, s, d))
  {
    hide SlotOf, Wrap32;
    forall i | Pending(t, i) && t.sh.num > 0 ensures SlotAt(t, i) != s {
      assert Pending(r, i) && SlotAt(t, i) == SlotAt(r, i);
    }
    forall i | Pending(WriteSlot(t, s, d), i) && t.sh.num > 0 ensures SlotAt(WriteSlot(t, s, d), i) != s {
      assert Pending(t, i) && SlotAt(WriteSlot(t, s, d), i) == SlotAt(t, i);
    }
  }

  lemma InterferenceAroundBlockWrite(r: Ring, t: Ring, b: nat, bs: seq<byte>)
    requires b < |r.sh.blocks| && Rely(r, t) && BlockDead(r, b)
    ensures BlockDead(t, b) && BlockDead(WriteBlock(t, b, bs), b)
    ensures Rely(WriteBlock(r, b, bs), WriteBlock(t, b, bs))
  {
    assert forall i :: Pending(t, i) ==> Pending(r, i);
    assert forall i :: Pending(WriteBlock(t, b, bs), i) ==> Pending(t, i);
  }

  lemma BlockWrittenBack(r: Ring, b: nat)
    requires b < |r.sh.blocks|
    ensures Rely(WriteBlock(r, b, r.sh.blocks[b]), r)
  {
    assert r.sh.blocks[b := r.sh.blocks[b]] == r.sh.blocks;
  }

  /** Only the last of two writes to a block counts. */
  lemma BlockRewritten(r: Ring, t: Ring, u: Ring, b: nat, bs: seq<byte>, cs: seq<byte>)
    requires b < |r.sh.blocks| && b < |t.sh.blocks|
    requires Rely(WriteBlock(r, b, bs), t) && Rely(WriteBlock(t, b, cs), u)
    ensures Rely(WriteBlock(r, b, cs), u)
  {
    assert r.sh.blocks[b := bs][b := cs] == r.sh.blocks[b := cs];
  }

  lemma BlockAfterWrite(r: Ring, t: Ring, b: nat, bs: seq<byte>)
    requires b < |r.sh.blocks| && Rely(WriteBlock(r, b, bs), t)
    ensures |t.sh.blocks| == |r.sh.blocks| && t.sh.maxBlk == r.sh.maxBlk && t.sh.blocks[b] == bs
  {}

  lemma InterferenceBeforePublish(r: Ring, t: Ring, e: Entry)
    requires |r.sh.slots| == r.sh.num > 0 && Rely(r, t)
    ensures SlotAt(t, |t.posted|) == SlotAt(r, |r.posted|)
    ensures Decode(t.sh, SlotAt(t, |t.posted|)) == Decode(r.sh, SlotAt(r, |r.posted|))
    ensures Rely(Publish(r, e), Publish(t, e))
  {}

  // --------------------------------------------------- no live overwrite

  /** The slot at the host cursor is free for writing exactly unless the entry 2^32 % num positions back is
      still pending and the 32-bit counter wrapped in between. */
  lemma CursorSlotDeadExactly(r: Ring)
    requires 0 < r.sh.num && |r.trace| <= |r.posted| < |r.trace| + r.sh.num
    ensures SlotDead(r, SlotAt(r, |r.posted|)) <==>
      var n, back := |r.posted|, 0x1_0000_0000 % r.sh.num;
      !(back > 0 && Pending(r, n - back) && (r.base + n - back) / 0x1_0000_0000 != (r.base + n) / 0x1_0000_0000)
  {
    var n, back := |r.posted|, 0x1_0000_0000 % r.sh.num;
    forall i | Pending(r, i)
      ensures SlotAt(r, i) == SlotAt(r, n) <==>
        (r.base + i) / 0x1_0000_0000 != (r.base + n) / 0x1_0000_0000 && n - i == back
    {
      WrappedCollision(r.base + i, r.base + n, r.sh.num);
    }
    if back > 0 && Pending(r, n - back) && (r.base + n - back) / 0x1_0000_0000 != (r.base + n) / 0x1_0000_0000 {
      assert SlotAt(r, n - back) == SlotAt(r, n);
    }
  }

  /** What the host knows between the posts of one transfer: entries from `first` on are its DATA entries, in blocks
      taken round robin, and the ring was drained when it began. */
  ghost predicate Session(r: Ring, first: nat, curAvail: u32, curBlk: u32) {
    && 0 < r.sh.num && 0 < r.sh.maxBlk == |r.sh.blocks|
    && first <= |r.trace| <= |r.posted|
    && curAvail == Wrap32(r.base + |r.posted|)
    && curBlk == Wrap32(|r.posted| - first)
    && (forall i :: first <= i < |r.posted| ==>
          r.posted[i].cmd == CMD_DATA && r.posted[i].blk == SlotOf(Wrap32(i - first), r.sh.maxBlk))
  }

  /** A 32-bit counter that selects one of `places` places for each position from p to q never selects one place for
      two positions less than `window` apart. */
  ghost predicate NoReuse(p: nat, q: nat, window: nat, places: u32)
    requires places > 0
  {
    forall i: nat, n: nat ::
      p <= i < n <= q && n < i + window ==> SlotOf(Wrap32(i), places) != SlotOf(Wrap32(n), places)
  }

  /** The counter's wrap-around does no harm between p and q: places divides 2^32, or the remainder is no smaller than
      the window, or the range is too short for it, or there is no wrap-around. */
  ghost predicate NoBadWrap(p: nat, q: nat, window: nat, places: u32)
    requires places > 0
  {
    var back := 0x1_0000_0000 % places;
    back == 0 || back >= window || q - p < back || p / 0x1_0000_0000 == q / 0x1_0000_0000
  }

  /** That is exactly when no place is reused, as long as there are enough places for the window. */
  lemma NoReuseExactly(p: nat, q: nat, window: nat, places: u32)
    requires 0 < places && window <= places && p <= q
    ensures NoReuse(p, q, window, places) <==> NoBadWrap(p, q, window, places)
  {
    var back := 0x1_0000_0000 % places;
    if NoBadWrap(p, q, window, places) {
      forall i: nat, n: nat | p <= i < n <= q && n < i + window
        ensures SlotOf(Wrap32(i), places) != SlotOf(Wrap32(n), places)
      {
        WrappedCollision(i, n, places);
      }
    } else {
      var i, n := ReusedPlace(p, q, back);
      WrappedCollision(i, n, places);
      assert SlotOf(Wrap32(i), places) == SlotOf(Wrap32(n), places);
    }
  }

  /** Two positions of the range that lie this far apart, with a wrap-around between them. */
  lemma ReusedPlace(p: nat, q: nat, back: nat) returns (i: nat, n: nat)
    requires 0 < back <= q - p && p / 0x1_0000_0000 != q / 0x1_0000_0000
    ensures p <= i < n <= q && n == i + back && i / 0x1_0000_0000 != n / 0x1_0000_0000
  {
    var wrap := q / 0x1_0000_0000 * 0x1_0000_0000;
    i := if p < wrap - back then wrap - back else p;
    n := i + back;
  }

  lemma NoBadWrapWithin(p: nat, q: nat, p': nat, q': nat, window: nat, places: u32)
    requires places > 0 && NoBadWrap(p, q, window, places) && p <= p' <= q' <= q
    ensures NoBadWrap(p', q', window, places)
  {}

  /** The blocks last for a session of this many chunks with up to num of them in flight. */
  ghost predicate BlocksLast(num: nat, maxBlk: u32, chunks: nat)
    requires maxBlk > 0
  {
    chunks > 0 ==> (num <= maxBlk || chunks <= maxBlk) && NoBadWrap(0, chunks - 1, num, maxBlk)
  }

  lemma BlocksLastForFewer(num: nat, maxBlk: u32, chunks: nat, fewer: nat)
    requires maxBlk > 0 && BlocksLast(num, maxBlk, chunks) && fewer <= chunks
    ensures BlocksLast(num, maxBlk, fewer)
  {
    if fewer > 0 { NoBadWrapWithin(0, chunks - 1, 0, fewer - 1, num, maxBlk); }
  }

  /** That is exactly when no two chunks in flight share a block. */
  lemma BlocksLastExactly(num: nat, maxBlk: u32, chunks: nat)
    requires maxBlk > 0 && chunks > 0
    ensures NoReuse(0, chunks - 1, num, maxBlk) <==> BlocksLast(num, maxBlk, chunks)
  {
    if num <= maxBlk {
      NoReuseExactly(0, chunks - 1, num, maxBlk);
      hide NoReuse, NoBadWrap;
    } else if chunks <= maxBlk {
      NoReuseExactly(0, chunks - 1, maxBlk, maxBlk);
    } else {
      UniqueResidue(0, 0, 0, maxBlk);
      UniqueResidue(maxBlk, 1, 0, maxBlk);
      assert SlotOf(Wrap32(0), maxBlk) == SlotOf(Wrap32(maxBlk), maxBlk);
    }
  }

  /** No live overwrite, descriptors: with a free slot, the slot at the host's cursor belongs to no pending entry. */
  lemma CursorSlotSafe(r: Ring, first: nat, curAvail: u32, curBlk: u32)
    requires Session(r, first, curAvail, curBlk)
    requires |r.posted| - |r.trace| < r.sh.num
    requires NoBadWrap(r.base + first, r.base + |r.posted|, r.sh.num, r.sh.num)
    ensures SlotDead(r, SlotOf(curAvail, r.sh.num))
  {
    var n := |r.posted|;
    NoReuseExactly(r.base + first, r.base + n, r.sh.num, r.sh.num);
    hide NoBadWrap, SlotOf, Wrap32;
  }

  /** No live overwrite, data: with a free slot, the next block of the session belongs to no pending entry. */
  lemma CursorBlockSafe(r: Ring, first: nat, curAvail: u32, curBlk: u32)
    requires Session(r, first, curAvail, curBlk)
    requires |r.posted| - |r.trace| < r.sh.num
    requires BlocksLast(r.sh.num, r.sh.maxBlk, |r.posted| - first + 1)
    ensures BlockDead(r, SlotOf(curBlk, r.sh.maxBlk))
  {
    var n := |r.posted| - first;
    BlocksLastExactly(r.sh.num, r.sh.maxBlk, n + 1);
    hide BlocksLast, SlotOf, Wrap32;
    forall i | Pending(r, i) ensures r.posted[i].blk != SlotOf(curBlk, r.sh.maxBlk) {
      assert SlotOf(Wrap32(i - first), r.sh.maxBlk) != SlotOf(Wrap32(n), r.sh.maxBlk);
    }
  }

  /** The block at the host cursor is free for writing exactly unless the chunk 2^32 % maxBlk back is still pending
      and the 32-bit block counter wrapped in between. */
  lemma CursorBlockDeadExactly(r: Ring, first: nat, curAvail: u32, curBlk: u32)
    requires Session(r, first, curAvail, curBlk)
    requires |r.posted| - |r.trace| < r.sh.num <= r.sh.maxBlk
    ensures BlockDead(r, SlotOf(curBlk, r.sh.maxBlk)) <==>
      var n, back := |r.posted| - first, 0x1_0000_0000 % r.sh.maxBlk;
      !(back > 0 && Pending(r, |r.posted| - back) && (n - back) / 0x1_0000_0000 != n / 0x1_0000_0000)
  {
    var n, back := |r.posted| - first, 0x1_0000_0000 % r.sh.maxBlk;
    forall i | Pending(r, i)
      ensures r.posted[i].blk == SlotOf(curBlk, r.sh.maxBlk) <==>
        (i - first) / 0x1_0000_0000 != n / 0x1_0000_0000 && |r.posted| - i == back
    {
      WrappedCollision(i - first, n, r.sh.maxBlk);
    }
    if back > 0 && Pending(r, |r.posted| - back) && (n - back) / 0x1_0000_0000 != n / 0x1_0000_0000 {
      assert r.posted[|r.posted| - back].blk == SlotOf(curBlk, r.sh.maxBlk);
    }
  }

  // -------------------------------------------------- what a post amounts to

  /** The descriptor words for an entry at a 64-bit address. */
  function DescFor(cmd: u32, size: u32, addr: u64, blk: u32): Desc {
    Desc(cmd, size, Wrap32(addr), addr / 0x1_0000_0000, blk)
  }

  lemma DescRoundTrip(addr: u64)
    ensures Wrap32(addr) + 0x1_0000_0000 * (addr / 0x1_0000_0000) == addr
  {}

  /** A block after its first bytes were replaced. */
  function Overlay(block: seq<byte>, data: seq<byte>): seq<byte> {
    data + if |data| <= |block| then block[|data|..] else []
  }

  /** Entry e can be posted: there is a slot for it, and if it carries data, its block. */
  predicate Postable(r: Ring, e: Entry) {
    && 0 < r.sh.num == |r.sh.slots|
    && (e.cmd == CMD_DATA ==> e.blk < |r.sh.blocks| && e.size == |e.payload|)
    && (e.cmd != CMD_DATA ==> e.payload == [])
  }

  /** The post of entry e at this cursor by a host that has the ring to itself. */
  function AfterPost(r: Ring, cursor: u32, e: Entry): Ring
    requires Postable(r, e)
  {
    var w := WriteSlot(r, SlotOf(cursor, r.sh.num), DescFor(e.cmd, e.size, e.addr, e.blk));
    Publish(if e.cmd == CMD_DATA then WriteBlock(w, e.blk, Overlay(w.sh.blocks[e.blk], e.payload)) else w, e)
  }

  /** What a post leaves alone, and what the slot at the cursor says afterwards. */
  lemma PostDescribes(r: Ring, cursor: u32, e: Entry)
    requires Postable(r, e)
    ensures var v := AfterPost(r, cursor, e);
      && v == r.(sh := r.sh.(used := Wrap32(r.sh.used + 1), slots := v.sh.slots, blocks := v.sh.blocks),
                 posted := r.posted + [e])
      && |v.sh.slots| == |r.sh.slots| && |v.sh.blocks| == |r.sh.blocks|
      && Decode(v.sh, SlotOf(cursor, r.sh.num)) == e
  {
    DescRoundTrip(e.addr);
    hide Wrap32, SlotOf;
  }

  /** A post keeps the invariant when a slot is free and neither the slot at the cursor nor the entry's block belongs
      to a pending entry. */
  lemma PostKeepsInv(r: Ring, e: Entry)
    requires Inv(r) && Postable(r, e) && |r.posted| - |r.trace| < r.sh.num
    requires SlotDead(r, SlotAt(r, |r.posted|)) && (e.cmd == CMD_DATA ==> BlockDead(r, e.blk))
    ensures Inv(AfterPost(r, Wrap32(r.base + |r.posted|), e))
  {
    var s, d := SlotAt(r, |r.posted|), DescFor(e.cmd, e.size, e.addr, e.blk);
    PostDescribes(r, Wrap32(r.base + |r.posted|), e);
    WriteDeadSlotKeepsInv(r, s, d);
    var w := WriteSlot(r, s, d);
    if e.cmd == CMD_DATA {
      assert BlockDead(w, e.blk) by { assert forall i :: Pending(w, i) ==> Pending(r, i); }
      WriteDeadBlockKeepsInv(w, e.blk, Overlay(w.sh.blocks[e.blk], e.payload));
    }
    hide Inv, SlotDead, BlockDead, DescFor, Overlay, SlotOf, Wrap32;
    PublishKeepsInv(if e.cmd == CMD_DATA then WriteBlock(w, e.blk, Overlay(w.sh.blocks[e.blk], e.payload)) else w, e);
  }

  /** If the EP took no step meanwhile, the ring is exactly what the host's writes made of it. */
  lemma Uninterrupted(r: Ring, x: Ring, v: Ring)
    requires Inv(r) && Inv(v) && Rely(x, v)
    requires x.sh.avail == r.sh.avail && x.sh.num == r.sh.num && x.mem == r.mem && x.trace == r.trace
    requires x.base == r.base && x.mem0 == r.mem0 && r.posted <= x.posted
    ensures |v.trace| == |r.trace| ==> v == x
  {
    hide Replay, Wrap32, Intact;
    if |v.trace| == |r.trace| {
      assert v.trace == r.trace;
    }
  }
}
