/** The conditions under which the ring protocol is safe are exact: what goes wrong without each of them. */
module RingLimits {
  import opened Words
  import opened RingSpec
  import opened RingPost
  import opened Images

  // ------------------------------------------------ which counts are safe

  /** At no counter value do two positions less than `window` apart select the same one of `places` places. */
  ghost predicate NeverCollide(window: nat, places: u32)
    requires places > 0
  {
    forall p: nat, q: nat :: p < q < p + window ==> SlotOf(Wrap32(p), places) != SlotOf(Wrap32(q), places)
  }

  /** There must be a place for every position in flight, and the wrap-around of the counter must be harmless; if all
      places can be in flight, their number must divide 2^32. */
  lemma NeverCollideExactly(window: nat, places: u32)
    requires places > 0
    ensures NeverCollide(window, places) <==>
      var back := 0x1_0000_0000 % places; window <= places && (back == 0 || back >= window)
    ensures window == places ==> (NeverCollide(window, places) <==> 0x1_0000_0000 % places == 0)
  {
    var back: nat := 0x1_0000_0000 % places;
    if window > places {
      UniqueResidue(0, 0, 0, places);
      UniqueResidue(places, 1, 0, places);
      var p: nat, q: nat := 0, places;
      assert SlotOf(Wrap32(p), places) == SlotOf(Wrap32(q), places);
    } else if back == 0 || back >= window {
      forall p: nat, q: nat | p < q < p + window ensures SlotOf(Wrap32(p), places) != SlotOf(Wrap32(q), places) {
        WrappedCollision(p, q, places);
      }
    } else {
      var p: nat, q: nat := 0x1_0000_0000 - 1, 0x1_0000_0000 - 1 + back;
      WrappedCollision(p, q, places);
      assert SlotOf(Wrap32(p), places) == SlotOf(Wrap32(q), places);
    }
  }

  /** A context set up on a ring that still has entries in flight aims its first post at the oldest of them, and the
      wait before the post lets it through: the first slot is free exactly when the ring is drained. */
  lemma FirstSlotDeadExactlyWhenDrained(r: Ring)
    requires Inv(r) && r.sh.num > 0
    ensures SlotDead(r, SlotOf(Wrap32(r.sh.avail - r.sh.num), r.sh.num)) <==> Drained(r)
    ensures r.sh.avail != Wrap32(r.sh.avail - r.sh.num)
  {
    RegisterTestsAreExact(r);
    assert |r.trace| <= |r.posted|;
    var c := |r.trace|;
    WrapInjective(r.base + c + r.sh.num, r.base + c);
    hide Wrap32, SlotOf, Inv;
    if !Drained(r) {
      assert Pending(r, c) && SlotAt(r, c) == SlotOf(Wrap32(r.sh.avail - r.sh.num), r.sh.num);
    }
  }

  // --------------------------------------------------------- what happens

  /** A retry of an undrained ring posts e over the oldest pending entry, full ring or not, and the EP executes e in
      its place: what the EP executed is still a prefix of what was posted exactly when the ring was drained (or e
      repeats the entry it replaces). */
  lemma RetryReplacesOldest(r: Ring, e: Entry)
    requires Inv(r) && r.sh.num < 0xffff_ffff && Postable(r, e)
    ensures var v := AfterPost(r, Wrap32(r.sh.avail - r.sh.num), e);
      && v.posted == r.posted + [e]
      && EpStep(v).trace == r.trace + [e]
      && (EpStep(v).trace <= v.posted <==> Drained(r) || r.posted[|r.trace|] == e)
  {
    RetryRegisters(r, e);
    PostDescribes(r, Wrap32(r.sh.avail - r.sh.num), e);
    PrefixExtended(r.trace, r.posted, e);
    hide Wrap32, SlotOf, Counters, AfterPost, Decode, Apply;
  }

  lemma PrefixExtended(a: seq<Entry>, b: seq<Entry>, e: Entry)
    requires a <= b
    ensures a + [e] <= b + [e] <==> |a| == |b| || b[|a|] == e
  {
    var last := (b + [e])[|a|];
    assert (b + [e])[..|a| + 1] == a + [last];
    assert (a + [last])[|a|] == last && (a + [e])[|a|] == e;
  }

  /** After the retry's post the EP sees something pending, at the position where the retry wrote. */
  lemma RetryRegisters(r: Ring, e: Entry)
    requires Inv(r) && r.sh.num < 0xffff_ffff && Postable(r, e)
    ensures EpReady(AfterPost(r, Wrap32(r.sh.avail - r.sh.num), e).sh)
  {
    hide Wrap32, SlotOf, Overlay, DescFor;
    RegisterTestsAreExact(r);
    WrapLinear(r.base + |r.posted|, 1);
    WrapInjective(r.base + |r.trace|, r.base + |r.posted| + 1);
  }

  /** A run of that kind: one post on a drained ring, a time-out, and the retry before the EP gets a turn.  The first
      attempt's entry e is never executed. */
  lemma RetryLosesEntry(r: Ring, e: Entry, f: Entry)
    requires Inv(r) && Drained(r) && r.sh.num < 0xffff_ffff && Postable(r, e) && Postable(r, f)
    ensures var u := AfterPost(r, Wrap32(r.base + |r.posted|), e);
      && Inv(u) && Postable(u, f)
      && var v := AfterPost(u, Wrap32(u.sh.avail - u.sh.num), f);
         v.posted == r.posted + [e] + [f] && EpStep(v).trace == r.trace + [f]
  {
    var u := AfterPost(r, Wrap32(r.base + |r.posted|), e);
    PostDescribes(r, Wrap32(r.base + |r.posted|), e);
    PostKeepsInv(r, e);
    RetryReplacesOldest(u, f);
    hide Wrap32, SlotOf, Inv, AfterPost, Decode;
  }

  // ------------------------------------------------------------ an idle EP

  /** The ring after a host posted the first k chunks of a stream, the EP taking no step. */
  function Sent(r: Ring, data: seq<byte>, load: u64, k: nat): (u: Ring)
    requires 0 < r.sh.num == |r.sh.slots| && 0 < r.sh.maxBlk == |r.sh.blocks| && k <= Chunks(|data|)
    ensures u.sh.num == r.sh.num && u.sh.maxBlk == r.sh.maxBlk
    ensures |u.sh.slots| == |r.sh.slots| && |u.sh.blocks| == |r.sh.blocks|
    decreases k
  {
    if k == 0 then r
    else
      AfterPost(Sent(r, data, load, k - 1), Wrap32(r.base + |r.posted| + k - 1),
                ChunkEntry(data, load, r.sh.maxBlk, k - 1))
  }

  /** v is r after the posts of es, as far as everything but slots and blocks is concerned. */
  ghost predicate HasPosted(r: Ring, v: Ring, es: seq<Entry>) {
    && v.posted == r.posted + es && v.trace == r.trace && v.mem == r.mem && v.base == r.base
    && v.sh.avail == r.sh.avail && v.sh.num == r.sh.num && v.sh.used == Wrap32(r.base + |r.posted| + |es|)
  }

  lemma OneMorePosted(r: Ring, w: Ring, es: seq<Entry>, e: Entry)
    requires HasPosted(r, w, es) && Postable(w, e)
    ensures HasPosted(r, AfterPost(w, Wrap32(r.base + |r.posted| + |es|), e), es + [e])
  {
    hide Wrap32, SlotOf, Decode;
    PostDescribes(w, Wrap32(r.base + |r.posted| + |es|), e);
    WrapLinear(r.base + |r.posted| + |es|, 1);
    assert r.posted + es + [e] == r.posted + (es + [e]);
  }

  lemma NothingPosted(r: Ring)
    requires r.sh.used == Wrap32(r.base + |r.posted|)
    ensures HasPosted(r, r, [])
  {
    assert r.posted + [] == r.posted;
  }

  lemma {:induction false} SentFrame(r: Ring, data: seq<byte>, load: u64, k: nat)
    requires 0 < r.sh.num == |r.sh.slots| && 0 < r.sh.maxBlk == |r.sh.blocks| && k <= Chunks(|data|)
    requires r.sh.used == Wrap32(r.base + |r.posted|)
    ensures HasPosted(r, Sent(r, data, load, k), DataEntries(data, load, r.sh.maxBlk, k))
    decreases k
  {
    hide HasPosted, Wrap32, Wrap64, SlotOf, AfterPost;
    if k == 0 {
      NothingPosted(r);
    } else {
      var w, e := Sent(r, data, load, k - 1), ChunkEntry(data, load, r.sh.maxBlk, k - 1);
      SentFrame(r, data, load, k - 1);
      OneMorePosted(r, w, DataEntries(data, load, r.sh.maxBlk, k - 1), e);
    }
  }

  /** On a drained ring the EP then has something to do, at the position of the first post. */
  lemma RegistersAfter(r: Ring, u: Ring, es: seq<Entry>)
    requires Inv(r) && Drained(r) && 0 < r.sh.num && HasPosted(r, u, es) && 0 < |es| < 0x1_0000_0000
    ensures EpReady(u.sh) && Wrap32(u.sh.avail - u.sh.num) == Wrap32(r.base + |r.posted|)
  {
    RegisterTestsAreExact(r);
    WrapInjective(r.base + |r.posted|, r.base + |r.posted| + |es|);
    hide Wrap32, Inv;
  }

  /** A post elsewhere keeps slot s and block 0. */
  lemma OtherPostKeeps(w: Ring, s: nat, cursor: u32, e: Entry)
    requires Postable(w, e) && s < w.sh.num && s != SlotOf(cursor, w.sh.num) && e.blk > 0 && 0 < |w.sh.blocks|
    ensures var sh := AfterPost(w, cursor, e).sh;
      && |sh.slots| == |w.sh.slots| && |sh.blocks| == |w.sh.blocks|
      && sh.slots[s] == w.sh.slots[s] && sh.blocks[0] == w.sh.blocks[0]
  {
    hide SlotOf, Wrap32, DescFor, Overlay;
  }

  /** Slot s stands for the first chunk of the stream, which begins block 0. */
  ghost predicate FirstStands(u: Ring, s: nat, data: seq<byte>, load: u64)
    requires |data| >= 512
  {
    && s < |u.sh.slots| && 0 < |u.sh.blocks|
    && u.sh.slots[s] == DescFor(CMD_DATA, 512, load, 0) && data[..512] <= u.sh.blocks[0]
  }

  lemma FirstPosted(r: Ring, data: seq<byte>, load: u64)
    requires 0 < r.sh.num == |r.sh.slots| && 0 < r.sh.maxBlk == |r.sh.blocks| && |data| >= 512
    ensures FirstStands(Sent(r, data, load, 1), SlotOf(Wrap32(r.base + |r.posted|), r.sh.num), data, load)
  {
    assert Wrap64(load + 0) == load;
    hide DescFor, SlotOf, Wrap64;
    ChunkBlock(data, load, r.sh.maxBlk, 0);
    assert Sent(r, data, load, 0) == r;
  }

  /** It does so while the other blocks are filled. */
  lemma {:induction false} FirstChunkStands(r: Ring, data: seq<byte>, load: u64, k: nat)
    requires 0 < r.sh.num == |r.sh.slots| && 0 < r.sh.maxBlk == |r.sh.blocks| && 512 * r.sh.maxBlk < |data|
    requires 0 < k <= r.sh.maxBlk < r.sh.num
    requires NoReuse(r.base + |r.posted|, r.base + |r.posted| + r.sh.maxBlk, r.sh.num, r.sh.num)
    ensures FirstStands(Sent(r, data, load, k), SlotOf(Wrap32(r.base + |r.posted|), r.sh.num), data, load)
    decreases k
  {
    var pos, s := r.base + |r.posted|, SlotOf(Wrap32(r.base + |r.posted|), r.sh.num);
    hide AfterPost, DescFor, SlotOf, Wrap32, Wrap64, FirstStands;
    if k == 1 {
      FirstPosted(r, data, load);
    } else {
      FirstChunkStands(r, data, load, k - 1);
      var w, e := Sent(r, data, load, k - 1), ChunkEntry(data, load, r.sh.maxBlk, k - 1);
      ChunkBlock(data, load, r.sh.maxBlk, k - 1);
      assert s != SlotOf(Wrap32(pos + k - 1), r.sh.num);
      hide NoReuse, ChunkEntry;
      OtherPostKeeps(w, s, Wrap32(pos + k - 1), e);
    }
  }

  /** In the first round, and on coming back to block 0. */
  lemma ChunkBlock(data: seq<byte>, load: u64, maxBlk: u32, j: nat)
    requires maxBlk > 0 && 512 * j < |data| && j <= maxBlk
    ensures var e := ChunkEntry(data, load, maxBlk, j);
      e.blk == (if j == maxBlk then 0 else j) && |e.payload| <= 512
  {
    if j == maxBlk { UniqueResidue(j, 1, 0, maxBlk); } else { UniqueResidue(j, 0, j, maxBlk); }
  }

  /** A post to another slot but the same block changes what slot s stands for. */
  lemma LastChunkReplaces(w: Ring, s: nat, cursor: u32, data: seq<byte>, load: u64, last: Entry)
    requires Postable(w, last) && last.cmd == CMD_DATA && last.blk == 0
    requires s < w.sh.num && s != SlotOf(cursor, w.sh.num) && |last.payload| <= 512 <= |data|
    requires FirstStands(w, s, data, load)
    ensures Decode(AfterPost(w, cursor, last).sh, s)
         == Entry(CMD_DATA, 512, load, 0, Overlay(data[..512], last.payload))
  {
    DescRoundTrip(load);
    var block := Overlay(w.sh.blocks[0], last.payload);
    assert block[..512] == Overlay(data[..512], last.payload);
    hide SlotOf, Wrap32, Overlay;
  }

  /** After maxBlk + 1 chunks the first slot stands for the last chunk's bytes, laid over the first's. */
  lemma FirstChunkReplaced(r: Ring, data: seq<byte>, load: u64)
    requires 0 < r.sh.num == |r.sh.slots| && 0 < r.sh.maxBlk == |r.sh.blocks| < r.sh.num
    requires 512 * r.sh.maxBlk < |data|
    requires NoReuse(r.base + |r.posted|, r.base + |r.posted| + r.sh.maxBlk, r.sh.num, r.sh.num)
    ensures Decode(Sent(r, data, load, r.sh.maxBlk + 1).sh, SlotOf(Wrap32(r.base + |r.posted|), r.sh.num))
         == Entry(CMD_DATA, 512, load, 0,
                  Overlay(data[..512], ChunkEntry(data, load, r.sh.maxBlk, r.sh.maxBlk).payload))
  {
    hide SlotOf, Wrap32, Wrap64, Overlay, Decode, FirstStands, AfterPost;
    var m, pos, s := r.sh.maxBlk, r.base + |r.posted|, SlotOf(Wrap32(r.base + |r.posted|), r.sh.num);
    var w, last := Sent(r, data, load, m), ChunkEntry(data, load, m, m);
    ChunkBlock(data, load, m, m);
    assert s != SlotOf(Wrap32(pos + m), r.sh.num);
    assert last.cmd == CMD_DATA && last.size == |last.payload|;
    hide ChunkEntry, NoReuse;
    assert Sent(r, data, load, m + 1) == AfterPost(w, Wrap32(pos + m), last);
    hide Sent;
    FirstChunkStands(r, data, load, m);
    LastChunkReplaces(w, s, Wrap32(pos + m), data, load, last);
  }

  /** Fewer blocks than descriptors: while the EP is idle, the waits let maxBlk + 1 chunks of any longer stream
      through, and the last of them overwrites the block of the first; so the EP stores the wrong bytes at the
      stream's load address. */
  lemma TooFewBlocksCorruptData(r: Ring, data: seq<byte>, load: u64)
    requires Inv(r) && Drained(r) && 0 < r.sh.maxBlk == |r.sh.blocks| < r.sh.num && 512 * r.sh.maxBlk < |data|
    requires NoBadWrap(r.base + |r.posted|, r.base + |r.posted| + r.sh.maxBlk, r.sh.num, r.sh.num)
    ensures var u, wrong := Sent(r, data, load, r.sh.maxBlk + 1),
        Overlay(data[..512], ChunkEntry(data, load, r.sh.maxBlk, r.sh.maxBlk).payload);
      && EpStep(u).trace == r.trace + [Entry(CMD_DATA, 512, load, 0, wrong)]
      && EpStep(u).mem == Store(r.mem, load, wrong)
      && (wrong != data[..512] ==> !Inv(u))
  {
    hide Sent, AfterPost, NoReuse, NoBadWrap, ChunkEntry, SlotOf, Wrap32, Overlay, DataEntries, Decode, HasPosted;
    var m, u := r.sh.maxBlk, Sent(r, data, load, r.sh.maxBlk + 1);
    var es := DataEntries(data, load, m, m + 1);
    NoReuseExactly(r.base + |r.posted|, r.base + |r.posted| + m, r.sh.num, r.sh.num);
    FirstChunkReplaced(r, data, load);
    SentFrame(r, data, load, m + 1);
    RegistersAfter(r, u, es);
    FirstOfStream(data, load, m, m + 1);
    StoredWrong(r, u, es, load, data[..512], Overlay(data[..512], ChunkEntry(data, load, m, m).payload));
    hide Inv, Replay, Store, EpStep;
  }

  /** The EP's first step when the first of the posted entries reads differently from what was posted. */
  lemma StoredWrong(r: Ring, u: Ring, es: seq<Entry>, load: u64, right: seq<byte>, wrong: seq<byte>)
    requires Drained(r) && HasPosted(r, u, es) && EpReady(u.sh) && |u.sh.slots| == u.sh.num
    requires es != [] && es[0].payload == right && Wrap32(u.sh.avail - u.sh.num) == Wrap32(r.base + |r.posted|)
    requires Decode(u.sh, SlotOf(Wrap32(r.base + |r.posted|), u.sh.num)) == Entry(CMD_DATA, 512, load, 0, wrong)
    ensures EpStep(u).trace == r.trace + [Entry(CMD_DATA, 512, load, 0, wrong)]
    ensures EpStep(u).mem == Store(r.mem, load, wrong)
    ensures wrong != right ==> !Inv(u)
  {
    hide Wrap32, SlotOf, Decode, Store, Replay, Counters;
    if Inv(u) { assert Pending(u, |r.posted|) && Intact(u, |r.posted|) && u.posted[|r.posted|] == es[0]; }
  }

  lemma {:induction false} FirstOfStream(data: seq<byte>, load: u64, maxBlk: u32, k: nat)
    requires maxBlk > 0 && 0 < k <= Chunks(|data|) && |data| >= 512
    ensures DataEntries(data, load, maxBlk, k)[0].payload == data[..512]
    decreases k
  {
    if k > 1 { FirstOfStream(data, load, maxBlk, k - 1); }
  }

  /** Three slots and a cursor at 2^32 - 1: both posts go to slot 0, the first is lost and the EP executes the
      second one twice. */
  lemma WrapLosesEntry(r: Ring, e: Entry, f: Entry)
    requires Inv(r) && Drained(r) && r.sh.num == 3 && Wrap32(r.base + |r.posted|) == 0xffff_ffff
    requires Postable(r, e) && Postable(r, f)
    ensures var u := AfterPost(r, 0xffff_ffff, e);
      && Postable(u, f)
      && var v := AfterPost(u, 0, f);
         v.posted == r.posted + [e] + [f] && EpStep(EpStep(v)).trace == r.trace + [f] + [f]
  {
    var u := AfterPost(r, 0xffff_ffff, e);
    PostDescribes(r, 0xffff_ffff, e);
    PostDescribes(u, 0, f);
    RegisterTestsAreExact(r);
    assert r.sh.used == 0xffff_ffff && r.sh.avail == 2;
    hide Inv, AfterPost;
    TwiceFromSlot0(r, AfterPost(u, 0, f), f);
  }

  /** The EP's two steps when slots 0 and 0 come up. */
  lemma TwiceFromSlot0(r: Ring, v: Ring, f: Entry)
    requires v.sh.num == 3 == |v.sh.slots| && v.sh.avail == 2 && v.sh.used == 1 && v.trace == r.trace
    requires Decode(v.sh, 0) == f
    ensures EpStep(EpStep(v)).trace == r.trace + [f] + [f]
  {
    hide Apply;
    var u := EpStep(v);
    assert u == Consume(v, f) && Decode(u.sh, 0) == f;
  }
}
