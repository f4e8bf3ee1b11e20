/** A whole transfer attempt on values: the host posts its entries one after the other as the waits allow, and the
    endpoint takes its steps in between, in any order.  The attempt begins on whatever an earlier one left behind. */
module RingRetry {
  import opened Words
  import opened RingSpec
  import opened RingPost
  import opened Images
  import opened RingTransfer

  /** The ring, and how many entries of this attempt have been posted. */
  datatype Run = Run(ring: Ring, sent: nat)

  predicate AllPostable(r: Ring, es: seq<Entry>) {
    0 < r.sh.num == |r.sh.slots| && forall e :: e in es ==> Postable(r, e)
  }

  /** One turn: the host posts the next entry unless the wait holds it back, or the EP takes a step.  start is the
      position of the host's cursor when the attempt began. */
  function Turn(a: Run, start: nat, es: seq<Entry>, host: bool): (b: Run)
    requires AllPostable(a.ring, es)
    ensures b.ring.sh.num == a.ring.sh.num && b.ring.sh.maxBlk == a.ring.sh.maxBlk
    ensures |b.ring.sh.slots| == |a.ring.sh.slots| && |b.ring.sh.blocks| == |a.ring.sh.blocks|
  {
    if !host then a.(ring := EpStep(a.ring))
    else if a.sent < |es| && a.ring.sh.avail != Wrap32(start + a.sent) then
      assert es[a.sent] in es;
      Run(AfterPost(a.ring, Wrap32(start + a.sent), es[a.sent]), a.sent + 1)
    else a
  }

  /** The attempt after these turns; its cursor starts at avail - num, the oldest entry that is still pending. */
  ghost function Execute(r: Ring, es: seq<Entry>, turns: seq<bool>): (a: Run)
    requires AllPostable(r, es)
    ensures AllPostable(a.ring, es)
    ensures a.ring.sh.num == r.sh.num && |a.ring.sh.blocks| == |r.sh.blocks| && a.ring.sh.maxBlk == r.sh.maxBlk
    decreases |turns|
  {
    if turns == [] then Run(r, 0)
    else
      var a := Execute(r, es, turns[..|turns| - 1]);
      var b := Turn(a, r.base + |r.trace|, es, turns[|turns| - 1]);
      assert forall e :: e in es ==> Postable(a.ring, e) && Postable(b.ring, e);
      b
  }

  lemma ExecuteOneMore(r: Ring, es: seq<Entry>, turns: seq<bool>)
    requires AllPostable(r, es) && turns != []
    ensures var a := Execute(r, es, turns[..|turns| - 1]);
      Execute(r, es, turns) == Turn(a, r.base + |r.trace|, es, turns[|turns| - 1])
  {
    hide AllPostable, Turn;
  }

  // ------------------------------------------------------------- counters

  /** What every turn keeps, drained or not: the registers are the truncated counters, the host is no more than num
      entries ahead of the EP, and the EP never ahead of `used`. */
  ghost predicate Counted(r: Ring, es: seq<Entry>, a: Run) {
    && a.sent <= |es| && a.ring.posted == r.posted + es[..a.sent]
    && a.ring.base == r.base && a.ring.mem0 == r.mem0 && a.ring.sh.num == r.sh.num
    && a.ring.sh.used == Wrap32(r.base + |a.ring.posted|)
    && a.ring.sh.avail == Wrap32(r.base + |a.ring.trace| + r.sh.num)
    && r.trace <= a.ring.trace && |a.ring.trace| <= |a.ring.posted|
    && |r.trace| + a.sent <= |a.ring.trace| + r.sh.num
  }

  lemma EpTurnCounted(r: Ring, es: seq<Entry>, a: Run)
    requires Counters(r) && 0 < r.sh.num < 0x8000_0000 && |a.ring.sh.slots| == r.sh.num && Counted(r, es, a)
    ensures Counted(r, es, Run(EpStep(a.ring), a.sent))
  {
    assert |a.ring.posted| == |r.posted| + a.sent;
    hide Wrap32, SlotOf, Decode, Apply, EpStep;
    LagStep(a.ring);
  }

  lemma HostTurnCounted(r: Ring, es: seq<Entry>, a: Run)
    requires Counters(r) && 0 < r.sh.num < 0x8000_0000 && AllPostable(a.ring, es) && Counted(r, es, a)
    ensures Counted(r, es, Turn(a, r.base + |r.trace|, es, true))
  {
    hide SlotOf, Decode, AfterPost;
    if a.sent < |es| && a.ring.sh.avail != Wrap32(r.base + |r.trace| + a.sent) {
      var e := es[a.sent];
      assert e in es;
      WrapInjective(r.base + |a.ring.trace| + r.sh.num, r.base + |r.trace| + a.sent);
      WrapLinear(r.base + |a.ring.posted|, 1);
      hide Wrap32;
      PostDescribes(a.ring, Wrap32(r.base + |r.trace| + a.sent), e);
      assert r.posted + es[..a.sent] + [e] == r.posted + es[..a.sent + 1];
    }
  }

  lemma {:induction false} RunCounted(r: Ring, es: seq<Entry>, turns: seq<bool>)
    requires Inv(r) && r.sh.num < 0x8000_0000 && AllPostable(r, es)
    ensures Counted(r, es, Execute(r, es, turns))
    decreases |turns|
  {
    if turns == [] {
      assert r.posted + es[..0] == r.posted;
      hide Wrap32;
    } else {
      assert |r.sh.slots| == r.sh.num;
      hide Counted, Execute, AfterPost, EpStep, Wrap32, Inv;
      RunCounted(r, es, turns[..|turns| - 1]);
      ExecuteOneMore(r, es, turns);
      var a := Execute(r, es, turns[..|turns| - 1]);
      if turns[|turns| - 1] { HostTurnCounted(r, es, a); } else { EpTurnCounted(r, es, a); }
    }
  }

  /** The registers are the truncated counters, whatever the number of pending entries. */
  ghost predicate Lagging(w: Ring) {
    && 0 < w.sh.num == |w.sh.slots| && |w.trace| <= |w.posted| < |w.trace| + 0x1_0000_0000
    && w.sh.used == Wrap32(w.base + |w.posted|) && w.sh.avail == Wrap32(w.base + |w.trace| + w.sh.num)
  }

  lemma ReadyWhenLagging(w: Ring)
    requires Lagging(w)
    ensures EpReady(w.sh) <==> |w.trace| < |w.posted|
  {
    var c, num: int := w.base + |w.trace|, w.sh.num;
    WrapLinear(c + num, num);
    WrapInjective(c, w.base + |w.posted|);
    hide Wrap32;
  }

  /** One EP step then reads the slot at the EP's position as it stands. */
  lemma LagStep(w: Ring)
    requires Lagging(w)
    ensures var v, c := EpStep(w), w.base + |w.trace|;
      && Lagging(v) && v == w.(sh := w.sh.(avail := v.sh.avail), mem := v.mem, trace := v.trace)
      && v.trace == w.trace + if |w.trace| < |w.posted| then [Decode(w.sh, SlotOf(Wrap32(c), w.sh.num))] else []
  {
    var c, num: int := w.base + |w.trace|, w.sh.num;
    WrapLinear(c + num, num);
    WrapInjective(c, w.base + |w.posted|);
    WrapLinear(c + num, 1);
    hide Wrap32, SlotOf, Decode, Apply;
  }

  /** The poll's test. */
  lemma PollCounts(w: Ring)
    requires Lagging(w)
    ensures PollFails(w) <==> |w.trace| < |w.posted|
  {
    WrapLinear(w.base + |w.posted|, w.sh.num);
    WrapInjective(w.base + |w.posted| + w.sh.num, w.base + |w.trace| + w.sh.num);
    hide Wrap32;
  }

  ghost predicate PollFails(u: Ring) { Wrap32(u.sh.used + u.sh.num) != u.sh.avail }

  // ------------------------------------------------------- running dry

  /** What the EP reads in its next k steps if nothing more is posted. */
  function Reads(w: Ring, k: nat): (es: seq<Entry>)
    requires 0 < w.sh.num == |w.sh.slots|
    ensures |es| == k
  {
    seq(k, j requires 0 <= j => Decode(w.sh, SlotOf(Wrap32(w.base + |w.trace| + j), w.sh.num)))
  }

  lemma {:induction false} RunsDry(w: Ring, k: nat)
    requires Lagging(w) && k <= |w.posted| - |w.trace|
    ensures var u := EpSteps(w, k);
      Lagging(u) && u.trace == w.trace + Reads(w, k) && u.posted == w.posted && u.base == w.base
    decreases k
  {
    hide Decode, SlotOf, Wrap32, EpStep;
    if k == 0 {
      assert Reads(w, 0) == [];
    } else {
      RunsDry(w, k - 1);
      LagStep(EpSteps(w, k - 1));
      SameReads(w, EpSteps(w, k - 1), k - 1);
      ReadsOneMore(w, k);
    }
  }

  lemma SameReads(w: Ring, v: Ring, j: nat)
    requires 0 < w.sh.num == |w.sh.slots| && v.sh == w.sh.(avail := v.sh.avail) && v.base == w.base
    requires |v.trace| == |w.trace| + j
    ensures Decode(v.sh, SlotOf(Wrap32(v.base + |v.trace|), v.sh.num))
         == Decode(w.sh, SlotOf(Wrap32(w.base + |w.trace| + j), w.sh.num))
  {
    hide Wrap32, SlotOf;
  }

  lemma ReadsOneMore(w: Ring, k: nat)
    requires 0 < w.sh.num == |w.sh.slots| && k > 0
    ensures Reads(w, k) == Reads(w, k - 1) + [Decode(w.sh, SlotOf(Wrap32(w.base + |w.trace| + k - 1), w.sh.num))]
  {
    hide Decode, SlotOf, Wrap32;
  }

  /** The ring once the EP has caught up with `used`. */
  ghost function Dry(w: Ring): Ring
    requires Lagging(w)
  {
    EpSteps(w, |w.posted| - |w.trace|)
  }

  /** The poll fails until then and succeeds then. */
  lemma PollWaitsForDry(w: Ring)
    requires Lagging(w)
    ensures !PollFails(Dry(w)) && Dry(w).trace == w.trace + Reads(w, |w.posted| - |w.trace|)
    ensures forall k: nat :: k < |w.posted| - |w.trace| ==> PollFails(EpSteps(w, k))
  {
    hide PollFails, Lagging, EpSteps, Reads;
    assert 0 < w.sh.num == |w.sh.slots| && |w.trace| <= |w.posted| by { Lagged(w); }
    RunsDry(w, |w.posted| - |w.trace|);
    PollCounts(Dry(w));
    forall k: nat | k < |w.posted| - |w.trace| ensures PollFails(EpSteps(w, k)) {
      RunsDry(w, k);
      PollCounts(EpSteps(w, k));
    }
  }

  lemma Lagged(w: Ring)
    requires Lagging(w)
    ensures 0 < w.sh.num == |w.sh.slots| && |w.trace| <= |w.posted|
  {}

  lemma CountedLags(r: Ring, es: seq<Entry>, a: Run)
    requires Counters(r) && r.sh.num < 0x8000_0000 && AllPostable(a.ring, es) && Counted(r, es, a)
    ensures Lagging(a.ring) && |a.ring.posted| == |r.posted| + a.sent
  {
    hide Wrap32;
  }

  /** An attempt that found d entries pending has posted all of es at w.  However the EP ran until then, the poll
      succeeds only after it has executed |es| + d entries in all; what is left at w it reads from the shared memory
      as it stands, past the entries of this attempt.  Only if nothing was pending can that be es. */
  lemma RetryOutcome(r: Ring, es: seq<Entry>, turns: seq<bool>)
    requires Inv(r) && r.sh.num < 0x8000_0000 && AllPostable(r, es) && Execute(r, es, turns).sent == |es|
    ensures var w, d := Execute(r, es, turns).ring, |r.posted| - |r.trace|;
      && Lagging(w) && |w.posted| - |w.trace| == |r.trace| + |es| + d - |w.trace|
      && !PollFails(Dry(w)) && (forall k: nat :: k < |w.posted| - |w.trace| ==> PollFails(EpSteps(w, k)))
      && Dry(w).trace == w.trace + Reads(w, |w.posted| - |w.trace|)
      && |Dry(w).trace| == |r.trace| + |es| + d
      && (d > 0 ==> Dry(w).trace != r.trace + es)
  {
    assert Counters(r) && 0 < r.sh.num;
    hide Execute, Wrap32, AllPostable, Dry, Reads, EpSteps, PollFails, Counted, Lagging, Inv;
    RunCounted(r, es, turns);
    CountedLags(r, es, Execute(r, es, turns));
    PollWaitsForDry(Execute(r, es, turns).ring);
  }

  // ------------------------------------------------------ a drained start

  /** On a drained ring every turn keeps the ring's invariant. */
  ghost predicate Safe(r: Ring, chunks: nat, a: Run) {
    && Inv(a.ring)
    && (a.sent <= chunks ==> Session(a.ring, |r.posted|, Wrap32(a.ring.base + |a.ring.posted|), Wrap32(a.sent)))
  }

  lemma EntryAt(kind: u32, img: image, maxBlk: u32, k: nat)
    requires maxBlk > 0 && k <= Chunks(Total(|img|))
    ensures var es, data := ImageEntries(kind, img, maxBlk), Streamed(img);
      es[k] == if k < Chunks(Total(|img|)) then ChunkEntry(data, LoadAddr(kind), maxBlk, k) else TailEntry(kind, |img|)
  {
    var data := Streamed(img);
    if k < Chunks(|data|) {
      DataEntriesPrefix(data, LoadAddr(kind), maxBlk, k + 1, Chunks(|data|));
      assert DataEntries(data, LoadAddr(kind), maxBlk, Chunks(|data|))[..k + 1][k]
          == ChunkEntry(data, LoadAddr(kind), maxBlk, k);
    }
  }

  lemma StreamIsPostable(r: Ring, kind: u32, img: image)
    requires 0 < r.sh.num == |r.sh.slots| && 0 < r.sh.maxBlk == |r.sh.blocks|
    ensures AllPostable(r, ImageEntries(kind, img, r.sh.maxBlk))
  {
    var es := ImageEntries(kind, img, r.sh.maxBlk);
    forall k | 0 <= k < |es| ensures Postable(r, es[k]) {
      EntryAt(kind, img, r.sh.maxBlk, k);
      hide SlotOf, Wrap32, Wrap64, Streamed;
    }
  }

  lemma EpTurnSafe(r: Ring, chunks: nat, a: Run)
    requires Safe(r, chunks, a)
    ensures Safe(r, chunks, Run(EpStep(a.ring), a.sent))
  {
    EpStepConsumesOldest(a.ring);
    if a.sent <= chunks {
      SessionUnderRely(a.ring, EpStep(a.ring), |r.posted|, Wrap32(a.ring.base + |a.ring.posted|), Wrap32(a.sent));
    }
    hide Inv, Session, EpStep, Wrap32;
  }

  /** The post of entry number a.sent of the image's stream. */
  lemma PostSafe(r: Ring, kind: u32, img: image, a: Run, e: Entry)
    requires Inv(r) && Drained(r) && Room(r, Chunks(Total(|img|))) && Safe(r, Chunks(Total(|img|)), a)
    requires 0 < r.sh.maxBlk == a.ring.sh.maxBlk && a.sent <= Chunks(Total(|img|))
    requires Posted(r, a.ring, ImageEntries(kind, img, r.sh.maxBlk)[..a.sent])
    requires e == ImageEntries(kind, img, r.sh.maxBlk)[a.sent] && Postable(a.ring, e)
    requires a.ring.sh.avail != Wrap32(a.ring.base + |a.ring.posted|)
    ensures Safe(r, Chunks(Total(|img|)), Run(AfterPost(a.ring, Wrap32(a.ring.base + |a.ring.posted|), e), a.sent + 1))
  {
    hide SlotOf, Wrap32, NoBadWrap, BlocksLast, Total, Chunks, Streamed, Wrap64, SlotDead, BlockDead, Decode, AfterPost;
    var chunks, w, first := Chunks(Total(|img|)), a.ring, |r.posted|;
    var cursor, blk := Wrap32(w.base + |w.posted|), Wrap32(a.sent);
    EntryAt(kind, img, r.sh.maxBlk, a.sent);
    RoomForChunk(r, w, ImageEntries(kind, img, r.sh.maxBlk)[..a.sent], chunks);
    WaitSucceedsExactlyWhenSlotFree(w);
    CursorSlotSafe(w, first, cursor, blk);
    if a.sent < chunks { CursorBlockSafe(w, first, cursor, blk); }
    PostKeepsInv(w, e);
    var v := AfterPost(w, cursor, e);
    PostDescribes(w, cursor, e);
    if a.sent < chunks {
      SessionGrows(w, v, first, cursor, blk, e);
      WrapLinear(w.base + |w.posted|, 1);
      WrapLinear(a.sent, 1);
    }
    hide Inv, Session, Room, ImageEntries;
  }
  lemma HostTurnSafe(r: Ring, kind: u32, img: image, a: Run)
    requires Inv(r) && Drained(r) && Room(r, Chunks(Total(|img|))) && Safe(r, Chunks(Total(|img|)), a)
    requires 0 < r.sh.maxBlk == a.ring.sh.maxBlk && |a.ring.sh.blocks| == |r.sh.blocks|
    requires AllPostable(a.ring, ImageEntries(kind, img, r.sh.maxBlk))
    requires Counted(r, ImageEntries(kind, img, r.sh.maxBlk), a)
    ensures Safe(r, Chunks(Total(|img|)), Turn(a, r.base + |r.trace|, ImageEntries(kind, img, r.sh.maxBlk), true))
  {
    var es := ImageEntries(kind, img, r.sh.maxBlk);
    hide Inv, Safe, Room, Wrap32, ImageEntries, AfterPost, Total, Chunks, Postable;
    CountedPosted(r, es, a);
    hide Counted;
    if a.sent < |es| && a.ring.sh.avail != Wrap32(r.base + |r.trace| + a.sent) {
      assert es[a.sent] in es;
      PostSafe(r, kind, img, a, es[a.sent]);
    }
  }

  lemma CountedPosted(r: Ring, es: seq<Entry>, a: Run)
    requires Counted(r, es, a) && |a.ring.sh.blocks| == |r.sh.blocks| && a.ring.sh.maxBlk == r.sh.maxBlk
    ensures a.sent <= |es| && Posted(r, a.ring, es[..a.sent]) && a.ring.base == r.base
    ensures |a.ring.posted| == |r.posted| + a.sent
  {
    hide Wrap32;
  }

  lemma SafeAtStart(r: Ring, chunks: nat)
    requires Inv(r) && Drained(r) && 0 < r.sh.num && 0 < r.sh.maxBlk == |r.sh.blocks|
    ensures Safe(r, chunks, Run(r, 0))
  {
    hide Wrap32;
  }

  /** The whole run of an image's transfer on a drained ring with room for it, under every interleaving. */
  lemma {:induction false} SafeRun(r: Ring, kind: u32, img: image, turns: seq<bool>)
    requires Inv(r) && Drained(r) && Room(r, Chunks(Total(|img|)))
    requires 0 < r.sh.num < 0x8000_0000 && 0 < r.sh.maxBlk == |r.sh.blocks|
    ensures AllPostable(r, ImageEntries(kind, img, r.sh.maxBlk))
    ensures Safe(r, Chunks(Total(|img|)), Execute(r, ImageEntries(kind, img, r.sh.maxBlk), turns))
    decreases |turns|
  {
    assert |r.sh.slots| == r.sh.num;
    StreamIsPostable(r, kind, img);
    hide Safe, Counted, Room, Inv, Drained, ImageEntries, Wrap32, AllPostable, Total, Chunks, Turn;
    if turns == [] {
      SafeAtStart(r, Chunks(Total(|img|)));
    } else {
      hide Execute;
      var es, init := ImageEntries(kind, img, r.sh.maxBlk), turns[..|turns| - 1];
      SafeRun(r, kind, img, init);
      RunCounted(r, es, init);
      ExecuteOneMore(r, es, turns);
      TurnSafe(r, kind, img, Execute(r, es, init), turns[|turns| - 1]);
    }
  }

  lemma TurnSafe(r: Ring, kind: u32, img: image, a: Run, host: bool)
    requires Inv(r) && Drained(r) && Room(r, Chunks(Total(|img|))) && Safe(r, Chunks(Total(|img|)), a)
    requires 0 < r.sh.maxBlk == a.ring.sh.maxBlk && |a.ring.sh.blocks| == |r.sh.blocks|
    requires AllPostable(a.ring, ImageEntries(kind, img, r.sh.maxBlk))
    requires Counted(r, ImageEntries(kind, img, r.sh.maxBlk), a)
    ensures Safe(r, Chunks(Total(|img|)), Turn(a, r.base + |r.trace|, ImageEntries(kind, img, r.sh.maxBlk), host))
  {
    hide Safe, Counted, Room, Inv, Drained, EpStep, AfterPost, ImageEntries, Wrap32;
    if host { HostTurnSafe(r, kind, img, a); } else { EpTurnSafe(r, Chunks(Total(|img|)), a); }
  }

  // ------------------------------------------------- an undrained start

  /** The same ring as if nothing were pending. */
  function Strip(r: Ring): Ring { r.(posted := r.trace, sh := r.sh.(used := Wrap32(r.base + |r.trace|))) }

  lemma StripInv(r: Ring)
    requires Inv(r)
    ensures Inv(Strip(r)) && Drained(Strip(r))
  {
    assert r.trace[..|r.trace|] == r.trace;
    hide Wrap32, Replay;
  }

  /** The two differ in `used` and in what counts as posted, and in nothing else. */
  ghost predicate AlikeButUsed(a: Run, a0: Run) {
    && a0.sent == a.sent
    && a0.ring == a.ring.(posted := a0.ring.posted, sh := a.ring.sh.(used := a0.ring.sh.used))
  }

  /** Whenever the EP took a step, the host had already written the entry for it, or there was nothing at all to do. */
  ghost predicate NeverAhead(r: Ring, es: seq<Entry>, turns: seq<bool>)
    requires AllPostable(r, es)
    decreases |turns|
  {
    turns != [] ==>
      var init := turns[..|turns| - 1];
      var a := Execute(r, es, init);
      && NeverAhead(r, es, init)
      && (!turns[|turns| - 1] ==> |a.ring.trace| < |r.trace| + a.sent || |a.ring.trace| == |a.ring.posted|)
  }

  lemma SameDecode(sh: Shared, used: u32, s: nat)
    requires s < |sh.slots|
    ensures Decode(sh.(used := used), s) == Decode(sh, s)
  {}

  lemma EpTurnAlike(a: Run, a0: Run)
    requires AlikeButUsed(a, a0) && Lagging(a.ring) && Lagging(a0.ring) && |a0.ring.posted| <= |a.ring.posted|
    requires |a0.ring.trace| < |a0.ring.posted| || |a.ring.trace| == |a.ring.posted|
    ensures AlikeButUsed(Run(EpStep(a.ring), a.sent), Run(EpStep(a0.ring), a0.sent))
  {
    hide EpReady, Wrap32, SlotOf, Apply, Lagging, Store;
    ReadyWhenLagging(a.ring);
    ReadyWhenLagging(a0.ring);
    assert |a0.ring.trace| <= |a0.ring.posted| && |a.ring.sh.slots| == a.ring.sh.num > 0 by {
      Lagged(a0.ring);
      Lagged(a.ring);
    }
    SameDecode(a.ring.sh, a0.ring.sh.used, SlotOf(Wrap32(a.ring.sh.avail - a.ring.sh.num), a.ring.sh.num));
    hide Decode;
  }

  lemma HostTurnAlike(a: Run, a0: Run, start: nat, es: seq<Entry>)
    requires AlikeButUsed(a, a0) && AllPostable(a.ring, es) && AllPostable(a0.ring, es)
    ensures AlikeButUsed(Turn(a, start, es, true), Turn(a0, start, es, true))
  {
    hide Wrap32, SlotOf, Overlay, DescFor;
  }

  lemma StripPostable(r: Ring, es: seq<Entry>)
    requires AllPostable(r, es)
    ensures AllPostable(Strip(r), es)
  {
    assert forall e :: e in es ==> Postable(r, e);
  }

  lemma TurnAlike(r: Ring, es: seq<Entry>, a: Run, a0: Run, host: bool)
    requires Inv(r) && 0 < r.sh.num < 0x8000_0000 && AlikeButUsed(a, a0)
    requires AllPostable(a.ring, es) && AllPostable(a0.ring, es) && Counted(r, es, a) && Counted(Strip(r), es, a0)
    requires host || |a.ring.trace| < |r.trace| + a.sent || |a.ring.trace| == |a.ring.posted|
    ensures AlikeButUsed(Turn(a, r.base + |r.trace|, es, host), Turn(a0, r.base + |r.trace|, es, host))
  {
    if host {
      HostTurnAlike(a, a0, r.base + |r.trace|, es);
    } else {
      hide Wrap32, SlotOf, EpStep;
      assert |a0.ring.posted| == |r.trace| + a.sent && |a.ring.posted| == |r.posted| + a.sent;
      EpTurnAlike(a, a0);
    }
  }

  lemma AlikeAtStart(r: Ring)
    ensures AlikeButUsed(Run(r, 0), Run(Strip(r), 0))
  {}

  lemma {:induction false} RunsAlike(r: Ring, es: seq<Entry>, turns: seq<bool>)
    requires Inv(r) && r.sh.num < 0x8000_0000 && AllPostable(r, es) && NeverAhead(r, es, turns)
    ensures AllPostable(Strip(r), es) && AlikeButUsed(Execute(r, es, turns), Execute(Strip(r), es, turns))
    decreases |turns|
  {
    StripInv(r);
    StripPostable(r, es);
    assert 0 < r.sh.num == |r.sh.slots|;
    hide AlikeButUsed, Counted, Inv, Turn, Wrap32, AllPostable;
    if turns == [] {
      AlikeAtStart(r);
    } else {
      var init := turns[..|turns| - 1];
      RunsAlike(r, es, init);
      RunCounted(r, es, init);
      RunCounted(Strip(r), es, init);
      ExecuteOneMore(r, es, turns);
      ExecuteOneMore(Strip(r), es, turns);
      TurnAlike(r, es, Execute(r, es, init), Execute(Strip(r), es, init), turns[|turns| - 1]);
    }
  }

  /** What lies past the n entries of the attempt: the d descriptors that the EP executes in surplus. */
  function Surplus(r: Ring, w: Ring, n: nat): seq<Entry>
    requires 0 < w.sh.num == |w.sh.slots| && |r.trace| <= |r.posted|
  {
    seq(|r.posted| - |r.trace|,
        j requires 0 <= j => Decode(w.sh, SlotOf(Wrap32(r.base + |r.trace| + n + j), w.sh.num)))
  }

  /** With everything posted and the stripped ring in order, what the EP still reads is the rest of the attempt's
      entries and then the surplus. */
  lemma RestAndSurplus(r: Ring, es: seq<Entry>, w: Ring, w0: Ring)
    requires Lagging(w) && Inv(w0) && |r.trace| <= |r.posted| && w.base == r.base
    requires w0 == w.(posted := w0.posted, sh := w.sh.(used := w0.sh.used)) && w0.posted == r.trace + es
    requires |w.posted| == |r.posted| + |es|
    ensures w.trace + Reads(w, |w.posted| - |w.trace|) == r.trace + es + Surplus(r, w, |es|)
  {
    var n, d := |w.posted| - |w.trace|, |r.posted| - |r.trace|;
    assert |w0.trace| <= |w0.posted|;
    hide Decode, Replay, Wrap32, SlotOf, Counters, Lagging;
    var whole, stream := w.trace + Reads(w, n), r.trace + es;
    assert |whole| == |stream| + d;
    forall q: nat | q < |whole| ensures whole[q] == (stream + Surplus(r, w, |es|))[q] {
      if |w.trace| <= q < |stream| {
        assert Intact(w0, q);
        SameAt32(w0, w, q);
      }
    }
  }

  lemma SameAt32(w0: Ring, w: Ring, q: nat)
    requires 0 < w.sh.num == |w.sh.slots| && w0 == w.(posted := w0.posted, sh := w.sh.(used := w0.sh.used))
    ensures Decode(w0.sh, SlotAt(w0, q)) == Decode(w.sh, SlotOf(Wrap32(w.base + q), w.sh.num))
  {
    hide Wrap32, SlotOf;
  }

  /** A whole retry that starts with d entries pending, on a ring with room for it: as long as the EP does not run
      ahead of the host, it executes the intended stream and then d surplus descriptors. */
  lemma RetryTrace(r: Ring, kind: u32, img: image, turns: seq<bool>)
    requires Inv(r) && 0 < r.sh.num < 0x8000_0000 && 0 < r.sh.maxBlk == |r.sh.blocks|
    requires Room(Strip(r), Chunks(Total(|img|)))
    requires AllPostable(r, ImageEntries(kind, img, r.sh.maxBlk))
    requires Execute(r, ImageEntries(kind, img, r.sh.maxBlk), turns).sent == |ImageEntries(kind, img, r.sh.maxBlk)|
    requires NeverAhead(r, ImageEntries(kind, img, r.sh.maxBlk), turns)
    ensures var es := ImageEntries(kind, img, r.sh.maxBlk);
      var w := Execute(r, es, turns).ring;
      Lagging(w) && |r.trace| <= |r.posted| && Dry(w).trace == r.trace + es + Surplus(r, w, |es|)
  {
    hide ImageEntries, Execute, NeverAhead, Dry, Surplus, Reads, Room;
    var es := ImageEntries(kind, img, r.sh.maxBlk);
    var a, a0 := Execute(r, es, turns), Execute(Strip(r), es, turns);
    RetryOutcome(r, es, turns);
    RunCounted(r, es, turns);
    StripInv(r);
    RunsAlike(r, es, turns);
    RunCounted(Strip(r), es, turns);
    SafeRun(Strip(r), kind, img, turns);
    assert es[..|es|] == es;
    RestAndSurplus(r, es, a.ring, a0.ring);
  }

  lemma {:induction false} DrainedNeverAhead(r: Ring, es: seq<Entry>, turns: seq<bool>)
    requires Inv(r) && Drained(r) && r.sh.num < 0x8000_0000 && AllPostable(r, es)
    ensures NeverAhead(r, es, turns)
    decreases |turns|
  {
    if turns != [] {
      DrainedNeverAhead(r, es, turns[..|turns| - 1]);
      RunCounted(r, es, turns[..|turns| - 1]);
      hide Execute, Wrap32;
    }
  }

  /** Under every interleaving: once the poll lets the attempt through, the EP has executed exactly the intended stream
      if and only if nothing was pending when the attempt began. */
  lemma RetryIntendedExactly(r: Ring, kind: u32, img: image, turns: seq<bool>)
    requires Inv(r) && 0 < r.sh.num < 0x8000_0000 && 0 < r.sh.maxBlk == |r.sh.blocks|
    requires Room(Strip(r), Chunks(Total(|img|)))
    requires AllPostable(r, ImageEntries(kind, img, r.sh.maxBlk))
    requires Execute(r, ImageEntries(kind, img, r.sh.maxBlk), turns).sent == |ImageEntries(kind, img, r.sh.maxBlk)|
    ensures var es := ImageEntries(kind, img, r.sh.maxBlk);
      var w := Execute(r, es, turns).ring;
      Lagging(w) && (Dry(w).trace == r.trace + es <==> Drained(r))
  {
    hide ImageEntries, Execute, NeverAhead, Dry, Reads, Room;
    var es := ImageEntries(kind, img, r.sh.maxBlk);
    RetryOutcome(r, es, turns);
    if Drained(r) {
      DrainedNeverAhead(r, es, turns);
      RetryTrace(r, kind, img, turns);
      assert Surplus(r, Execute(r, es, turns).ring, |es|) == [];
    }
  }
}
