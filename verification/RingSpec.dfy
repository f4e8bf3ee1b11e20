/** The ring protocol between the host and the endpoint, on values.

    The endpoint (EP) is not part of the repository.  EpStep is the environment assumption: while the registers say
    that a descriptor is pending, the EP may at any moment decode it from shared memory, execute it and advance
    `avail`; it writes nothing else. */
module RingSpec {
  import opened Words

  const CMD_DATA: u32 := 1
  const CMD_SET_DTB: u32 := 3
  const CMD_SET_LNX: u32 := 4
  const CMD_SET_INITRD: u32 := 5

  /** The five words of a descriptor. */
  datatype Desc = Desc(cmd: u32, size: u32, lo: u32, hi: u32, blk: u32)

  /** What both sides see: the counters, the descriptor slots and the data blocks. */
  datatype Shared = Shared(avail: u32, used: u32, num: u32, maxBlk: u32, slots: seq<Desc>, blocks: seq<seq<byte>>)

  /** A descriptor together with the data it refers to (empty unless it is a DATA command). */
  datatype Entry = Entry(cmd: u32, size: u32, addr: u64, blk: u32, payload: seq<byte>)

  /** sh: shared memory.  mem, trace: EP memory and what the EP executed.  posted: every entry the host published.
      base: the unbounded ring position of posted[0].  mem0: EP memory when the history began. */
  datatype Ring = Ring(sh: Shared, mem: Memory, trace: seq<Entry>,
                       posted: seq<Entry>, base: nat, mem0: Memory)

  /** The slot that the counter value c selects. */
  function SlotOf(c: u32, num: u32): (s: nat)
    requires num > 0
    ensures s < num
  {
    c % num
  }

  /** The entry that slot s describes. */
  function Decode(sh: Shared, s: nat): Entry
    requires s < |sh.slots|
  {
    var d := sh.slots[s];
    Entry(d.cmd, d.size, d.lo + 0x1_0000_0000 * d.hi, d.blk,
          if d.cmd == CMD_DATA && d.blk < |sh.blocks| && d.size <= |sh.blocks[d.blk]|
          then sh.blocks[d.blk][..d.size] else [])
  }

  // -------------------------------------------------------------- endpoint

  /** EP memory after it executed one entry. */
  function Apply(mem: Memory, e: Entry): Memory {
    if e.cmd == CMD_DATA then Store(mem, e.addr, e.payload) else mem
  }

  /** EP memory after it executed a sequence of entries. */
  function Replay(mem: Memory, es: seq<Entry>): Memory {
    if es == [] then mem else Apply(Replay(mem, es[..|es| - 1]), es[|es| - 1])
  }

  /** The EP's own test for a pending descriptor: registers only. */
  predicate EpReady(sh: Shared) {
    sh.num != 0 && Wrap32(sh.avail - sh.num) != sh.used
  }

  /** The EP executes e and hands its slot back. */
  function Consume(r: Ring, e: Entry): Ring {
    r.(sh := r.sh.(avail := Wrap32(r.sh.avail + 1)), mem := Apply(r.mem, e), trace := r.trace + [e])
  }

  /** One EP step; nothing happens while no descriptor is pending. */
  function EpStep(r: Ring): (s: Ring)
    requires |r.sh.slots| == r.sh.num
    ensures s.sh == r.sh.(avail := s.sh.avail)
  {
    if EpReady(r.sh) then
      Consume(r, Decode(r.sh, SlotOf(Wrap32(r.sh.avail - r.sh.num), r.sh.num)))
    else r
  }

  /** k EP steps. */
  ghost function EpSteps(r: Ring, k: nat): (s: Ring)
    requires |r.sh.slots| == r.sh.num
    ensures s.sh == r.sh.(avail := s.sh.avail)
    decreases k
  {
    if k == 0 then r else EpStep(EpSteps(r, k - 1))
  }

  // ------------------------------------------------------------- invariant

  /** Entry i of the history uses this slot. */
  function SlotAt(r: Ring, i: nat): (s: nat)
    requires r.sh.num > 0
    ensures s < r.sh.num
  {
    SlotOf(Wrap32(r.base + i), r.sh.num)
  }

  /** Entry i is posted and not yet consumed. */
  ghost predicate Pending(r: Ring, i: int) { |r.trace| <= i < |r.posted| }

  ghost predicate Drained(r: Ring) { |r.trace| == |r.posted| }

  /** The registers are the truncated unbounded counters, and at most num entries are in flight. */
  ghost predicate Counters(r: Ring) {
    && |r.trace| <= |r.posted| <= |r.trace| + r.sh.num
    && r.sh.used == Wrap32(r.base + |r.posted|)
    && r.sh.avail == Wrap32(r.base + |r.trace| + r.sh.num)
  }

  /** Shared memory still holds entry i as it was posted. */
  ghost predicate Intact(r: Ring, i: nat)
    requires |r.sh.slots| == r.sh.num > 0 && i < |r.posted|
  {
    Decode(r.sh, SlotAt(r, i)) == r.posted[i]
  }

  /** What every host access and every EP step keeps. */
  ghost predicate Inv(r: Ring) {
    && |r.sh.slots| == r.sh.num
    && Counters(r)
    && r.trace == r.posted[..|r.trace|]
    && r.mem == Replay(r.mem0, r.trace)
    && (forall i :: Pending(r, i) ==> Intact(r, i))
  }

  /** The three wrapped register tests decide exactly what they are meant to decide:
      a slot is free, nothing is in flight, and (on the EP's side) something is pending. */
  lemma RegisterTestsAreExact(r: Ring)
    requires Counters(r) && r.sh.num > 0
    ensures r.sh.avail != Wrap32(r.base + |r.posted|) <==> |r.posted| - |r.trace| < r.sh.num
    ensures Wrap32(r.sh.used + r.sh.num) == r.sh.avail <==> Drained(r)
    ensures EpReady(r.sh) <==> Pending(r, |r.trace|)
    ensures Wrap32(r.sh.avail - r.sh.num) == Wrap32(r.base + |r.trace|)
  {
    var n, c, num := r.base + |r.posted|, r.base + |r.trace|, r.sh.num;
    WrapInjective(c + num, n);
    WrapLinear(n, num);
    WrapInjective(n + num, c + num);
    WrapLinear(c + num, num);
    WrapInjective(c, n);
  }

  /** The poll of pcie_ring_xfer_poll under the invariant. */
  lemma PollSucceedsExactlyWhenDrained(r: Ring)
    requires Inv(r) && r.sh.num > 0
    ensures Wrap32(r.sh.used + r.sh.num) == r.sh.avail <==> Drained(r)
  {
    RegisterTestsAreExact(r);
  }

  /** The wait of the post functions under the invariant. */
  lemma WaitSucceedsExactlyWhenSlotFree(r: Ring)
    requires Inv(r) && r.sh.num > 0
    ensures r.sh.avail != Wrap32(r.base + |r.posted|) <==> |r.posted| - |r.trace| < r.sh.num
  {
    RegisterTestsAreExact(r);
  }

  /** The host cursor that pcie_ring_ctx_init derives agrees with `used` exactly when the ring is drained. */
  lemma ResyncExactlyWhenDrained(r: Ring)
    requires Counters(r)
    ensures Wrap32(r.sh.avail - r.sh.num) == r.sh.used <==> Drained(r)
  {
    var n, c, num := r.base + |r.posted|, r.base + |r.trace|, r.sh.num;
    WrapLinear(c + num, num);
    WrapInjective(c, n);
  }

  /** What the EP may have done between two host accesses. */
  ghost predicate Rely(r: Ring, s: Ring) {
    && s.sh == r.sh.(avail := s.sh.avail)
    && s.posted == r.posted && s.base == r.base && s.mem0 == r.mem0
    && |r.trace| <= |s.trace|
  }

  /** An EP step consumes exactly the oldest pending entry, or nothing when the ring is drained. */
  lemma EpStepConsumesOldest(r: Ring)
    requires Inv(r)
    ensures Inv(EpStep(r)) && Rely(r, EpStep(r))
    ensures EpStep(r).trace == if Drained(r) then r.trace else r.trace + [r.posted[|r.trace|]]
    ensures Drained(r) ==> EpStep(r) == r
  {
    if r.sh.num > 0 { RegisterTestsAreExact(r); }
    assert |r.trace| <= |r.posted|;
    hide Wrap32, SlotOf, Apply, Replay, Counters, Decode;
    if Pending(r, |r.trace|) {
      assert Intact(r, |r.trace|);
      ConsumeKeepsInv(r, EpStep(r));
    }
  }

  lemma ConsumeKeepsCounters(r: Ring, e: Entry)
    requires Counters(r) && |r.trace| < |r.posted|
    ensures Counters(Consume(r, e))
  {
    WrapLinear(r.base + |r.trace| + r.sh.num, 1);
  }

  lemma ConsumeKeepsInv(r: Ring, s: Ring)
    requires Inv(r) && Pending(r, |r.trace|)
    requires s == Consume(r, r.posted[|r.trace|])
    ensures Inv(s)
  {
    ConsumeKeepsCounters(r, r.posted[|r.trace|]);
    ConsumeExtendsTrace(r, s);
    hide Counters, SlotOf, Wrap32, Apply, Replay;
    forall i | Pending(s, i) ensures Intact(s, i) { assert Intact(r, i); }
  }

  lemma ConsumeExtendsTrace(r: Ring, s: Ring)
    requires |r.trace| < |r.posted| && r.trace == r.posted[..|r.trace|] && r.mem == Replay(r.mem0, r.trace)
    requires s == Consume(r, r.posted[|r.trace|])
    ensures s.trace == s.posted[..|s.trace|] && s.mem == Replay(s.mem0, s.trace)
  {
    assert s.trace[..|r.trace|] == r.trace;
    hide Wrap32, Apply;
  }

  /** Under any number of EP steps the invariant holds and the trace stays a prefix of what was posted;
      a drained ring stays drained until the next post. */
  lemma {:induction false} EpStepsKeepInv(r: Ring, k: nat)
    requires Inv(r)
    ensures Inv(EpSteps(r, k)) && Rely(r, EpSteps(r, k))
    ensures Drained(r) ==> EpSteps(r, k) == r
    decreases k
  {
    if k > 0 {
      EpStepsKeepInv(r, k - 1);
      EpStepConsumesOldest(EpSteps(r, k - 1));
    }
  }

  lemma {:induction false} EpStepsProgress(r: Ring, k: nat)
    requires Inv(r) && k <= |r.posted| - |r.trace|
    ensures |EpSteps(r, k).trace| == |r.trace| + k
    decreases k
  {
    if k > 0 {
      EpStepsProgress(r, k - 1);
      EpStepsKeepInv(r, k - 1);
      EpStepConsumesOldest(EpSteps(r, k - 1));
    }
    hide EpStep, Inv;
  }

  /** An EP that takes as many steps as there are pending entries has executed everything posted, in order. */
  lemma EpDrainsInOrder(r: Ring)
    requires Inv(r)
    ensures var s := EpSteps(r, |r.posted| - |r.trace|);
      Drained(s) && s.trace == r.posted && s.mem == Replay(r.mem0, r.posted)
  {
    assert |r.trace| <= |r.posted|;
    var s := EpSteps(r, |r.posted| - |r.trace|);
    hide EpSteps, Counters, Intact, Replay;
    EpStepsProgress(r, |r.posted| - |r.trace|);
    EpStepsKeepInv(r, |r.posted| - |r.trace|);
    assert s.posted[..|s.trace|] == s.posted;
  }
}
