/** The host's ring code over the mapped BAR.  Before every access of the host to the BAR the endpoint may take any
    number of steps (EpRun), so each contract below holds under every interleaving. */
module RingHost {
  import opened Words
  import opened RingSpec
  import opened RingPost
  import opened Layout

  /** What the registers of an endpoint that is ready hold. */
  const MAGIC: u32 := 0x6162_6d61
  const ONLINE: u32 := 1

  /** The register at off compares as asked. */
  ghost predicate Met(b: seq<byte>, off: nat, want: u32, equal: bool)
    requires off + 4 <= |b|
  {
    (Get32(b, off) == want) == equal
  }

  /** The bytes of the BAR before the endpoint is up. */
  predicate NotUpYet(b: seq<byte>, upIo: seq<byte>)
    requires |b| >= DESC0_OFF && |upIo| >= DESC0_OFF
  {
    Get32(b, STATE_OFF) != ONLINE && (Get32(b, MAGIC_OFF) == MAGIC ==> Get32(upIo, MAGIC_OFF) == MAGIC)
  }

  /** The words at 12 and 16 add up to the word at 8. */
  ghost predicate PollPasses(b: seq<byte>) {
    forall used: u32, num: u32 ::
      LittleEndian(b, 12, used) && LittleEndian(b, 16, num) ==> LittleEndian(b, 8, (used + num) % 0x1_0000_0000)
  }

  lemma PassesInBytes(b: seq<byte>)
    requires |b| >= DESC0_OFF && Wrap32(Parse(b).used + Parse(b).num) == Parse(b).avail
    ensures PollPasses(b)
  {
    forall used: u32, num: u32 | LittleEndian(b, 12, used) && LittleEndian(b, 16, num)
      ensures LittleEndian(b, 8, (used + num) % 0x1_0000_0000)
    {
      WordIsLittleEndian(b, 12, used);
      WordIsLittleEndian(b, 16, num);
      WordIsLittleEndian(b, 8, Wrap32(used as int + num as int));
      hide Get32, LittleEndian, Slots, Blocks;
    }
  }

  lemma PutAvailSame(b: seq<byte>)
    requires |b| >= DESC0_OFF
    ensures b == Put32(b, AVAIL_OFF, Parse(b).avail)
  {
    PutSame(b, AVAIL_OFF);
  }

  lemma ReadyExactlyWhenPending(r: Ring)
    requires Inv(r)
    ensures |r.trace| <= |r.posted| && (EpReady(r.sh) <==> |r.trace| < |r.posted|)
  {
    if r.sh.num > 0 { RegisterTestsAreExact(r); }
    hide Wrap32, Replay, Intact;
  }

  /** A ring on which nothing has happened yet. */
  lemma EmptyRing(b: seq<byte>, mem: Memory, base: nat)
    requires SlotsFit(b) && Get32(b, USED_OFF) == Wrap32(base)
    requires Get32(b, AVAIL_OFF) == Wrap32(base + Get32(b, NUM_OFF))
    ensures Inv(Ring(Parse(b), mem, [], [], base, mem)) && Drained(Ring(Parse(b), mem, [], [], base, mem))
  {
    hide Get32, Blocks, Wrap32;
  }

  lemma DrainedAvail(r: Ring)
    requires Inv(r) && Drained(r)
    ensures r.sh.avail == Wrap32(r.base + |r.posted| + r.sh.num)
  {
    hide Wrap32, Replay, Intact;
  }

  lemma {:induction false} StepsAdd(r: Ring, j: nat, k: nat)
    requires |r.sh.slots| == r.sh.num
    ensures EpSteps(EpSteps(r, j), k) == EpSteps(r, j + k)
    decreases k
  {
    hide EpStep;
    if k > 0 { StepsAdd(r, j, k - 1); }
  }

  /** The mapped BAR, the endpoint behind it, and the history of the ring.  up: the endpoint has reported ONLINE.  What
      BAR and endpoint memory hold at that moment is upIo and upMem; before it they hold anything.  lag: Some(n) for an
      endpoint that catches up with the host at least once in any n + 1 register reads, slack being how many it may let
      pass from now; None for one that promises nothing. */
  class Bar {
    const io: array<byte>
    const upIo: seq<byte>
    const upMem: Memory
    const lag: Option<nat>
    var up: bool
    var slack: nat
    var mem: Memory
    var trace: seq<Entry>
    ghost var posted: seq<Entry>
    ghost const base: nat
    ghost const mem0: Memory

    /** The ring, as it is or as it will come up. */
    ghost function View(): Ring
      reads this, io
      requires io.Length == |upIo| >= DESC0_OFF
    {
      if up then Ring(Parse(io[..]), mem, trace, posted, base, mem0)
      else Ring(Parse(upIo), upMem, trace, posted, base, mem0)
    }

    /** The bytes of the BAR, as they are or as they will come up. */
    ghost function Bytes(): seq<byte>
      reads this, io
    {
      if up then io[..] else upIo
    }

    /** The ring is sane from the moment the endpoint reports ONLINE, and it does not report it before; it shows its
        magic number early only if it is going to keep it. */
    ghost predicate Coming()
      reads this, io
    {
      && io.Length == |upIo| >= DESC0_OFF
      && (if up then SlotsFit(io[..])
          else SlotsFit(upIo) && NotUpYet(io[..], upIo) && trace == posted == [])
      && (lag.Some? ==> slack <= lag.value)
      && Inv(View())
    }

    ghost predicate Valid()
      reads this, io
    {
      up && Coming()
    }

    /** A wait for at least this many polls gives the endpoint time to catch up. */
    predicate Prompt(patience: nat) { lag.Some? && lag.value < patience }

    /** The register compares as asked now, and still does after any number of endpoint steps. */
    ghost predicate Steady(off: nat, want: u32, equal: bool)
      reads this, io
      requires Coming() && off + 4 <= DESC0_OFF
    {
      forall k: nat :: Met(Put32(Bytes(), AVAIL_OFF, EpSteps(View(), k).sh.avail), off, want, equal)
    }

    /** The register compares as asked once the endpoint has caught up. */
    ghost predicate Settles(off: nat, want: u32, equal: bool)
      reads this, io
      requires Coming() && off + 4 <= DESC0_OFF
    {
      Met(Put32(Bytes(), AVAIL_OFF, Wrap32(base + |posted| + View().sh.num)), off, want, equal)
    }

    /** A BAR whose endpoint will come up with an empty ring. */
    constructor (io: array<byte>, mem: Memory, upIo: seq<byte>, upMem: Memory, lag: Option<nat>, ghost base: nat)
      requires io.Length == |upIo| && SlotsFit(upIo) && NotUpYet(io[..], upIo)
      requires Get32(upIo, USED_OFF) == Wrap32(base)
      requires Get32(upIo, AVAIL_OFF) == Wrap32(base + Get32(upIo, NUM_OFF))
      ensures Coming() && !up && Drained(View()) && this.io == io && View().mem == upMem && trace == posted == []
    {
      this.io, this.mem, this.upIo, this.upMem, this.up, this.trace := io, mem, upIo, upMem, false, [];
      this.lag, this.slack := lag, 0;
      this.posted, this.base, this.mem0 := [], base, upMem;
      EmptyRing(upIo, upMem, base);
      hide Inv, Parse, Get32, Slots, Blocks;
    }

    /** writel without interference. */
    method Put(off: nat, v: u32)
      requires off + 4 <= io.Length
      modifies io
      ensures io[..] == Put32(old(io[..]), off, v)
    {
      var b := Put32(io[..], off, v);
      forall i | off <= i < off + 4 { io[i] := b[i]; }
      assert forall i :: 0 <= i < io.Length ==> io[i] == b[i];
    }

    /** writeb without interference. */
    method PutByte(at: nat, x: byte)
      requires at < io.Length
      modifies io
      ensures io[..] == SetByte(old(io[..]), at, x)
    {
      io[at] := x;
    }

    /** One endpoint step, on the bytes of the BAR. */
    method EpTurn()
      requires Valid()
      modifies this`mem, this`trace, io
      ensures View() == EpStep(old(View())) && Valid()
      ensures io[..] == Put32(old(io[..]), AVAIL_OFF, View().sh.avail)
    {
      hide Get32, Put32, Slots, Blocks, Inv, Decode, Apply, SlotOf, Wrap32, EpReady;
      EpStepConsumesOldest(View());
      PutSame(io[..], AVAIL_OFF);
      var sh := Parse(io[..]);
      if EpReady(sh) {
        var e := Decode(sh, SlotOf(Wrap32(sh.avail - sh.num), sh.num));
        RegisterWrite(io[..], Wrap32(sh.avail + 1));
        Put(AVAIL_OFF, Wrap32(sh.avail + 1));
        mem, trace := Apply(mem, e), trace + [e];
      }
    }

    /** The endpoint on its way up: it writes anything but ONLINE, or is there. */
    method EpBoot()
      requires Coming() && !up
      modifies this`up, this`mem, io
      ensures Coming() && View() == old(View()) && Bytes() == old(Bytes())
    {
      hide Inv, Get32, Slots, Blocks;
      var bytes: seq<byte> := *;
      var ready: bool := *;
      if ready {
        forall i | 0 <= i < io.Length { io[i] := upIo[i]; }
        assert io[..] == upIo;
        up, mem := true, upMem;
      } else if |bytes| == io.Length && NotUpYet(bytes, upIo) {
        forall i | 0 <= i < io.Length { io[i] := bytes[i]; }
        assert io[..] == bytes;
        mem := *;
      }
    }

    /** Any number of endpoint steps; of the BAR they change `avail` alone. */
    method EpRun() returns (ghost k: nat)
      requires Coming()
      modifies this`up, this`mem, this`trace, io
      ensures View() == EpSteps(old(View()), k)
      ensures Coming() && (old(up) ==> up) && Rely(old(View()), View())
      ensures Bytes() == Put32(old(Bytes()), AVAIL_OFF, View().sh.avail)
      ensures old(Drained(View())) ==> View() == old(View())
    {
      hide Inv, Get32, Put32, Slots, Blocks;
      k := 0;
      var rounds: nat := *;
      PutAvailSame(Bytes());
      while rounds > 0
        invariant Coming() && (old(up) ==> up) && View() == EpSteps(old(View()), k)
        invariant Bytes() == Put32(old(Bytes()), AVAIL_OFF, View().sh.avail)
      {
        if up {
          ghost var before := View().sh.avail;
          EpTurn();
          PutTwice(old(Bytes()), AVAIL_OFF, before, View().sh.avail);
          k := k + 1;
        } else {
          EpBoot();
        }
        rounds := rounds - 1;
      }
      EpStepsKeepInv(old(View()), k);
    }

    /** The endpoint executes everything that is pending. */
    method EpCatchUp() returns (ghost k: nat)
      requires Valid()
      modifies this`mem, this`trace, io
      ensures View() == EpSteps(old(View()), k)
      ensures Valid() && Drained(View()) && Rely(old(View()), View())
      ensures Bytes() == Put32(old(Bytes()), AVAIL_OFF, View().sh.avail)
    {
      hide Inv, Get32, Put32, Slots, Blocks, EpReady;
      k := 0;
      PutAvailSame(Bytes());
      ReadyExactlyWhenPending(View());
      while EpReady(Parse(io[..]))
        invariant Valid() && View() == EpSteps(old(View()), k) && |View().trace| <= |posted|
        invariant EpReady(View().sh) <==> |View().trace| < |posted|
        invariant Bytes() == Put32(old(Bytes()), AVAIL_OFF, View().sh.avail)
        decreases |posted| - |trace|
      {
        ghost var before := View();
        EpStepConsumesOldest(before);
        EpTurn();
        PutTwice(old(Bytes()), AVAIL_OFF, before.sh.avail, View().sh.avail);
        ReadyExactlyWhenPending(View());
        k := k + 1;
      }
      EpStepsKeepInv(old(View()), k);
    }

    /** pcie_ring_r32. */
    method Read32(off: nat) returns (v: u32, ghost k: nat)
      requires Coming() && off + 4 <= DESC0_OFF
      modifies this`up, this`slack, this`mem, this`trace, io
      ensures Coming() && (old(up) ==> up) && Rely(old(View()), View()) && v == Get32(io[..], off)
      ensures View() == EpSteps(old(View()), k)
      ensures Bytes() == Put32(old(Bytes()), AVAIL_OFF, View().sh.avail)
      ensures old(Drained(View())) ==> View() == old(View())
      ensures old(up) && lag.Some? ==>
        if old(slack) == 0 then Drained(View()) && slack == lag.value else slack == old(slack) - 1
    {
      hide Inv, Get32, Put32, Slots, Blocks;
      ghost var m;
      k := EpRun();
      if up && lag.Some? {
        if slack == 0 {
          ghost var t := View();
          m := EpCatchUp();
          PutTwice(old(Bytes()), AVAIL_OFF, t.sh.avail, View().sh.avail);
          StepsAdd(old(View()), k, m);
          EpStepsKeepInv(t, m);
          k := k + m;
          slack := lag.value;
        } else {
          slack := slack - 1;
        }
      }
      v := Get32(io[..], off);
    }

    /** The same, for a reader who need not know how far the endpoint got. */
    method Peek32(off: nat) returns (v: u32)
      requires Valid() && off + 4 <= DESC0_OFF
      modifies this`up, this`slack, this`mem, this`trace, io
      ensures Valid() && Rely(old(View()), View()) && v == Get32(io[..], off)
    {
      ghost var k;
      v, k := Read32(off);
    }

    /** pcie_ring_wait_u32: the deadline lies some polls ahead, at least `patience` of them.  It returns at the first
        poll that finds the register as asked. */
    method WaitU32(off: nat, want: u32, equal: bool, patience: nat) returns (ret: Errno)
      requires Coming() && off + 4 <= DESC0_OFF
      modifies this`up, this`slack, this`mem, this`trace, io
      ensures Coming() && (old(up) ==> up) && Rely(old(View()), View())
      ensures Bytes() == Put32(old(Bytes()), AVAIL_OFF, View().sh.avail)
      ensures old(Drained(View())) ==> View() == old(View())
      ensures ret == OK || ret == ETIMEDOUT
      ensures ret == OK ==> Met(io[..], off, want, equal)
      ensures old(up) && patience > 0 && old(Steady(off, want, equal)) ==> ret == OK
      ensures old(up) && Prompt(patience) && old(Settles(off, want, equal)) ==> ret == OK
    {
      hide Inv, Get32, Put32, Slots, Blocks, Wrap32;
      var polls: nat := *;
      if polls < patience {
        polls := patience;
      }
      ghost var all := polls;
      PutAvailSame(Bytes());
      while polls > 0
        invariant Coming() && (old(up) ==> up) && Rely(old(View()), View())
        invariant Bytes() == Put32(old(Bytes()), AVAIL_OFF, View().sh.avail)
        invariant old(Drained(View())) ==> View() == old(View())
        invariant old(up) && old(Steady(off, want, equal)) ==>
          polls == all && View() == old(View()) && Bytes() == old(Bytes())
        invariant old(up) && lag.Some? && old(Settles(off, want, equal)) ==> slack + (all - polls) == old(slack)
      {
        ghost var before := View();
        var val, k := Read32(off);
        PutTwice(old(Bytes()), AVAIL_OFF, before.sh.avail, View().sh.avail);
        if (val == want) == equal {
          return OK;
        }
        if Drained(View()) { DrainedAvail(View()); }
        polls := polls - 1;
      }
      return ETIMEDOUT;
    }

    /** pcie_ring_xfer_poll: three separate reads, and success means that nothing is in flight.  A drained ring passes
        at the first poll. */
    method XferPoll(patience: nat) returns (ret: Errno)
      requires Valid() && View().sh.num > 0
      modifies this`up, this`slack, this`mem, this`trace, io
      ensures Valid() && Rely(old(View()), View())
      ensures ret == OK || ret == ETIMEDOUT
      ensures ret == OK ==> Drained(View()) && PollPasses(io[..])
      ensures patience > 0 && old(Drained(View())) ==> ret == OK
      ensures Prompt(patience) ==> ret == OK
    {
      hide Get32, Put32, Slots, Blocks, Inv, Wrap32;
      var polls: nat := *;
      if polls < patience {
        polls := patience;
      }
      ghost var all := polls;
      while polls > 0
        invariant Valid() && Rely(old(View()), View())
        invariant old(Drained(View())) ==> polls == all && View() == old(View())
        invariant lag.Some? ==> slack + 3 * (all - polls) == old(slack)
      {
        var used, k1 := Read32(USED_OFF);
        var num, k2 := Read32(NUM_OFF);
        var avail, k3 := Read32(AVAIL_OFF);
        PollSucceedsExactlyWhenDrained(View());
        if Wrap32(used as int + num as int) == avail {
          PassesInBytes(io[..]);
          return OK;
        }
        polls := polls - 1;
      }
      return ETIMEDOUT;
    }

    /** One descriptor word; only a slot that no pending entry uses may be written. */
    method WriteDescWord(desc: nat, ghost s: nat, j: nat, v: u32)
      requires Valid() && s < View().sh.num && desc == DESC0_OFF + 20 * s && j < 5
      requires SlotDead(View(), s)
      modifies this`up, this`slack, this`mem, this`trace, io
      ensures Valid() && SlotDead(View(), s)
      ensures Rely(WriteSlot(old(View()), s, SetWord(old(View()).sh.slots[s], j, v)), View())
    {
      hide Inv, Rely, SlotDead, Get32, Put32, Slots, Blocks, SetWord;
      var _ := EpRun();
      ghost var d := SetWord(View().sh.slots[s], j, v);
      InterferenceAroundSlotWrite(old(View()), View(), s, d);
      WriteDeadSlotKeepsInv(View(), s, d);
      DescWordWrite(io[..], s, j, v);
      Put(desc + 4 * j, v);
    }

    /** The five words of a descriptor. */
    method WriteDesc(desc: nat, ghost s: nat, d: Desc)
      requires Valid() && s < View().sh.num && desc == DESC0_OFF + 20 * s
      requires SlotDead(View(), s)
      modifies this`up, this`slack, this`mem, this`trace, io
      ensures Valid()
      ensures Rely(WriteSlot(old(View()), s, d), View())
    {
      hide Inv, SlotDead, Get32, Slots, Blocks;
      WriteDescWord(desc, s, 0, d.cmd);
      WriteDescWord(desc, s, 1, d.size);
      WriteDescWord(desc, s, 2, d.lo);
      WriteDescWord(desc, s, 3, d.hi);
      WriteDescWord(desc, s, 4, d.blk);
    }

    /** One byte of data block b, which no pending entry may use. */
    method WriteBlockByte(at: nat, ghost b: u32, i: nat, x: byte)
      requires Valid() && b < View().sh.maxBlk == |View().sh.blocks|
      requires i < BLOCK_SIZE && at == BLOCK_SIZE * (b + 1) + i
      requires BlockDead(View(), b)
      modifies this`up, this`slack, this`mem, this`trace, io
      ensures Valid() && BlockDead(View(), b)
      ensures |old(View()).sh.blocks[b]| == BLOCK_SIZE
      ensures Rely(WriteBlock(old(View()), b, SetByte(old(View()).sh.blocks[b], i, x)), View())
    {
      BlocksMeanMapped(io[..]);
      assert |View().sh.blocks[b]| == BLOCK_SIZE;
      hide Inv, BlockDead, Get32, Slots, Blocks;
      var _ := EpRun();
      ghost var block := SetByte(View().sh.blocks[b], i, x);
      InterferenceAroundBlockWrite(old(View()), View(), b, block);
      WriteDeadBlockKeepsInv(View(), b, block);
      BlockByteWrite(io[..], b, i, x);
      PutByte(at, x);
    }

    /** memcpy_toio into data block b. */
    method CopyToIo(dst: nat, ghost b: u32, chunk: array<byte>, n: nat) returns (ghost block: seq<byte>)
      requires Valid() && b < View().sh.maxBlk == |View().sh.blocks| && dst == BLOCK_SIZE * (b + 1)
      requires BlockDead(View(), b)
      requires chunk != io && n <= chunk.Length && n <= BLOCK_SIZE
      modifies this`up, this`slack, this`mem, this`trace, io
      ensures Valid()
      ensures |block| == BLOCK_SIZE && block == Overlay(old(View()).sh.blocks[b], chunk[..n])
      ensures Rely(WriteBlock(old(View()), b, block), View())
    {
      hide Inv, BlockDead, Get32, Slots, Blocks, Parse, Rely, WriteBlock;
      BlocksMeanMapped(io[..]);
      ghost var first := View().sh.blocks[b];
      block := first;
      BlockWrittenBack(View(), b);
      ghost var data := chunk[..];
      var i := 0;
      while i < n
        invariant 0 <= i <= n
        invariant Valid() && BlockDead(View(), b)
        invariant |block| == BLOCK_SIZE && chunk[..] == data
        invariant forall k :: 0 <= k < BLOCK_SIZE ==> block[k] == if k < i then data[k] else first[k]
        invariant Rely(WriteBlock(old(View()), b, block), View())
      {
        ghost var t := View();
        BlockAfterWrite(old(View()), t, b, block);
        WriteBlockByte(dst + i, b, i, chunk[i]);
        BlockRewritten(old(View()), t, View(), b, block, SetByte(block, i, chunk[i]));
        block := SetByte(block, i, chunk[i]);
        i := i + 1;
      }
      assert chunk[..n] == data[..n];
    }

    /** Read-modify-write of `used`: the host hands the entry at its cursor to the endpoint. */
    method PublishUsed(ghost e: Entry)
      requires Valid() && |posted| - |trace| < View().sh.num
      requires Decode(View().sh, SlotAt(View(), |posted|)) == e
      modifies this`up, this`slack, this`mem, this`trace, this`posted, io
      ensures Valid()
      ensures Rely(Publish(old(View()), e), View())
    {
      hide Get32, Put32, Slots, Blocks, Inv, Decode, Wrap32, SlotOf;
      var used := Peek32(USED_OFF);
      var _ := EpRun();
      InterferenceBeforePublish(old(View()), View(), e);
      PublishKeepsInv(View(), e);
      var next := Wrap32(used as int + 1);
      RegisterWrite(io[..], next);
      Put(USED_OFF, next);
      posted := posted + [e];
    }
  }
}
