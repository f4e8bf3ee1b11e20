/** The two H2D ioctls: copying a user buffer or a file to EP memory chunk by chunk. */
module HostToDevice {
  import opened Words
  import opened SlotSpec
  import opened Platforms

  const CHUNK_MAX: nat := 0x20_0000
  const U64_MAX: u64 := 0xffff_ffff_ffff_ffff

  // -------------------------------------------------- chunking in general

  function Flatten(chunks: seq<seq<byte>>): seq<byte> {
    if chunks == [] then [] else Flatten(chunks[..|chunks| - 1]) + chunks[|chunks| - 1]
  }

  /** EP memory after the chunks were stored one behind the other. */
  function StoreChunks(mem: Memory, addr: nat, chunks: seq<seq<byte>>): Memory {
    if chunks == [] then mem
    else
      var init := chunks[..|chunks| - 1];
      Store(StoreChunks(mem, addr, init), addr + |Flatten(init)|, chunks[|chunks| - 1])
  }

  /** How the source is cut makes no difference: any chunking is one flat copy. */
  lemma {:induction false} ChunkingIsIrrelevant(mem: Memory, addr: nat, chunks: seq<seq<byte>>)
    ensures StoreChunks(mem, addr, chunks) == Store(mem, addr, Flatten(chunks))
    decreases |chunks|
  {
    if chunks != [] {
      var init := chunks[..|chunks| - 1];
      ChunkingIsIrrelevant(mem, addr, init);
      StoreAdjacent(mem, addr, Flatten(init), chunks[|chunks| - 1]);
      hide Store;
    }
  }

  /** The guard of the buffer ioctl keeps every address of the copy from wrapping. */
  lemma GuardPreventsWrap(epAddr: u64, size: u64, offset: nat)
    requires !(epAddr > U64_MAX - size) && offset <= size
    ensures Wrap64(epAddr + offset) == epAddr + offset
  {}

  /** A file of two bytes sent to the last address: the code lets it through, and the second byte lands at 0. */
  lemma FileWrapsToZero(mem: Memory, x: byte, y: byte)
    ensures var m := Store(mem, U64_MAX, [x, y]); m == mem[U64_MAX := x][0 := y]
  {
    assert [x][..0] == [];
    assert Store(mem, U64_MAX, [x]) == mem[U64_MAX := x];
    assert [x, y][..1] == [x];
  }

  // ------------------------------------------------------------- transport

  /** The device on one bus, behind the transport symbol of the turbo module. */
  class Link {
    const bus: nat
    var mem: Memory

    constructor (bus: nat, mem: Memory)
      ensures this.bus == bus && this.mem == mem
    {
      this.bus, this.mem := bus, mem;
    }

    /** pci_turbo_bus_xfer_h2d: it stores the n bytes, or fails after storing anything over some of them.  faults: it
        may fail. */
    method Xfer(bus: nat, buf: array<byte>, n: nat, addr: u64, faults: bool)
      returns (ret: Errno, ghost written: seq<byte>)
      requires bus == this.bus && n <= buf.Length
      modifies this`mem
      ensures ret == OK || (ret == EIO && faults)
      ensures mem == Store(old(mem), addr, written) && |written| <= n
      ensures ret == OK ==> written == buf[..n]
    {
      var ok: bool := *;
      if ok || !faults {
        mem := Store(mem, addr, buf[..n]);
        return OK, buf[..n];
      }
      var junk: seq<byte> := *;
      if |junk| > n {
        junk := [];
      }
      mem := Store(mem, addr, junk);
      return EIO, junk;
    }
  }

  /** EP memory holds an exact prefix of the source, of length done, then at most one chunk of anything. */
  ghost predicate PrefixCopied(before: Memory, after: Memory, addr: nat, src: seq<byte>, done: nat,
                               junk: seq<byte>) {
    && done + |junk| <= |src| && |junk| <= 0x20_0000
    && after == Store(Store(before, addr, src[..done]), addr + done, junk)
  }

  lemma CopyContinues(m0: Memory, m1: Memory, m2: Memory, addr: nat, src: seq<byte>,
                      done: nat, n: nat, written: seq<byte>)
    requires PrefixCopied(m0, m1, addr, src, done, []) && n <= CHUNK_MAX && done + n <= |src|
    requires m2 == Store(m1, addr + done, written) && |written| <= n
    ensures PrefixCopied(m0, m2, addr, src, done, written)
    ensures written == src[done..done + n] ==> PrefixCopied(m0, m2, addr, src, done + n, [])
  {
    StoreNothing(Store(m0, addr, src[..done]), addr + done);
    StoreNothing(Store(m0, addr, src[..done + n]), addr + done + n);
    StoreAdjacent(m0, addr, src[..done], written);
    assert written == src[done..done + n] ==> src[..done] + written == src[..done + n];
    hide Store;
  }

  lemma StoreNothing(m: Memory, addr: nat)
    ensures Store(m, addr, []) == m
  {}

  lemma NothingCopied(m: Memory, addr: nat, src: seq<byte>)
    ensures PrefixCopied(m, m, addr, src, 0, [])
  {
    assert src[..0] == [];
  }

  lemma AllCopied(m0: Memory, m1: Memory, addr: nat, src: seq<byte>)
    requires PrefixCopied(m0, m1, addr, src, |src|, [])
    ensures m1 == Store(m0, addr, src)
  {
    assert src[..|src|] == src;
    StoreNothing(Store(m0, addr, src), addr + |src|);
    hide Store;
  }

  /** What the slot has to say to a copy. */
  predicate SlotVerdict(s: Slot, ret: Errno) {
    if !s.inUse || s.pdev.None? then ret == ENODEV else if s.state != CONNECTED then ret == EBUSY else ret == OK
  }

  /** The results of a copy: refusal of the arguments, the slot's verdict, and success unless something may fail. */
  predicate CopyResult(ret: Errno, argsOk: bool, s: Option<Slot>, faults: bool) {
    if faults && ret == EFAULT then true
    else if !argsOk || s.None? then ret == EINVAL
    else if !SlotVerdict(s.value, OK) then SlotVerdict(s.value, ret)
    else ret == OK || (faults && (ret == ENODEV || ret == ENOMEM || ret == EIO))
  }

  function SlotIn(devs: seq<Slot>, slotId: u32): Option<Slot>
    requires |devs| == 4
  {
    if slotId < 4 then Some(devs[slotId]) else None
  }

  /** The link leads to the device in this slot. */
  ghost predicate LinksTo(link: Link, s: Option<Slot>) {
    s.Some? && s.value.pdev.Some? ==> link.bus == s.value.pdev.value.bus
  }

  /** The slot checks of both ioctls. */
  method CheckConnected(plat: Platform, slotId: u32) returns (ret: Errno)
    requires plat.Valid() && slotId < 4
    ensures SlotVerdict(plat.devs[slotId], ret)
  {
    if !plat.devs[slotId].inUse || plat.devs[slotId].pdev.None? {
      return ENODEV;
    }
    if plat.devs[slotId].state != CONNECTED {
      return EBUSY;
    }
    return OK;
  }

  // ---------------------------------------------------------- the two loops

  /** pcie_ioctl_h2d_send_buffer.  Success is one flat copy of the buffer; after a failure the completed chunks are an
      exact prefix of it, and memory beyond the chunk in progress is untouched.  faults: allocation, user memory and
      the transport may fail. */
  method SendBuffer(plat: Platform, link: Link, slotId: u32, srcPtr: u64, size: u64, epAddr: u64, src: seq<byte>,
                    faults: bool)
    returns (ret: Errno, ghost done: nat, ghost junk: seq<byte>)
    requires plat.Valid() && |src| == size && LinksTo(link, SlotIn(plat.devs[..], slotId))
    modifies link`mem
    ensures PrefixCopied(old(link.mem), link.mem, epAddr, src, done, junk) && (done % 0x20_0000 == 0 || done == size)
    ensures ret == OK ==> done == size && StoredFlat(old(link.mem), link.mem, epAddr, src)
    ensures ret == EINVAL ==> link.mem == old(link.mem)
    ensures CopyResult(ret, srcPtr != 0 && size != 0 && epAddr != 0 && srcPtr + size < 0x1_0000_0000_0000_0000
                            && epAddr + size < 0x1_0000_0000_0000_0000, SlotIn(plat.devs[..], slotId), faults)
  {
    hide Store, StoredFlat, PrefixCopied;
    done, junk := 0, [];
    NothingCopied(link.mem, epAddr, src);
    var noRequest: bool := *;
    if faults && noRequest {
      return EFAULT, 0, [];
    }
    if slotId as int >= DEV_MAX || srcPtr == 0 || size == 0 || epAddr == 0
       || srcPtr > U64_MAX - size || epAddr > U64_MAX - size {
      return EINVAL, 0, [];
    }
    ret := CheckConnected(plat, slotId);
    if ret != OK {
      return;
    }
    var bus := plat.devs[slotId].pdev.value.bus;
    var haveSymbol: bool, haveMemory: bool := *, *;
    if faults && !haveSymbol {
      return ENODEV, 0, [];
    }
    if faults && !haveMemory {
      return ENOMEM, 0, [];
    }
    var kbuf := new byte[CHUNK_MAX];
    var offset := 0;
    while offset < size
      invariant offset <= size && (offset % CHUNK_MAX == 0 || offset == size)
      invariant PrefixCopied(old(link.mem), link.mem, epAddr, src, offset, [])
      invariant ret == OK
    {
      done, junk := offset, [];
      var n := if size - offset < CHUNK_MAX then size - offset else CHUNK_MAX;
      var fault: bool := *;
      if faults && fault {
        return EFAULT, done, [];
      }
      forall i | 0 <= i < n { kbuf[i] := src[offset + i]; }
      assert kbuf[..n] == src[offset..offset + n];
      GuardPreventsWrap(epAddr, size, offset);
      ghost var m := link.mem;
      ret, junk := link.Xfer(bus, kbuf, n, Wrap64(epAddr as int + offset), faults);
      CopyContinues(old(link.mem), m, link.mem, epAddr, src, offset, n, junk);
      if ret != OK {
        return;
      }
      offset := offset + n;
    }
    done, junk := size, [];
    AllCopied(old(link.mem), link.mem, epAddr, src);
    StoreIsFlatExactly(old(link.mem), epAddr, src);
  }

  /** kernel_read: an error, or some bytes from pos on; none only at the end of the file. */
  method KernelRead(file: seq<byte>, kbuf: array<byte>, pos: nat, faults: bool) returns (nread: int)
    requires pos <= |file| && kbuf.Length == CHUNK_MAX
    modifies kbuf
    ensures nread <= CHUNK_MAX && pos + nread <= |file| && (nread < 0 ==> faults)
    ensures nread >= 0 ==> kbuf[..nread] == file[pos..pos + nread]
    ensures nread == 0 ==> pos == |file|
  {
    var failed: bool := *;
    if faults && failed {
      return -1;
    }
    var most := if |file| - pos < CHUNK_MAX then |file| - pos else CHUNK_MAX;
    nread := *;
    if nread < 1 || nread > most {
      nread := most;
    }
    forall i | 0 <= i < nread { kbuf[i] := file[pos + i]; }
    assert kbuf[..nread] == file[pos..pos + nread];
  }

  /** pcie_ioctl_h2d_send_file.  The code does not check that the file ends by 2^64: success is a flat copy exactly
      when it does, and otherwise what lies beyond continues at address 0. */
  method SendFile(plat: Platform, link: Link, slotId: u32, startAddr: u64, emptyPath: bool, file: seq<byte>,
                  faults: bool)
    returns (ret: Errno, ghost done: nat, ghost junk: seq<byte>)
    requires plat.Valid() && LinksTo(link, SlotIn(plat.devs[..], slotId))
    modifies link`mem
    ensures PrefixCopied(old(link.mem), link.mem, startAddr, file, done, junk)
    ensures ret == OK ==> done == |file| && link.mem == Store(old(link.mem), startAddr, file)
    ensures ret == OK ==>
      (StoredFlat(old(link.mem), link.mem, startAddr, file) <==> startAddr + |file| <= 0x1_0000_0000_0000_0000)
    ensures ret == EINVAL ==> link.mem == old(link.mem)
    ensures CopyResult(ret, !emptyPath && startAddr != 0, SlotIn(plat.devs[..], slotId), faults)
  {
    hide Store, StoredFlat, PrefixCopied;
    done, junk := 0, [];
    NothingCopied(link.mem, startAddr, file);
    var noRequest: bool := *;
    if faults && noRequest {
      return EFAULT, 0, [];
    }
    if slotId as int >= DEV_MAX || emptyPath || startAddr == 0 {
      return EINVAL, 0, [];
    }
    ret := CheckConnected(plat, slotId);
    if ret != OK {
      return;
    }
    var bus := plat.devs[slotId].pdev.value.bus;
    var haveSymbol: bool, openedFile: bool, haveMemory: bool := *, *, *;
    if faults && !haveSymbol {
      return ENODEV, 0, [];
    }
    if faults && !openedFile {
      return EIO, 0, [];
    }
    if faults && !haveMemory {
      return ENOMEM, 0, [];
    }
    var kbuf := new byte[CHUNK_MAX];
    var pos := 0;
    var epAddr: u64 := startAddr;
    while true
      invariant pos <= |file| && epAddr == Wrap64(startAddr + pos)
      invariant PrefixCopied(old(link.mem), link.mem, startAddr, file, pos, [])
      decreases |file| - pos
    {
      done, junk := pos, [];
      var nread := KernelRead(file, kbuf, pos, faults);
      if nread < 0 {
        return EIO, done, [];
      }
      if nread == 0 {
        AllCopied(old(link.mem), link.mem, startAddr, file);
        StoreIsFlatExactly(old(link.mem), startAddr, file);
        return OK, done, [];
      }
      ghost var m := link.mem;
      ret, junk := link.Xfer(bus, kbuf, nread, epAddr, faults);
      StoreWraps(m, startAddr + pos, junk);
      CopyContinues(old(link.mem), m, link.mem, startAddr, file, pos, nread, junk);
      if ret != OK {
        return;
      }
      WrapLinear64(startAddr + pos, nread);
      epAddr := Wrap64(epAddr as int + nread);
      pos := pos + nread;
    }
  }
}
