/** The firmware ioctl: slot state, request, ring transfers and endpoint memory together. */
module FirmwareIoctl {
  import opened Words
  import opened RingSpec
  import opened RingPost
  import opened Layout
  import opened Images
  import opened RingHost
  import opened RingTransfer
  import opened SlotSpec
  import SlotTheorems
  import opened Platforms
  import opened FirmwareRequest

  /** The bytes of the first image of this kind. */
  function Chosen(user: seq<byte>, images: seq<ImageDesc>, kind: u32): (b: image)
    requires FindFrom(images, kind, 0).Some?
    requires InBlob(user, images)
  {
    ImageBytes(user, images[FindFrom(images, kind, 0).value])
  }

  /** The k-th image of the transfer order. */
  function Nth(user: seq<byte>, images: seq<ImageDesc>, k: nat): (b: image)
    requires k < 3 && LookupsSucceed(images)
    requires InBlob(user, images)
  {
    Chosen(user, images, ORDER[k])
  }

  /** Every image lies inside the user's blob. */
  ghost predicate InBlob(user: seq<byte>, images: seq<ImageDesc>) {
    forall i :: 0 <= i < |images| ==> images[i].offset + images[i].length <= |user|
  }

  /** What the first k transfers post. */
  ghost function OrderEntries(user: seq<byte>, images: seq<ImageDesc>, maxBlk: u32, k: nat): seq<Entry>
    requires k <= 3 && LookupsSucceed(images) && InBlob(user, images)
  {
    if k == 0 then []
    else OrderEntries(user, images, maxBlk, k - 1) + ImageStream(ORDER[k - 1], Nth(user, images, k - 1), maxBlk)
  }

  lemma OrderEntriesAreFirmware(user: seq<byte>, images: seq<ImageDesc>, maxBlk: u32)
    requires maxBlk > 0 && LookupsSucceed(images) && InBlob(user, images)
    ensures OrderEntries(user, images, maxBlk, 3)
         == FirmwareEntries(Chosen(user, images, DTB), Chosen(user, images, ROOTFS), Chosen(user, images, KERNEL),
                            maxBlk)
  {
    var d := ImageEntries(DTB, Nth(user, images, 0), maxBlk);
    assert OrderEntries(user, images, maxBlk, 1) == [] + d == d;
    assert OrderEntries(user, images, maxBlk, 2) == d + ImageEntries(ROOTFS, Nth(user, images, 1), maxBlk);
    hide ImageEntries, Chosen;
  }

  /** A partial transfer of image k is a prefix of the whole command stream. */
  lemma {:induction false} PartOfTheStream(user: seq<byte>, images: seq<ImageDesc>, maxBlk: u32, k: nat, n: nat, j: nat)
    requires k < j <= 3 && LookupsSucceed(images) && InBlob(user, images)
    requires n <= |ImageStream(ORDER[k], Nth(user, images, k), maxBlk)|
    ensures var before := OrderEntries(user, images, maxBlk, k);
      && |before| + n <= |OrderEntries(user, images, maxBlk, j)|
      && OrderEntries(user, images, maxBlk, j)[..|before| + n]
      == before + ImageStream(ORDER[k], Nth(user, images, k), maxBlk)[..n]
    decreases j
  {
    hide ImageStream, Nth;
    if k + 1 < j { PartOfTheStream(user, images, maxBlk, k, n, j - 1); }
  }

  /** Both counters have room for each of three transfers in a row; what the slot counter does between two of them does
      not matter, because each begins on a drained ring. */
  ghost predicate FirmwareRoom(r: Ring, dtb: image, rootfs: image, kernel: image) {
    var c0, c1, c2 := Chunks(Total(|dtb|)), Chunks(Total(|rootfs|)), Chunks(Total(|kernel|));
    var p := r.base + |r.posted|;
    && RoomAt(r.sh.num, r.sh.maxBlk, p, c0)
    && RoomAt(r.sh.num, r.sh.maxBlk, p + c0 + 1, c1)
    && RoomAt(r.sh.num, r.sh.maxBlk, p + c0 + c1 + 2, c2)
  }

  lemma OrderEntriesLength(user: seq<byte>, images: seq<ImageDesc>, maxBlk: u32, k: nat)
    requires maxBlk > 0 && k < 3 && LookupsSucceed(images)
    requires InBlob(user, images)
    ensures var c0, c1 := Chunks(Total(|Nth(user, images, 0)|)), Chunks(Total(|Nth(user, images, 1)|));
      |OrderEntries(user, images, maxBlk, k)| == if k == 0 then 0 else if k == 1 then c0 + 1 else c0 + c1 + 2
  {
    hide Total, Chunks, Nth, ImageEntries;
    if k == 2 {
      assert OrderEntries(user, images, maxBlk, 2)
          == OrderEntries(user, images, maxBlk, 1) + ImageEntries(ROOTFS, Nth(user, images, 1), maxBlk);
    }
  }

  /** Transfer k has room when its turn comes, after everything that the earlier ones post. */
  ghost predicate NthRoom(r: Ring, user: seq<byte>, images: seq<ImageDesc>, k: nat)
    requires k < 3 && LookupsSucceed(images) && InBlob(user, images)
  {
    RoomAt(r.sh.num, r.sh.maxBlk, r.base + |r.posted| + |OrderEntries(user, images, r.sh.maxBlk, k)|,
           Chunks(Total(|Nth(user, images, k)|)))
  }

  /** The room for the whole firmware is exactly the room that each transfer needs when its turn comes. */
  lemma FirmwareRoomExactly(r: Ring, user: seq<byte>, images: seq<ImageDesc>)
    requires LookupsSucceed(images) && InBlob(user, images) && r.sh.maxBlk > 0
    ensures FirmwareRoom(r, Nth(user, images, 0), Nth(user, images, 1), Nth(user, images, 2)) <==>
      NthRoom(r, user, images, 0) && NthRoom(r, user, images, 1) && NthRoom(r, user, images, 2)
  {
    hide RoomAt, Total, Chunks, OrderEntries, Nth, LookupsSucceed, InBlob;
    OrderEntriesLength(user, images, r.sh.maxBlk, 0);
    OrderEntriesLength(user, images, r.sh.maxBlk, 1);
    OrderEntriesLength(user, images, r.sh.maxBlk, 2);
  }

  lemma FirstHasRoom(r: Ring, user: seq<byte>, images: seq<ImageDesc>)
    requires LookupsSucceed(images) && InBlob(user, images)
    requires FirmwareRoom(r, Nth(user, images, 0), Nth(user, images, 1), Nth(user, images, 2))
    ensures NthRoom(r, user, images, 0)
  {
    hide RoomAt, Total, Chunks, Nth, LookupsSucceed, InBlob;
    hide ImageStream;
  }

  lemma EachHasRoom(r: Ring, user: seq<byte>, images: seq<ImageDesc>, k: nat)
    requires k < 3 && LookupsSucceed(images) && InBlob(user, images) && (k == 0 || r.sh.maxBlk > 0)
    requires FirmwareRoom(r, Nth(user, images, 0), Nth(user, images, 1), Nth(user, images, 2))
    ensures NthRoom(r, user, images, k)
  {
    hide FirmwareRoom, NthRoom, Nth, LookupsSucceed, InBlob;
    if k == 0 {
      FirstHasRoom(r, user, images);
    } else {
      FirmwareRoomExactly(r, user, images);
      assert k == 1 || k == 2;
    }
  }

  lemma RoomForNext(r: Ring, t: Ring, user: seq<byte>, images: seq<ImageDesc>, k: nat)
    requires k < 3 && LookupsSucceed(images) && InBlob(user, images) && (k == 0 || r.sh.maxBlk > 0)
    requires Posted(r, t, OrderEntries(user, images, r.sh.maxBlk, k))
    requires FirmwareRoom(r, Nth(user, images, 0), Nth(user, images, 1), Nth(user, images, 2))
    ensures Room(t, Chunks(Total(|Nth(user, images, k)|)))
  {
    hide RoomAt, Total, Chunks, Nth, LookupsSucceed, InBlob, OrderEntries, FirmwareRoom;
    EachHasRoom(r, user, images, k);
  }

  /** The words at 0 and 4 say that the endpoint is ready. */
  predicate ReadyBytes(b: seq<byte>) {
    LittleEndian(b, 0, 0x6162_6d61) && LittleEndian(b, 4, 1)
  }

  ghost predicate Ready(bar: Bar)
    reads bar, bar.io
  {
    bar.up && ReadyBytes(bar.io[..])
  }

  /** pcie_ring_wait_ep_ready.  Success means that the endpoint is up, so that the ring can be relied on, and that both
      words say so; an endpoint that is ready is not waited for. */
  method WaitEpReady(bar: Bar, patience: nat) returns (ret: Errno)
    requires bar.Coming() && Drained(bar.View())
    modifies bar`up, bar`slack, bar`mem, bar`trace, bar.io
    ensures bar.Coming() && bar.View() == old(bar.View())
    ensures ret == OK || ret == ETIMEDOUT
    ensures ret == OK ==> bar.Valid() && ReadyBytes(bar.io[..])
    ensures old(Ready(bar)) && patience > 0 ==> ret == OK
  {
    hide Inv, Get32, Put32, Slots, Blocks, LittleEndian, Met, NotUpYet;
    ghost var b := bar.Bytes();
    ReadyInWords(b);
    RegisterIsSteady(bar.View(), b, MAGIC_OFF, MAGIC);
    ret := bar.WaitU32(MAGIC_OFF, MAGIC, true, patience);
    if ret != OK {
      return;
    }
    ghost var c := bar.Bytes();
    MagicKept(bar.io[..], c);
    ReadyAfterPut(b, bar.View().sh.avail);
    ReadyInWords(c);
    RegisterIsSteady(bar.View(), c, STATE_OFF, ONLINE);
    ret := bar.WaitU32(STATE_OFF, ONLINE, true, patience);
    if ret == OK {
      OnlineMeansUp(bar.io[..], bar.upIo);
      GetAfterPut(c, AVAIL_OFF, bar.View().sh.avail, MAGIC_OFF);
      ReadyInWords(bar.io[..]);
    }
  }

  lemma ReadyInWords(b: seq<byte>)
    requires |b| >= DESC0_OFF
    ensures ReadyBytes(b) <==> Met(b, MAGIC_OFF, MAGIC, true) && Met(b, STATE_OFF, ONLINE, true)
    ensures Met(b, MAGIC_OFF, MAGIC, true) <==> Get32(b, MAGIC_OFF) == MAGIC
  {
    WordIsLittleEndian(b, 0, MAGIC);
    WordIsLittleEndian(b, 4, ONLINE);
    hide Get32, LittleEndian;
  }

  lemma ReadyAfterPut(b: seq<byte>, v: u32)
    requires |b| >= DESC0_OFF
    ensures ReadyBytes(Put32(b, AVAIL_OFF, v)) == ReadyBytes(b)
  {
    ReadyInWords(b);
    ReadyInWords(Put32(b, AVAIL_OFF, v));
    GetAfterPut(b, AVAIL_OFF, v, MAGIC_OFF);
    GetAfterPut(b, AVAIL_OFF, v, STATE_OFF);
    hide Get32, Put32, ReadyBytes;
  }

  /** The endpoint's steps change neither word. */
  lemma RegisterIsSteady(r: Ring, b: seq<byte>, off: nat, want: u32)
    requires |b| >= DESC0_OFF && off + 4 <= AVAIL_OFF && |r.sh.slots| == r.sh.num
    ensures Met(b, off, want, true) ==>
      forall k: nat :: Met(Put32(b, AVAIL_OFF, EpSteps(r, k).sh.avail), off, want, true)
  {
    forall k: nat ensures Met(Put32(b, AVAIL_OFF, EpSteps(r, k).sh.avail), off, want, true) == Met(b, off, want, true) {
      GetAfterPut(b, AVAIL_OFF, EpSteps(r, k).sh.avail, off);
      hide Get32, Put32, EpSteps;
    }
    hide Met, EpSteps, Put32;
  }

  lemma MagicKept(io: seq<byte>, b: seq<byte>)
    requires |io| >= DESC0_OFF && |b| >= DESC0_OFF && Met(io, MAGIC_OFF, MAGIC, true)
    requires b == io || NotUpYet(io, b)
    ensures Get32(b, MAGIC_OFF) == MAGIC
  {
    hide Get32;
  }

  lemma OnlineMeansUp(io: seq<byte>, upIo: seq<byte>)
    requires |io| >= DESC0_OFF && |upIo| >= DESC0_OFF && Met(io, STATE_OFF, ONLINE, true)
    ensures !NotUpYet(io, upIo)
  {
    hide Get32;
  }

  /** Transfer number k of a firmware transfer that began at r. */
  method TransferNth(bar: Bar, mapSize: nat, user: seq<byte>, images: seq<ImageDesc>, k: nat,
                     patience: nat, faults: bool, ghost r: Ring)
    returns (ret: Errno, ghost sent: nat)
    requires bar.Valid() && Drained(bar.View()) && mapSize <= bar.io.Length && k < 3
    requires LookupsSucceed(images) && InBlob(user, images)
    requires MapTestReliable(r.sh.maxBlk, mapSize)
    requires FirmwareRoom(r, Nth(user, images, 0), Nth(user, images, 1), Nth(user, images, 2))
    requires Posted(r, bar.View(), OrderEntries(user, images, r.sh.maxBlk, k)) && (k == 0 || r.sh.maxBlk > 0)
    modifies bar`up, bar`slack, bar`mem, bar`trace, bar`posted, bar.io
    ensures bar.Valid()
    ensures ret == OK ==> Drained(bar.View()) && 0 < bar.View().sh.num && 0 < bar.View().sh.maxBlk
    ensures ret == OK ==> Posted(r, bar.View(), OrderEntries(user, images, r.sh.maxBlk, k + 1))
    ensures var es := OrderEntries(user, images, r.sh.maxBlk, 3);
      sent <= |es| && Posted(r, bar.View(), es[..sent])
    ensures Explained(ret, CanStart(r.sh, mapSize), bar.Prompt(patience), faults)
  {
    hide NoBadWrap, Inv, Posted, Rely, Room, FirmwareRoom, ImageEntries, ImageStream, LookupsSucceed, Total, Chunks;
    hide Streamed, Store, FindFrom, Explained;
    ghost var t, before := bar.View(), OrderEntries(user, images, r.sh.maxBlk, k);
    RoomForNext(r, t, user, images, k);
    SameShape(r, t, before);
    assert CanStart(t.sh, mapSize) == CanStart(r.sh, mapSize);
    LookupIn(images, k);
    var found := FindImage(images, ORDER[k]);
    ret, sent := XferUser(bar, mapSize, user, images[found.value], patience, faults);
    ghost var es := ImageStream(ORDER[k], Nth(user, images, k), r.sh.maxBlk);
    PostedTwice(r, t, bar.View(), before, es[..sent]);
    PartOfTheStream(user, images, r.sh.maxBlk, k, sent, 3);
    if ret == OK { assert es[..sent] == es; }
    sent := |before| + sent;
  }

  /** The three transfers.  Each needs a drained ring, and the poll of the one before provides it.  Whatever happens,
      the host has posted a prefix of the whole command stream. */
  method TransferAll(bar: Bar, mapSize: nat, user: seq<byte>, images: seq<ImageDesc>, patience: nat, faults: bool)
    returns (ret: Errno, ghost sent: nat)
    requires bar.Valid() && Drained(bar.View()) && mapSize <= bar.io.Length
    requires MapTestReliable(bar.View().sh.maxBlk, mapSize)
    requires LookupsSucceed(images) && InBlob(user, images)
    requires FirmwareRoom(bar.View(), Nth(user, images, 0), Nth(user, images, 1), Nth(user, images, 2))
    modifies bar`up, bar`slack, bar`mem, bar`trace, bar`posted, bar.io
    ensures bar.Valid()
    ensures var es := OrderEntries(user, images, old(bar.View()).sh.maxBlk, 3);
      && sent <= |es| && Posted(old(bar.View()), bar.View(), es[..sent])
      && (ret == OK ==> sent == |es| && Drained(bar.View()) && 0 < bar.View().sh.num && 0 < bar.View().sh.maxBlk)
    ensures Explained(ret, CanStart(old(bar.View()).sh, mapSize), bar.Prompt(patience), faults)
  {
    hide Inv, Posted, Rely, FirmwareRoom, ImageStream, Nth, LookupsSucceed;
    ghost var r := bar.View();
    RelyPostsNothing(r, r);
    sent := 0;
    ret := OK;
    for i := 0 to 3
      invariant bar.Valid() && Drained(bar.View()) && ret == OK
      invariant i > 0 ==> 0 < bar.View().sh.num && 0 < bar.View().sh.maxBlk && 0 < r.sh.maxBlk
      invariant Posted(r, bar.View(), OrderEntries(user, images, r.sh.maxBlk, i))
      invariant i > 0 ==> CanStart(r.sh, mapSize)
    {
      ret, sent := TransferNth(bar, mapSize, user, images, i, patience, faults, r);
      if ret != OK {
        return;
      }
      SameShape(r, bar.View(), OrderEntries(user, images, r.sh.maxBlk, i + 1));
    }
    ghost var all := OrderEntries(user, images, r.sh.maxBlk, 3);
    assert all[..|all|] == all;
    sent := |all|;
  }

  lemma SameShape(r: Ring, t: Ring, es: seq<Entry>)
    requires Posted(r, t, es)
    ensures t.sh.num == r.sh.num && t.sh.maxBlk == r.sh.maxBlk
  {}

  lemma LookupIn(images: seq<ImageDesc>, i: nat)
    requires LookupsSucceed(images) && i < 3
    ensures FindFrom(images, ORDER[i], 0).Some?
  {}

  // ------------------------------------------------------------- the ioctl

  /** What an accepted request provides to the transfer. */
  lemma AcceptedIsTransferable(req: Request, user: seq<byte>)
    requires |req.images| == IMAGE_COUNT && Accepted(req) && KindsInRange(req.images) && |user| == req.fwSize
    ensures LookupsSucceed(req.images) && InBlob(user, req.images)
    ensures forall k :: 0 <= k < 3 ==> 0 < |Nth(user, req.images, k)|
  {
    LookupsSucceedExactly(req);
    forall i | 0 <= i < |req.images| ensures req.images[i].offset + req.images[i].length <= |user| {
      assert DescOk(req.images[i], req.fwSize);
    }
    forall k | 0 <= k < 3 ensures 0 < |Nth(user, req.images, k)| {
      LookupIn(req.images, k);
      assert DescOk(req.images[FindFrom(req.images, ORDER[k], 0).value], req.fwSize);
    }
  }

  /** The ring has room for the request's three images, if it names three images of the blob at all. */
  ghost predicate RoomForRequest(r: Ring, req: Request, user: seq<byte>) {
    LookupsSucceed(req.images) && InBlob(user, req.images) ==>
      FirmwareRoom(r, Nth(user, req.images, 0), Nth(user, req.images, 1), Nth(user, req.images, 2))
  }

  /** The endpoint executed exactly the command stream of these three images, and nothing is in flight. */
  ghost predicate Delivered(r: Ring, u: Ring, dtb: image, rootfs: image, kernel: image) {
    && r.sh.maxBlk > 0 && Drained(u)
    && u.trace == r.trace + FirmwareEntries(dtb, rootfs, kernel, r.sh.maxBlk)
    && u.mem == Replay(r.mem, FirmwareEntries(dtb, rootfs, kernel, r.sh.maxBlk))
  }

  /** With images of lengths that fit, delivery leaves all three intact in EP memory at the same time, and all memory
      outside the three regions as it was. */
  lemma DeliveryLeavesImagesIntact(r: Ring, u: Ring, dtb: image, rootfs: image, kernel: image)
    requires Delivered(r, u, dtb, rootfs, kernel) && LengthsFit(|dtb|, |rootfs|, |kernel|)
    ensures AllHold(u.mem, dtb, rootfs, kernel)
    ensures RestKept(r.mem, u.mem, |dtb|, |rootfs|, |kernel|)
  {
    ReplayFirmware(r.mem, dtb, rootfs, kernel, r.sh.maxBlk);
    ImagesDoNotClobber(r.mem, dtb, rootfs, kernel);
    RestUnchanged(r.mem, dtb, rootfs, kernel);
    hide FirmwareEntries, FirmwareMemory, AllHold, RestKept, Replay;
  }

  lemma StreamDelivers(r: Ring, u: Ring, user: seq<byte>, images: seq<ImageDesc>)
    requires Inv(r) && Inv(u) && Drained(r) && Drained(u) && LookupsSucceed(images) && InBlob(user, images)
    requires Posted(r, u, OrderEntries(user, images, r.sh.maxBlk, 3))
    requires 0 < u.sh.maxBlk
    ensures Delivered(r, u, Chosen(user, images, DTB), Chosen(user, images, ROOTFS), Chosen(user, images, KERNEL))
  {
    SameShape(r, u, OrderEntries(user, images, r.sh.maxBlk, 3));
    OrderEntriesAreFirmware(user, images, r.sh.maxBlk);
    PrefixExecuted(r, u, OrderEntries(user, images, r.sh.maxBlk, 3));
    hide Inv, Posted, OrderEntries, FirmwareEntries, Chosen, Replay;
  }

  lemma SlotsInAccepted(req: Request)
    requires |req.images| == IMAGE_COUNT && Accepted(req)
    ensures req.slotId < 4
  {}

  lemma FirmwareIsLocal(p: Drv, i: nat, probe: Probe)
    requires |p.devs| == 4 && i < 4 && p.phase == Running && |probe.tries| == MAP_RETRIES
    ensures forall ok: bool ::
      Step(p, Firmware(i, probe, ok)) == PutBack(p, i, FirmwareLocal(At(p, i), probe, ok))
  {}

  /** What success of the ioctl means for the endpoint: it executed the stream, it holds the images if they fit, and
      it knows the length of the root file system if that is below 4 GiB. */
  ghost predicate FirmwareArrived(r: Ring, u: Ring, req: Request, user: seq<byte>)
    requires LookupsSucceed(req.images) && InBlob(user, req.images)
  {
    var dtb, rootfs, kernel := Chosen(user, req.images, 0), Chosen(user, req.images, 1), Chosen(user, req.images, 2);
    && Delivered(r, u, dtb, rootfs, kernel)
    && (LengthsFit(|dtb|, |rootfs|, |kernel|) ==>
          AllHold(u.mem, dtb, rootfs, kernel) && RestKept(r.mem, u.mem, |dtb|, |rootfs|, |kernel|))
    && (InitrdTold(u.trace[|r.trace|..], |rootfs|) <==> |rootfs| < TWO32)
  }

  /** Whatever the ioctl returns: the host posted a prefix of the images' stream, and the endpoint executed a prefix
      of that, and no more. */
  ghost predicate BrokenOff(r: Ring, u: Ring, req: Request, user: seq<byte>, sent: nat)
    requires LookupsSucceed(req.images) && InBlob(user, req.images)
  {
    var es := OrderEntries(user, req.images, r.sh.maxBlk, 3);
    && sent <= |es| && Posted(r, u, es[..sent])
    && r.trace <= u.trace <= r.trace + es[..sent]
    && u.mem == Replay(r.mem, u.trace[|r.trace|..])
  }

  lemma WhateverHappened(r: Ring, u: Ring, req: Request, user: seq<byte>, sent: nat)
    requires Inv(r) && Inv(u) && Drained(r) && LookupsSucceed(req.images) && InBlob(user, req.images)
    requires var es := OrderEntries(user, req.images, r.sh.maxBlk, 3); sent <= |es| && Posted(r, u, es[..sent])
    ensures BrokenOff(r, u, req, user, sent)
  {
    hide OrderEntries;
    var es := OrderEntries(user, req.images, r.sh.maxBlk, 3)[..sent];
    PrefixExecuted(r, u, es);
    hide Inv, Posted, Replay;
    assert u.trace[|r.trace|..] == es[..|u.trace| - |r.trace|];
  }

  lemma StreamArrives(r: Ring, u: Ring, req: Request, user: seq<byte>)
    requires Inv(r) && Inv(u) && Drained(r) && Drained(u) && LookupsSucceed(req.images) && InBlob(user, req.images)
    requires Posted(r, u, OrderEntries(user, req.images, r.sh.maxBlk, 3))
    requires 0 < u.sh.maxBlk
    ensures FirmwareArrived(r, u, req, user)
  {
    StreamDelivers(r, u, user, req.images);
    var dtb, rootfs := Chosen(user, req.images, DTB), Chosen(user, req.images, ROOTFS);
    var kernel := Chosen(user, req.images, KERNEL);
    if LengthsFit(|dtb|, |rootfs|, |kernel|) {
      DeliveryLeavesImagesIntact(r, u, dtb, rootfs, kernel);
    }
    var es := FirmwareEntries(dtb, rootfs, kernel, r.sh.maxBlk);
    InitrdToldExactly(dtb, rootfs, kernel, r.sh.maxBlk);
    assert u.trace[|r.trace|..] == es;
    hide Inv, Posted, OrderEntries, LengthsFit, AllHold, RestKept, InitrdTold, Chosen, FirmwareEntries, Replay;
  }

  lemma NothingHappened(r: Ring, req: Request, user: seq<byte>)
    requires Inv(r) && Drained(r) && LookupsSucceed(req.images) && InBlob(user, req.images)
    ensures BrokenOff(r, r, req, user, 0)
  {
    RelyPostsNothing(r, r);
    hide OrderEntries;
    assert OrderEntries(user, req.images, r.sh.maxBlk, 3)[..0] == [];
    WhateverHappened(r, r, req, user, 0);
  }

  /** The part of the critical section that talks to the endpoint. */
  method Deliver(bar: Bar, mapSize: nat, req: Request, user: seq<byte>, patience: nat, faults: bool)
    returns (ret: Errno, ghost sent: nat)
    requires LookupsSucceed(req.images) && InBlob(user, req.images)
    requires bar.Coming() && Drained(bar.View()) && mapSize <= bar.io.Length
    requires MapTestReliable(bar.View().sh.maxBlk, mapSize)
    requires RoomForRequest(bar.View(), req, user)
    modifies bar`up, bar`slack, bar`mem, bar`trace, bar`posted, bar.io
    ensures bar.Coming() && BrokenOff(old(bar.View()), bar.View(), req, user, sent)
    ensures ret == OK ==> bar.Valid() && FirmwareArrived(old(bar.View()), bar.View(), req, user)
    ensures Explained(ret, CanStart(old(bar.View()).sh, mapSize), bar.Prompt(patience), faults)
         || (ret == ETIMEDOUT && !(old(Ready(bar)) && patience > 0))
  {
    hide Inv, Parse, FirmwareRoom, FirmwareArrived, BrokenOff, LookupsSucceed, InBlob, Posted, OrderEntries;
    hide MapTestReliable, CanStart, ReadyBytes;
    ghost var r := bar.View();
    sent := 0;
    NothingHappened(r, req, user);
    ret := WaitEpReady(bar, patience);
    if ret != OK {
      return;
    }
    ret, sent := TransferAll(bar, mapSize, user, req.images, patience, faults);
    WhateverHappened(r, bar.View(), req, user, sent);
    if ret != OK {
      return;
    }
    ghost var all := OrderEntries(user, req.images, r.sh.maxBlk, 3);
    assert all[..sent] == all;
    StreamArrives(r, bar.View(), req, user);
  }

  /** What the critical section returns: the slot's own refusals, then the refresh's error, then the transfers'. */
  ghost predicate IoctlResult(ret: Errno, s: Slot, probe: Probe, sh: Shared, ready: bool, prompt: bool, faults: bool) {
    var (t, err) := Refresh(s, probe);
    if !s.inUse then ret == ENODEV
    else if s.state != DISCONNECTED then ret == EBUSY
    else if err != OK then ret == err
    else Explained(ret, CanStart(sh, t.bootLen), prompt, faults) || (ret == ETIMEDOUT && !ready)
  }

  /** pcie_ioctl_xfer_firmware.  entered tells whether the request got as far as the mutex.  The slot goes from
      DISCONNECTED to BOOTING exactly when the ioctl succeeds, and then the endpoint has executed exactly the command
      stream of the three images, KERNEL's SET command last; on every failure the slot's state stays as it was.  It does
      succeed when nothing speaks against it. */
  method XferFirmware(plat: Platform, bar: Bar, req: Request, user: seq<byte>, probe: Probe, patience: nat,
                      faults: bool)
    returns (ret: Errno, hot: bool, ghost entered: bool, ghost sent: nat)
    requires plat.Valid() && plat.phase == Running && |probe.tries| == MAP_RETRIES
    requires |req.images| == IMAGE_COUNT && |user| == req.fwSize && KindsInRange(req.images)
    requires bar.Coming() && Drained(bar.View())
    requires req.slotId < 4 ==>
      var mapSize := Refresh(plat.devs[req.slotId], probe).0.bootLen;
      mapSize <= bar.io.Length && MapTestReliable(bar.View().sh.maxBlk, mapSize)
    requires RoomForRequest(bar.View(), req, user)
    modifies plat`tally, plat.devs, bar`up, bar`slack, bar`mem, bar`trace, bar`posted, bar.io
    ensures plat.Valid() && bar.Coming() && (ret == OK ==> bar.Valid())
    ensures entered ==> Accepted(req)
    ensures !entered ==> (ret == EINVAL && !Accepted(req)) || (ret == EFAULT && faults)
    ensures !entered ==> plat.View() == old(plat.View()) && bar.View() == old(bar.View())
    ensures entered ==> plat.View() == Step(old(plat.View()), Firmware(req.slotId, probe, ret == OK))
    ensures entered ==>
      IoctlResult(ret, old(plat.devs[req.slotId]), probe, old(bar.View()).sh, old(Ready(bar)) && patience > 0,
                  bar.Prompt(patience), faults)
    ensures
      && !faults && Accepted(req)
      && old(plat.devs[req.slotId]).inUse && old(plat.devs[req.slotId]).state == DISCONNECTED
      && Refresh(old(plat.devs[req.slotId]), probe).1 == OK && old(Ready(bar)) && bar.Prompt(patience)
      && CanStart(old(bar.View()).sh, Refresh(old(plat.devs[req.slotId]), probe).0.bootLen)
      ==> ret == OK && plat.devs[req.slotId].state == BOOTING
    ensures ret == OK ==>
      && entered && hot && old(plat.devs[req.slotId]).state == DISCONNECTED
      && plat.devs[req.slotId].state == BOOTING && plat.devs[req.slotId].pending
    ensures ret == OK ==>
      && LookupsSucceed(req.images) && InBlob(user, req.images)
      && FirmwareArrived(old(bar.View()), bar.View(), req, user)
    ensures entered ==>
      && LookupsSucceed(req.images) && InBlob(user, req.images)
      && BrokenOff(old(bar.View()), bar.View(), req, user, sent)
    ensures ret != OK ==> !hot && forall i :: 0 <= i < 4 ==> plat.devs[i].state == old(plat.devs[i]).state
  {
    hide Inv, Parse, Refresh, Accepted, RoomForRequest, FirmwareArrived, BrokenOff, LookupsSucceed, InBlob, Step;
    hide KindsInRange, MapTestReliable, CanStart, ReadyBytes;
    hot, entered, sent := false, false, 0;
    var fault: bool := *;
    if faults && fault {
      return EFAULT, false, false, 0;
    }
    ret := Validate(req);
    if ret != OK {
      return;
    }
    entered := true;
    AcceptedIsTransferable(req, user);
    SlotsInAccepted(req);
    FirmwareIsLocal(plat.View(), req.slotId, probe);
    NothingHappened(bar.View(), req, user);
    var i := req.slotId;
    assert plat.devs[..][i := plat.devs[i]] == plat.devs[..];
    if !plat.devs[i].inUse {
      return ENODEV, false, true, 0;
    }
    if plat.devs[i].state != DISCONNECTED {
      return EBUSY, false, true, 0;
    }
    SlotTheorems.RefreshFrame(plat.devs[i], probe);
    ret := plat.RefreshBoardInfo(i, probe);
    if ret != OK {
      return;
    }
    ret, sent := Deliver(bar, plat.devs[i].bootLen, req, user, patience, faults);
    if ret != OK {
      return;
    }
    plat.devs[i] := plat.devs[i].(state := BOOTING);
    plat.BootTimeoutSchedule(i);
    hot := plat.devs[i].pdev.Some?;
  }
}
