/** Firmware images: where they are loaded, how they are cut into chunks, and what a complete transfer leaves behind. */
module Images {
  import opened Words
  import opened RingSpec

  const DTB: u32 := 0
  const ROOTFS: u32 := 1
  const KERNEL: u32 := 2

  const KERNEL_ADDR: u64 := 0x0200_0000
  const DTB_ADDR: u64 := 0x0600_0000
  const ROOTFS_ADDR: u64 := 0x0620_0000

  /** An image as the kernel can describe it: its length is a u64. */
  type image = b: seq<byte> | |b| < 0x1_0000_0000_0000_0000 witness []

  function LoadAddr(kind: u32): u64 {
    if kind == DTB then DTB_ADDR
    else if kind == ROOTFS then ROOTFS_ADDR
    else if kind == KERNEL then KERNEL_ADDR
    else 0
  }

  function SetCommand(kind: u32): u32 {
    if kind == KERNEL then CMD_SET_LNX
    else if kind == DTB then CMD_SET_DTB
    else if kind == ROOTFS then CMD_SET_INITRD
    else 0
  }

  // ---------------------------------------------------------------- chunks

  /** The number of bytes streamed for len bytes of image, in 64-bit arithmetic. */
  function Total(len: u64): u64 { Wrap64(len + 15) / 16 * 16 }

  function ChunkSize(pos: nat, total: nat): nat
    requires pos <= total
  {
    if total - pos < 512 then total - pos else 512
  }

  /** The padded length is the least multiple of 16 not below len exactly up to 2^64 - 16;
      above that it is 0 and no data is sent at all. */
  lemma TotalIsExact(len: u64)
    ensures Total(len) % 16 == 0
    ensures len <= Total(len) < len + 16 <==> len <= 0xffff_ffff_ffff_fff0
    ensures len > 0xffff_ffff_ffff_fff0 ==> Total(len) == 0
  {}

  /** At every chunk boundary of the loop: the chunk is a positive multiple of 16, it starts inside the image (so the
      all-padding branch is never taken), and only the last chunk can be short or padded. */
  lemma ChunkShape(len: u64, pos: nat)
    requires pos % 512 == 0 && pos < Total(len)
    ensures var n, end := ChunkSize(pos, Total(len)), pos + ChunkSize(pos, Total(len));
      && 0 < n <= 512 && n % 16 == 0
      && pos < len
      && (end < Total(len) ==> n == 512 && end <= len)
      && (end > len || n < 512 ==> end == Total(len))
  {
    TotalIsExact(len);
    hide Total;
    ChunkShapeInUnits(len, Total(len) / 16, pos / 512);
  }

  /** The same with the total counted in units of 16 and the position in units of 512. */
  lemma ChunkShapeInUnits(len: nat, units: nat, k: nat)
    requires len <= 16 * units < len + 16 && 512 * k < 16 * units
    ensures var total, pos := 16 * units, 512 * k;
      var n, end := ChunkSize(pos, total), pos + ChunkSize(pos, total);
      && 0 < n <= 512 && n % 16 == 0
      && pos < len
      && (end < total ==> n == 512 && end <= len)
      && (end > len || n < 512 ==> end == total)
  {
    assert 16 * units - 512 * k == 16 * (units - 32 * k);
  }

  /** The bytes that go over the ring: the image and its zero padding. */
  function Streamed(img: image): (r: seq<byte>)
    ensures |r| == Total(|img|)
    ensures forall i :: 0 <= i < |r| ==> r[i] == if i < |img| then img[i] else 0
  {
    seq(Total(|img|), i requires 0 <= i => if i < |img| then img[i] else 0)
  }

  function Chunks(n: nat): nat { (n + 511) / 512 }

  /** The DATA entry for chunk j of a stream. */
  function ChunkEntry(data: seq<byte>, load: u64, maxBlk: u32, j: nat): Entry
    requires maxBlk > 0 && 512 * j < |data|
  {
    var n := ChunkSize(512 * j, |data|);
    Entry(CMD_DATA, n, Wrap64(load + 512 * j), SlotOf(Wrap32(j), maxBlk), data[512 * j..512 * j + n])
  }

  /** The entries for the first k chunks. */
  function DataEntries(data: seq<byte>, load: u64, maxBlk: u32, k: nat): (es: seq<Entry>)
    requires maxBlk > 0 && k <= Chunks(|data|)
    ensures |es| == k
  {
    if k == 0 then [] else DataEntries(data, load, maxBlk, k - 1) + [ChunkEntry(data, load, maxBlk, k - 1)]
  }

  /** The command after the data: where the image is, and for the root file system its unpadded length. */
  function TailEntry(kind: u32, len: u64): Entry {
    Entry(SetCommand(kind), if kind == ROOTFS then Wrap32(len) else 0, LoadAddr(kind), 0, [])
  }

  /** Everything that one successful transfer posts. */
  function ImageEntries(kind: u32, img: image, maxBlk: u32): (es: seq<Entry>)
    requires maxBlk > 0
    ensures |es| == Chunks(Total(|img|)) + 1
  {
    var data := Streamed(img);
    DataEntries(data, LoadAddr(kind), maxBlk, Chunks(|data|)) + [TailEntry(kind, |img|)]
  }

  /** What a transfer is meant to post on a ring with this many blocks (with none it cannot even start). */
  function ImageStream(kind: u32, img: image, maxBlk: u32): seq<Entry> {
    if maxBlk == 0 then [] else ImageEntries(kind, img, maxBlk)
  }

  // ---------------------------------------------------------------- replay

  lemma {:induction false} ReplayConcat(mem: Memory, a: seq<Entry>, b: seq<Entry>)
    ensures Replay(mem, a + b) == Replay(Replay(mem, a), b)
    decreases |b|
  {
    if b == [] {
      assert a + b == a;
    } else {
      var n := |b| - 1;
      assert (a + b)[..|a + b| - 1] == a + b[..n];
      ReplayConcat(mem, a, b[..n]);
    }
  }

  /** The number of bytes that the first k chunks cover. */
  function Covered(n: nat, k: nat): (c: nat)
    ensures c <= n
  {
    if 512 * k < n then 512 * k else n
  }

  lemma ApplyData(mem: Memory, load: nat, x: seq<byte>, e: Entry)
    requires e.cmd == CMD_DATA && e.addr == Wrap64(load + |x|)
    ensures Apply(Store(mem, load, x), e) == Store(mem, load, x + e.payload)
  {
    StoreWraps(Store(mem, load, x), load + |x|, e.payload);
    StoreAdjacent(mem, load, x, e.payload);
    hide Store, Wrap64;
  }

  lemma ApplyChunk(mem: Memory, data: seq<byte>, load: u64, maxBlk: u32, j: nat)
    requires maxBlk > 0 && 512 * j < |data|
    ensures Apply(Store(mem, load, data[..512 * j]), ChunkEntry(data, load, maxBlk, j))
         == Store(mem, load, data[..Covered(|data|, j + 1)])
  {
    ApplyData(mem, load, data[..512 * j], ChunkEntry(data, load, maxBlk, j));
    hide Store, Apply, SlotOf, Wrap32, Wrap64;
    assert data[..512 * j] + ChunkEntry(data, load, maxBlk, j).payload == data[..Covered(|data|, j + 1)];
  }

  /** Executing the first k chunks is one store of the bytes they cover, at every load address. */
  lemma {:induction false} ReplayChunks(mem: Memory, data: seq<byte>, load: u64, maxBlk: u32, k: nat)
    requires maxBlk > 0 && k <= Chunks(|data|)
    ensures Replay(mem, DataEntries(data, load, maxBlk, k)) == Store(mem, load, data[..Covered(|data|, k)])
    decreases k
  {
    if k > 0 {
      var es, e := DataEntries(data, load, maxBlk, k - 1), ChunkEntry(data, load, maxBlk, k - 1);
      assert (es + [e])[..k - 1] == es;
      ReplayChunks(mem, data, load, maxBlk, k - 1);
      ApplyChunk(mem, data, load, maxBlk, k - 1);
      hide Apply, Store, ChunkEntry;
    }
  }

  lemma ReplayTail(mem: Memory, kind: u32, len: u64)
    ensures Replay(mem, [TailEntry(kind, len)]) == mem
  {
    assert [TailEntry(kind, len)][..0] == [];
  }

  /** Refinement of the chunked transfer: executing one image's entries is one store of the padded image at its load
      address. */
  lemma ReplayImage(mem: Memory, kind: u32, img: image, maxBlk: u32)
    requires maxBlk > 0
    ensures Replay(mem, ImageEntries(kind, img, maxBlk)) == Store(mem, LoadAddr(kind), Streamed(img))
  {
    hide Store, Replay, TailEntry, LoadAddr, DataEntries, Streamed, Total;
    var data := Streamed(img);
    ReplayChunks(mem, data, LoadAddr(kind), maxBlk, Chunks(|data|));
    assert data[..|data|] == data;
    ReplayConcat(mem, DataEntries(data, LoadAddr(kind), maxBlk, Chunks(|data|)), [TailEntry(kind, |img|)]);
    ReplayTail(Store(mem, LoadAddr(kind), data), kind, |img|);
  }

  // --------------------------------------------------------- three images

  /** The whole command stream of a firmware transfer, in transfer order. */
  function FirmwareEntries(dtb: image, rootfs: image, kernel: image, maxBlk: u32): seq<Entry>
    requires maxBlk > 0
  {
    ImageEntries(DTB, dtb, maxBlk) + ImageEntries(ROOTFS, rootfs, maxBlk) + ImageEntries(KERNEL, kernel, maxBlk)
  }

  /** The commands in a stream of entries, data left out. */
  function Commands(es: seq<Entry>): seq<Entry> {
    if es == [] then []
    else
      var init, last := es[..|es| - 1], es[|es| - 1];
      if last.cmd == CMD_DATA then Commands(init) else Commands(init) + [last]
  }

  lemma {:induction false} CommandsConcat(a: seq<Entry>, b: seq<Entry>)
    ensures Commands(a + b) == Commands(a) + Commands(b)
    decreases |b|
  {
    if b == [] {
      assert a + b == a;
    } else {
      assert (a + b)[..|a + b| - 1] == a + b[..|b| - 1];
      CommandsConcat(a, b[..|b| - 1]);
    }
  }

  lemma {:induction false} NoCommandsInData(data: seq<byte>, load: u64, maxBlk: u32, k: nat)
    requires maxBlk > 0 && k <= Chunks(|data|)
    ensures Commands(DataEntries(data, load, maxBlk, k)) == []
    decreases k
  {
    if k > 0 {
      NoCommandsInData(data, load, maxBlk, k - 1);
      assert DataEntries(data, load, maxBlk, k)[..k - 1] == DataEntries(data, load, maxBlk, k - 1);
    }
  }

  lemma OneCommandPerImage(kind: u32, img: image, maxBlk: u32)
    requires maxBlk > 0
    ensures Commands(ImageEntries(kind, img, maxBlk)) == [TailEntry(kind, |img|)]
    ensures var es := ImageEntries(kind, img, maxBlk); es[|es| - 1] == TailEntry(kind, |img|)
  {
    var data, tail := Streamed(img), TailEntry(kind, |img|);
    NoCommandsInData(data, LoadAddr(kind), maxBlk, Chunks(|data|));
    CommandsConcat(DataEntries(data, LoadAddr(kind), maxBlk, Chunks(|data|)), [tail]);
    assert [tail][..0] == [];
  }

  /** The EP gets exactly three commands, in this order: where the DTB is, where the root file system is with its
      unpadded length (truncated to 32 bits), and last of all where the kernel is. */
  lemma CommandOrder(dtb: image, rootfs: image, kernel: image, maxBlk: u32)
    requires maxBlk > 0
    ensures var es := FirmwareEntries(dtb, rootfs, kernel, maxBlk);
      && Commands(es) == [Entry(3, 0, 0x0600_0000, 0, []), Entry(5, |rootfs| % 0x1_0000_0000, 0x0620_0000, 0, []),
                          Entry(4, 0, 0x0200_0000, 0, [])]
      && es[|es| - 1] == Entry(4, 0, 0x0200_0000, 0, [])
  {
    hide Commands, ImageEntries;
    var d, r, k := ImageEntries(DTB, dtb, maxBlk), ImageEntries(ROOTFS, rootfs, maxBlk),
                   ImageEntries(KERNEL, kernel, maxBlk);
    CommandsConcat(d + r, k);
    CommandsConcat(d, r);
    OneCommandPerImage(DTB, dtb, maxBlk);
    OneCommandPerImage(ROOTFS, rootfs, maxBlk);
    OneCommandPerImage(KERNEL, kernel, maxBlk);
  }

  /** The EP is told that the root file system has n bytes. */
  ghost predicate InitrdTold(es: seq<Entry>, n: nat) {
    exists e :: e in Commands(es) && e.cmd == CMD_SET_INITRD && e.size == n
  }

  /** The EP learns the true length of the root file system exactly below 4 GiB; from there on the length it is told
      lacks the upper 32 bits. */
  lemma InitrdToldExactly(dtb: image, rootfs: image, kernel: image, maxBlk: u32)
    requires maxBlk > 0
    ensures InitrdTold(FirmwareEntries(dtb, rootfs, kernel, maxBlk), |rootfs|) <==> |rootfs| < TWO32
    ensures |rootfs| == TWO32 ==> InitrdTold(FirmwareEntries(dtb, rootfs, kernel, maxBlk), 0)
  {
    hide Commands, FirmwareEntries;
    CommandOrder(dtb, rootfs, kernel, maxBlk);
    var cs := Commands(FirmwareEntries(dtb, rootfs, kernel, maxBlk));
    assert cs[1] in cs && cs[1].size == |rootfs| % 0x1_0000_0000;
    assert forall e :: e in cs ==> e == cs[0] || e == cs[1] || e == cs[2];
  }

  /** EP memory after the three images were stored one after the other. */
  function FirmwareMemory(mem: Memory, dtb: image, rootfs: image, kernel: image): Memory {
    Store(Store(Store(mem, DTB_ADDR, Streamed(dtb)), ROOTFS_ADDR, Streamed(rootfs)), KERNEL_ADDR, Streamed(kernel))
  }

  lemma ReplayFirmware(mem: Memory, dtb: image, rootfs: image, kernel: image, maxBlk: u32)
    requires maxBlk > 0
    ensures Replay(mem, FirmwareEntries(dtb, rootfs, kernel, maxBlk)) == FirmwareMemory(mem, dtb, rootfs, kernel)
         == Store(Store(Store(mem, 0x0600_0000, Streamed(dtb)), 0x0620_0000, Streamed(rootfs)),
                  0x0200_0000, Streamed(kernel))
  {
    var d, r := ImageEntries(DTB, dtb, maxBlk), ImageEntries(ROOTFS, rootfs, maxBlk);
    ReplayConcat(mem, d + r, ImageEntries(KERNEL, kernel, maxBlk));
    ReplayConcat(mem, d, r);
    ReplayImage(mem, DTB, dtb, maxBlk);
    ReplayImage(Replay(mem, d), ROOTFS, rootfs, maxBlk);
    ReplayImage(Replay(Replay(mem, d), r), KERNEL, kernel, maxBlk);
  }

  /** The image is in memory, byte for byte. */
  ghost predicate Holds(mem: Memory, addr: nat, img: seq<byte>) {
    forall i: nat :: i < |img| ==> HoldsAt(mem, addr, img, i)
  }

  ghost predicate AllHold(mem: Memory, dtb: image, rootfs: image, kernel: image) {
    Holds(mem, 0x0600_0000, dtb) && Holds(mem, 0x0620_0000, rootfs) && Holds(mem, 0x0200_0000, kernel)
  }

  /** The lengths for which the images stay apart: the kernel ends below the DTB, the DTB below the root file system,
      and the root file system at the top of the address space at the latest. */
  predicate LengthsFit(dtbLen: nat, rootfsLen: nat, kernelLen: nat) {
    dtbLen <= 0x20_0000 && kernelLen <= 0x400_0000 && 0x0620_0000 + rootfsLen <= 0x1_0000_0000_0000_0000
  }

  /** An image that ends by 2^64 does so with its padding. */
  lemma PaddingFits(addr: u64, len: nat)
    requires addr % 16 == 0 && addr >= 16 && addr + len <= TWO64
    ensures len <= Total(len) && addr + Total(len) <= TWO64
  {}

  lemma StoredImageHolds(mem: Memory, addr: u64, img: image)
    requires addr % 16 == 0 && addr >= 16 && addr + |img| <= TWO64
    ensures Holds(Store(mem, addr, Streamed(img)), addr, img)
  {
    PaddingFits(addr, |img|);
    StoreIsFlat(mem, addr, Streamed(img));
    hide Store, Total;
    forall i: nat | i < |img| ensures HoldsAt(Store(mem, addr, Streamed(img)), addr, img, i) {
      assert HoldsAt(Store(mem, addr, Streamed(img)), addr, Streamed(img), i);
    }
  }

  lemma StoreElsewhereKeeps(mem: Memory, addr: nat, img: seq<byte>, at: nat, bs: seq<byte>)
    requires Holds(mem, addr, img) && at + |bs| <= TWO64 && (addr + |img| <= at || at + |bs| <= addr)
    ensures Holds(Store(mem, at, bs), addr, img)
  {
    StoreIsFlat(mem, at, bs);
    hide Store;
    forall i: nat | i < |img| ensures HoldsAt(Store(mem, at, bs), addr, img, i) {
      assert HoldsAt(mem, addr, img, i) && SameAt(mem, Store(mem, at, bs), addr + i);
    }
  }

  /** Later images do not clobber earlier ones, nor do they wrap around, when their lengths fit. */
  lemma ImagesDoNotClobber(mem: Memory, dtb: image, rootfs: image, kernel: image)
    requires LengthsFit(|dtb|, |rootfs|, |kernel|)
    ensures AllHold(FirmwareMemory(mem, dtb, rootfs, kernel), dtb, rootfs, kernel)
  {
    var m1 := Store(mem, DTB_ADDR, Streamed(dtb));
    var m2 := Store(m1, ROOTFS_ADDR, Streamed(rootfs));
    PaddingFits(ROOTFS_ADDR, |rootfs|);
    assert Total(|kernel|) <= 0x400_0000;
    StoredImageHolds(mem, DTB_ADDR, dtb);
    StoredImageHolds(m1, ROOTFS_ADDR, rootfs);
    StoredImageHolds(m2, KERNEL_ADDR, kernel);
    StoreElsewhereKeeps(m1, DTB_ADDR, dtb, ROOTFS_ADDR, Streamed(rootfs));
    StoreElsewhereKeeps(m2, DTB_ADDR, dtb, KERNEL_ADDR, Streamed(kernel));
    StoreElsewhereKeeps(m2, ROOTFS_ADDR, rootfs, KERNEL_ADDR, Streamed(kernel));
    hide Store, Holds, Streamed;
  }

  /** Address a belongs to none of the three padded images. */
  predicate Outside(a: u64, dtbLen: u64, rootfsLen: u64, kernelLen: u64) {
    && !(0x0600_0000 <= a < 0x0600_0000 + Total(dtbLen))
    && !(0x0620_0000 <= a < 0x0620_0000 + Total(rootfsLen))
    && !(0x0200_0000 <= a < 0x0200_0000 + Total(kernelLen))
  }

  ghost predicate RestKept(before: Memory, after: Memory, dtbLen: u64, rootfsLen: u64, kernelLen: u64) {
    forall a: u64 :: Outside(a, dtbLen, rootfsLen, kernelLen) ==> SameAt(before, after, a)
  }

  /** Memory outside the three padded images is as before. */
  lemma RestUnchanged(mem: Memory, dtb: image, rootfs: image, kernel: image)
    requires LengthsFit(|dtb|, |rootfs|, |kernel|)
    ensures RestKept(mem, FirmwareMemory(mem, dtb, rootfs, kernel), |dtb|, |rootfs|, |kernel|)
  {
    var m1 := Store(mem, DTB_ADDR, Streamed(dtb));
    var m2 := Store(m1, ROOTFS_ADDR, Streamed(rootfs));
    var m3 := FirmwareMemory(mem, dtb, rootfs, kernel);
    PaddingFits(ROOTFS_ADDR, |rootfs|);
    PaddingFits(DTB_ADDR, |dtb|);
    PaddingFits(KERNEL_ADDR, |kernel|);
    StoreIsFlat(mem, DTB_ADDR, Streamed(dtb));
    StoreIsFlat(m1, ROOTFS_ADDR, Streamed(rootfs));
    StoreIsFlat(m2, KERNEL_ADDR, Streamed(kernel));
    hide Store, Streamed, Total, HoldsAt;
    forall a: u64 | Outside(a, |dtb|, |rootfs|, |kernel|) ensures SameAt(mem, m3, a) {
      assert SameAt(mem, m1, a) && SameAt(m1, m2, a) && SameAt(m2, m3, a);
    }
  }

  /** Executing the stream for images of these lengths leaves all three intact, whatever they contain. */
  ghost predicate LengthsAreSafe(dtbLen: nat, rootfsLen: nat, kernelLen: nat) {
    forall mem: Memory, dtb: image, rootfs: image, kernel: image, maxBlk: u32 ::
      maxBlk > 0 && |dtb| == dtbLen && |rootfs| == rootfsLen && |kernel| == kernelLen ==>
        AllHold(Replay(mem, FirmwareEntries(dtb, rootfs, kernel, maxBlk)), dtb, rootfs, kernel)
  }

  /** The exact bounds, for all lengths that the ioctl lets through. */
  lemma IntactExactly(dtbLen: u64, rootfsLen: u64, kernelLen: u64)
    requires dtbLen > 0 && rootfsLen > 0 && kernelLen > 0
    ensures LengthsAreSafe(dtbLen, rootfsLen, kernelLen) <==> LengthsFit(dtbLen, rootfsLen, kernelLen)
  {
    if LengthsFit(dtbLen, rootfsLen, kernelLen) {
      forall mem: Memory, dtb: image, rootfs: image, kernel: image, maxBlk: u32
        | maxBlk > 0 && |dtb| == dtbLen && |rootfs| == rootfsLen && |kernel| == kernelLen
        ensures AllHold(Replay(mem, FirmwareEntries(dtb, rootfs, kernel, maxBlk)), dtb, rootfs, kernel)
      {
        ReplayFirmware(mem, dtb, rootfs, kernel, maxBlk);
        ImagesDoNotClobber(mem, dtb, rootfs, kernel);
      }
    } else {
      var dtb: image, rootfs: image := seq(dtbLen, _ => 0), seq(rootfsLen, _ => 1);
      var kernel: image := seq(kernelLen, _ => 1);
      ReplayFirmware(map[], dtb, rootfs, kernel, 1);
      LongImagesFail(map[], dtb, rootfs, kernel);
      assert !AllHold(Replay(map[], FirmwareEntries(dtb, rootfs, kernel, 1)), dtb, rootfs, kernel);
    }
  }

  /** An image that reaches beyond 2^64 is never there; otherwise a long kernel or root file system overwrites
      the DTB. */
  lemma LongImagesFail(mem: Memory, dtb: image, rootfs: image, kernel: image)
    requires dtb != [] && rootfs != [] && !LengthsFit(|dtb|, |rootfs|, |kernel|)
    requires forall i :: 0 <= i < |dtb| ==> dtb[i] == 0
    requires forall i :: 0 <= i < |rootfs| ==> rootfs[i] == 1
    requires forall i :: 0 <= i < |kernel| ==> kernel[i] == 1
    ensures !AllHold(FirmwareMemory(mem, dtb, rootfs, kernel), dtb, rootfs, kernel)
  {
    var m := FirmwareMemory(mem, dtb, rootfs, kernel);
    if ROOTFS_ADDR + |rootfs| > TWO64 {
      NothingAboveTop(m, ROOTFS_ADDR, rootfs);
    } else if KERNEL_ADDR + |kernel| > TWO64 {
      NothingAboveTop(m, KERNEL_ADDR, kernel);
    } else if DTB_ADDR + |dtb| > TWO64 {
      NothingAboveTop(m, DTB_ADDR, dtb);
    } else {
      LongImageClobbersDtb(mem, dtb, rootfs, kernel);
    }
  }

  lemma LongImageClobbersDtb(mem: Memory, dtb: image, rootfs: image, kernel: image)
    requires dtb != [] && rootfs != [] && (|kernel| > 0x400_0000 || |dtb| > 0x20_0000)
    requires ROOTFS_ADDR + |rootfs| <= TWO64 && KERNEL_ADDR + |kernel| <= TWO64 && DTB_ADDR + |dtb| <= TWO64
    requires forall i :: 0 <= i < |dtb| ==> dtb[i] == 0
    requires forall i :: 0 <= i < |rootfs| ==> rootfs[i] == 1
    requires forall i :: 0 <= i < |kernel| ==> kernel[i] == 1
    ensures !Holds(FirmwareMemory(mem, dtb, rootfs, kernel), DTB_ADDR, dtb)
  {
    var m := FirmwareMemory(mem, dtb, rootfs, kernel);
    var m1 := Store(mem, DTB_ADDR, Streamed(dtb));
    var m2 := Store(m1, ROOTFS_ADDR, Streamed(rootfs));
    StoredImageHolds(m1, ROOTFS_ADDR, rootfs);
    StoredImageHolds(m2, KERNEL_ADDR, kernel);
    if |kernel| > 0x400_0000 {
      hide Store, Streamed;
      assert HoldsAt(m, KERNEL_ADDR, kernel, 0x400_0000);
      assert !HoldsAt(m, DTB_ADDR, dtb, 0);
    } else {
      assert |Streamed(kernel)| <= 0x400_0000;
      StoreElsewhereKeeps(m2, ROOTFS_ADDR, rootfs, KERNEL_ADDR, Streamed(kernel));
      hide Store, Streamed;
      assert HoldsAt(m, ROOTFS_ADDR, rootfs, 0);
      assert !HoldsAt(m, DTB_ADDR, dtb, 0x20_0000);
    }
  }
}
