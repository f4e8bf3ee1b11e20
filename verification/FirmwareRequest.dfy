/** The firmware ioctl's request: validation and image lookup. */
module FirmwareRequest {
  import opened Words
  import opened Images
  import opened SlotSpec
  import opened RingTransfer

  /** struct amba_pci_fw_xfer. */
  datatype Request = Request(slotId: u32, fwSize: u64, fwUserPtr: u64, images: seq<ImageDesc>)

  const IMAGE_COUNT: nat := 3

  /** Transfer order. */
  const ORDER: seq<u32> := [DTB, ROOTFS, KERNEL]

  /** The bit that 1U << type sets: shift counts work modulo 32 on the machines this driver runs on. */
  function BitOf(kind: u32): nat { kind % 32 }

  predicate DescOk(img: ImageDesc, fwSize: u64) {
    img.offset <= fwSize && img.length != 0 && img.length <= fwSize - img.offset
  }

  /** The bits of the first k images; a u32 bitmap is the set of its bits. */
  function Bits(images: seq<ImageDesc>, k: nat): set<nat>
    requires k <= |images|
  {
    if k == 0 then {} else Bits(images, k - 1) + {BitOf(images[k - 1].kind)}
  }

  /** What the ioctl lets through. */
  ghost predicate Accepted(req: Request)
    requires |req.images| == IMAGE_COUNT
  {
    && req.slotId < DEV_MAX && req.fwUserPtr != 0 && req.fwSize != 0
    && (forall i :: 0 <= i < IMAGE_COUNT ==> DescOk(req.images[i], req.fwSize))
    && Bits(req.images, IMAGE_COUNT) == {0, 1, 2}
  }

  /** The checks before the mutex is taken. */
  method Validate(req: Request) returns (ret: Errno)
    requires |req.images| == IMAGE_COUNT
    ensures ret == OK || ret == EINVAL
    ensures ret == OK <==> Accepted(req)
  {
    if req.slotId >= DEV_MAX {
      return EINVAL;
    }
    if req.fwUserPtr == 0 || req.fwSize == 0 {
      return EINVAL;
    }
    var bitmap: set<nat> := {};
    for i := 0 to IMAGE_COUNT
      invariant forall k :: 0 <= k < i ==> DescOk(req.images[k], req.fwSize)
      invariant bitmap == Bits(req.images, i)
    {
      var img := req.images[i];
      if img.offset > req.fwSize || img.length == 0 || img.length > req.fwSize - img.offset {
        return EINVAL;
      }
      bitmap := bitmap + {BitOf(img.kind)};
    }
    if bitmap != {0, 1, 2} {
      return EINVAL;
    }
    return OK;
  }

  /** The first image of a kind. */
  function FindFrom(images: seq<ImageDesc>, kind: u32, i: nat): (r: Option<nat>)
    requires i <= |images|
    ensures r.Some? ==> i <= r.value < |images| && images[r.value].kind == kind
    ensures r.Some? ==> forall k :: i <= k < r.value ==> images[k].kind != kind
    ensures r.None? ==> forall k :: i <= k < |images| ==> images[k].kind != kind
    decreases |images| - i
  {
    if i == |images| then None
    else if images[i].kind == kind then Some(i)
    else FindFrom(images, kind, i + 1)
  }

  /** pcie_fw_find_image; None stands for the null pointer. */
  method FindImage(images: seq<ImageDesc>, kind: u32) returns (r: Option<nat>)
    ensures r == FindFrom(images, kind, 0)
  {
    for i := 0 to |images|
      invariant FindFrom(images, kind, i) == FindFrom(images, kind, 0)
    {
      if images[i].kind == kind {
        return Some(i);
      }
    }
    return None;
  }

  ghost predicate LookupsSucceed(images: seq<ImageDesc>) {
    FindFrom(images, DTB, 0).Some? && FindFrom(images, ROOTFS, 0).Some? && FindFrom(images, KERNEL, 0).Some?
  }

  ghost predicate KindsInRange(images: seq<ImageDesc>) {
    forall i :: 0 <= i < |images| ==> images[i].kind < 32
  }

  lemma BitsOfThree(images: seq<ImageDesc>)
    requires |images| == IMAGE_COUNT
    ensures Bits(images, 3) == {BitOf(images[0].kind), BitOf(images[1].kind), BitOf(images[2].kind)}
  {
    assert Bits(images, 1) == {BitOf(images[0].kind)};
    assert Bits(images, 2) == {BitOf(images[0].kind), BitOf(images[1].kind)};
  }

  /** What acceptance means, in numbers: a slot below 4, a pointer and a size, three nonempty images inside the blob,
      and kinds that are 0, 1 and 2 modulo 32 in some order. */
  lemma AcceptedExactly(req: Request)
    requires |req.images| == 3
    ensures Accepted(req) <==>
      && req.slotId < 4 && req.fwUserPtr != 0 && req.fwSize != 0
      && (forall i :: 0 <= i < 3 ==>
            req.images[i].length != 0 && req.images[i].offset + req.images[i].length <= req.fwSize)
      && {req.images[0].kind % 32, req.images[1].kind % 32, req.images[2].kind % 32} == {0, 1, 2}
  {
    BitsOfThree(req.images);
    hide Bits;
    forall i | 0 <= i < 3
      ensures DescOk(req.images[i], req.fwSize) <==>
        req.images[i].length != 0 && req.images[i].offset + req.images[i].length <= req.fwSize {}
    hide DescOk;
  }

  /** Three bits that make up {0, 1, 2} are a permutation of it. */
  lemma ThreeBits(a: nat, b: nat, c: nat)
    requires {a, b, c} == {0, 1, 2}
    ensures a < 3 && b < 3 && c < 3 && a != b && b != c && a != c
  {
    assert a in {0, 1, 2} && b in {0, 1, 2} && c in {0, 1, 2};
    assert 0 in {a, b, c} && 1 in {a, b, c} && 2 in {a, b, c};
  }

  /** For an accepted request every lookup of the transfer finds its image exactly when no kind was folded by the
      shift; then the three images found are the three descriptors, in some order. */
  lemma LookupsSucceedExactly(req: Request)
    requires |req.images| == IMAGE_COUNT && Accepted(req)
    ensures LookupsSucceed(req.images) <==> KindsInRange(req.images)
    ensures LookupsSucceed(req.images) ==>
      var d, r, k := FindFrom(req.images, DTB, 0).value, FindFrom(req.images, ROOTFS, 0).value,
                     FindFrom(req.images, KERNEL, 0).value;
      d < 3 && r < 3 && k < 3 && d != r && r != k && d != k
  {
    var im := req.images;
    BitsOfThree(im);
    ThreeBits(BitOf(im[0].kind), BitOf(im[1].kind), BitOf(im[2].kind));
    if KindsInRange(im) {
      assert im[0].kind < 3 && im[1].kind < 3 && im[2].kind < 3;
    }
    if LookupsSucceed(im) {
      var d, r, k := FindFrom(im, DTB, 0).value, FindFrom(im, ROOTFS, 0).value, FindFrom(im, KERNEL, 0).value;
      forall i | 0 <= i < |im| ensures im[i].kind < 32 {
        assert i == d || i == r || i == k;
      }
    }
  }

  /** A request that the ioctl accepts although no lookup can find its DTB: kind 32 sets the same bit as kind 0.  The
      code then goes on with a null pointer. */
  lemma FoldedKindIsAccepted(a: u64, n: u64)
    requires 0 < a && 0 < n
    ensures var req := Request(0, n, a, [ImageDesc(32, 0, n), ImageDesc(1, 0, n), ImageDesc(2, 0, n)]);
      Accepted(req) && FindFrom(req.images, DTB, 0) == None
  {
    var req := Request(0, n, a, [ImageDesc(32, 0, n), ImageDesc(1, 0, n), ImageDesc(2, 0, n)]);
    BitsOfThree(req.images);
    LookupsSucceedExactly(req);
    assert req.images[0].kind == 32;
    assert FindFrom(req.images, DTB, 0) == FindFrom(req.images, DTB, 1) == FindFrom(req.images, DTB, 2);
  }

  /** Every user byte that the chunk loop reads lies inside the blob. */
  lemma UserBytesInBlob(req: Request, i: nat, pos: nat, n: nat)
    requires |req.images| == IMAGE_COUNT && Accepted(req) && i < IMAGE_COUNT
    requires pos < req.images[i].length && n <= req.images[i].length - pos
    ensures req.images[i].offset + pos + n <= req.fwSize
  {
    assert DescOk(req.images[i], req.fwSize);
  }
}
