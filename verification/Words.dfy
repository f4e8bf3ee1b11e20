/** Error codes, machine integers, little-endian register access and endpoint memory. */
module Words {

  datatype Option<+T> = None | Some(value: T)

  /** The kernel's error codes that the driver returns; ECONFIG stands for a PCI config access error. */
  datatype Errno = OK | ENODEV | ENXIO | EIO | EBUSY | EINVAL | EFAULT | ENOMEM | ETIMEDOUT | ECONFIG

  const TWO32: int := 0x1_0000_0000
  const TWO64: int := 0x1_0000_0000_0000_0000

  type byte = x: int | 0 <= x < 0x100
  type u32 = x: int | 0 <= x < 0x1_0000_0000
  type u64 = x: int | 0 <= x < 0x1_0000_0000_0000_0000

  /** Truncation to an unsigned 32-bit register. */
  function Wrap32(x: int): u32 { x % 0x1_0000_0000 }

  /** Numbers less than 2^32 apart are equal when their registers are. */
  lemma WrapInjective(a: int, b: int)
    requires a - 0x1_0000_0000 < b < a + 0x1_0000_0000
    ensures Wrap32(a) == Wrap32(b) <==> a == b
  {}

  lemma WrapSmall(x: int)
    requires 0 <= x < 0x1_0000_0000
    ensures Wrap32(x) == x
  {}

  /** Wrapping intermediate results does not matter. */
  lemma WrapLinear(a: int, b: int)
    ensures Wrap32(Wrap32(a) + b) == Wrap32(a + b)
    ensures Wrap32(Wrap32(a) - b) == Wrap32(a - b)
  {
    assert a == a / 0x1_0000_0000 * 0x1_0000_0000 + Wrap32(a);
  }

  /** Truncation to an unsigned 64-bit value. */
  function Wrap64(x: int): u64 { x % 0x1_0000_0000_0000_0000 }

  lemma WrapLinear64(a: int, b: int)
    ensures Wrap64(Wrap64(a) + b) == Wrap64(a + b)
  {
    assert a == a / 0x1_0000_0000_0000_0000 * 0x1_0000_0000_0000_0000 + Wrap64(a);
  }

  lemma WrapDistance64(addr: nat, n: nat, a: u64)
    requires n < 0x1_0000_0000_0000_0000
    ensures a == Wrap64(addr + n) <==> n == Wrap64(a - addr)
  {}

  /** The u32 that readl finds at byte offset off (little-endian). */
  function Get32(b: seq<byte>, off: nat): u32
    requires off + 4 <= |b|
  {
    var b0: int, b1: int, b2: int, b3: int := b[off], b[off + 1], b[off + 2], b[off + 3];
    b0 + 0x100 * b1 + 0x1_0000 * b2 + 0x100_0000 * b3
  }

  /** The bytes after writel stored v at byte offset off. */
  function Put32(b: seq<byte>, off: nat, v: u32): (r: seq<byte>)
    requires off + 4 <= |b|
    ensures |r| == |b|
    ensures Get32(r, off) == v
    ensures forall i :: 0 <= i < |b| && !(off <= i < off + 4) ==> r[i] == b[i]
  {
    var q1 := v / 0x100;
    var q2 := q1 / 0x100;
    var q3 := q2 / 0x100;
    b[off := v % 0x100][off + 1 := q1 % 0x100][off + 2 := q2 % 0x100][off + 3 := q3]
  }

  /** The four bytes from off on are the number v, lowest byte first. */
  predicate LittleEndian(b: seq<byte>, off: nat, v: int) {
    && off + 4 <= |b|
    && v == b[off] as int + 0x100 * (b[off + 1] as int) + 0x1_0000 * (b[off + 2] as int)
            + 0x100_0000 * (b[off + 3] as int)
  }

  lemma WordIsLittleEndian(b: seq<byte>, off: nat, v: u32)
    requires off + 4 <= |b|
    ensures LittleEndian(b, off, v) <==> Get32(b, off) == v
  {}

  /** Bytes are the digits of a word: equal words, equal bytes. */
  lemma SameDigits(b: seq<byte>, c: seq<byte>, off: nat)
    requires off + 4 <= |b| && off + 4 <= |c| && Get32(b, off) == Get32(c, off)
    ensures b[off] == c[off] && b[off + 1] == c[off + 1] && b[off + 2] == c[off + 2] && b[off + 3] == c[off + 3]
  {
    var b0: int, b1: int, b2: int, b3: int := b[off], b[off + 1], b[off + 2], b[off + 3];
    var c0: int, c1: int, c2: int, c3: int := c[off], c[off + 1], c[off + 2], c[off + 3];
    assert b0 - c0 == 0x100 * (c1 - b1 + 0x100 * (c2 - b2) + 0x1_0000 * (c3 - b3));
    assert b0 == c0;
    assert b1 - c1 == 0x100 * (c2 - b2 + 0x100 * (c3 - b3));
    assert b1 == c1;
  }

  lemma SameWord(b: seq<byte>, c: seq<byte>, off: nat)
    requires |b| == |c| && off + 4 <= |b| && Get32(b, off) == Get32(c, off)
    requires forall i :: 0 <= i < |b| && !(off <= i < off + 4) ==> b[i] == c[i]
    ensures b == c
  {
    SameDigits(b, c, off);
    hide Get32;
  }

  /** Writing back what is there changes nothing, and only the last of two writes counts. */
  lemma PutSame(b: seq<byte>, off: nat)
    requires off + 4 <= |b|
    ensures Put32(b, off, Get32(b, off)) == b
  {
    hide Get32, Put32;
    SameWord(Put32(b, off, Get32(b, off)), b, off);
  }

  lemma PutTwice(b: seq<byte>, off: nat, v: u32, w: u32)
    requires off + 4 <= |b|
    ensures Put32(Put32(b, off, v), off, w) == Put32(b, off, w)
  {
    hide Get32, Put32;
    SameWord(Put32(Put32(b, off, v), off, w), Put32(b, off, w), off);
  }

  lemma GetAfterPut(b: seq<byte>, off: nat, v: u32, at: nat)
    requires off + 4 <= |b| && at + 4 <= |b| && (at + 4 <= off || off + 4 <= at)
    ensures Get32(Put32(b, off, v), at) == Get32(b, at)
  {}

  /** The bytes after writeb stored x at byte offset off. */
  function SetByte(b: seq<byte>, off: nat, x: byte): seq<byte>
    requires off < |b|
  {
    b[off := x]
  }

  /** Endpoint memory: addresses are 64 bits wide. */
  type Memory = map<u64, byte>

  /** Memory after the bytes bs were stored one by one from address addr upwards; addresses wrap at 2^64. */
  function Store(mem: Memory, addr: nat, bs: seq<byte>): Memory
    decreases |bs|
  {
    if bs == [] then mem
    else
      var n := |bs| - 1;
      Store(mem, addr, bs[..n])[Wrap64(addr + n) := bs[n]]
  }

  /** Only the low 64 bits of the start address matter. */
  lemma {:induction false} StoreWraps(mem: Memory, addr: nat, bs: seq<byte>)
    ensures Store(mem, Wrap64(addr), bs) == Store(mem, addr, bs)
    decreases |bs|
  {
    if bs != [] {
      var n := |bs| - 1;
      StoreWraps(mem, addr, bs[..n]);
      WrapLinear64(addr, n);
      hide Wrap64;
    }
  }

  /** Byte a of the memory after storing bs at addr: the byte of bs that falls on it, or what was there. */
  lemma {:induction false} StoreByte(mem: Memory, addr: nat, bs: seq<byte>, a: u64)
    requires |bs| <= TWO64
    ensures var i, r := Wrap64(a - addr), Store(mem, addr, bs);
      && (i < |bs| ==> a in r && r[a] == bs[i])
      && (i >= |bs| ==> (a in r <==> a in mem) && (a in mem ==> r[a] == mem[a]))
    decreases |bs|
  {
    if bs != [] {
      var n := |bs| - 1;
      StoreByte(mem, addr, bs[..n], a);
      WrapDistance64(addr, n, a);
      hide Wrap64;
    }
  }

  /** The bytes bs lie at addr and upwards, and every other byte of memory is as before. */
  ghost predicate StoredFlat(before: Memory, after: Memory, addr: nat, bs: seq<byte>) {
    && (forall i: nat :: i < |bs| ==> HoldsAt(after, addr, bs, i))
    && (forall a: u64 :: !(addr <= a < addr + |bs|) ==> SameAt(before, after, a))
  }

  ghost predicate HoldsAt(mem: Memory, addr: nat, bs: seq<byte>, i: nat)
    requires i < |bs|
  {
    addr + i in mem && mem[addr + i] == bs[i]
  }

  ghost predicate SameAt(before: Memory, after: Memory, a: u64) {
    (a in after <==> a in before) && (a in before ==> after[a] == before[a])
  }

  lemma StoreIsFlat(mem: Memory, addr: nat, bs: seq<byte>)
    requires addr + |bs| <= TWO64
    ensures StoredFlat(mem, Store(mem, addr, bs), addr, bs)
  {
    forall i: nat | i < |bs| ensures HoldsAt(Store(mem, addr, bs), addr, bs, i) {
      StoreByte(mem, addr, bs, addr + i);
      hide Store;
    }
    forall a: u64 | !(addr <= a < addr + |bs|) ensures SameAt(mem, Store(mem, addr, bs), a) {
      StoreByte(mem, addr, bs, a);
      hide Store;
    }
  }

  /** Nothing lies beyond the last address, whatever memory contains. */
  lemma NothingAboveTop(mem: Memory, addr: nat, bs: seq<byte>)
    requires addr < TWO64 < addr + |bs|
    ensures !HoldsAt(mem, addr, bs, TWO64 - addr)
  {
    assert TWO64 !in mem;
  }

  /** Storing is a flat copy, whatever the bytes and whatever was there, exactly when the bytes end by 2^64. */
  lemma StoreIsFlatExactly(mem: Memory, addr: u64, bs: seq<byte>)
    ensures StoredFlat(mem, Store(mem, addr, bs), addr, bs) <==> addr + |bs| <= TWO64
  {
    if addr + |bs| <= TWO64 { StoreIsFlat(mem, addr, bs); } else { NothingAboveTop(Store(mem, addr, bs), addr, bs); }
  }

  /** Two adjacent stores are one store of the concatenation. */
  lemma {:induction false} StoreAdjacent(mem: Memory, addr: nat, x: seq<byte>, y: seq<byte>)
    ensures Store(Store(mem, addr, x), addr + |x|, y) == Store(mem, addr, x + y)
    decreases |y|
  {
    if y == [] {
      assert x + y == x;
    } else {
      var n := |y| - 1;
      StoreAdjacent(mem, addr, x, y[..n]);
      assert (x + y)[..|x| + n] == x + y[..n];
    }
  }

  /** Residues of two numbers less than n apart differ. */
  lemma NearResiduesDiffer(a: int, b: int, n: nat)
    requires a < b < a + n
    ensures a % n != b % n
  {
    if a % n == b % n {
      var d := b / n - a / n;
      assert b - a == d * n by {
        assert a == a / n * n + a % n && b == b / n * n + b % n;
        assert d * n == b / n * n - a / n * n;
      }
      if d >= 1 { MulAtLeast(d, n); } else { MulNonPositive(d, n); }
    }
  }

  lemma MulAtLeast(k: int, n: nat)
    requires k >= 1
    ensures k * n >= n
  {
    assert k * n == (k - 1) * n + n;
    assert (k - 1) * n >= 0;
  }

  lemma MulAtMost(k: int, n: nat)
    requires k <= -1
    ensures k * n + n <= 0
  {
    MulAtLeast(-k, n);
    assert (-k) * n == -(k * n);
  }

  lemma MulNonPositive(k: int, n: nat)
    requires k <= 0
    ensures k * n <= 0
  {}

  lemma UniqueResidue(x: int, q: int, r: int, n: nat)
    requires n > 0 && 0 <= r < n && x == q * n + r
    ensures x % n == r && x / n == q
  {
    var q', r' := x / n, x % n;
    var d := q - q';
    assert d * n == r' - r by {
      assert x == q' * n + r';
      assert d * n == q * n - q' * n;
    }
    if d >= 1 {
      MulAtLeast(d, n);
    } else if d <= -1 {
      MulAtMost(d, n);
    }
  }

  /** Equal residues mean that the difference is a multiple. */
  lemma SameResidue(a: int, b: int, n: nat)
    requires n > 0
    ensures a % n == b % n <==> (b - a) % n == 0
  {
    var k := b / n - a / n;
    assert b - a == k * n + (b % n - a % n) by {
      assert a == a / n * n + a % n && b == b / n * n + b % n;
      assert k * n == b / n * n - a / n * n;
    }
    if a % n == b % n {
      UniqueResidue(b - a, k, 0, n);
    } else if (b - a) % n == 0 {
      var j := (b - a) / n;
      assert b - a == j * n;
      assert b == (j + a / n) * n + a % n by { assert (j + a / n) * n == j * n + a / n * n; }
      UniqueResidue(b, j + a / n, a % n, n);
    }
  }

  /** Two positions less than n apart select the same one of n places, after truncation to 32 bits, exactly when
      a wrap-around lies between them and their distance is the remainder of 2^32 by n. */
  lemma WrappedCollision(p: nat, q: nat, n: u32)
    requires p < q < p + n
    ensures Wrap32(p) % n == Wrap32(q) % n
       <==> p / 0x1_0000_0000 != q / 0x1_0000_0000 && q - p == 0x1_0000_0000 % n
  {
    var a, b, d := Wrap32(p), Wrap32(q), q - p;
    if p / 0x1_0000_0000 == q / 0x1_0000_0000 {
      NearResiduesDiffer(a, b, n);
    } else {
      assert a - b == 0x1_0000_0000 - d;
      SameResidue(b, a, n);
      SameResidue(d, 0x1_0000_0000, n);
      UniqueResidue(d, 0, d, n);
    }
  }
}
