/** The on-disk encoding used by programs/mkfs_xv6fs/mkfs_xv6fs.c: little-endian integers, 64-byte
    inodes packed 16 to a block, and bitmap bits. */
module Ondisk {

  const BSIZE: nat := 1024
  const NDIRECT: nat := 11
  const MAXFILE: nat := 267
  const IPB: nat := 16
  const INODE_SIZE: nat := 64
  const BPB: nat := 8192
  const UINT_LIMIT: nat := 0x1_0000_0000

  type byte = x: int | 0 <= x < 256
  type uint32 = x: int | 0 <= x < 0x1_0000_0000
  type uint16 = x: int | 0 <= x < 0x1_0000

  type Block = seq<byte>

  function Zeros(n: nat): (z: seq<byte>)
    ensures |z| == n && forall i :: 0 <= i < n ==> z[i] == 0
  {
    seq(n, _ => 0)
  }

  const ZERO_BLOCK: Block := Zeros(BSIZE)

  /** `buf` with `part` copied in at `at`, as `memmove` into a sector buffer does. */
  function Splice(buf: seq<byte>, at: nat, part: seq<byte>): (r: seq<byte>)
    requires at + |part| <= |buf|
    ensures |r| == |buf|
    ensures forall i :: 0 <= i < |buf| ==> r[i] == if at <= i < at + |part| then part[i - at] else buf[i]
  {
    buf[..at] + part + buf[at + |part|..]
  }

  // ---- little-endian integers (mkfs_xv6fs.c:81-99) ----

  function ShortBytes(v: uint16): (b: seq<byte>)
    ensures |b| == 2
  {
    [v % 256, v / 256]
  }

  function IntBytes(v: uint32): (b: seq<byte>)
    ensures |b| == 4
  {
    [v % 256, v / 256 % 256, v / 65536 % 256, v / 16777216]
  }

  function GetShort(b: seq<byte>, off: nat): uint16
    requires off + 2 <= |b|
  {
    var lo: int, hi: int := b[off], b[off + 1];
    lo + 256 * hi
  }

  function GetInt(b: seq<byte>, off: nat): uint32
    requires off + 4 <= |b|
  {
    var b0: int, b1: int, b2: int, b3: int := b[off], b[off + 1], b[off + 2], b[off + 3];
    b0 + 256 * b1 + 65536 * b2 + 16777216 * b3
  }

  /** `v` made up of four digits to the base 256, the lowest first. */
  predicate FourBytes(v: int, b0: int, b1: int, b2: int, b3: int) {
    v == b0 + 0x100 * b1 + 0x1_0000 * b2 + 0x100_0000 * b3
  }

  /** In `b` at `off` stand the four bytes of `v`, low byte first. */
  ghost predicate HasInt(b: seq<byte>, off: nat, v: int) {
    off + 4 <= |b| && FourBytes(v, b[off], b[off + 1], b[off + 2], b[off + 3])
  }

  ghost predicate HasShort(b: seq<byte>, off: nat, v: int) {
    off + 2 <= |b| && FourBytes(v, b[off], b[off + 1], 0, 0)
  }

  /** The four bytes written for a number are those, and no others are. */
  lemma IntIsLowByteFirst(v: uint32, b: seq<byte>)
    requires |b| == 4
    ensures HasInt(b, 0, v) <==> b == IntBytes(v)
  {
    var x := IntBytes(v);
    Recombine(v);
    if HasInt(b, 0, v) {
      SameDigits(v, b[0], b[1], b[2], b[3], x[0], x[1], x[2], x[3]);
    }
  }

  lemma ShortIsLowByteFirst(v: uint16, b: seq<byte>)
    requires |b| == 2
    ensures HasShort(b, 0, v) <==> b == ShortBytes(v)
  {
    var x := ShortBytes(v);
    assert FourBytes(v, x[0], x[1], 0, 0);
    if HasShort(b, 0, v) {
      SameDigits(v, b[0], b[1], 0, 0, x[0], x[1], 0, 0);
    }
  }

  lemma Recombine(v: nat)
    ensures FourBytes(v, v % 256, v / 256 % 256, v / 65536 % 256, v / 16777216)
  {
    var a := v / 256;
    var c := a / 256;
    assert v / 65536 == c && v / 16777216 == c / 256;
  }

  lemma SameDigits(v: int, a0: int, a1: int, a2: int, a3: int, b0: int, b1: int, b2: int, b3: int)
    requires FourBytes(v, a0, a1, a2, a3) && FourBytes(v, b0, b1, b2, b3)
    requires 0 <= a0 < 256 && 0 <= a1 < 256 && 0 <= a2 < 256 && 0 <= b0 < 256 && 0 <= b1 < 256 && 0 <= b2 < 256
    ensures a0 == b0 && a1 == b1 && a2 == b2 && a3 == b3
  {
    LastDigit(a0, a1 + 0x100 * a2 + 0x1_0000 * a3, b0, b1 + 0x100 * b2 + 0x1_0000 * b3);
    LastDigit(a1, a2 + 0x100 * a3, b1, b2 + 0x100 * b3);
    LastDigit(a2, a3, b2, b3);
  }

  lemma LastDigit(a: int, x: int, b: int, y: int)
    requires a + 256 * x == b + 256 * y && 0 <= a < 256 && 0 <= b < 256
    ensures a == b && x == y
  {
  }

  /** What is read is what stands there. */
  lemma IntRead(b: seq<byte>, off: nat, v: uint32)
    requires off + 4 <= |b|
    ensures HasInt(b, off, v) <==> GetInt(b, off) == v
  {
  }

  lemma ShortRead(b: seq<byte>, off: nat, v: uint16)
    requires off + 2 <= |b|
    ensures HasShort(b, off, v) <==> GetShort(b, off) == v
  {
  }

  lemma IntRoundTrip(v: uint32)
    ensures GetInt(IntBytes(v), 0) == v
  {
    var a: int := v / 256;
    var b: int := a / 256;
    assert v / 65536 == b && v / 16777216 == b / 256;
  }

  lemma ShortRoundTrip(v: uint16)
    ensures GetShort(ShortBytes(v), 0) == v
  {
  }

  /** Reading depends only on the bytes read. */
  lemma SameInt(a: seq<byte>, i: nat, b: seq<byte>, j: nat)
    requires i + 4 <= |a| && j + 4 <= |b| && a[i..i + 4] == b[j..j + 4]
    ensures GetInt(a, i) == GetInt(b, j)
  {
    var x, y := a[i..i + 4], b[j..j + 4];
    assert x[0] == a[i] && x[1] == a[i + 1] && x[2] == a[i + 2] && x[3] == a[i + 3];
    assert y[0] == b[j] && y[1] == b[j + 1] && y[2] == b[j + 2] && y[3] == b[j + 3];
  }

  lemma SpliceInt(buf: seq<byte>, at: nat, v: uint32)
    requires at + 4 <= |buf|
    ensures GetInt(Splice(buf, at, IntBytes(v)), at) == v
  {
    IntRoundTrip(v);
    assert Splice(buf, at, IntBytes(v))[at..at + 4] == IntBytes(v);
    SameInt(Splice(buf, at, IntBytes(v)), at, IntBytes(v), 0);
  }

  lemma ZeroInt(b: seq<byte>, off: nat)
    requires off + 4 <= |b| && forall i :: off <= i < off + 4 ==> b[i] == 0
    ensures GetInt(b, off) == 0
  {
  }

  // ---- inodes ----

  datatype Dinode = Dinode(typ: uint16, major: uint16, minor: uint16, nlink: uint16,
                           size: uint32, addrs: seq<uint32>)

  /** A C `struct dinode` always has its thirteen addresses. */
  predicate Complete(d: Dinode) {
    |d.addrs| == NDIRECT + 2
  }

  function ZeroAddrs(n: nat): (a: seq<uint32>)
    ensures |a| == n && forall i :: 0 <= i < n ==> a[i] == 0
  {
    seq(n, _ => 0)
  }

  const ZERO_INODE: Dinode := Dinode(0, 0, 0, 0, 0, ZeroAddrs(NDIRECT + 2))

  function AddrBytes(addrs: seq<uint32>): (b: seq<byte>)
    ensures |b| == 4 * |addrs|
  {
    if addrs == [] then [] else IntBytes(addrs[0]) + AddrBytes(addrs[1..])
  }

  function EncodeInode(d: Dinode): (b: seq<byte>)
    requires Complete(d)
    ensures |b| == INODE_SIZE
  {
    ShortBytes(d.typ) + ShortBytes(d.major) + ShortBytes(d.minor) + ShortBytes(d.nlink)
    + IntBytes(d.size) + AddrBytes(d.addrs)
  }

  function DecodeInode(b: seq<byte>): (d: Dinode)
    requires |b| == INODE_SIZE
    ensures Complete(d)
  {
    Dinode(GetShort(b, 0), GetShort(b, 2), GetShort(b, 4), GetShort(b, 6), GetInt(b, 8),
           seq(NDIRECT + 2, i requires 0 <= i < NDIRECT + 2 => GetInt(b, 12 + 4 * i)))
  }

  lemma {:induction false} AddrAt(addrs: seq<uint32>, i: nat)
    requires i < |addrs|
    ensures GetInt(AddrBytes(addrs), 4 * i) == addrs[i]
  {
    var b := AddrBytes(addrs);
    if i == 0 {
      IntRoundTrip(addrs[0]);
      SameInt(b, 0, IntBytes(addrs[0]), 0);
    } else {
      AddrAt(addrs[1..], i - 1);
      SameInt(b, 4 * i, AddrBytes(addrs[1..]), 4 * (i - 1));
    }
  }

  /** Decoding what was encoded gives the inode back. */
  lemma {:induction false} InodeRoundTrip(d: Dinode)
    requires Complete(d)
    ensures DecodeInode(EncodeInode(d)) == d
  {
    var b := EncodeInode(d);
    ShortRoundTrip(d.typ);
    ShortRoundTrip(d.major);
    ShortRoundTrip(d.minor);
    ShortRoundTrip(d.nlink);
    IntRoundTrip(d.size);
    assert b[8..12] == IntBytes(d.size);
    SameInt(b, 8, IntBytes(d.size), 0);
    assert b[12..] == AddrBytes(d.addrs);
    forall i | 0 <= i < NDIRECT + 2
      ensures DecodeInode(b).addrs[i] == d.addrs[i]
    {
      AddrAt(d.addrs, i);
      assert b[12 + 4 * i..16 + 4 * i] == b[12..][4 * i..4 * i + 4];
      SameInt(b, 12 + 4 * i, AddrBytes(d.addrs), 4 * i);
    }
  }

  /** The fields of `struct dinode` in 64 bytes, each at its offset. */
  ghost predicate HasInode(b: seq<byte>, off: nat, d: Dinode)
    requires Complete(d)
  {
    && HasShort(b, off, d.typ) && HasShort(b, off + 2, d.major) && HasShort(b, off + 4, d.minor)
    && HasShort(b, off + 6, d.nlink) && HasInt(b, off + 8, d.size)
    && forall i :: 0 <= i < 13 ==> HasInt(b, off + 12 + 4 * i, d.addrs[i])
  }

  /** The inode a slot is read as has its fields there, low byte first. */
  lemma InodeIsInSlot(block: seq<byte>, off: nat)
    requires off + 64 <= |block|
    ensures HasInode(block, off, DecodeInode(block[off..off + 64]))
  {
    var b := block[off..off + 64];
    forall i | 0 <= i < 13
      ensures HasInt(block, off + 12 + 4 * i, DecodeInode(b).addrs[i])
    {
      IntRead(b, 12 + 4 * i, GetInt(b, 12 + 4 * i));
    }
    IntRead(b, 8, GetInt(b, 8));
  }

  lemma ZeroBytesZeroInode(b: seq<byte>)
    requires |b| == INODE_SIZE && forall i :: 0 <= i < |b| ==> b[i] == 0
    ensures DecodeInode(b) == ZERO_INODE
  {
  }

  /** The slot of inode `inum` within its block. */
  function Slot(inum: nat): (off: nat)
    ensures off + INODE_SIZE <= BSIZE
  {
    inum % IPB * INODE_SIZE
  }

  /** Two inodes of one block lie in disjoint slots. */
  lemma SlotsDisjoint(i: nat, j: nat)
    requires i != j && i / IPB == j / IPB
    ensures Slot(i) + INODE_SIZE <= Slot(j) || Slot(j) + INODE_SIZE <= Slot(i)
  {
  }

  // ---- bitmap bits ----

  predicate BitOf(v: nat, k: nat) {
    if k == 0 then v % 2 == 1 else BitOf(v / 2, k - 1)
  }

  /** `v | (1 << k)`. */
  function OrBit(v: nat, k: nat): nat {
    if k == 0 then v / 2 * 2 + 1 else 2 * OrBit(v / 2, k - 1) + v % 2
  }

  function Pow2(n: nat): nat {
    if n == 0 then 1 else 2 * Pow2(n - 1)
  }

  lemma {:induction false} OrBitSets(v: nat, k: nat, j: nat)
    ensures BitOf(OrBit(v, k), j) <==> BitOf(v, j) || j == k
  {
    var r := OrBit(v, k);
    assert k > 0 ==> r / 2 == OrBit(v / 2, k - 1) && r % 2 == v % 2;
    if k > 0 && j > 0 {
      OrBitSets(v / 2, k - 1, j - 1);
    } else if j > 0 {
      assert r / 2 == v / 2;
    }
  }

  /** Bit `k` is the one of weight 2^k. */
  lemma {:induction false} BitWeight(v: nat, k: nat)
    ensures Pow2(k) > 0 && (BitOf(v, k) <==> v / Pow2(k) % 2 == 1)
    decreases k
  {
    if k > 0 {
      BitWeight(v / 2, k - 1);
      HalfFirst(v, Pow2(k - 1));
    }
  }

  lemma HalfFirst(v: nat, p: nat)
    requires p > 0
    ensures v / 2 / p == v / (2 * p)
  {
    var h := v / 2;
    var q, r := h / p, h % p;
    assert h == p * q + r;
    TwiceAsFar(p, q);
    QuotientIs(v, 2 * p, q, 2 * r + v % 2);
  }

  lemma TwiceAsFar(p: nat, q: nat)
    ensures 2 * p * q == 2 * (p * q)
  {
  }

  lemma QuotientIs(x: nat, p: nat, q: nat, r: nat)
    requires p > 0 && x == p * q + r && r < p
    ensures x / p == q
  {
    var d := x / p - q;
    assert x == p * (x / p) + x % p;
    assert p * (x / p) - p * q == p * d;
    Multiple(p, d);
  }

  lemma Multiple(p: int, d: int)
    requires p > 0
    ensures (d > 0 ==> p * d >= p) && (d < 0 ==> p * d <= -p)
  {
  }

  lemma HalfFits(v: nat, p: nat)
    requires v < 2 * p
    ensures v / 2 < p && v / 2 * 2 + 1 < 2 * p
  {
  }

  lemma DoubleFits(h: nat, v: nat, p: nat)
    requires h < p
    ensures 2 * h + v % 2 < 2 * p
  {
  }

  lemma {:induction false} OrBitFits(v: nat, k: nat, n: nat)
    requires v < Pow2(n) && k < n
    ensures OrBit(v, k) < Pow2(n)
  {
    var p := Pow2(n - 1);
    assert Pow2(n) == 2 * p;
    HalfFits(v, p);
    if k > 0 {
      OrBitFits(v / 2, k - 1, n - 1);
      DoubleFits(OrBit(v / 2, k - 1), v, p);
    }
  }

  lemma {:induction false} ZeroHasNoBits(k: nat)
    ensures !BitOf(0, k)
  {
    if k > 0 {
      ZeroHasNoBits(k - 1);
    }
  }
}
