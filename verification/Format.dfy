/** The layout of the file system and the image `main` of mkfs_xv6fs.c leaves on the device
    (programs/mkfs_xv6fs/mkfs_xv6fs.c:159-172, 273-359). */
module Format {
  import opened Wrappers
  import opened Ondisk
  import opened BlockMap
  import opened Mkfs

  // ---- layout ----

  const LOGSTART: nat := 2
  const INODESTART: nat := 242

  function InodeBlocks(ninodes: nat): nat { ninodes / IPB + 1 }

  function BitmapBlocks(fssize: nat): nat { fssize / BPB + 1 }

  function BitmapStart(ninodes: nat): nat { INODESTART + InodeBlocks(ninodes) }

  function MetaBlocks(fssize: nat, ninodes: nat): nat { BitmapStart(ninodes) + BitmapBlocks(fssize) }

  /** Beyond the values of an `int`. */
  const INT_LIMIT: int := 0x8000_0000

  /** What `main` accepts (mkfs_xv6fs.c:246, 267, 280); the number of data blocks has to be an `int`. */
  predicate Accepted(fssize: nat, ninodes: nat) {
    fssize >= MIN_FSSIZE && ninodes >= 2 && 1 <= fssize - MetaBlocks(fssize, ninodes) < INT_LIMIT
  }

  /** The value of an `int` expression: 32 bits, wrapping around. */
  function Int32(v: int): (r: int)
    ensures -INT_LIMIT <= r < INT_LIMIT && (-INT_LIMIT <= v < INT_LIMIT ==> r == v)
    ensures INT_LIMIT <= v < 3 * INT_LIMIT ==> r == v - UINT_LIMIT
  {
    var u := v % UINT_LIMIT;
    if u < INT_LIMIT then u else u - UINT_LIMIT
  }

  datatype Region = Boot | Super | Log | Inodes | Bitmap | Data | Outside

  function RegionOf(fssize: nat, ninodes: nat, b: nat): Region {
    if b == 0 then Boot else if b == 1 then Super
    else if b < INODESTART then Log
    else if b < BitmapStart(ninodes) then Inodes
    else if b < MetaBlocks(fssize, ninodes) then Bitmap
    else if b < fssize then Data else Outside
  }

  function SuperblockOf(fssize: nat, ninodes: nat): Superblock
    requires Accepted(fssize, ninodes) && fssize < UINT_LIMIT && ninodes < UINT_LIMIT
  {
    Superblock(FSMAGIC, fssize, fssize - MetaBlocks(fssize, ninodes), ninodes, DEFAULT_LOGSIZE,
               LOGSTART, INODESTART, BitmapStart(ninodes))
  }

  /** The regions follow each other without gap or overlap and fill the device; an inode below
      `ninodes` falls into the inode region, and the bit of a block into the bitmap region. */
  lemma LayoutFits(fssize: nat, ninodes: nat)
    requires Accepted(fssize, ninodes) && fssize < UINT_LIMIT && ninodes < UINT_LIMIT
    ensures var s := SuperblockOf(fssize, ninodes);
      && 2 + s.nlog + InodeBlocks(ninodes) + BitmapBlocks(fssize) + s.nblocks == fssize
      && s.logstart + s.nlog == s.inodestart && s.nblocks >= 1
      && s.inodestart + InodeBlocks(ninodes) == s.bmapstart
      && (forall i: nat :: i < ninodes ==> RegionOf(fssize, ninodes, i / IPB + s.inodestart) == Inodes)
      && (forall b: nat :: b < fssize ==> RegionOf(fssize, ninodes, b / BPB + s.bmapstart) == Bitmap)
  {
  }

  /** The eight `uint` fields of the superblock in order. */
  function Fields(s: Superblock): (f: seq<uint32>)
    ensures |f| == 8
  {
    [s.magic, s.size, s.nblocks, s.ninodes, s.nlog, s.logstart, s.inodestart, s.bmapstart]
  }

  function SuperBytes(s: Superblock): (b: seq<byte>)
    ensures |b| == 32
  {
    AddrBytes(Fields(s))
  }

  function ReadSuper(b: Block): Superblock
    requires |b| == BSIZE
  {
    Superblock(GetInt(b, 0), GetInt(b, 4), GetInt(b, 8), GetInt(b, 12),
               GetInt(b, 16), GetInt(b, 20), GetInt(b, 24), GetInt(b, 28))
  }

  lemma FieldAt(s: Superblock, i: nat)
    requires i < 8
    ensures GetInt(Splice(ZERO_BLOCK, 0, SuperBytes(s)), 4 * i) == Fields(s)[i]
  {
    var x := SuperBytes(s);
    var b := Splice(ZERO_BLOCK, 0, x);
    AddrAt(Fields(s), i);
    assert b[4 * i..4 * i + 4] == x[4 * i..4 * i + 4];
    SameInt(b, 4 * i, x, 4 * i);
  }

  /** The superblock read back from its block. */
  lemma SuperRoundTrip(s: Superblock)
    ensures ReadSuper(Splice(ZERO_BLOCK, 0, SuperBytes(s))) == s
  {
    FieldAt(s, 0);
    FieldAt(s, 1);
    FieldAt(s, 2);
    FieldAt(s, 3);
    FieldAt(s, 4);
    FieldAt(s, 5);
    FieldAt(s, 6);
    FieldAt(s, 7);
  }

  // ---- directory entries ----

  const DIRENT_SIZE: nat := 16
  const DOT: byte := 46

  /** One `struct xv6_dirent`: inode number, then the name padded with zeros. */
  function DirentBytes(inum: uint16, name: seq<byte>): (b: seq<byte>)
    requires |name| < 14
    ensures |b| == DIRENT_SIZE
  {
    ShortBytes(inum) + name + Zeros(14 - |name|)
  }

  const ROOT_ENTRIES: seq<byte> := DirentBytes(ROOTINO, [DOT]) + DirentBytes(ROOTINO, [DOT, DOT])

  /** Entry `i` of a directory: its inode number and its name up to the padding. */
  function DirentAt(dir: seq<byte>, i: nat): (uint16, seq<byte>)
    requires (i + 1) * DIRENT_SIZE <= |dir|
  {
    (GetShort(dir, i * DIRENT_SIZE), Name(dir[i * DIRENT_SIZE + 2..(i + 1) * DIRENT_SIZE]))
  }

  function Name(s: seq<byte>): seq<byte> {
    if s == [] || s[0] == 0 then [] else [s[0]] + Name(s[1..])
  }

  // ---- the image ----

  function RootInode(block: uint32): (d: Dinode)
    ensures Complete(d)
  {
    Dinode(XV6_T_DIR, 0, 0, 2, BSIZE, [block] + ZeroAddrs(NDIRECT + 1))
  }

  const ROOT_BLOCK: Block := Splice(ZERO_BLOCK, 0, ROOT_ENTRIES)

  predicate BitmapBit(disk: Disk, bmapstart: nat, b: nat)
    requires Formatted(disk) && b / BPB + bmapstart < |disk|
  {
    BitOf(disk[b / BPB + bmapstart][b % BPB / 8], b % 8)
  }

  /** What the code marks: the first `used` blocks, but also all from 2^31 on, where `b * BPB` wraps around. */
  predicate Marked(b: nat, used: nat) {
    b < used || b >= INT_LIMIT
  }

  /** In `blocks` bitmap blocks exactly the bits of the blocks marked are set. */
  ghost predicate BitmapMarks(disk: Disk, bmapstart: nat, blocks: nat, used: nat)
    requires Formatted(disk) && bmapstart + blocks <= |disk|
  {
    forall b: nat :: b < blocks * BPB ==> BitmapBit(disk, bmapstart, b) == Marked(b, used)
  }

  ghost predicate InodeFree(disk: Disk, j: nat)
    requires Formatted(disk)
  {
    j / IPB + INODESTART < |disk| && InodeAt(disk, INODESTART, j) == ZERO_INODE
  }

  ghost predicate OtherInodesFree(disk: Disk, end: nat)
    requires Formatted(disk) && end <= |disk|
  {
    forall j: nat :: j != ROOTINO && j / IPB + INODESTART < end ==> InodeFree(disk, j)
  }

  /** Everything but the bitmap, the root inode and the root directory. */
  ghost predicate Blank(disk: Disk, fssize: nat, ninodes: nat)
    requires Accepted(fssize, ninodes) && fssize < UINT_LIMIT && ninodes < UINT_LIMIT
  {
    && Formatted(disk) && |disk| == fssize
    && disk[0] == ZERO_BLOCK
    && disk[1] == Splice(ZERO_BLOCK, 0, SuperBytes(SuperblockOf(fssize, ninodes)))
    && (forall b :: LOGSTART <= b < INODESTART ==> IsZero(disk, b))
    && OtherInodesFree(disk, BitmapStart(ninodes))
  }

  /** The image of an empty file system; which blocks the bitmap marks, and that on devices of 2^31 blocks and
      more it is too many, is what `Marked` says. */
  ghost predicate Image(disk: Disk, fssize: nat, ninodes: nat)
    requires Accepted(fssize, ninodes) && fssize < UINT_LIMIT && ninodes < UINT_LIMIT
  {
    && Blank(disk, fssize, ninodes)
    && InodeAt(disk, INODESTART, ROOTINO) == RootInode(MetaBlocks(fssize, ninodes))
    && BitmapMarks(disk, BitmapStart(ninodes), BitmapBlocks(fssize), MetaBlocks(fssize, ninodes) + 1)
    && disk[MetaBlocks(fssize, ninodes)] == ROOT_BLOCK
    && ZeroFrom(disk, MetaBlocks(fssize, ninodes) + 1)
  }

  // ---- the bitmap ----

  /** The first `n` bits of a block are set, the others are not. */
  ghost predicate BitsUpTo(buf: seq<byte>, n: nat) {
    forall q, k :: 0 <= q < |buf| && 0 <= k < 8 ==> BitIs(buf, q, k, n)
  }

  ghost predicate BitIs(buf: seq<byte>, q: nat, k: nat, n: nat)
    requires q < |buf|
  {
    BitOf(buf[q], k) == (q * 8 + k < n)
  }

  lemma SetNextBit(buf: seq<byte>, n: nat, next: nat)
    requires BitsUpTo(buf, n) && n < |buf| * 8 && next == n + 1
    ensures OrBit(buf[n / 8], n % 8) < 256
    ensures BitsUpTo(buf[n / 8 := OrBit(buf[n / 8], n % 8)], next)
  {
    var q0, k0 := n / 8, n % 8;
    assert Pow2(8) == 256 by {
      assert Pow2(4) == 16;
    }
    OrBitFits(buf[q0], k0, 8);
    var buf' := buf[q0 := OrBit(buf[q0], k0)];
    forall q, k | 0 <= q < |buf| && 0 <= k < 8
      ensures BitIs(buf', q, k, next)
    {
      assert BitIs(buf, q, k, n);
      if q == q0 {
        OrBitSets(buf[q0], k0, k);
      }
    }
  }

  lemma NoBits(buf: seq<byte>)
    requires forall q :: 0 <= q < |buf| ==> buf[q] == 0
    ensures BitsUpTo(buf, 0)
  {
    forall k: nat
      ensures !BitOf(0, k)
    {
      ZeroHasNoBits(k);
    }
  }

  function Min(a: int, b: int): int { if a < b then a else b }

  function Max(a: int, b: int): int { if a > b then a else b }

  /** The bits block `b` of the bitmap holds when the first `used` blocks are taken. */
  function BitsIn(b: nat, used: nat): nat {
    Max(0, Min(BPB, used - Int32(b * BPB)))
  }

  ghost predicate KeptOutside(disk: Disk, disk': Disk, from: nat, to: nat) {
    |disk'| == |disk| && forall c :: 0 <= c < |disk| && !(from <= c < to) ==> BlockSame(disk, disk', c)
  }

  /** `balloc` (mkfs_xv6fs.c:159-172): `nbitmap` blocks of bits, the first `used` of them set. */
  method Balloc(f: Formatter, nbitmap: nat, used: nat) returns (ok: bool)
    requires Formatted(f.disk) && nbitmap * BPB <= UINT_LIMIT && used <= INT_LIMIT - BPB
    modifies f`disk
    ensures ok <==> nbitmap == 0 || f.sb.bmapstart + nbitmap <= |f.disk|
    ensures Formatted(f.disk) && |f.disk| == old(|f.disk|)
    ensures ok ==> KeptOutside(old(f.disk), f.disk, f.sb.bmapstart, f.sb.bmapstart + nbitmap)
    ensures ok ==> forall b :: 0 <= b < nbitmap ==> BitsUpTo(f.disk[f.sb.bmapstart + b], BitsIn(b, used))
  {
    var buf := new byte[BSIZE](_ => 0);
    for b := 0 to nbitmap
      invariant Formatted(f.disk) && |f.disk| == old(|f.disk|)
      invariant b > 0 ==> f.sb.bmapstart + b <= |f.disk|
      invariant KeptOutside(old(f.disk), f.disk, f.sb.bmapstart, f.sb.bmapstart + b)
      invariant forall c :: 0 <= c < b ==> BitsUpTo(f.disk[f.sb.bmapstart + c], BitsIn(c, used))
    {
      FillBits(buf, Int32(b * BPB), used);
      ghost var before := f.disk;
      ok := f.Wsect(f.sb.bmapstart + b, buf[..]);
      if !ok {
        return false;
      }
      forall c | 0 <= c < |f.disk| && !(f.sb.bmapstart <= c < f.sb.bmapstart + b + 1)
        ensures BlockSame(old(f.disk), f.disk, c)
      {
        assert BlockSame(old(f.disk), before, c);
      }
    }
    return true;
  }

  /** One bitmap block (mkfs_xv6fs.c:165-169).  Where the bound of the loop wraps around the block stays empty,
      as it should be; where `base` does, all its bits are set. */
  method FillBits(buf: array<byte>, base: int, used: nat)
    requires buf.Length == BSIZE && -INT_LIMIT <= base <= INT_LIMIT - BPB && used <= INT_LIMIT - BPB
    modifies buf
    ensures BitsUpTo(buf[..], Max(0, Min(BPB, used - base)))
  {
    for k := 0 to BSIZE
      invariant forall q :: 0 <= q < k ==> buf[q] == 0
    {
      buf[k] := 0;
    }
    NoBits(buf[..]);
    var i := base;
    while i < Int32(base + BPB) && i < used
      invariant base <= i <= base + BPB && (i <= used || i == base)
      invariant BitsUpTo(buf[..], i - base)
    {
      var n := i - base;
      SetNextBit(buf[..], n, n + 1);
      ghost var next := buf[..][n / 8 := OrBit(buf[n / 8], n % 8)];
      buf[n / 8] := OrBit(buf[n / 8], n % 8);
      assert buf[..] == next;
      i := i + 1;
    }
  }

  /** The number of data blocks, an `int`, is taken from a difference of `uint`s. */
  lemma DataBlocksFit(fssize: nat, nmeta: nat)
    requires fssize < UINT_LIMIT && nmeta <= INT_LIMIT
    ensures var n := Int32((fssize - nmeta) % UINT_LIMIT);
      (n >= 1 <==> 1 <= fssize - nmeta < INT_LIMIT) && (n >= 1 ==> n == fssize - nmeta)
  {
    var d := fssize - nmeta;
    assert d % UINT_LIMIT == if d < 0 then d + UINT_LIMIT else d;
  }

  /** Bits block by block are the bits of the whole bitmap. */
  lemma BitmapFromBlocks(disk: Disk, bmapstart: nat, blocks: nat, used: nat)
    requires Formatted(disk) && bmapstart + blocks <= |disk| && blocks * BPB <= UINT_LIMIT
    requires forall b :: 0 <= b < blocks ==> BitsUpTo(disk[bmapstart + b], BitsIn(b, used))
    ensures BitmapMarks(disk, bmapstart, blocks, used)
  {
    forall b: nat | b < blocks * BPB
      ensures BitmapBit(disk, bmapstart, b) == Marked(b, used)
    {
      var c, q, k := b / BPB, b % BPB / 8, b % 8;
      assert c < blocks && b == c * BPB + q * 8 + k;
      BaseOf(c);
      assert BitIs(disk[bmapstart + c], q, k, BitsIn(c, used));
    }
  }

  lemma BaseOf(c: nat)
    requires (c + 1) * BPB <= UINT_LIMIT
    ensures Int32(c * BPB) == if c * BPB < INT_LIMIT then c * BPB else c * BPB - UINT_LIMIT
    ensures c * BPB < INT_LIMIT ==> c * BPB + BPB <= INT_LIMIT
    ensures c * BPB >= INT_LIMIT ==> Int32(c * BPB) + BPB <= 0
  {
  }

  // ---- the formatter ----

  /** The disk before the root directory is made: zero but for the superblock. */
  ghost predicate Fresh(disk: Disk, fssize: nat, ninodes: nat)
    requires Accepted(fssize, ninodes) && fssize < UINT_LIMIT && ninodes < UINT_LIMIT
  {
    && Formatted(disk) && |disk| == fssize
    && disk[1] == Splice(ZERO_BLOCK, 0, SuperBytes(SuperblockOf(fssize, ninodes)))
    && forall b :: 0 <= b < fssize && b != 1 ==> IsZero(disk, b)
  }

  function RootAddrs(meta: nat, used: bool): (a: seq<uint32>)
    requires meta < UINT_LIMIT
    ensures |a| == NDIRECT + 2
  {
    [if used then meta else 0] + ZeroAddrs(NDIRECT + 1)
  }

  /** The state between the steps of `main` once the root inode exists: `used` says whether the root
      directory has its block, which begins with `dir`. */
  ghost predicate Rooted(disk: Disk, fssize: nat, ninodes: nat, root: Dinode, used: bool, dir: seq<byte>)
    requires Accepted(fssize, ninodes) && fssize < UINT_LIMIT && ninodes < UINT_LIMIT
  {
    && Blank(disk, fssize, ninodes)
    && InodeAt(disk, INODESTART, ROOTINO) == root
    && (forall b :: BitmapStart(ninodes) <= b < MetaBlocks(fssize, ninodes) ==> IsZero(disk, b))
    && |dir| <= BSIZE && disk[MetaBlocks(fssize, ninodes)] == Splice(ZERO_BLOCK, 0, dir)
    && ZeroFrom(disk, MetaBlocks(fssize, ninodes) + 1)
    && (!used ==> dir == [])
    && root.addrs == RootAddrs(MetaBlocks(fssize, ninodes), used)
  }

  /** The root directory is a well-formed file whose bytes are those at the start of its block. */
  lemma RootFile(disk: Disk, root: Dinode, meta: nat, used: bool, dir: seq<byte>)
    requires Formatted(disk) && 0 < meta < |disk| < UINT_LIMIT && root.addrs == RootAddrs(meta, used)
    requires root.size == |dir| <= BSIZE && (used <==> dir != []) && disk[meta] == Splice(ZERO_BLOCK, 0, dir)
    ensures Complete(root) && WellFormed(disk, root, meta, if used then meta + 1 else meta)
    ensures FileBytes(disk, root) == dir
  {
    PtrsAt(disk, root);
    var m := PtrsOf(disk, root);
    assert forall i :: 1 <= i < MAXFILE ==> m[i] == 0;
    assert DataBlocks(root.size) == if used then 1 else 0;
    assert MapOk(m, 0, if used then 1 else 0, meta, if used then meta + 1 else meta);
    if used {
      OneBlockFile(disk, root, meta);
    }
  }

  /** Writing the root inode keeps everything else blank. */
  lemma RootWritten(disk: Disk, fssize: nat, ninodes: nat, root: Dinode)
    requires Accepted(fssize, ninodes) && fssize < UINT_LIMIT && ninodes < UINT_LIMIT
    requires Blank(disk, fssize, ninodes) && Complete(root)
    ensures var disk' := InodeWritten(disk, INODESTART, ROOTINO, root);
      && Blank(disk', fssize, ninodes) && InodeAt(disk', INODESTART, ROOTINO) == root
      && forall b :: 0 <= b < fssize && b != INODESTART ==> disk'[b] == disk[b]
  {
    var disk' := InodeWritten(disk, INODESTART, ROOTINO, root);
    InodeWriteRead(disk, INODESTART, ROOTINO, root, ROOTINO);
    forall j: nat | j != ROOTINO && j / IPB + INODESTART < BitmapStart(ninodes)
      ensures InodeFree(disk', j)
    {
      assert InodeFree(disk, j);
      InodeWriteRead(disk, INODESTART, ROOTINO, root, j);
    }
    forall b | LOGSTART <= b < INODESTART
      ensures IsZero(disk', b)
    {
      assert IsZero(disk, b);
    }
  }

  lemma FreshIsBlank(disk: Disk, fssize: nat, ninodes: nat)
    requires Accepted(fssize, ninodes) && fssize < UINT_LIMIT && ninodes < UINT_LIMIT
    requires Fresh(disk, fssize, ninodes)
    ensures Blank(disk, fssize, ninodes) && InodeAt(disk, INODESTART, ROOTINO) == ZERO_INODE
  {
    assert IsZero(disk, 0);
    forall j: nat | j / IPB + INODESTART < BitmapStart(ninodes)
      ensures InodeFree(disk, j)
    {
      assert IsZero(disk, j / IPB + INODESTART);
      ZeroBytesZeroInode(disk[j / IPB + INODESTART][Slot(j)..Slot(j) + INODE_SIZE]);
    }
    assert InodeFree(disk, ROOTINO);
  }

  /** The root inode as `ialloc` and the first update leave it. */
  function NewRoot(): (d: Dinode)
    ensures Complete(d)
  {
    ZERO_INODE.(typ := XV6_T_DIR, nlink := 2)
  }

  lemma FreshRooted(disk: Disk, fssize: nat, ninodes: nat, disk': Disk)
    requires Accepted(fssize, ninodes) && fssize < UINT_LIMIT && ninodes < UINT_LIMIT
    requires Blank(disk, fssize, ninodes) && disk' == InodeWritten(disk, INODESTART, ROOTINO, NewRoot())
    requires forall b :: BitmapStart(ninodes) <= b < fssize ==> IsZero(disk, b)
    ensures Rooted(disk', fssize, ninodes, NewRoot(), false, [])
  {
    RootWritten(disk, fssize, ninodes, NewRoot());
    forall b | BitmapStart(ninodes) <= b < fssize
      ensures IsZero(disk', b)
    {
      assert IsZero(disk, b);
    }
    assert IsZero(disk', MetaBlocks(fssize, ninodes));
    assert Splice(ZERO_BLOCK, 0, []) == ZERO_BLOCK;
    assert NewRoot().addrs == RootAddrs(MetaBlocks(fssize, ninodes), false);
  }

  /** Appending an entry to the root directory. */
  lemma RootAppended(disk: Disk, fssize: nat, ninodes: nat, root: Dinode, used: bool, dir: seq<byte>, entry: seq<byte>,
                     disk': Disk, free': nat)
    requires Accepted(fssize, ninodes) && fssize < UINT_LIMIT && ninodes < UINT_LIMIT
    requires Rooted(disk, fssize, ninodes, root, used, dir) && root.size == |dir| && (used <==> dir != [])
    requires |entry| == DIRENT_SIZE && |dir| + DIRENT_SIZE <= BSIZE
    requires var meta := MetaBlocks(fssize, ninodes);
      var free := if used then meta + 1 else meta;
      && WellFormed(disk, root, meta, free) && Appended(disk, free, INODESTART, meta, ROOTINO, entry, disk', free')
      && ZeroFrom(disk', free')
    ensures free' == MetaBlocks(fssize, ninodes) + 1
    ensures var root' := root.(size := |dir| + DIRENT_SIZE, addrs := RootAddrs(MetaBlocks(fssize, ninodes), true));
      Rooted(disk', fssize, ninodes, root', true, dir + entry)
  {
    var meta := MetaBlocks(fssize, ninodes);
    var root' := InodeAt(disk', INODESTART, ROOTINO);
    RootFile(disk, root, meta, used, dir);
    assert DataBlocks(|dir| + DIRENT_SIZE) == 1;
    RootBlockAfter(disk, root, meta, used, dir, entry, disk', root');
    BlankAfter(disk, fssize, ninodes, root, if used then meta + 1 else meta, disk');
  }

  /** The directory block after an append. */
  lemma RootBlockAfter(disk: Disk, root: Dinode, meta: nat, used: bool, dir: seq<byte>, entry: seq<byte>,
                       disk': Disk, root': Dinode)
    requires Formatted(disk) && 0 < meta < |disk| < UINT_LIMIT && root.addrs == RootAddrs(meta, used)
    requires |dir| + |entry| <= BSIZE && root.size == |dir| && (used <==> dir != [])
    requires disk[meta] == Splice(ZERO_BLOCK, 0, dir)
    requires Complete(root) && entry != [] && |disk'| == |disk|
    requires WellFormed(disk', root', meta, meta + 1) && root'.size == |dir| + |entry|
    requires FileBytes(disk', root') == dir + entry
    requires Untouched(disk, disk', PtrsOf(disk', root'), 1, |dir|, |dir| + |entry|)
    requires root'.addrs[NDIRECT + 1] == root.addrs[NDIRECT + 1]
    ensures disk'[meta] == Splice(ZERO_BLOCK, 0, dir + entry)
    ensures root'.addrs == RootAddrs(meta, true)
  {
    OneBlockFile(disk', root', meta);
    forall j | 0 <= j < BSIZE
      ensures disk'[meta][j] == Splice(ZERO_BLOCK, 0, dir + entry)[j]
    {
      if j >= |dir| + |entry| {
        assert ByteSame(disk, disk', PtrsOf(disk', root')[0], j);
      }
    }
  }

  /** An append to the root directory leaves the other metadata as it was. */
  lemma BlankAfter(disk: Disk, fssize: nat, ninodes: nat, root: Dinode, free: nat, disk': Disk)
    requires Accepted(fssize, ninodes) && fssize < UINT_LIMIT && ninodes < UINT_LIMIT
    requires var meta := MetaBlocks(fssize, ninodes);
      && Blank(disk, fssize, ninodes) && InodeAt(disk, INODESTART, ROOTINO) == root && meta <= free
      && WellFormed(disk, root, meta, free) && Formatted(disk') && OthersKept(disk, root, free, disk', INODESTART)
      && (forall b :: BitmapStart(ninodes) <= b < meta ==> IsZero(disk, b))
      && forall j: nat :: j != ROOTINO && j / IPB + INODESTART < meta ==>
           InodeAt(disk', INODESTART, j) == InodeAt(disk, INODESTART, j)
    ensures Blank(disk', fssize, ninodes)
    ensures forall b :: BitmapStart(ninodes) <= b < MetaBlocks(fssize, ninodes) ==> IsZero(disk', b)
  {
    var meta := MetaBlocks(fssize, ninodes);
    forall b | 0 <= b < meta && b != INODESTART
      ensures disk'[b] == disk[b]
    {
      assert !FileOwns(disk, root, b);
      assert BlockSame(disk, disk', b);
    }
    forall b | LOGSTART <= b < INODESTART || BitmapStart(ninodes) <= b < meta
      ensures IsZero(disk', b)
    {
      assert IsZero(disk, b);
    }
    forall j: nat | j != ROOTINO && j / IPB + INODESTART < BitmapStart(ninodes)
      ensures InodeFree(disk', j)
    {
      assert InodeFree(disk, j);
    }
  }

  /** Zeroing and the superblock (mkfs_xv6fs.c:304-316). */
  method WriteFresh(f: Formatter, fssize: nat, ninodes: nat) returns (ok: bool)
    requires Accepted(fssize, ninodes) && fssize < UINT_LIMIT && ninodes < UINT_LIMIT
    requires Formatted(f.disk) && |f.disk| <= fssize && f.sb == SuperblockOf(fssize, ninodes)
    modifies f`disk
    ensures ok <==> old(|f.disk|) == fssize
    ensures ok ==> Fresh(f.disk, fssize, ninodes)
  {
    for i := 0 to fssize
      invariant Formatted(f.disk) && |f.disk| == old(|f.disk|) && i <= |f.disk|
      invariant forall b :: 0 <= b < i ==> IsZero(f.disk, b)
    {
      ghost var before := f.disk;
      ok := f.Wsect(i, ZERO_BLOCK);
      if !ok {
        return;
      }
      forall b | 0 <= b < i
        ensures IsZero(f.disk, b)
      {
        assert IsZero(before, b);
      }
    }
    ghost var zeroed := f.disk;
    ok := f.Wsect(1, Splice(ZERO_BLOCK, 0, SuperBytes(f.sb)));
    forall b | 0 <= b < fssize && b != 1
      ensures IsZero(f.disk, b)
    {
      assert IsZero(zeroed, b);
    }
  }

  /** The root directory (mkfs_xv6fs.c:318-356). */
  method MakeRoot(f: Formatter, fssize: nat, ninodes: nat) returns (ok: bool)
    requires Accepted(fssize, ninodes) && fssize < UINT_LIMIT && ninodes < UINT_LIMIT
    requires Fresh(f.disk, fssize, ninodes) && f.sb == SuperblockOf(fssize, ninodes) && f.freeinode == ROOTINO
    requires f.nmeta == f.freeblock == MetaBlocks(fssize, ninodes)
    modifies f`disk, f`freeinode, f`freeblock
    ensures ok && f.freeblock == MetaBlocks(fssize, ninodes) + 1
    ensures Rooted(f.disk, fssize, ninodes, RootInode(f.nmeta), true, ROOT_ENTRIES)
  {
    ghost var meta := f.nmeta;
    ok := MakeRootInode(f, fssize, ninodes);
    ok := AddEntry(f, fssize, ninodes, NewRoot(), false, [], [DOT]);
    ghost var root1 := NewRoot().(size := DIRENT_SIZE, addrs := RootAddrs(meta, true));
    ok := AddEntry(f, fssize, ninodes, root1, true, DirentBytes(ROOTINO, [DOT]), [DOT, DOT]);
    ghost var root2 := root1.(size := 2 * DIRENT_SIZE);
    assert root1.(size := 2 * DIRENT_SIZE, addrs := RootAddrs(meta, true)) == root2;
    ok := RoundUp(f, fssize, ninodes, root2, ROOT_ENTRIES);
    assert root2.(size := BSIZE) == RootInode(meta);
  }

  /** The root inode, allocated and then given its second link (mkfs_xv6fs.c:318-331). */
  method MakeRootInode(f: Formatter, fssize: nat, ninodes: nat) returns (ok: bool)
    requires Accepted(fssize, ninodes) && fssize < UINT_LIMIT && ninodes < UINT_LIMIT
    requires Fresh(f.disk, fssize, ninodes) && f.sb == SuperblockOf(fssize, ninodes) && f.freeinode == ROOTINO
    modifies f`disk, f`freeinode
    ensures ok && Rooted(f.disk, fssize, ninodes, NewRoot(), false, [])
  {
    FreshIsBlank(f.disk, fssize, ninodes);
    ghost var blank := f.disk;
    var rootino := f.Ialloc(XV6_T_DIR);
    RootWritten(blank, fssize, ninodes, ZERO_INODE.(typ := XV6_T_DIR, nlink := 1));
    if rootino == None || rootino.value != ROOTINO {
      return false;
    }
    var din := f.Rinode(ROOTINO);
    ghost var disk1 := f.disk;
    ok := f.Winode(ROOTINO, din.value.(nlink := 2));
    forall b | BitmapStart(ninodes) <= b < fssize
      ensures IsZero(disk1, b)
    {
      assert IsZero(blank, b);
    }
    FreshRooted(disk1, fssize, ninodes, f.disk);
  }

  /** The size rounded up to whole blocks (mkfs_xv6fs.c:349-356). */
  method RoundUp(f: Formatter, fssize: nat, ninodes: nat, ghost root: Dinode, ghost dir: seq<byte>) returns (ok: bool)
    requires Accepted(fssize, ninodes) && fssize < UINT_LIMIT && ninodes < UINT_LIMIT
    requires Rooted(f.disk, fssize, ninodes, root, true, dir)
    requires root.size < BSIZE && f.sb == SuperblockOf(fssize, ninodes)
    modifies f`disk
    ensures ok && Rooted(f.disk, fssize, ninodes, root.(size := BSIZE), true, dir)
  {
    var din := f.Rinode(ROOTINO);
    var off := (din.value.size / BSIZE + 1) * BSIZE;
    ghost var disk0 := f.disk;
    RootResized(disk0, fssize, ninodes, root, dir, BSIZE);
    ok := f.Winode(ROOTINO, din.value.(size := off));
    assert f.disk == InodeWritten(disk0, INODESTART, ROOTINO, root.(size := BSIZE));
  }

  lemma RootResized(disk: Disk, fssize: nat, ninodes: nat, root: Dinode, dir: seq<byte>, size: uint32)
    requires Accepted(fssize, ninodes) && fssize < UINT_LIMIT && ninodes < UINT_LIMIT
    requires Rooted(disk, fssize, ninodes, root, true, dir)
    ensures Complete(root) && Formatted(disk) && ROOTINO / IPB + INODESTART < |disk|
    ensures var root' := root.(size := size);
      Rooted(InodeWritten(disk, INODESTART, ROOTINO, root'), fssize, ninodes, root', true, dir)
  {
    var root' := root.(size := size);
    RootWritten(disk, fssize, ninodes, root');
    var disk' := InodeWritten(disk, INODESTART, ROOTINO, root');
    forall b | BitmapStart(ninodes) <= b < fssize && b != MetaBlocks(fssize, ninodes)
      ensures IsZero(disk', b)
    {
      assert IsZero(disk, b);
    }
  }

  /** The root directory may be appended to. */
  lemma RootReady(disk: Disk, fssize: nat, ninodes: nat, root: Dinode, used: bool, dir: seq<byte>)
    requires Accepted(fssize, ninodes) && fssize < UINT_LIMIT && ninodes < UINT_LIMIT
    requires Rooted(disk, fssize, ninodes, root, used, dir) && root.size == |dir| && (used <==> dir != [])
    ensures var meta := MetaBlocks(fssize, ninodes);
      var free := if used then meta + 1 else meta;
      && Formatted(disk) && |disk| == fssize && ROOTINO / IPB + INODESTART < meta <= |disk| && ZeroFrom(disk, free)
      && WellFormed(disk, InodeAt(disk, INODESTART, ROOTINO), meta, free)
  {
    var meta := MetaBlocks(fssize, ninodes);
    RootFile(disk, root, meta, used, dir);
    assert !used ==> IsZero(disk, meta);
  }

  /** One entry of the root directory (mkfs_xv6fs.c:337-345). */
  method AddEntry(f: Formatter, fssize: nat, ninodes: nat, ghost root: Dinode, ghost used: bool, ghost dir: seq<byte>,
                  name: seq<byte>) returns (ok: bool)
    requires Accepted(fssize, ninodes) && fssize < UINT_LIMIT && ninodes < UINT_LIMIT && |name| < 14
    requires Rooted(f.disk, fssize, ninodes, root, used, dir) && root.size == |dir| && (used <==> dir != [])
    requires |dir| + DIRENT_SIZE <= BSIZE && f.sb == SuperblockOf(fssize, ninodes)
    requires f.nmeta == MetaBlocks(fssize, ninodes) && f.freeblock == if used then f.nmeta + 1 else f.nmeta
    modifies f`disk, f`freeblock
    ensures ok && f.freeblock == f.nmeta + 1
    ensures Rooted(f.disk, fssize, ninodes, root.(size := |dir| + DIRENT_SIZE, addrs := RootAddrs(f.nmeta, true)), true,
                   dir + DirentBytes(ROOTINO, name))
  {
    ghost var disk0 := f.disk;
    RootReady(f.disk, fssize, ninodes, root, used, dir);
    ok := f.Iappend(ROOTINO, DirentBytes(ROOTINO, name));
    RootAppended(disk0, fssize, ninodes, root, used, dir, DirentBytes(ROOTINO, name), f.disk, f.freeblock);
  }

  /** `main` (mkfs_xv6fs.c:243-359) after its arguments are parsed; `f.disk` is what the device offers of
      the first `fssize` blocks.  It succeeds exactly when the layout fits and the device is long enough. */
  method MakeFs(f: Formatter, fssize: nat, ninodes: nat) returns (ok: bool)
    requires Formatted(f.disk) && |f.disk| <= fssize && f.freeinode == ROOTINO
    requires fssize < UINT_LIMIT && ninodes < UINT_LIMIT
    modifies f
    ensures ok <==> Accepted(fssize, ninodes) && old(|f.disk|) == fssize
    ensures ok ==> Image(f.disk, fssize, ninodes)
  {
    if fssize < MIN_FSSIZE || ninodes < 2 {
      return false;
    }
    var ninodeblocks := ninodes / IPB + 1;
    var nbitmap := fssize / BPB + 1;
    f.nmeta := 2 + DEFAULT_LOGSIZE + ninodeblocks + nbitmap;
    var nblocks := Int32((fssize - f.nmeta) % UINT_LIMIT);
    DataBlocksFit(fssize, f.nmeta);
    if nblocks < 1 {
      return false;
    }
    f.sb := Superblock(FSMAGIC, fssize, nblocks, ninodes, DEFAULT_LOGSIZE, 2, 2 + DEFAULT_LOGSIZE,
                       2 + DEFAULT_LOGSIZE + ninodeblocks);
    f.freeblock := f.nmeta;
    ok := WriteFresh(f, fssize, ninodes);
    if !ok {
      return;
    }
    ok := MakeRoot(f, fssize, ninodes);
    ghost var rooted := f.disk;
    ok := Balloc(f, nbitmap, f.freeblock);
    BitmapFromBlocks(f.disk, f.sb.bmapstart, nbitmap, f.freeblock);
    BitmapCompletes(rooted, fssize, ninodes, f.disk);
  }

  /** Writing the bitmap completes the image. */
  lemma BitmapCompletes(disk: Disk, fssize: nat, ninodes: nat, disk': Disk)
    requires Accepted(fssize, ninodes) && fssize < UINT_LIMIT && ninodes < UINT_LIMIT
    requires var meta := MetaBlocks(fssize, ninodes);
      && Rooted(disk, fssize, ninodes, RootInode(meta), true, ROOT_ENTRIES)
      && Formatted(disk') && KeptOutside(disk, disk', BitmapStart(ninodes), meta)
      && BitmapMarks(disk', BitmapStart(ninodes), BitmapBlocks(fssize), meta + 1)
    ensures Image(disk', fssize, ninodes)
  {
    var meta := MetaBlocks(fssize, ninodes);
    forall b | 0 <= b < fssize && !(BitmapStart(ninodes) <= b < meta)
      ensures disk'[b] == disk[b]
    {
      assert BlockSame(disk, disk', b);
    }
    forall b | LOGSTART <= b < INODESTART || meta < b < fssize
      ensures IsZero(disk', b)
    {
      assert IsZero(disk, b);
    }
    forall j: nat | j != ROOTINO && j / IPB + INODESTART < BitmapStart(ninodes)
      ensures InodeFree(disk', j)
    {
      assert InodeFree(disk, j);
    }
  }

  // ---- what the image means ----

  /** A bitmap bit is set exactly for the metadata, the blocks of the root directory and the blocks from
      2^31 on. */
  lemma {:induction false} BitmapIsReachability(disk: Disk, fssize: nat, ninodes: nat, b: nat)
    requires Accepted(fssize, ninodes) && fssize < UINT_LIMIT && ninodes < UINT_LIMIT
    requires Image(disk, fssize, ninodes) && b < BitmapBlocks(fssize) * BPB
    ensures BitmapBit(disk, BitmapStart(ninodes), b) <==> InUse(disk, fssize, ninodes, b) || b >= INT_LIMIT
    ensures InUse(disk, fssize, ninodes, b) ==> b < INT_LIMIT
  {
    var root, meta := InodeAt(disk, INODESTART, ROOTINO), MetaBlocks(fssize, ninodes);
    PtrsAt(disk, root);
    assert BitmapBit(disk, BitmapStart(ninodes), b) == Marked(b, meta + 1);
    assert PtrsOf(disk, root)[..1] == [meta];
  }

  /** A block of the metadata or of the root directory. */
  ghost predicate InUse(disk: Disk, fssize: nat, ninodes: nat, b: nat)
    requires Accepted(fssize, ninodes) && fssize < UINT_LIMIT && ninodes < UINT_LIMIT
    requires Image(disk, fssize, ninodes)
  {
    b < MetaBlocks(fssize, ninodes) || FileOwns(disk, InodeAt(disk, INODESTART, ROOTINO), b)
  }

  /** So the bitmap says what is in use exactly on file systems of fewer than 2^31 blocks. */
  lemma BitmapIsRightIffSmall(disk: Disk, fssize: nat, ninodes: nat)
    requires Accepted(fssize, ninodes) && fssize < UINT_LIMIT && ninodes < UINT_LIMIT
    requires Image(disk, fssize, ninodes)
    ensures fssize < INT_LIMIT <==>
      forall b: nat :: b < BitmapBlocks(fssize) * BPB ==>
        BitmapBit(disk, BitmapStart(ninodes), b) == InUse(disk, fssize, ninodes, b)
  {
    forall b: nat | b < BitmapBlocks(fssize) * BPB
      ensures BitmapBit(disk, BitmapStart(ninodes), b) <==> InUse(disk, fssize, ninodes, b) || b >= INT_LIMIT
      ensures InUse(disk, fssize, ninodes, b) ==> b < INT_LIMIT
    {
      BitmapIsReachability(disk, fssize, ninodes, b);
    }
    if fssize >= INT_LIMIT {
      assert BitmapBit(disk, BitmapStart(ninodes), INT_LIMIT) != InUse(disk, fssize, ninodes, INT_LIMIT);
    }
  }

  /** On larger ones block 2^31 is a data block that holds nothing and is marked; such sizes are accepted. */
  lemma FreeBlockIsMarked(disk: Disk, fssize: nat, ninodes: nat)
    requires Accepted(fssize, ninodes) && INT_LIMIT < fssize < UINT_LIMIT && ninodes < UINT_LIMIT
    requires Image(disk, fssize, ninodes)
    ensures RegionOf(fssize, ninodes, INT_LIMIT) == Data && BitmapBit(disk, BitmapStart(ninodes), INT_LIMIT)
    ensures !InUse(disk, fssize, ninodes, INT_LIMIT)
    ensures Accepted(INT_LIMIT + 1, 200)
  {
    BitmapIsReachability(disk, fssize, ninodes, INT_LIMIT);
  }

  /** The root directory is a well-formed file of one block, holding "." and ".." for inode 1 and
      otherwise only free entries. */
  lemma {:induction false} RootDirectory(disk: Disk, fssize: nat, ninodes: nat, i: nat)
    requires Accepted(fssize, ninodes) && fssize < UINT_LIMIT && ninodes < UINT_LIMIT
    requires Image(disk, fssize, ninodes) && i < BSIZE / DIRENT_SIZE
    ensures var root := InodeAt(disk, INODESTART, ROOTINO);
      && WellFormed(disk, root, MetaBlocks(fssize, ninodes), MetaBlocks(fssize, ninodes) + 1)
      && root.typ == XV6_T_DIR && root.nlink == 2 && root.size == BSIZE
      && DirentAt(FileBytes(disk, root), i) ==
           if i == 0 then (ROOTINO, [DOT]) else if i == 1 then (ROOTINO, [DOT, DOT]) else (0, [])
  {
    var root, meta := InodeAt(disk, INODESTART, ROOTINO), MetaBlocks(fssize, ninodes);
    assert Splice(ZERO_BLOCK, 0, ROOT_BLOCK) == ROOT_BLOCK;
    RootFile(disk, root, meta, true, ROOT_BLOCK);
    EntryOf(i);
  }

  // ---- the bytes of the image ----

  /** The first block of the data region. */
  function RootBlock(fssize: nat, ninodes: nat): nat {
    2 + 240 + (ninodes / 16 + 1) + (fssize / 8192 + 1)
  }

  /** Block 1 begins with the magic number and the seven numbers of the layout, each low byte first; the rest of
      it is zero. */
  lemma SuperblockBytes(disk: Disk, fssize: nat, ninodes: nat)
    requires Accepted(fssize, ninodes) && fssize < UINT_LIMIT && ninodes < UINT_LIMIT && Image(disk, fssize, ninodes)
    ensures var b, free := disk[1], RootBlock(fssize, ninodes);
      && |b| == 1024 && b[0] == 0x40 && b[1] == 0x30 && b[2] == 0x20 && b[3] == 0x10
      && HasInt(b, 4, fssize) && HasInt(b, 8, fssize - free) && HasInt(b, 12, ninodes) && HasInt(b, 16, 240)
      && HasInt(b, 20, 2) && HasInt(b, 24, 242) && HasInt(b, 28, 242 + ninodes / 16 + 1)
      && forall i :: 32 <= i < 1024 ==> b[i] == 0
  {
    var s := SuperblockOf(fssize, ninodes);
    FieldBytes(s, 0);
    FieldBytes(s, 1);
    FieldBytes(s, 2);
    FieldBytes(s, 3);
    FieldBytes(s, 4);
    FieldBytes(s, 5);
    FieldBytes(s, 6);
    FieldBytes(s, 7);
    var b := disk[1];
    SameDigits(0x10203040, b[0], b[1], b[2], b[3], 0x40, 0x30, 0x20, 0x10);
  }

  lemma FieldBytes(s: Superblock, i: nat)
    requires i < 8
    ensures HasInt(Splice(ZERO_BLOCK, 0, SuperBytes(s)), 4 * i, Fields(s)[i])
  {
    FieldAt(s, i);
    IntRead(Splice(ZERO_BLOCK, 0, SuperBytes(s)), 4 * i, Fields(s)[i]);
  }

  /** The inode of the root stands at byte 64 of block 242: type 1, no device, two links, one block of data. */
  lemma RootInodeBytes(disk: Disk, fssize: nat, ninodes: nat)
    requires Accepted(fssize, ninodes) && fssize < UINT_LIMIT && ninodes < UINT_LIMIT && Image(disk, fssize, ninodes)
    ensures var b := disk[242];
      && HasShort(b, 64, 1) && HasShort(b, 66, 0) && HasShort(b, 68, 0) && HasShort(b, 70, 2) && HasInt(b, 72, 1024)
      && HasInt(b, 76, RootBlock(fssize, ninodes)) && forall i :: 1 <= i < 13 ==> HasInt(b, 76 + 4 * i, 0)
  {
    var b, root := disk[242], RootInode(MetaBlocks(fssize, ninodes));
    assert Slot(ROOTINO) == 64;
    InodeIsInSlot(b, 64);
    assert DecodeInode(b[64..128]) == root;
    forall i | 1 <= i < 13
      ensures HasInt(b, 76 + 4 * i, 0)
    {
      assert HasInt(b, 64 + 12 + 4 * i, root.addrs[i]);
    }
    assert HasInt(b, 64 + 12 + 4 * 0, root.addrs[0]);
  }

  /** The block of the root directory: inode number 1 with `.`, inode number 1 with `..`, and zeros. */
  lemma RootDirectoryBytes(disk: Disk, fssize: nat, ninodes: nat)
    requires Accepted(fssize, ninodes) && fssize < UINT_LIMIT && ninodes < UINT_LIMIT && Image(disk, fssize, ninodes)
    ensures var b := disk[RootBlock(fssize, ninodes)];
      && HasShort(b, 0, 1) && b[2] == 46 && HasShort(b, 16, 1) && b[18] == 46 && b[19] == 46
      && forall i :: 0 <= i < 1024 && i !in {0, 2, 16, 18, 19} ==> b[i] == 0
  {
    RootBytes();
    var a, c := DirentBytes(ROOTINO, [DOT]), DirentBytes(ROOTINO, [DOT, DOT]);
    assert ROOT_ENTRIES == a + c;
    forall i | 0 <= i < 1024 && i !in {0, 2, 16, 18, 19}
      ensures ROOT_BLOCK[i] == 0
    {
      assert i < 16 ==> ROOT_ENTRIES[i] == a[i];
      assert 16 <= i < 32 ==> ROOT_ENTRIES[i] == c[i - 16];
    }
  }

  /** Block `b` is bit `b % 8` of byte `b / 8` of the bitmap, which starts behind the inodes. */
  lemma BitmapBytes(disk: Disk, fssize: nat, ninodes: nat, b: nat)
    requires Accepted(fssize, ninodes) && fssize < UINT_LIMIT && ninodes < UINT_LIMIT && Image(disk, fssize, ninodes)
    requires b < fssize
    ensures 242 + (ninodes / 16 + 1) + b / 8192 < |disk| && b % 8192 / 8 < |disk[242 + (ninodes / 16 + 1) + b / 8192]|
    ensures disk[242 + (ninodes / 16 + 1) + b / 8192][b % 8192 / 8] / [1, 2, 4, 8, 16, 32, 64, 128][b % 8] % 2 == 1 <==>
      b <= RootBlock(fssize, ninodes) || b >= 0x8000_0000
  {
    var c := b / BPB + BitmapStart(ninodes);
    assert b < BitmapBlocks(fssize) * BPB;
    assert BitmapBit(disk, BitmapStart(ninodes), b) == Marked(b, MetaBlocks(fssize, ninodes) + 1);
    BitWeight(disk[c][b % BPB / 8], b % 8);
    Weights(b % 8);
  }

  lemma Weights(k: nat)
    requires k < 8
    ensures Pow2(k) == [1, 2, 4, 8, 16, 32, 64, 128][k]
  {
    assert Pow2(3) == 8;
    assert Pow2(7) == 16 * Pow2(3);
    assert Pow2(6) == 8 * Pow2(3) && Pow2(5) == 4 * Pow2(3) && Pow2(4) == 2 * Pow2(3);
  }

  lemma EntryOf(i: nat)
    requires i < BSIZE / DIRENT_SIZE
    ensures DirentAt(ROOT_BLOCK, i) ==
      if i == 0 then (ROOTINO, [DOT]) else if i == 1 then (ROOTINO, [DOT, DOT]) else (0, [])
  {
    var name := ROOT_BLOCK[i * DIRENT_SIZE + 2..(i + 1) * DIRENT_SIZE];
    RootBytes();
    if i == 0 {
      assert GetShort(ROOT_BLOCK, 0) == ROOTINO;
      assert name[0] == ROOT_BLOCK[2] && name[1] == ROOT_BLOCK[3];
      NameStep(name);
      NameEnds(name[1..]);
      assert Name(name) == [DOT] + [] == [DOT];
    } else if i == 1 {
      assert GetShort(ROOT_BLOCK, 16) == ROOTINO;
      assert name[0] == ROOT_BLOCK[18] && name[1] == ROOT_BLOCK[19] && name[2] == ROOT_BLOCK[20];
      NameStep(name);
      NameStep(name[1..]);
      NameEnds(name[1..][1..]);
      assert Name(name[1..]) == [DOT] + [] == [DOT];
      assert Name(name) == [DOT] + [DOT] == [DOT, DOT];
    } else {
      assert name[0] == 0;
    }
  }

  lemma RootBytes()
    ensures ROOT_BLOCK[0] == 1 && ROOT_BLOCK[1] == 0 && ROOT_BLOCK[2] == DOT && ROOT_BLOCK[3] == 0
    ensures ROOT_BLOCK[16] == 1 && ROOT_BLOCK[17] == 0
    ensures ROOT_BLOCK[18] == DOT && ROOT_BLOCK[19] == DOT && ROOT_BLOCK[20] == 0
  {
    var a, b := DirentBytes(ROOTINO, [DOT]), DirentBytes(ROOTINO, [DOT, DOT]);
    assert ROOT_ENTRIES == a + b;
    forall j | 0 <= j < DIRENT_SIZE
      ensures ROOT_BLOCK[j] == a[j] && ROOT_BLOCK[DIRENT_SIZE + j] == b[j]
    {
      assert ROOT_ENTRIES[j] == a[j] && ROOT_ENTRIES[DIRENT_SIZE + j] == b[j];
    }
    assert a[0] == 1 && a[1] == 0 && a[2] == DOT && a[3] == 0;
    assert b[0] == 1 && b[1] == 0 && b[2] == DOT && b[3] == DOT && b[4] == 0;
  }

  lemma NameStep(s: seq<byte>)
    requires s != [] && s[0] != 0
    ensures Name(s) == [s[0]] + Name(s[1..])
  {
  }

  lemma NameEnds(s: seq<byte>)
    requires s != [] && s[0] == 0
    ensures Name(s) == []
  {
  }
}
