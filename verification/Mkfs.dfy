/** programs/mkfs_xv6fs/mkfs_xv6fs.c: the formatter, its inode and block allocators and `iappend`.
    The device is a list of blocks; reading or writing beyond its end ends the program. */
module Mkfs {
  import opened Wrappers
  import opened Ondisk
  import opened BlockMap

  const FSMAGIC: nat := 0x10203040
  const ROOTINO: nat := 1
  const XV6_T_DIR: nat := 1
  const DEFAULT_LOGSIZE: nat := 240
  const MIN_FSSIZE: nat := 100

  datatype Superblock = Superblock(magic: uint32, size: uint32, nblocks: uint32, ninodes: uint32,
                                   nlog: uint32, logstart: uint32, inodestart: uint32, bmapstart: uint32)

  // ---- inodes on the disk ----

  /** The inode `inum` as it stands on the disk, the inode region starting at block `start`. */
  function InodeAt(disk: Disk, start: nat, inum: nat): (d: Dinode)
    requires Formatted(disk) && inum / IPB + start < |disk|
    ensures Complete(d)
  {
    DecodeInode(disk[inum / IPB + start][Slot(inum)..Slot(inum) + INODE_SIZE])
  }

  /** Where the fields of inode `inum` stand on the disk, low byte first. */
  lemma InodeOnDisk(disk: Disk, start: nat, inum: nat)
    requires Formatted(disk) && inum / 16 + start < |disk|
    ensures HasInode(disk[inum / 16 + start], inum % 16 * 64, InodeAt(disk, start, inum))
  {
    InodeIsInSlot(disk[inum / 16 + start], inum % 16 * 64);
  }

  function InodeWritten(disk: Disk, start: nat, inum: nat, d: Dinode): Disk
    requires Formatted(disk) && inum / IPB + start < |disk| && Complete(d)
  {
    var bn := inum / IPB + start;
    disk[bn := Splice(disk[bn], Slot(inum), EncodeInode(d))]
  }

  /** Reading back a written inode gives it, and every other inode is untouched. */
  lemma {:induction false} InodeWriteRead(disk: Disk, start: nat, inum: nat, d: Dinode, j: nat)
    requires Formatted(disk) && inum / IPB + start < |disk| && Complete(d) && j / IPB + start < |disk|
    ensures Formatted(InodeWritten(disk, start, inum, d))
    ensures InodeAt(InodeWritten(disk, start, inum, d), start, j)
         == if j == inum then d else InodeAt(disk, start, j)
  {
    var disk' := InodeWritten(disk, start, inum, d);
    var a, a' := disk[j / IPB + start], disk'[j / IPB + start];
    var o := Slot(j);
    if j == inum {
      InodeRoundTrip(d);
      assert a'[o..o + INODE_SIZE] == EncodeInode(d);
    } else if j / IPB == inum / IPB {
      SlotsDisjoint(inum, j);
      assert a'[o..o + INODE_SIZE] == a[o..o + INODE_SIZE];
    }
  }

  // ---- what `iappend` achieves ----

  /** The blocks of the old file and block `except` are the only old blocks that may change. */
  ghost predicate OthersKept(disk: Disk, d: Dinode, free: nat, disk': Disk, except: int)
    requires Formatted(disk) && Complete(d) && d.size <= MAXFILE * BSIZE
  {
    && |disk'| == |disk|
    && forall b :: 0 <= b < free <= |disk| && b != except && !FileOwns(disk, d, b)
         ==> BlockSame(disk, disk', b)
  }

  /** Only block pointers differ, and not the one for a doubly indirect block, which goes unused. */
  ghost predicate SameButAddrs(d: Dinode, d': Dinode) {
    && Complete(d) && Complete(d')
    && d' == d.(addrs := d'.addrs) && d'.addrs[NDIRECT + 1] == d.addrs[NDIRECT + 1]
  }

  ghost predicate ByteSame(disk: Disk, disk': Disk, b: nat, j: nat)
    requires Formatted(disk) && Formatted(disk') && j < BSIZE
  {
    b < |disk| && b < |disk'| && disk'[b][j] == disk[b][j]
  }

  /** In the first `u` blocks of `m`, bytes outside file positions `[from, to)` are as they were. */
  ghost predicate Untouched(disk: Disk, disk': Disk, m: Ptrs, u: nat, from: nat, to: nat)
    requires Formatted(disk) && Formatted(disk') && u <= |m|
  {
    forall i, j :: 0 <= i < u && 0 <= j < BSIZE && !(from <= i * BSIZE + j < to) ==> ByteSame(disk, disk', m[i], j)
  }

  /** Blocks that appending `n` bytes to a file of `size` bytes takes. */
  function Demand(size: nat, n: nat): nat {
    Occupied(DataBlocks(size + n)) - Occupied(DataBlocks(size))
  }

  /** The file of inode `d'` has the blocks of `d` first and fresh ones after them. */
  ghost predicate Grows(disk: Disk, d: Dinode, free: nat, disk': Disk, d': Dinode)
    requires Formatted(disk) && Complete(d) && Formatted(disk') && Complete(d')
  {
    Extends(PtrsOf(disk, d), d.addrs[NDIRECT], DataBlocks(d.size), free,
            PtrsOf(disk', d'), d'.addrs[NDIRECT], DataBlocks(d'.size))
  }

  /** The outcome of appending `data` to inode `inum`. */
  ghost predicate Appended(disk: Disk, free: nat, start: nat, lo: nat, inum: nat, data: seq<byte>, disk': Disk,
                           free': nat)
    requires Formatted(disk) && inum / IPB + start < lo <= |disk|
    requires WellFormed(disk, InodeAt(disk, start, inum), lo, free)
  {
    && Formatted(disk') && |disk'| == |disk|
    && var d, d' := InodeAt(disk, start, inum), InodeAt(disk', start, inum);
    && WellFormed(disk', d', lo, free')
    && FileBytes(disk', d') == FileBytes(disk, d) + data
    && SameButAddrs(d.(size := d'.size), d')
    && free' == free + Demand(d.size, |data|)
    && Grows(disk, d, free, disk', d')
    && OthersKept(disk, d, free, disk', inum / IPB + start)
    && Untouched(disk, disk', PtrsOf(disk', d'), DataBlocks(d'.size), d.size, d'.size)
    && (forall j: nat :: j != inum && j / IPB + start < lo ==> InodeAt(disk', start, j) == InodeAt(disk, start, j))
  }

  ghost predicate Disjoint(disk: Disk, d: Dinode, e: Dinode)
    requires Formatted(disk) && Complete(d) && Complete(e)
    requires d.size <= MAXFILE * BSIZE && e.size <= MAXFILE * BSIZE
  {
    forall b: nat :: !(FileOwns(disk, d, b) && FileOwns(disk, e, b))
  }

  /** Appending to one file leaves every other file as it was, and the two still share no block. */
  lemma {:induction false} AppendKeepsOthers(disk: Disk, free: nat, start: nat, lo: nat, inum: nat, data: seq<byte>,
                                             disk': Disk, free': nat, j: nat)
    requires Formatted(disk) && inum / IPB + start < lo <= |disk| && j / IPB + start < lo && j != inum
    requires WellFormed(disk, InodeAt(disk, start, inum), lo, free)
    requires WellFormed(disk, InodeAt(disk, start, j), lo, free)
    requires Disjoint(disk, InodeAt(disk, start, inum), InodeAt(disk, start, j))
    requires Appended(disk, free, start, lo, inum, data, disk', free')
    ensures InodeAt(disk', start, j) == InodeAt(disk, start, j)
    ensures WellFormed(disk', InodeAt(disk', start, j), lo, free')
    ensures FileBytes(disk', InodeAt(disk', start, j)) == FileBytes(disk, InodeAt(disk, start, j))
    ensures Disjoint(disk', InodeAt(disk', start, inum), InodeAt(disk', start, j))
  {
    var d, d', e := InodeAt(disk, start, inum), InodeAt(disk', start, inum), InodeAt(disk, start, j);
    assert InodeAt(disk', start, j) == e;
    forall b | lo <= b < free && FileOwns(disk, e, b)
      ensures BlockSame(disk, disk', b)
    {
      assert b != inum / IPB + start && !FileOwns(disk, d, b);
    }
    FileUnchanged(disk, disk', e, lo, free, free');
    forall b: nat | FileOwns(disk', d', b)
      ensures FileOwns(disk, d, b) || b >= free
    {
      if b < free {
        StayDisjoint(PtrsOf(disk, d), d.addrs[NDIRECT], DataBlocks(d.size),
                     PtrsOf(disk', d'), d'.addrs[NDIRECT], DataBlocks(d'.size), free, b);
      }
    }
    forall b: nat | FileOwns(disk', e, b)
      ensures b < free && FileOwns(disk, e, b)
    {
    }
  }

  // ---- the loop of `iappend` ----

  /** The block map in the loop: the blocks of `d0` first, fresh ones after them, up to byte `off`. */
  ghost predicate Located(disk0: Disk, d0: Dinode, free0: nat, disk: Disk, d: Dinode, free: nat, off: nat, lo: nat)
    requires Formatted(disk0) && Complete(d0)
  {
    var u := DataBlocks(off);
    && d0.size <= off <= MAXFILE * BSIZE
    && Mapped(disk, d, u, NeedsIndirect(u), lo, free) && ZeroFrom(disk, free)
    && free0 <= free == free0 + Occupied(u) - Occupied(DataBlocks(d0.size))
    && Grows(disk0, d0, free0, disk, d.(size := off)) && SameButAddrs(d0, d)
  }

  /** The bytes in the loop: `off` bytes of `t` are in place and the rest of the old disk is kept. */
  ghost predicate Filled(disk0: Disk, d0: Dinode, free0: nat, t: seq<byte>, disk: Disk, d: Dinode, off: nat)
    requires Formatted(disk0) && Complete(d0) && d0.size <= MAXFILE * BSIZE
  {
    && Formatted(disk) && Complete(d) && off <= MAXFILE * BSIZE
    && Holds(disk, PtrsOf(disk, d), t, off)
    && OthersKept(disk0, d0, free0, disk, -1)
    && Untouched(disk0, disk, PtrsOf(disk, d), DataBlocks(off), d0.size, off)
  }

  /** The state of the loop. */
  ghost predicate Appending(disk0: Disk, d0: Dinode, free0: nat, t: seq<byte>, disk: Disk, d: Dinode, free: nat,
                            off: nat, lo: nat)
    requires Formatted(disk0) && Complete(d0) && d0.size <= MAXFILE * BSIZE
  {
    Located(disk0, d0, free0, disk, d, free, off, lo) && Filled(disk0, d0, free0, t, disk, d, off)
  }

  /** The block of `fbn` has been found: `u` blocks were mapped before and `fbn` is the last or next. */
  ghost predicate Found(disk: Disk, d: Dinode, u: nat, free: nat, fbn: nat,
                        disk': Disk, d': Dinode, free': nat, x: nat, lo: nat)
    requires Formatted(disk) && Complete(d)
  {
    && fbn < MAXFILE && (fbn == u || fbn + 1 == u) && |disk'| == |disk| && free <= free' <= |disk|
    && free' == free + Occupied(fbn + 1) - Occupied(u)
    && Mapped(disk', d', fbn + 1, NeedsIndirect(fbn + 1), lo, free') && ZeroFrom(disk', free')
    && x == PtrsOf(disk', d')[fbn] && SameButAddrs(d, d')
    && Extends(PtrsOf(disk, d), d.addrs[NDIRECT], u, free, PtrsOf(disk', d'), d'.addrs[NDIRECT], fbn + 1)
    && forall b :: 0 <= b < |disk| && (b == 0 || b != d'.addrs[NDIRECT]) ==> BlockSame(disk, disk', b)
  }

  lemma AppendBegins(disk: Disk, d: Dinode, free: nat, data: seq<byte>, lo: nat)
    requires WellFormed(disk, d, lo, free) && ZeroFrom(disk, free)
    ensures Appending(disk, d, free, FileBytes(disk, d) + data, disk, d, free, d.size, lo)
  {
    var f := FileBytes(disk, d);
    HoldsIsFileBytes(disk, d, f, lo, free);
    var m := PtrsOf(disk, d);
    forall i, j | 0 <= i < MAXFILE && 0 <= j < BSIZE && i * BSIZE + j < d.size
      ensures ByteIs(disk, m, f + data, i, j)
    {
      assert ByteIs(disk, m, f, i, j);
    }
    PtrsKept(disk, d, disk, d.(size := d.size));
  }

  /** The data still to come needs at least the block that could not be had. */
  lemma NoRoom(size: nat, fbn: nat)
    requires fbn * BSIZE < size
    ensures Occupied(fbn + 1) <= Occupied(DataBlocks(size))
  {
  }

  lemma TurnBytes(t: seq<byte>, disk: Disk, d: Dinode, free: nat, off: nat, fbn: nat, n: nat,
                  disk': Disk, d': Dinode, free': nat, x: nat, lo: nat)
    requires Mapped(disk, d, DataBlocks(off), NeedsIndirect(DataBlocks(off)), lo, free)
    requires Holds(disk, PtrsOf(disk, d), t, off)
    requires Found(disk, d, DataBlocks(off), free, fbn, disk', d', free', x, lo)
    requires fbn == off / BSIZE && 0 < n && off + n <= (fbn + 1) * BSIZE && off + n <= |t|
    ensures x < |disk'| && |disk'[x]| == BSIZE
    ensures var disk2 := Written(disk', x, off - fbn * BSIZE, t[off..off + n]);
      Formatted(disk2) && Holds(disk2, PtrsOf(disk', d'), t, off + n)
  {
    var m := PtrsOf(disk, d);
    forall i | 0 <= i < DataBlocks(off)
      ensures m[i] < |disk'| && disk'[m[i]] == disk[m[i]]
    {
      assert m[i] == PtrsOf(disk', d')[..DataBlocks(off)][i];
      assert BlockSame(disk, disk', m[i]);
    }
    HoldsElsewhere(disk, m, disk', PtrsOf(disk', d'), DataBlocks(off), t, off);
    HoldsMore(disk', PtrsOf(disk', d'), d'.addrs[NDIRECT], lo, free', t, off, fbn, n);
  }

  /** Writing the found block keeps the block map. */
  lemma TurnMap(disk: Disk, d: Dinode, u: nat, free: nat, i: nat, buf: Block, lo: nat)
    requires Mapped(disk, d, u, NeedsIndirect(u), lo, free) && ZeroFrom(disk, free) && i < u && |buf| == BSIZE
    ensures var disk' := disk[PtrsOf(disk, d)[i] := buf];
      && Mapped(disk', d, u, NeedsIndirect(u), lo, free) && ZeroFrom(disk', free)
      && PtrsOf(disk', d) == PtrsOf(disk, d)
  {
    var disk' := disk[PtrsOf(disk, d)[i] := buf];
    assert Formatted(disk');
    PtrsKept(disk, d, disk', d);
    ZeroKept(disk, free, PtrsOf(disk, d)[i], buf);
  }

  /** Neither finding nor writing the block touches a block of the old disk outside the file. */
  lemma TurnOthers(disk0: Disk, d0: Dinode, free0: nat, disk: Disk, d: Dinode, off: nat, free: nat, fbn: nat,
                   disk': Disk, d': Dinode, free': nat, x: nat, lo: nat, buf: Block)
    requires Formatted(disk0) && Complete(d0) && d0.size <= MAXFILE * BSIZE
    requires Mapped(disk, d, DataBlocks(off), NeedsIndirect(DataBlocks(off)), lo, free) && free0 <= free
    requires Grows(disk0, d0, free0, disk, d.(size := off)) && PtrsOf(disk, d.(size := off)) == PtrsOf(disk, d)
    requires OthersKept(disk0, d0, free0, disk, -1)
    requires Found(disk, d, DataBlocks(off), free, fbn, disk', d', free', x, lo)
    ensures x < |disk'| && OthersKept(disk0, d0, free0, disk'[x := buf], -1)
  {
    var m0, m, m', u := PtrsOf(disk0, d0), PtrsOf(disk, d), PtrsOf(disk', d'), DataBlocks(off);
    if fbn < u && x < free0 {
      assert m'[..u][fbn] == m[..u][fbn];
      assert x in m[..u];
      StayDisjoint(m0, d0.addrs[NDIRECT], DataBlocks(d0.size), m, d.addrs[NDIRECT], u, free0, x);
    }
    forall b | 0 <= b < free0 <= |disk0| && !FileOwns(disk0, d0, b)
      ensures BlockSame(disk0, disk'[x := buf], b)
    {
      assert BlockSame(disk0, disk, b) && BlockSame(disk, disk', b);
      assert b == 0 || b != d'.addrs[NDIRECT];
    }
  }

  /** The copy reaches only the bytes it is meant for. */
  lemma TurnUntouched(disk0: Disk, size0: nat, free0: nat, disk: Disk, d: Dinode, off: nat, free: nat, fbn: nat, n: nat,
                      disk': Disk, d': Dinode, free': nat, x: nat, lo: nat, piece: seq<byte>)
    requires Formatted(disk0) && ZeroFrom(disk0, free0) && |disk0| == |disk| && free0 <= free && size0 <= off
    requires Mapped(disk, d, DataBlocks(off), NeedsIndirect(DataBlocks(off)), lo, free) && ZeroFrom(disk, free)
    requires Found(disk, d, DataBlocks(off), free, fbn, disk', d', free', x, lo)
    requires Untouched(disk0, disk, PtrsOf(disk, d), DataBlocks(off), size0, off)
    requires fbn * BSIZE <= off && off + n <= (fbn + 1) * BSIZE && |piece| == n && x < |disk'|
    ensures var disk2 := Written(disk', x, off - fbn * BSIZE, piece);
      Formatted(disk2) && Untouched(disk0, disk2, PtrsOf(disk', d'), fbn + 1, size0, off + n)
  {
    var m, m', u := PtrsOf(disk, d), PtrsOf(disk', d'), DataBlocks(off);
    var disk2 := Written(disk', x, off - fbn * BSIZE, piece);
    forall i, j | 0 <= i < fbn + 1 && 0 <= j < BSIZE && !(size0 <= i * BSIZE + j < off + n)
      ensures ByteSame(disk0, disk2, m'[i], j)
    {
      assert BlockSame(disk, disk', m'[i]);
      assert i < fbn ==> Differ(m', i, fbn);
      if i < u {
        assert m'[..u][i] == m[..u][i];
        assert ByteSame(disk0, disk, m[i], j);
      } else {
        assert m'[i] >= free;
        assert IsZero(disk0, m'[i]) && IsZero(disk, m'[i]);
      }
    }
  }

  /** One turn of the loop: the block map. */
  lemma TurnLocated(disk0: Disk, d0: Dinode, free0: nat, disk: Disk, d: Dinode, free: nat, off: nat, fbn: nat,
                    n: nat, disk': Disk, d': Dinode, free': nat, x: nat, lo: nat, piece: seq<byte>)
    requires Formatted(disk0) && Complete(d0) && Located(disk0, d0, free0, disk, d, free, off, lo)
    requires Found(disk, d, DataBlocks(off), free, fbn, disk', d', free', x, lo)
    requires fbn == off / BSIZE && 0 < n == |piece| && off + n <= (fbn + 1) * BSIZE
    ensures x < |disk'| && |disk'[x]| == BSIZE
    ensures Located(disk0, d0, free0, Written(disk', x, off - fbn * BSIZE, piece), d', free', off + n, lo)
  {
    var buf := Splice(disk'[x], off - fbn * BSIZE, piece);
    assert DataBlocks(off + n) == fbn + 1;
    TurnMap(disk', d', fbn + 1, free', fbn, buf, lo);
    TurnGrows(disk0, d0, free0, disk, d, off, free, fbn, disk', d', free', x, lo, disk'[x := buf], off + n);
  }

  /** One turn of the loop: the bytes. */
  lemma TurnFilled(disk0: Disk, d0: Dinode, free0: nat, t: seq<byte>, disk: Disk, d: Dinode, free: nat, off: nat,
                   fbn: nat,
                   n: nat, disk': Disk, d': Dinode, free': nat, x: nat, lo: nat)
    requires Formatted(disk0) && Complete(d0) && d0.size <= MAXFILE * BSIZE && ZeroFrom(disk0, free0)
    requires Located(disk0, d0, free0, disk, d, free, off, lo) && Filled(disk0, d0, free0, t, disk, d, off)
    requires Found(disk, d, DataBlocks(off), free, fbn, disk', d', free', x, lo)
    requires fbn == off / BSIZE && 0 < n && off + n <= (fbn + 1) * BSIZE && off + n <= |t|
    ensures x < |disk'| && |disk'[x]| == BSIZE
    ensures Filled(disk0, d0, free0, t, Written(disk', x, off - fbn * BSIZE, t[off..off + n]), d', off + n)
  {
    TurnBytes(t, disk, d, free, off, fbn, n, disk', d', free', x, lo);
    var buf := Splice(disk'[x], off - fbn * BSIZE, t[off..off + n]);
    TurnMap(disk', d', fbn + 1, free', fbn, buf, lo);
    PtrsKept(disk, d, disk, d.(size := off));
    TurnOthers(disk0, d0, free0, disk, d, off, free, fbn, disk', d', free', x, lo, buf);
    TurnUntouched(disk0, d0.size, free0, disk, d, off, free, fbn, n, disk', d', free', x, lo, t[off..off + n]);
    assert DataBlocks(off + n) == fbn + 1;
  }

  lemma TurnGrows(disk0: Disk, d0: Dinode, free0: nat, disk: Disk, d: Dinode, off: nat, free: nat, fbn: nat,
                  disk': Disk, d': Dinode, free': nat, x: nat, lo: nat, disk2: Disk, end: nat)
    requires Formatted(disk0) && Complete(d0) && Formatted(disk) && Complete(d) && free0 <= free
    requires off < UINT_LIMIT && end < UINT_LIMIT && DataBlocks(end) == fbn + 1
    requires Grows(disk0, d0, free0, disk, d.(size := off))
    requires Found(disk, d, DataBlocks(off), free, fbn, disk', d', free', x, lo)
    requires Formatted(disk2) && |disk2| == |disk'| && PtrsOf(disk2, d') == PtrsOf(disk', d')
    ensures Grows(disk0, d0, free0, disk2, d'.(size := end))
  {
    PtrsKept(disk, d, disk, d.(size := off));
    PtrsKept(disk2, d', disk2, d'.(size := end));
    ExtendsTrans(PtrsOf(disk0, d0), d0.addrs[NDIRECT], DataBlocks(d0.size), free0,
                 PtrsOf(disk, d), d.addrs[NDIRECT], DataBlocks(off), free,
                 PtrsOf(disk', d'), d'.addrs[NDIRECT], fbn + 1);
  }

  /** A write below the data region changes nothing a file maps or holds. */
  lemma BelowData(disk: Disk, d: Dinode, u: nat, free: nat, t: seq<byte>, off: nat, bn: nat, buf: Block, size: uint32,
                  lo: nat)
    requires Mapped(disk, d, u, NeedsIndirect(u), lo, free) && ZeroFrom(disk, free)
    requires Holds(disk, PtrsOf(disk, d), t, off) && bn < lo && |buf| == BSIZE && off <= u * BSIZE
    ensures var disk', d' := disk[bn := buf], d.(size := size);
      && Formatted(disk') && PtrsOf(disk', d') == PtrsOf(disk, d) == PtrsOf(disk, d')
      && Mapped(disk', d', u, NeedsIndirect(u), lo, free) && ZeroFrom(disk', free)
      && Holds(disk', PtrsOf(disk', d'), t, off)
  {
    var disk', d' := disk[bn := buf], d.(size := size);
    assert Formatted(disk');
    PtrsKept(disk, d, disk', d');
    PtrsKept(disk, d, disk, d');
    HoldsElsewhere(disk, PtrsOf(disk, d), disk', PtrsOf(disk', d'), u, t, off);
    ZeroKept(disk, free, bn, buf);
  }

  lemma UntouchedBelow(disk0: Disk, disk: Disk, m: Ptrs, a: uint32, u: nat, from: nat, to: nat, bn: nat, buf: Block,
                       lo: nat, free: nat)
    requires Formatted(disk0) && Formatted(disk) && |buf| == BSIZE && bn < lo <= |disk|
    requires MapOk(m, a, u, lo, free) && Untouched(disk0, disk, m, u, from, to)
    ensures Formatted(disk[bn := buf]) && Untouched(disk0, disk[bn := buf], m, u, from, to)
  {
    var disk' := disk[bn := buf];
    forall i, j | 0 <= i < u && 0 <= j < BSIZE && !(from <= i * BSIZE + j < to)
      ensures ByteSame(disk0, disk', m[i], j)
    {
      assert ByteSame(disk0, disk, m[i], j);
    }
  }

  /** Blocks below the data region belong to no file. */
  lemma InodeBlockKept(disk0: Disk, d0: Dinode, free0: nat, disk: Disk, lo: nat, b: nat)
    requires WellFormed(disk0, d0, lo, free0) && OthersKept(disk0, d0, free0, disk, -1) && b < lo
    ensures disk[b] == disk0[b]
  {
    var m := PtrsOf(disk0, d0);
    assert !FileOwns(disk0, d0, b);
    assert BlockSame(disk0, disk, b);
  }

  /** Only inode `inum` differs once it is written back. */
  lemma DoneInodes(disk0: Disk, d0: Dinode, free0: nat, start: nat, inum: nat, disk: Disk, d: Dinode, lo: nat)
    requires WellFormed(disk0, d0, lo, free0) && OthersKept(disk0, d0, free0, disk, -1) && Formatted(disk)
    requires inum / IPB + start < lo <= |disk0| && Complete(d)
    ensures var disk' := InodeWritten(disk, start, inum, d);
      && Formatted(disk') && InodeAt(disk', start, inum) == d
      && OthersKept(disk0, d0, free0, disk', inum / IPB + start)
      && forall j: nat :: j != inum && j / IPB + start < lo ==> InodeAt(disk', start, j) == InodeAt(disk0, start, j)
  {
    var disk' := InodeWritten(disk, start, inum, d);
    InodeWriteRead(disk, start, inum, d, inum);
    forall j: nat | j != inum && j / IPB + start < lo
      ensures InodeAt(disk', start, j) == InodeAt(disk0, start, j)
    {
      InodeWriteRead(disk, start, inum, d, j);
      InodeBlockKept(disk0, d0, free0, disk, lo, j / IPB + start);
    }
  }

  /** Finding the block and writing it is one turn of the loop. */
  lemma TurnDone(disk0: Disk, d0: Dinode, free0: nat, t: seq<byte>, disk: Disk, d: Dinode, free: nat, off: nat,
                 fbn: nat,
                 at: nat, piece: seq<byte>, to: nat, disk': Disk, d': Dinode, free': nat, x: nat, lo: nat)
    requires Formatted(disk0) && Complete(d0) && d0.size <= MAXFILE * BSIZE && ZeroFrom(disk0, free0)
    requires Appending(disk0, d0, free0, t, disk, d, free, off, lo)
    requires Found(disk, d, DataBlocks(off), free, fbn, disk', d', free', x, lo)
    requires fbn == off / BSIZE && at == off - fbn * BSIZE && off < to <= (fbn + 1) * BSIZE
    requires to <= |t| && piece == t[off..to]
    ensures x < |disk'| && |disk'[x]| == BSIZE
    ensures Appending(disk0, d0, free0, t, Written(disk', x, at, piece), d', free', to, lo)
  {
    var n := to - off;
    TurnLocated(disk0, d0, free0, disk, d, free, off, fbn, n, disk', d', free', x, lo, t[off..off + n]);
    TurnFilled(disk0, d0, free0, t, disk, d, free, off, fbn, n, disk', d', free', x, lo);
  }

  /** What remains after the loop concerns the file: its inode block is written, which is none of its own. */
  lemma DoneFile(disk0: Disk, d0: Dinode, free0: nat, t: seq<byte>, disk: Disk, d: Dinode, free: nat, off: nat, lo: nat,
                 bn: nat, buf: Block)
    requires Formatted(disk0) && Complete(d0) && d0.size <= MAXFILE * BSIZE
    requires Appending(disk0, d0, free0, t, disk, d, free, off, lo) && |t| == off
    requires bn < lo && |buf| == BSIZE
    ensures var disk', d' := disk[bn := buf], d.(size := off);
      && Formatted(disk') && WellFormed(disk', d', lo, free) && FileBytes(disk', d') == t
      && Grows(disk0, d0, free0, disk', d') && ZeroFrom(disk', free)
      && Untouched(disk0, disk', PtrsOf(disk', d'), DataBlocks(off), d0.size, off)
  {
    BelowData(disk, d, DataBlocks(off), free, t, off, bn, buf, off, lo);
    UntouchedBelow(disk0, disk, PtrsOf(disk, d), d.addrs[NDIRECT], DataBlocks(off), d0.size, off, bn, buf, lo, free);
    HoldsIsFileBytes(disk[bn := buf], d.(size := off), t, lo, free);
  }

  /** Writing the inode back completes the append. */
  lemma {:induction false} AppendDone(disk0: Disk, free0: nat, start: nat, inum: nat, data: seq<byte>,
                                      disk: Disk, d: Dinode, free: nat, off: nat, lo: nat)
    requires Formatted(disk0) && inum / IPB + start < lo <= |disk0|
    requires WellFormed(disk0, InodeAt(disk0, start, inum), lo, free0)
    requires var d0 := InodeAt(disk0, start, inum);
      && off == d0.size + |data|
      && Appending(disk0, d0, free0, FileBytes(disk0, d0) + data, disk, d, free, off, lo)
    ensures var disk' := InodeWritten(disk, start, inum, d.(size := off));
      Appended(disk0, free0, start, lo, inum, data, disk', free) && ZeroFrom(disk', free)
  {
    var d0 := InodeAt(disk0, start, inum);
    var bn := inum / IPB + start;
    var d' := d.(size := off);
    DoneInodes(disk0, d0, free0, start, inum, disk, d', lo);
    DoneFile(disk0, d0, free0, FileBytes(disk0, d0) + data, disk, d, free, off, lo, bn,
             InodeWritten(disk, start, inum, d')[bn]);
  }

  // ---- the program ----

  class Formatter {
    var disk: Disk
    var sb: Superblock
    var freeinode: nat
    var freeblock: nat
    var nmeta: nat

    method Rsect(sec: nat) returns (r: Option<Block>)
      ensures r == if sec < |disk| then Some(disk[sec]) else None
    {
      if sec >= |disk| {
        return None;
      }
      return Some(disk[sec]);
    }

    method Wsect(sec: nat, buf: Block) returns (ok: bool)
      modifies this`disk
      ensures ok <==> sec < |disk|
      ensures disk == if sec < old(|disk|) then old(disk)[sec := buf] else old(disk)
    {
      if sec >= |disk| {
        return false;
      }
      disk := disk[sec := buf];
      return true;
    }

    /** `winode` (mkfs_xv6fs.c:127-135) */
    method Winode(inum: nat, d: Dinode) returns (ok: bool)
      requires Formatted(disk) && Complete(d)
      modifies this`disk
      ensures ok <==> inum / IPB + sb.inodestart < old(|disk|)
      ensures ok ==> disk == InodeWritten(old(disk), sb.inodestart, inum, d)
    {
      var bn := inum / IPB + sb.inodestart;
      var buf := Rsect(bn);
      if buf == None {
        return false;
      }
      ok := Wsect(bn, Splice(buf.value, Slot(inum), EncodeInode(d)));
    }

    /** `rinode` (mkfs_xv6fs.c:137-144) */
    method Rinode(inum: nat) returns (r: Option<Dinode>)
      requires Formatted(disk)
      ensures inum / IPB + sb.inodestart < |disk| ==> r == Some(InodeAt(disk, sb.inodestart, inum))
      ensures inum / IPB + sb.inodestart >= |disk| ==> r == None
    {
      var buf := Rsect(inum / IPB + sb.inodestart);
      if buf == None {
        return None;
      }
      return Some(DecodeInode(buf.value[Slot(inum)..Slot(inum) + INODE_SIZE]));
    }

    /** `ialloc` (mkfs_xv6fs.c:147-157) */
    method Ialloc(typ: uint16) returns (r: Option<nat>)
      requires Formatted(disk)
      modifies this`disk, this`freeinode
      ensures freeinode == old(freeinode) + 1
      ensures r.Some? <==> old(freeinode) / IPB + sb.inodestart < old(|disk|)
      ensures r.Some? ==> r.value == old(freeinode)
      ensures r.Some? ==> disk == InodeWritten(old(disk), sb.inodestart, r.value, ZERO_INODE.(typ := typ, nlink := 1))
    {
      var inum := freeinode;
      freeinode := freeinode + 1;
      var ok := Winode(inum, ZERO_INODE.(typ := typ, nlink := 1, size := 0));
      r := if ok then Some(inum) else None;
    }

    /** A direct block (mkfs_xv6fs.c:194-197). */
    method FindDirect(din: Dinode, fbn: nat, ghost u: nat) returns (d: Dinode, x: nat)
      requires Mapped(disk, din, u, NeedsIndirect(u), nmeta, freeblock) && ZeroFrom(disk, freeblock)
      requires |disk| < UINT_LIMIT && fbn < NDIRECT && (fbn == u || fbn + 1 == u)
      modifies this`freeblock
      ensures x < |disk| <==> old(freeblock) + Occupied(fbn + 1) - Occupied(u) <= |disk|
      ensures x < |disk| ==> Found(old(disk), din, u, old(freeblock), fbn, disk, d, freeblock, x, nmeta)
    {
      d := din;
      PtrsAt(disk, din);
      assert d.addrs[fbn] == PtrsOf(disk, din)[fbn];
      if d.addrs[fbn] == 0 {
        if freeblock < |disk| {
          DirectAlloc(disk, d, u, nmeta, freeblock);
        }
        d := d.(addrs := d.addrs[fbn := freeblock]);
        freeblock := freeblock + 1;
      }
      x := d.addrs[fbn];
    }

    /** The indirect block, allocated if need be (mkfs_xv6fs.c:199-201). */
    method FindIndirect(din: Dinode, fbn: nat, ghost u: nat) returns (d: Dinode)
      requires Mapped(disk, din, u, NeedsIndirect(u), nmeta, freeblock) && ZeroFrom(disk, freeblock)
      requires |disk| < UINT_LIMIT && NDIRECT <= fbn < MAXFILE && (fbn == u || fbn + 1 == u)
      modifies this`freeblock
      ensures freeblock == old(freeblock) + if u == NDIRECT then 1 else 0
      ensures Complete(d) && (d.addrs[NDIRECT] < |disk| <==> freeblock <= |disk|)
      ensures freeblock <= |disk| ==> Mapped(disk, d, u, true, nmeta, freeblock) && ZeroFrom(disk, freeblock)
      ensures freeblock <= |disk| ==> PtrsOf(disk, d) == PtrsOf(disk, din)
      ensures d.addrs[NDIRECT] == din.addrs[NDIRECT] || d.addrs[NDIRECT] == old(freeblock)
      ensures SameButAddrs(din, d)
    {
      d := din;
      if d.addrs[NDIRECT] == 0 {
        if freeblock < |disk| {
          assert IsZero(disk, freeblock);
          IndirectAlloc(disk, d, nmeta, freeblock);
        }
        d := d.(addrs := d.addrs[NDIRECT := freeblock]);
        freeblock := freeblock + 1;
      }
    }

    /** The entry of the indirect block (mkfs_xv6fs.c:202-207). */
    method FindEntry(din: Dinode, fbn: nat, ghost u: nat) returns (x: nat)
      requires Mapped(disk, din, u, true, nmeta, freeblock) && ZeroFrom(disk, freeblock)
      requires |disk| < UINT_LIMIT && NDIRECT <= fbn < MAXFILE && (fbn == u || fbn + 1 == u)
      modifies this`disk, this`freeblock
      ensures |disk| == old(|disk|) && Formatted(disk)
      ensures x < |disk| <==> old(freeblock) + fbn + 1 - u <= |disk|
      ensures x < |disk| ==> freeblock == old(freeblock) + fbn + 1 - u && x == PtrsOf(disk, din)[fbn]
      ensures x < |disk| ==> Mapped(disk, din, fbn + 1, true, nmeta, freeblock) && ZeroFrom(disk, freeblock)
      ensures x < |disk| ==> Extends(PtrsOf(old(disk), din), din.addrs[NDIRECT], u, old(freeblock),
                                     PtrsOf(disk, din), din.addrs[NDIRECT], fbn + 1)
      ensures forall b :: 0 <= b < |disk| && b != din.addrs[NDIRECT] ==> disk[b] == old(disk[b])
    {
      var entries := disk[din.addrs[NDIRECT]];
      var at := 4 * (fbn - NDIRECT);
      PtrsAt(disk, din);
      assert GetInt(entries, at) == PtrsOf(disk, din)[fbn];
      if GetInt(entries, at) == 0 {
        SpliceInt(entries, at, freeblock);
        if freeblock < |disk| {
          EntryAlloc(disk, din, fbn, nmeta, freeblock,
                     disk[din.addrs[NDIRECT] := Splice(entries, at, IntBytes(freeblock))]);
        }
        entries := Splice(entries, at, IntBytes(freeblock));
        freeblock := freeblock + 1;
        ZeroKept(disk, freeblock - 1, din.addrs[NDIRECT], entries);
        assert ZeroFrom(disk[din.addrs[NDIRECT] := entries], freeblock);
        var ok := Wsect(din.addrs[NDIRECT], entries);
      }
      x := GetInt(entries, at);
    }

    /** The block that takes byte `fbn * BSIZE` and what follows, allocated if need be
        (mkfs_xv6fs.c:193-208). */
    method Find(din: Dinode, fbn: nat, ghost u: nat) returns (ok: bool, d: Dinode, x: nat)
      requires Mapped(disk, din, u, NeedsIndirect(u), nmeta, freeblock) && ZeroFrom(disk, freeblock)
      requires |disk| < UINT_LIMIT && fbn < MAXFILE && (fbn == u || fbn + 1 == u)
      modifies this`disk, this`freeblock
      ensures |disk| == old(|disk|) && Formatted(disk)
      ensures ok && x < |disk| <==> old(freeblock) + Occupied(fbn + 1) - Occupied(u) <= |disk|
      ensures ok && x < |disk| ==> Found(old(disk), din, u, old(freeblock), fbn, disk, d, freeblock, x, nmeta)
    {
      if fbn < NDIRECT {
        d, x := FindDirect(din, fbn, u);
        return true, d, x;
      }
      d := FindIndirect(din, fbn, u);
      var indirect := Rsect(d.addrs[NDIRECT]);
      if indirect == None {
        return false, d, 0;
      }
      x := FindEntry(d, fbn, u);
      return true, d, x;
    }

    /** Room for the data: within the largest file, and enough blocks left on the device. */
    ghost predicate Room(size: nat, n: nat)
      reads this
    {
      size + n <= MAXFILE * BSIZE && freeblock + Demand(size, n) <= |disk|
    }

    /** `iappend` (mkfs_xv6fs.c:175-221).  It ends the program exactly when there is no room; otherwise
        the file's bytes become the old ones followed by `data`. */
    method Iappend(inum: nat, data: seq<byte>) returns (ok: bool)
      requires Formatted(disk) && |disk| < UINT_LIMIT && ZeroFrom(disk, freeblock)
      requires inum / IPB + sb.inodestart < nmeta <= |disk|
      requires WellFormed(disk, InodeAt(disk, sb.inodestart, inum), nmeta, freeblock)
      modifies this`disk, this`freeblock
      ensures ok <==> old(Room(InodeAt(disk, sb.inodestart, inum).size, |data|))
      ensures ok ==> Appended(old(disk), old(freeblock), sb.inodestart, nmeta, inum, data, disk, freeblock)
      ensures ok ==> ZeroFrom(disk, freeblock)
    {
      var r := Rinode(inum);
      var din := r.value;
      ghost var disk0, free0 := disk, freeblock;
      ok, din := AppendAll(din, data, FileBytes(disk, din) + data);
      if !ok {
        return;
      }
      var off := din.size + |data|;
      AppendDone(disk0, free0, sb.inodestart, inum, data, disk, din, freeblock, off, nmeta);
      ok := Winode(inum, din.(size := off));
    }

    /** The loop (mkfs_xv6fs.c:185-218); the size in the inode stays as it was until the end. */
    method AppendAll(d0: Dinode, data: seq<byte>, ghost t: seq<byte>) returns (ok: bool, din: Dinode)
      requires Formatted(disk) && |disk| < UINT_LIMIT && ZeroFrom(disk, freeblock)
      requires WellFormed(disk, d0, nmeta, freeblock) && t == FileBytes(disk, d0) + data
      modifies this`disk, this`freeblock
      ensures |disk| == old(|disk|)
      ensures !ok ==> !old(Room(d0.size, |data|))
      ensures ok ==> Appending(old(disk), d0, old(freeblock), t, disk, din, freeblock, d0.size + |data|, nmeta)
      ensures ok ==> din.size == d0.size
    {
      ghost var disk0, free0 := disk, freeblock;
      AppendBegins(disk, d0, freeblock, data, nmeta);
      din := d0;
      var off: nat, rest := din.size, data;
      ok := true;
      while rest != []
        invariant d0.size <= off <= |t| && rest == t[off..] && |disk| == |disk0| && ok
        invariant Appending(disk0, d0, free0, t, disk, din, freeblock, off, nmeta)
        decreases |rest|
      {
        var n1;
        ok, din, n1 := Turn(din, off, rest, disk0, d0, free0, t);
        if !ok {
          return;
        }
        rest, off := rest[n1..], off + n1;
      }
    }

    /** The body of the loop (mkfs_xv6fs.c:188-217): of the bytes still to come the first `n1` go to disk. */
    method Turn(din: Dinode, off: nat, rest: seq<byte>, ghost disk0: Disk, ghost d0: Dinode, ghost free0: nat,
                ghost t: seq<byte>)
      returns (ok: bool, d: Dinode, n1: nat)
      requires Formatted(disk0) && Complete(d0) && d0.size <= MAXFILE * BSIZE
      requires |disk| < UINT_LIMIT && ZeroFrom(disk0, free0)
      requires Appending(disk0, d0, free0, t, disk, din, freeblock, off, nmeta)
      requires rest != [] && off < |t| && rest == t[off..]
      modifies this`disk, this`freeblock
      ensures !ok ==>
        |t| > MAXFILE * BSIZE || free0 + Occupied(DataBlocks(|t|)) - Occupied(DataBlocks(d0.size)) > |disk|
      ensures ok ==> 0 < n1 <= |rest|
      ensures ok ==> Appending(disk0, d0, free0, t, disk, d, freeblock, off + n1, nmeta)
      ensures |disk| == old(|disk|)
    {
      var fbn := off / BSIZE;
      d, n1 := din, 0;
      if fbn >= MAXFILE {
        return false, d, n1;
      }
      n1 := (fbn + 1) * BSIZE - off;
      if |rest| < n1 {
        n1 := |rest|;
      }
      NoRoom(|t|, fbn);
      assert rest[..n1] == t[off..off + n1];
      ok, d := Store(din, off, fbn, rest[..n1], off + n1, disk0, d0, free0, t);
    }

    /** The piece up to file position `to` goes into its block. */
    method Store(din: Dinode, off: nat, fbn: nat, piece: seq<byte>, ghost to: nat,
                 ghost disk0: Disk, ghost d0: Dinode, ghost free0: nat, ghost t: seq<byte>)
      returns (ok: bool, d: Dinode)
      requires Formatted(disk0) && Complete(d0) && d0.size <= MAXFILE * BSIZE
      requires |disk| < UINT_LIMIT && ZeroFrom(disk0, free0)
      requires Appending(disk0, d0, free0, t, disk, din, freeblock, off, nmeta)
      requires fbn == off / BSIZE < MAXFILE && off < to <= (fbn + 1) * BSIZE && to <= |t| && piece == t[off..to]
      modifies this`disk, this`freeblock
      ensures |disk| == old(|disk|)
      ensures !ok ==> free0 + Occupied(fbn + 1) - Occupied(DataBlocks(d0.size)) > |disk|
      ensures ok ==> Appending(disk0, d0, free0, t, disk, d, freeblock, to, nmeta)
    {
      ghost var disk1, free1 := disk, freeblock;
      var at := off - fbn * BSIZE;
      var x;
      ghost var disk2;
      ok, d, x, disk2 := Place(din, fbn, at, piece, DataBlocks(off));
      if ok {
        TurnDone(disk0, d0, free0, t, disk1, din, free1, off, fbn, at, piece, to, disk2, d, freeblock, x, nmeta);
      }
    }

    /** Finds the block of `fbn` and copies `piece` into it (mkfs_xv6fs.c:193-214); `found` is the disk between. */
    method Place(din: Dinode, fbn: nat, at: nat, piece: seq<byte>, ghost u: nat)
      returns (ok: bool, d: Dinode, x: nat, ghost found: Disk)
      requires Mapped(disk, din, u, NeedsIndirect(u), nmeta, freeblock) && ZeroFrom(disk, freeblock)
      requires |disk| < UINT_LIMIT && fbn < MAXFILE && (fbn == u || fbn + 1 == u) && at + |piece| <= BSIZE
      modifies this`disk, this`freeblock
      ensures |disk| == old(|disk|)
      ensures ok <==> old(freeblock) + Occupied(fbn + 1) - Occupied(u) <= |disk|
      ensures ok ==> Found(old(disk), din, u, old(freeblock), fbn, found, d, freeblock, x, nmeta)
      ensures ok ==> x < |found| && Formatted(found) && disk == Written(found, x, at, piece)
    {
      ok, d, x := Find(din, fbn, u);
      found := disk;
      if ok {
        ok := Update(x, at, piece);
      }
    }

    /** Read, change and write back one block (mkfs_xv6fs.c:212-214). */
    method Update(x: nat, at: nat, piece: seq<byte>) returns (ok: bool)
      requires x < |disk| ==> at + |piece| <= |disk[x]|
      modifies this`disk
      ensures ok <==> x < old(|disk|)
      ensures disk == if x < old(|disk|) then Written(old(disk), x, at, piece) else old(disk)
    {
      var buf := Rsect(x);
      if buf == None {
        return false;
      }
      ok := Wsect(x, Splice(buf.value, at, piece));
    }
  }
}
