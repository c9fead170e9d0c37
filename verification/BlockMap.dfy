/** The blocks of a file: eleven direct pointers and one indirect block of 256 more
    (programs/mkfs_xv6fs/mkfs_xv6fs.c:41-48, 188-208). */
module BlockMap {
  import opened Ondisk

  type Disk = seq<Block>

  ghost predicate Formatted(disk: Disk) {
    forall b :: 0 <= b < |disk| ==> |disk[b]| == BSIZE
  }

  ghost predicate IsZero(disk: Disk, b: nat) {
    b < |disk| && disk[b] == ZERO_BLOCK
  }

  ghost predicate ZeroFrom(disk: Disk, free: nat) {
    forall b :: free <= b < |disk| ==> IsZero(disk, b)
  }

  ghost predicate BlockSame(disk: Disk, disk': Disk, b: nat) {
    b < |disk| && b < |disk'| && disk'[b] == disk[b]
  }

  /** The block that holds file block `i`; 0 if there is none. */
  function Ptr(disk: Disk, d: Dinode, i: nat): uint32
    requires Formatted(disk) && Complete(d) && i < MAXFILE
  {
    if i < NDIRECT then d.addrs[i]
    else if 0 < d.addrs[NDIRECT] < |disk| then GetInt(disk[d.addrs[NDIRECT]], 4 * (i - NDIRECT))
    else 0
  }

  /** From file block 11 on the pointers stand in the indirect block, four bytes each, low byte first. */
  lemma EntryBytes(disk: Disk, d: Dinode, i: nat)
    requires Formatted(disk) && Complete(d) && 11 <= i < 267 && 0 < d.addrs[11] < |disk|
    ensures HasInt(disk[d.addrs[11]], 4 * (i - 11), Ptr(disk, d, i))
  {
    IntRead(disk[d.addrs[11]], 4 * (i - 11), Ptr(disk, d, i));
  }

  type Ptrs = seq<uint32>

  ghost predicate PtrIs(disk: Disk, d: Dinode, m: Ptrs, i: nat)
    requires Formatted(disk) && Complete(d) && i < |m| == MAXFILE
  {
    m[i] == Ptr(disk, d, i)
  }

  lemma PtrsExist(disk: Disk, d: Dinode)
    requires Formatted(disk) && Complete(d)
    ensures exists m: Ptrs :: |m| == MAXFILE && forall i :: 0 <= i < MAXFILE ==> PtrIs(disk, d, m, i)
  {
    var m: Ptrs := seq(MAXFILE, i requires 0 <= i < MAXFILE => Ptr(disk, d, i));
    assert forall i :: 0 <= i < MAXFILE ==> PtrIs(disk, d, m, i);
  }

  /** All block pointers of a file, in file order. */
  ghost function PtrsOf(disk: Disk, d: Dinode): (m: Ptrs)
    requires Formatted(disk) && Complete(d)
    ensures |m| == MAXFILE
  {
    PtrsExist(disk, d);
    var m: Ptrs :| |m| == MAXFILE && forall i :: 0 <= i < MAXFILE ==> PtrIs(disk, d, m, i);
    m
  }

  lemma PtrsAt(disk: Disk, d: Dinode)
    requires Formatted(disk) && Complete(d)
    ensures forall i :: 0 <= i < MAXFILE ==> PtrsOf(disk, d)[i] == Ptr(disk, d, i)
  {
    forall i | 0 <= i < MAXFILE
      ensures PtrsOf(disk, d)[i] == Ptr(disk, d, i)
    {
      assert PtrIs(disk, d, PtrsOf(disk, d), i);
    }
  }

  /** Whether the first `u` file blocks need the indirect block. */
  predicate NeedsIndirect(u: nat) {
    u > NDIRECT
  }

  ghost predicate Differ(m: Ptrs, i: nat, j: nat)
    requires i < |m| && j < |m|
  {
    m[i] != m[j]
  }

  /** Exactly the first `u` pointers are set, to distinct blocks of `[lo, free)` other than `a`. */
  ghost predicate MapOk(m: Ptrs, a: uint32, u: nat, lo: nat, free: nat) {
    && u <= |m|
    && (forall i :: 0 <= i < u ==> lo <= m[i] < free && m[i] != a)
    && (forall i :: u <= i < |m| ==> m[i] == 0)
    && (forall i, j :: 0 <= i < j < u ==> Differ(m, i, j))
  }

  /** The file maps exactly its first `u` blocks, to distinct blocks of `[lo, free)`; `ind` says
      whether its indirect block is there, which is distinct from all of them. */
  ghost predicate Mapped(disk: Disk, d: Dinode, u: nat, ind: bool, lo: nat, free: nat) {
    && Formatted(disk) && Complete(d) && 0 < lo <= free <= |disk|
    && (ind <==> d.addrs[NDIRECT] != 0)
    && (ind ==> lo <= d.addrs[NDIRECT] < free)
    && (NeedsIndirect(u) ==> ind)
    && MapOk(PtrsOf(disk, d), d.addrs[NDIRECT], u, lo, free)
  }

  /** Block `b` belongs to the file: it is one of its data blocks or its indirect block `a`. */
  ghost predicate Owns(m: Ptrs, a: uint32, u: nat, b: nat)
    requires u <= |m|
  {
    (b != 0 && b == a) || b in m[..u]
  }

  /** The blocks a file of `size` bytes occupies, data only. */
  function DataBlocks(size: nat): nat {
    (size + BSIZE - 1) / BSIZE
  }

  /** All blocks of a file with `u` data blocks. */
  function Occupied(u: nat): nat {
    u + if NeedsIndirect(u) then 1 else 0
  }

  /** A well-formed file: as many blocks mapped as the size asks for. */
  ghost predicate WellFormed(disk: Disk, d: Dinode, lo: nat, free: nat) {
    && d.size <= MAXFILE * BSIZE
    && Mapped(disk, d, DataBlocks(d.size), NeedsIndirect(DataBlocks(d.size)), lo, free)
  }

  /** `b` is a block of the file. */
  ghost predicate FileOwns(disk: Disk, d: Dinode, b: nat)
    requires Formatted(disk) && Complete(d) && d.size <= MAXFILE * BSIZE
  {
    Owns(PtrsOf(disk, d), d.addrs[NDIRECT], DataBlocks(d.size), b)
  }

  lemma BlockIndices(size: nat)
    ensures forall k :: 0 <= k < size ==> 0 <= k / BSIZE < DataBlocks(size)
    ensures size <= MAXFILE * BSIZE ==> DataBlocks(size) <= MAXFILE
  {
    forall k | 0 <= k < size
      ensures k / BSIZE < DataBlocks(size)
    {
      var i, j := k / BSIZE, k % BSIZE;
      assert k == i * BSIZE + j;
    }
  }

  /** The contents of a file. */
  ghost function FileBytes(disk: Disk, d: Dinode): (s: seq<byte>)
    requires Formatted(disk) && Complete(d) && d.size <= MAXFILE * BSIZE
    requires forall i :: 0 <= i < DataBlocks(d.size) ==> PtrsOf(disk, d)[i] < |disk|
    ensures |s| == d.size
  {
    BlockIndices(d.size);
    var m := PtrsOf(disk, d);
    seq(d.size, k requires 0 <= k < d.size => disk[m[k / BSIZE]][k % BSIZE])
  }

  /** Byte `j` of file block `i` is the byte of `t` at that place. */
  ghost predicate ByteIs(disk: Disk, m: Ptrs, t: seq<byte>, i: nat, j: nat)
    requires Formatted(disk) && i < |m| && j < BSIZE && i * BSIZE + j < |t|
  {
    m[i] < |disk| && disk[m[i]][j] == t[i * BSIZE + j]
  }

  /** The blocks of `m` hold the first `off` bytes of `t`. */
  ghost predicate Holds(disk: Disk, m: Ptrs, t: seq<byte>, off: nat)
    requires Formatted(disk)
  {
    && off <= |t| && off <= |m| * BSIZE
    && forall i, j :: 0 <= i < |m| && 0 <= j < BSIZE && i * BSIZE + j < off ==> ByteIs(disk, m, t, i, j)
  }

  lemma HoldsIsFileBytes(disk: Disk, d: Dinode, t: seq<byte>, lo: nat, free: nat)
    requires WellFormed(disk, d, lo, free) && d.size == |t|
    ensures Holds(disk, PtrsOf(disk, d), t, |t|) <==> FileBytes(disk, d) == t
  {
    var m, f := PtrsOf(disk, d), FileBytes(disk, d);
    if f == t {
      forall i, j | 0 <= i < MAXFILE && 0 <= j < BSIZE && i * BSIZE + j < |t|
        ensures ByteIs(disk, m, t, i, j)
      {
        var k := i * BSIZE + j;
        assert k / BSIZE == i && k % BSIZE == j;
        assert f[k] == disk[m[k / BSIZE]][k % BSIZE];
      }
    }
    if Holds(disk, m, t, |t|) {
      forall k | 0 <= k < |t|
        ensures f[k] == t[k]
      {
        var i, j := k / BSIZE, k % BSIZE;
        assert i * BSIZE + j == k;
        assert ByteIs(disk, m, t, i, j);
      }
    }
  }

  /** `m'` keeps the first `u` pointers of `m`, and whatever it adds lies at `free` or above; so does a
      new indirect block. */
  ghost predicate Extends(m: Ptrs, a: uint32, u: nat, free: nat, m': Ptrs, a': uint32, u': nat) {
    && u <= u' <= |m| == |m'| && m'[..u] == m[..u]
    && (forall i :: u <= i < u' ==> m'[i] >= free)
    && (a' == a || (a == 0 && a' >= free))
  }

  lemma ExtendsTrans(m: Ptrs, a: uint32, u: nat, free: nat, m': Ptrs, a': uint32, u': nat, free': nat,
                     m'': Ptrs, a'': uint32, u'': nat)
    requires Extends(m, a, u, free, m', a', u') && free <= free' && Extends(m', a', u', free', m'', a'', u'')
    ensures Extends(m, a, u, free, m'', a'', u'')
  {
    assert m''[..u] == m''[..u'][..u] == m'[..u'][..u] == m[..u];
    forall i | u <= i < u''
      ensures m''[i] >= free
    {
      if i < u' {
        assert m''[..u'][i] == m'[..u'][i];
      }
    }
  }

  /** The pointers depend only on the inode and the indirect block. */
  lemma PtrsKept(disk: Disk, d: Dinode, disk': Disk, d': Dinode)
    requires Formatted(disk) && Complete(d) && Formatted(disk') && Complete(d') && |disk'| == |disk|
    requires d'.addrs == d.addrs
    requires 0 < d.addrs[NDIRECT] < |disk| ==> disk'[d.addrs[NDIRECT]] == disk[d.addrs[NDIRECT]]
    ensures PtrsOf(disk', d') == PtrsOf(disk, d)
  {
    PtrsAt(disk, d);
    PtrsAt(disk', d');
    assert forall i :: 0 <= i < MAXFILE ==> Ptr(disk', d', i) == Ptr(disk, d, i);
  }

  // ---- one step of the loop of `iappend` ----

  /** Setting the next pointer to a fresh block. */
  lemma MapMore(m: Ptrs, a: uint32, u: nat, lo: nat, free: nat)
    requires MapOk(m, a, u, lo, free) && u < |m| && lo <= free < UINT_LIMIT && a < free
    ensures MapOk(m[u := free], a, u + 1, lo, free + 1)
    ensures Extends(m, a, u, free, m[u := free], a, u + 1)
  {
    var m' := m[u := free];
    forall i, j | 0 <= i < j < u + 1
      ensures Differ(m', i, j)
    {
      assert j < u ==> Differ(m, i, j);
    }
  }

  /** A write below the free blocks leaves them zero. */
  lemma ZeroKept(disk: Disk, free: nat, a: nat, buf: Block)
    requires ZeroFrom(disk, free) && a < free && a < |disk|
    ensures ZeroFrom(disk[a := buf], free)
  {
    var disk' := disk[a := buf];
    forall b | free <= b < |disk|
      ensures IsZero(disk', b)
    {
      assert IsZero(disk, b);
    }
  }

  lemma DirectAlloc(disk: Disk, d: Dinode, u: nat, lo: nat, free: nat)
    requires Mapped(disk, d, u, false, lo, free) && u < NDIRECT && free < |disk| < UINT_LIMIT
    ensures var d' := d.(addrs := d.addrs[u := free]);
      Mapped(disk, d', u + 1, false, lo, free + 1) && PtrsOf(disk, d') == PtrsOf(disk, d)[u := free]
  {
    var d' := d.(addrs := d.addrs[u := free]);
    MapMore(PtrsOf(disk, d), 0, u, lo, free);
    PtrsAt(disk, d);
    PtrsAt(disk, d');
    assert PtrsOf(disk, d') == PtrsOf(disk, d)[u := free];
  }

  lemma IndirectAlloc(disk: Disk, d: Dinode, lo: nat, free: nat)
    requires Mapped(disk, d, NDIRECT, false, lo, free) && free < |disk| < UINT_LIMIT && disk[free] == ZERO_BLOCK
    ensures var d' := d.(addrs := d.addrs[NDIRECT := free]);
      Mapped(disk, d', NDIRECT, true, lo, free + 1) && PtrsOf(disk, d') == PtrsOf(disk, d)
  {
    var d' := d.(addrs := d.addrs[NDIRECT := free]);
    var m := PtrsOf(disk, d);
    PtrsAt(disk, d);
    PtrsAt(disk, d');
    forall i | 0 <= i < MAXFILE
      ensures PtrsOf(disk, d')[i] == m[i]
    {
      if i >= NDIRECT {
        ZeroInt(disk[free], 4 * (i - NDIRECT));
        assert m[i] == 0;
      }
    }
    assert PtrsOf(disk, d') == m;
  }

  lemma EntryAlloc(disk: Disk, d: Dinode, u: nat, lo: nat, free: nat, disk': Disk)
    requires Mapped(disk, d, u, true, lo, free) && NDIRECT <= u < MAXFILE && free < |disk| < UINT_LIMIT
    requires var a := d.addrs[NDIRECT];
      disk' == disk[a := Splice(disk[a], 4 * (u - NDIRECT), IntBytes(free))]
    ensures Mapped(disk', d, u + 1, true, lo, free + 1) && PtrsOf(disk', d) == PtrsOf(disk, d)[u := free]
  {
    var a := d.addrs[NDIRECT];
    MapMore(PtrsOf(disk, d), a, u, lo, free);
    PtrsAt(disk, d);
    PtrsAt(disk', d);
    forall i | 0 <= i < MAXFILE
      ensures Ptr(disk', d, i) == if i == u then free else Ptr(disk, d, i)
    {
      if i >= NDIRECT {
        var o := 4 * (i - NDIRECT);
        if i == u {
          SpliceInt(disk[a], o, free);
        } else {
          assert disk'[a][o..o + 4] == disk[a][o..o + 4];
          SameInt(disk'[a], o, disk[a], o);
        }
      }
    }
    assert PtrsOf(disk', d) == PtrsOf(disk, d)[u := free];
  }

  /** Contents depend only on the mapped blocks. */
  lemma HoldsElsewhere(disk: Disk, m: Ptrs, disk': Disk, m': Ptrs, u: nat, t: seq<byte>, off: nat)
    requires Formatted(disk) && Formatted(disk') && |m| == |m'|
    requires Holds(disk, m, t, off) && off <= u * BSIZE && u <= |m| && m'[..u] == m[..u]
    requires forall i :: 0 <= i < u && m[i] < |disk| ==> m[i] < |disk'| && disk'[m[i]] == disk[m[i]]
    ensures Holds(disk', m', t, off)
  {
    forall i, j | 0 <= i < |m| && 0 <= j < BSIZE && i * BSIZE + j < off
      ensures ByteIs(disk', m', t, i, j)
    {
      assert i < u && m'[..u][i] == m[..u][i];
      assert ByteIs(disk, m, t, i, j);
    }
  }

  function Written(disk: Disk, x: nat, at: nat, piece: seq<byte>): Disk
    requires x < |disk| && at + |piece| <= |disk[x]|
  {
    disk[x := Splice(disk[x], at, piece)]
  }

  /** Copying the next piece of `t` into its block extends what the file holds. */
  lemma HoldsMore(disk: Disk, m: Ptrs, a: uint32, lo: nat, free: nat, t: seq<byte>, off: nat, i: nat, n: nat)
    requires Formatted(disk) && i < |m| && MapOk(m, a, i + 1, lo, free) && free <= |disk| && Holds(disk, m, t, off)
    requires i * BSIZE <= off && off + n <= (i + 1) * BSIZE && off + n <= |t|
    ensures var disk' := Written(disk, m[i], off - i * BSIZE, t[off..off + n]);
      Formatted(disk') && Holds(disk', m, t, off + n)
  {
    var x := m[i];
    var disk' := Written(disk, x, off - i * BSIZE, t[off..off + n]);
    forall k, j | 0 <= k < |m| && 0 <= j < BSIZE && k * BSIZE + j < off + n
      ensures ByteIs(disk', m, t, k, j)
    {
      assert k <= i;
      if k < i {
        assert Differ(m, k, i);
        assert ByteIs(disk, m, t, k, j);
      } else if i * BSIZE + j < off {
        assert ByteIs(disk, m, t, i, j);
      }
    }
  }

  /** A file of one block, the first block of the data region. */
  lemma OneBlockFile(disk: Disk, d: Dinode, lo: nat)
    requires WellFormed(disk, d, lo, lo + 1) && 0 < d.size <= BSIZE
    ensures d.addrs[0] == lo && PtrsOf(disk, d)[0] == lo && lo < |disk|
    ensures forall i :: 1 <= i <= NDIRECT ==> d.addrs[i] == 0
    ensures forall k :: 0 <= k < d.size ==> disk[lo][k] == FileBytes(disk, d)[k]
  {
    var m := PtrsOf(disk, d);
    PtrsAt(disk, d);
    assert DataBlocks(d.size) == 1;
    assert lo <= m[0] < lo + 1 && m[0] == Ptr(disk, d, 0) == d.addrs[0];
    forall i | 1 <= i < NDIRECT
      ensures d.addrs[i] == 0
    {
      assert m[i] == 0;
    }
    HoldsIsFileBytes(disk, d, FileBytes(disk, d), lo, lo + 1);
    forall k | 0 <= k < d.size
      ensures disk[lo][k] == FileBytes(disk, d)[k]
    {
      assert ByteIs(disk, m, FileBytes(disk, d), 0, k);
    }
  }

  // ---- files that share the disk ----

  /** A file none of whose blocks changed has kept its block map and its contents. */
  lemma FileUnchanged(disk: Disk, disk': Disk, d: Dinode, lo: nat, free: nat, free': nat)
    requires WellFormed(disk, d, lo, free) && Formatted(disk') && |disk'| == |disk| && free <= free' <= |disk|
    requires forall b :: lo <= b < free && FileOwns(disk, d, b) ==> BlockSame(disk, disk', b)
    ensures WellFormed(disk', d, lo, free') && FileBytes(disk', d) == FileBytes(disk, d)
    ensures PtrsOf(disk', d) == PtrsOf(disk, d)
  {
    var u, m := DataBlocks(d.size), PtrsOf(disk, d);
    if d.addrs[NDIRECT] != 0 {
      assert FileOwns(disk, d, d.addrs[NDIRECT]);
      assert BlockSame(disk, disk', d.addrs[NDIRECT]);
    }
    PtrsKept(disk, d, disk', d);
    var t := FileBytes(disk, d);
    HoldsIsFileBytes(disk, d, t, lo, free);
    forall i | 0 <= i < u
      ensures disk'[m[i]] == disk[m[i]]
    {
      assert m[i] == m[..u][i];
      assert FileOwns(disk, d, m[i]);
      assert BlockSame(disk, disk', m[i]);
    }
    HoldsElsewhere(disk, m, disk', m, u, t, d.size);
    HoldsIsFileBytes(disk', d, t, lo, free');
  }

  /** Two files stay apart when one of them grows into fresh blocks. */
  lemma StayDisjoint(m: Ptrs, a: uint32, u: nat, m': Ptrs, a': uint32, u': nat, free: nat, b: nat)
    requires Extends(m, a, u, free, m', a', u') && Owns(m', a', u', b) && b < free
    ensures Owns(m, a, u, b)
  {
    if b in m'[..u'] {
      var i :| 0 <= i < u' && m'[i] == b;
      assert i < u && m[..u][i] == m'[..u][i];
    }
  }
}
