/** The free list of lib/umalloc.c as a value: the blocks met from `base` onward, in address
    order.  Addresses count units of one `Header`. */
module FreeList {

  datatype Block = Block(addr: int, size: nat) {
    function End(): int { addr + size }
    predicate Holds(u: int) { addr <= u < addr + size }
  }

  /** The units of one block. */
  ghost function Region(b: Block): set<int> {
    set u: int | b.addr <= u < b.addr + b.size && b.Holds(u)
  }

  /** The units of a list of blocks. */
  ghost function Units(bs: seq<Block>): set<int> {
    set i: int, u: int | 0 <= i < |bs| && bs[i].addr <= u < bs[i].addr + bs[i].size && bs[i].Holds(u) :: u
  }

  /** Sentinel first, then non-empty blocks that ascend and never touch. */
  ghost predicate Canonical(bs: seq<Block>) {
    && |bs| > 0
    && bs[0].size == 0
    && (forall i :: 1 <= i < |bs| ==> bs[i].size > 0)
    && (forall i, j :: 0 <= i < j < |bs| ==> bs[i].addr + bs[i].size < bs[j].addr)
  }

  /** The index of the last block below address `a`. */
  function Pred(bs: seq<Block>, a: int): (k: nat)
    requires |bs| > 0 && bs[0].addr < a
    ensures k < |bs| && bs[k].addr < a
    ensures forall t :: k < t < |bs| ==> a <= bs[t].addr
  {
    if bs[|bs| - 1].addr < a then |bs| - 1 else Pred(bs[..|bs| - 1], a)
  }

  /** Block `b` put after index `k`, merged with the neighbours it touches. */
  function Insert(bs: seq<Block>, k: nat, b: Block): seq<Block>
    requires k < |bs|
  {
    var touchesNext := k + 1 < |bs| && b.End() == bs[k + 1].addr;
    var mid := if touchesNext then Block(b.addr, b.size + bs[k + 1].size) else b;
    var rest := if touchesNext then bs[k + 2..] else bs[k + 1..];
    if bs[k].End() == b.addr
    then bs[..k] + [Block(bs[k].addr, bs[k].size + mid.size)] + rest
    else bs[..k + 1] + [mid] + rest
  }

  /** `n` units taken off the tail of block `f`; an exact fit unlinks the block. */
  function Carve(bs: seq<Block>, f: nat, n: nat): seq<Block>
    requires f < |bs| && n <= bs[f].size
  {
    if bs[f].size == n then bs[..f] + bs[f + 1..]
    else bs[f := Block(bs[f].addr, bs[f].size - n)]
  }

  /** The block `Carve` hands out. */
  function Carved(bs: seq<Block>, f: nat, n: nat): Block
    requires f < |bs| && n <= bs[f].size
  {
    Block(bs[f].End() - n, n)
  }

  /** A block to be freed: above the sentinel, not empty, sharing no unit with the list. */
  ghost predicate Insertable(bs: seq<Block>, b: Block) {
    && |bs| > 0
    && bs[0].addr < b.addr
    && b.size > 0
    && Region(b) !! Units(bs)
  }

  lemma UnitsContain(bs: seq<Block>, i: nat, u: int)
    requires i < |bs| && bs[i].Holds(u)
    ensures u in Units(bs)
  {
  }

  /** A free unit lies in some block other than the sentinel. */
  lemma UnitsLocate(bs: seq<Block>, u: int) returns (i: nat)
    requires Canonical(bs) && u in Units(bs)
    ensures 1 <= i < |bs| && bs[i].Holds(u)
  {
    i :| 0 <= i < |bs| && bs[i].addr <= u < bs[i].addr + bs[i].size;
  }

  /** A block to be freed lies strictly between its two neighbours. */
  lemma InsertableSits(bs: seq<Block>, b: Block, k: nat)
    requires Canonical(bs) && Insertable(bs, b) && k == Pred(bs, b.addr)
    ensures forall i :: 0 <= i <= k ==> bs[i].End() <= b.addr
    ensures forall i :: k < i < |bs| ==> b.End() <= bs[i].addr
  {
    assert b.addr in Region(b);
    forall i | 0 <= i <= k
      ensures bs[i].End() <= b.addr
    {
      if bs[k].End() > b.addr {
        UnitsContain(bs, k, b.addr);
      }
    }
    forall i | k < i < |bs|
      ensures b.End() <= bs[i].addr
    {
      if b.End() > bs[i].addr {
        assert b.Holds(bs[i].addr) && bs[i].Holds(bs[i].addr);
        UnitsContain(bs, i, bs[i].addr);
      }
    }
  }

  /** Where `Insert` puts the block: position `at`, keeping `[..at]` and the blocks from `at + 1 + skip`. */
  lemma InsertShape(bs: seq<Block>, k: nat, b: Block) returns (at: nat, skip: int)
    requires k < |bs|
    ensures at == if bs[k].End() == b.addr then k else k + 1
    ensures skip == k - at + if k + 1 < |bs| && b.End() == bs[k + 1].addr then 1 else 0
    ensures |Insert(bs, k, b)| == |bs| - skip && at < |bs| - skip
    ensures forall i :: 0 <= i < at ==> Insert(bs, k, b)[i] == bs[i]
    ensures forall i :: at < i < |bs| - skip ==> Insert(bs, k, b)[i] == bs[i + skip]
    ensures Insert(bs, k, b)[at].addr == if at == k then bs[k].addr else b.addr
    ensures Insert(bs, k, b)[at].End() == if skip == k - at + 1 then bs[k + 1].End() else b.End()
  {
    at := if bs[k].End() == b.addr then k else k + 1;
    skip := k - at + if k + 1 < |bs| && b.End() == bs[k + 1].addr then 1 else 0;
  }

  lemma {:induction false} InsertKeepsCanonical(bs: seq<Block>, b: Block)
    requires Canonical(bs) && Insertable(bs, b)
    ensures Canonical(Insert(bs, Pred(bs, b.addr), b))
  {
    var k := Pred(bs, b.addr);
    InsertableSits(bs, b, k);
    var at, skip := InsertShape(bs, k, b);
    var r := Insert(bs, k, b);
    assert at >= 1 by {
      assert bs[0].End() == bs[0].addr;
    }
    SpliceIsCanonical(bs, r, at, skip);
  }

  /** Replacing a stretch of a canonical list by one block that fits the gap keeps it canonical. */
  lemma SpliceIsCanonical(bs: seq<Block>, r: seq<Block>, at: nat, skip: int)
    requires Canonical(bs)
    requires 1 <= at < |r| == |bs| - skip && at <= |bs| && -1 <= skip
    requires forall i :: 0 <= i < at ==> r[i] == bs[i]
    requires forall i :: at < i < |r| ==> r[i] == bs[i + skip]
    requires r[at].size > 0
    requires bs[at - 1].End() < r[at].addr
    requires at + 1 + skip < |bs| ==> r[at].End() < bs[at + 1 + skip].addr
    ensures Canonical(r)
  {
    forall i, j | 0 <= i < j < |r|
      ensures r[i].addr + r[i].size < r[j].addr
    {
      if j < at {
        assert r[i] == bs[i] && r[j] == bs[j];
      } else if j == at {
        assert r[i] == bs[i] && bs[i].End() <= bs[at - 1].End();
      } else if i < at {
        assert r[i] == bs[i] && r[j] == bs[j + skip];
      } else if i == at {
        assert r[j] == bs[j + skip] && bs[at + 1 + skip].addr <= bs[j + skip].addr;
      } else {
        assert r[i] == bs[i + skip] && r[j] == bs[j + skip];
      }
    }
  }

  /** Freeing adds exactly the units of the freed block, whatever merging takes place. */
  lemma {:induction false} InsertAddsRegion(bs: seq<Block>, b: Block)
    requires Canonical(bs) && Insertable(bs, b)
    ensures Units(Insert(bs, Pred(bs, b.addr), b)) == Units(bs) + Region(b)
  {
    var k := Pred(bs, b.addr);
    var r := Insert(bs, k, b);
    InsertableSits(bs, b, k);
    InsertKeepsCanonical(bs, b);
    forall u | u in Units(r)
      ensures u in Units(bs) + Region(b)
    {
      var i := UnitsLocate(r, u);
      InsertOrigin(bs, k, b, i, u);
    }
    forall u | u in Units(bs) + Region(b)
      ensures u in Units(r)
    {
      if u in Region(b) {
        InsertHoldsNew(bs, k, b, u);
      } else {
        var i := UnitsLocate(bs, u);
        InsertHoldsOld(bs, k, b, i, u);
      }
    }
  }

  lemma InsertOrigin(bs: seq<Block>, k: nat, b: Block, i: nat, u: int)
    requires k < |bs| && i < |Insert(bs, k, b)| && Insert(bs, k, b)[i].Holds(u)
    ensures u in Units(bs) + Region(b)
  {
    var r := Insert(bs, k, b);
    var touchesNext := k + 1 < |bs| && b.End() == bs[k + 1].addr;
    var touchesPrev := bs[k].End() == b.addr;
    var at := if touchesPrev then k else k + 1;
    if i < at {
      UnitsContain(bs, i, u);
    } else if i == at {
      if u !in Region(b) {
        if u < b.addr { UnitsContain(bs, k, u); } else { UnitsContain(bs, k + 1, u); }
      }
    } else {
      var from := i - at + (if touchesNext then k + 1 else k);
      assert r[i] == bs[from];
      UnitsContain(bs, from, u);
    }
  }

  lemma InsertHoldsNew(bs: seq<Block>, k: nat, b: Block, u: int)
    requires k < |bs| && b.Holds(u)
    ensures u in Units(Insert(bs, k, b))
  {
    var r := Insert(bs, k, b);
    var at := if bs[k].End() == b.addr then k else k + 1;
    UnitsContain(r, at, u);
  }

  lemma InsertHoldsOld(bs: seq<Block>, k: nat, b: Block, i: nat, u: int)
    requires k < |bs| && i < |bs| && bs[i].Holds(u)
    ensures u in Units(Insert(bs, k, b))
  {
    var r := Insert(bs, k, b);
    var touchesNext := k + 1 < |bs| && b.End() == bs[k + 1].addr;
    var at := if bs[k].End() == b.addr then k else k + 1;
    if i <= k {
      UnitsContain(r, i, u);
    } else if i == k + 1 && touchesNext {
      UnitsContain(r, at, u);
    } else {
      var to := i + at - (if touchesNext then k + 1 else k);
      assert r[to] == bs[i];
      UnitsContain(r, to, u);
    }
  }

  lemma CarveKeepsCanonical(bs: seq<Block>, f: nat, n: nat)
    requires Canonical(bs) && 1 <= f < |bs| && 0 < n <= bs[f].size
    ensures Canonical(Carve(bs, f, n))
  {
  }

  /** Allocating removes exactly the units of the block handed out. */
  lemma {:induction false} CarveRemovesRegion(bs: seq<Block>, f: nat, n: nat)
    requires Canonical(bs) && 1 <= f < |bs| && 0 < n <= bs[f].size
    ensures Units(Carve(bs, f, n)) == Units(bs) - Region(Carved(bs, f, n))
    ensures Region(Carved(bs, f, n)) <= Units(bs)
  {
    var r, b := Carve(bs, f, n), Carved(bs, f, n);
    CarveKeepsCanonical(bs, f, n);
    forall u | u in Units(r)
      ensures u in Units(bs) - Region(b)
    {
      var i := UnitsLocate(r, u);
      var from := if bs[f].size == n && f <= i then i + 1 else i;
      assert from != f ==> r[i] == bs[from];
      UnitsContain(bs, from, u);
    }
    forall u | u in Units(bs) - Region(b)
      ensures u in Units(r)
    {
      var i := UnitsLocate(bs, u);
      var to := if bs[f].size == n && f < i then i - 1 else i;
      UnitsContain(r, to, u);
    }
    forall u | u in Region(b)
      ensures u in Units(bs)
    {
      UnitsContain(bs, f, u);
    }
  }

  /** In a canonical list the blocks are the maximal runs of the free units, so a block of one list
      is a block of every canonical list with the same units. */
  lemma BlockIsShared(a: seq<Block>, b: seq<Block>, i: nat) returns (j: nat)
    requires Canonical(a) && Canonical(b) && Units(a) == Units(b)
    requires 1 <= i < |a|
    ensures 1 <= j < |b| && b[j] == a[i]
  {
    var x := a[i];
    UnitsContain(a, i, x.addr);
    j := UnitsLocate(b, x.addr);
    if b[j].addr < x.addr {
      UnitsContain(b, j, x.addr - 1);
      var t := UnitsLocate(a, x.addr - 1);
      assert false;
    }
    if x.End() < b[j].End() {
      UnitsContain(b, j, x.End());
      var t := UnitsLocate(a, x.End());
      assert false;
    }
    if b[j].End() < x.End() {
      UnitsContain(a, i, b[j].End());
      var t := UnitsLocate(b, b[j].End());
      assert false;
    }
  }

  lemma {:induction false} SharedPrefix(a: seq<Block>, b: seq<Block>, n: nat)
    requires Canonical(a) && Canonical(b) && a[0] == b[0] && Units(a) == Units(b)
    requires n <= |a|
    ensures n <= |b| && a[..n] == b[..n]
  {
    if n > 1 {
      SharedPrefix(a, b, n - 1);
      forall t | 0 <= t < n - 1
        ensures a[t] == b[t]
      {
        assert a[..n - 1][t] == b[..n - 1][t];
      }
      var j := BlockIsShared(a, b, n - 1);
      var t := BlockIsShared(b, a, n - 1);
      assert a[n - 1] == b[n - 1];
      assert a[..n] == a[..n - 1] + [a[n - 1]];
      assert b[..n] == b[..n - 1] + [b[n - 1]];
    }
  }

  /** Coalescing gives a canonical form: the free units alone determine the list of blocks. */
  lemma CanonicalFormIsUnique(a: seq<Block>, b: seq<Block>)
    requires Canonical(a) && Canonical(b) && a[0] == b[0] && Units(a) == Units(b)
    ensures a == b
  {
    SharedPrefix(a, b, |a|);
    SharedPrefix(b, a, |b|);
    assert a == a[..|a|] && b == b[..|b|];
  }

  /** A run of free units lies in a single block. */
  lemma RunInOneBlock(bs: seq<Block>, r: int, n: nat) returns (i: nat)
    requires Canonical(bs) && n > 0 && Region(Block(r, n)) <= Units(bs)
    ensures 1 <= i < |bs| && bs[i].addr <= r && r + n <= bs[i].End()
  {
    var b := Block(r, n);
    assert b.Holds(r) && r in Region(b);
    i := UnitsLocate(bs, r);
    var end := bs[i].End();
    if end < r + n {
      assert b.Holds(end) && end in Region(b);
      var j := UnitsLocate(bs, end);
    }
  }
}
