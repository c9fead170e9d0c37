/** lib/umalloc.c: the Kernighan and Ritchie allocator as it runs, relinking headers in place. */
module Umalloc {
  import opened Wrappers
  import opened FreeList
  import opened HeapModel

  /** The system behind `sbrk`.  It may refuse any request and may hand out any region above `floor`
      that it has not mapped yet; regions need not be contiguous. */
  class System {
    const floor: int
    var mapped: set<int>
    var requests: nat

    constructor (floor: int)
      ensures this.floor == floor && mapped == {} && requests == 0
    {
      this.floor, mapped, requests := floor, {}, 0;
    }

    method Sbrk(units: nat) returns (r: Option<int>)
      requires units > 0
      modifies this
      ensures requests == old(requests) + 1
      ensures r.None? ==> mapped == old(mapped)
      ensures r.Some? ==>
        var b := Block(r.value, units);
        floor < b.addr && Region(b) !! old(mapped) && mapped == old(mapped) + Region(b)
    {
      requests := requests + 1;
      var p: int := *;
      var region := set u: int | p <= u < p + units && Block(p, units).Holds(u);
      if p <= floor || exists u :: u in region && u in mapped {
        return None;
      }
      assert region == Region(Block(p, units));
      mapped := mapped + region;
      return Some(p);
    }
  }

  /** The header of block `i` holds its size and points to the next block around the cycle. */
  ghost predicate LinkedAt(ptr: map<int, int>, size: map<int, nat>, bs: seq<Block>, i: nat)
    requires i < |bs|
  {
    && bs[i].addr in ptr && bs[i].addr in size
    && size[bs[i].addr] == bs[i].size
    && ptr[bs[i].addr] == bs[if i + 1 < |bs| then i + 1 else 0].addr
  }

  ghost predicate SameExcept<T>(m: map<int, T>, m': map<int, T>, a: int, b: int) {
    forall x: int :: x in m && x != a && x != b ==> x in m' && m'[x] == m[x]
  }

  /** `r` is `bs` with everything from `k` to `at + skip` replaced by what stands at `k` to `at`. */
  ghost predicate Spliced(bs: seq<Block>, r: seq<Block>, k: nat, at: nat, skip: int, bp: int) {
    && Canonical(bs) && k < |bs| && k <= at <= k + 1 && k <= at + skip <= k + 1
    && |r| == |bs| - skip && at < |r|
    && (forall i :: 0 <= i < at ==> r[i] == bs[i])
    && (forall i :: at < i < |r| ==> r[i] == bs[i + skip])
    && r[at].addr == (if at == k then bs[k].addr else bp)
    && r[0].addr == bs[0].addr
    && (forall i :: 0 <= i < |bs| ==> bs[i].addr != bp)
  }

  lemma LinkedBelow(bs: seq<Block>, r: seq<Block>, k: nat, at: nat, skip: int, bp: int, i: nat,
                    ptr: map<int, int>, size: map<int, nat>, ptr': map<int, int>, size': map<int, nat>)
    requires Spliced(bs, r, k, at, skip, bp) && i < k && LinkedAt(ptr, size, bs, i)
    requires SameExcept(ptr, ptr', bs[k].addr, bp) && SameExcept(size, size', bs[k].addr, bp)
    ensures LinkedAt(ptr', size', r, i)
  {
    OthersStayLinked(bs, k, i, bp, ptr, size, ptr', size');
    assert r[i + 1].addr == bs[i + 1].addr;
    SameLink(bs, i, r, i, ptr', size');
  }

  lemma LinkedAbove(bs: seq<Block>, r: seq<Block>, k: nat, at: nat, skip: int, bp: int, i: nat,
                    ptr: map<int, int>, size: map<int, nat>, ptr': map<int, int>, size': map<int, nat>)
    requires Spliced(bs, r, k, at, skip, bp) && at < i < |r| && LinkedAt(ptr, size, bs, i + skip)
    requires SameExcept(ptr, ptr', bs[k].addr, bp) && SameExcept(size, size', bs[k].addr, bp)
    ensures LinkedAt(ptr', size', r, i)
  {
    OthersStayLinked(bs, k, i + skip, bp, ptr, size, ptr', size');
    SameLink(bs, i + skip, r, i, ptr', size');
  }

  lemma EndsLinked(bs: seq<Block>, r: seq<Block>, k: nat, at: nat, skip: int, bp: int,
                   ptr: map<int, int>, size: map<int, nat>)
    requires Spliced(bs, r, k, at, skip, bp)
    requires bs[k].addr in ptr && bs[k].addr in size && bp in ptr && bp in size
    requires var next := (if at + skip + 1 < |bs| then bs[at + skip + 1] else bs[0]).addr;
      if at == k then ptr[bs[k].addr] == next && size[bs[k].addr] == r[k].size
      else ptr[bs[k].addr] == bp && size[bs[k].addr] == bs[k].size && ptr[bp] == next && size[bp] == r[at].size
    ensures LinkedAt(ptr, size, r, k) && LinkedAt(ptr, size, r, at)
  {
    assert at + 1 < |r| ==> r[at + 1] == bs[at + 1 + skip];
  }

  /** What the two `if`s of `free` leave in the headers of `p` and `bp` links the new list `r`. */
  lemma RelinkedIsLinked(bs: seq<Block>, r: seq<Block>, k: nat, at: nat, skip: int, bp: int,
                         ptr: map<int, int>, size: map<int, nat>, ptr': map<int, int>, size': map<int, nat>)
    requires Spliced(bs, r, k, at, skip, bp)
    requires forall i :: 0 <= i < |bs| ==> LinkedAt(ptr, size, bs, i)
    requires SameExcept(ptr, ptr', bs[k].addr, bp) && SameExcept(size, size', bs[k].addr, bp)
    requires LinkedAt(ptr', size', r, k) && LinkedAt(ptr', size', r, at)
    ensures forall i :: 0 <= i < |r| ==> LinkedAt(ptr', size', r, i)
  {
    forall i | 0 <= i < |r|
      ensures LinkedAt(ptr', size', r, i)
    {
      if i < k {
        LinkedBelow(bs, r, k, at, skip, bp, i, ptr, size, ptr', size');
      } else if i > at {
        LinkedAbove(bs, r, k, at, skip, bp, i, ptr, size, ptr', size');
      }
    }
  }

  lemma UnlinkedIsLinked(bs: seq<Block>, f: nat, ptr: map<int, int>, ptr': map<int, int>, size: map<int, nat>)
    requires Canonical(bs) && 1 <= f < |bs|
    requires forall i :: 0 <= i < |bs| ==> LinkedAt(ptr, size, bs, i)
    requires LinkedAt(ptr, size, bs, f) && ptr' == ptr[bs[f - 1].addr := ptr[bs[f].addr]]
    ensures var r := bs[..f] + bs[f + 1..];
      forall i :: 0 <= i < |r| ==> LinkedAt(ptr', size, r, i)
  {
    var r := bs[..f] + bs[f + 1..];
    forall i | 0 <= i < |r|
      ensures LinkedAt(ptr', size, r, i)
    {
      assert LinkedAt(ptr, size, bs, if i < f then i else i + 1);
    }
  }

  lemma ShrunkIsLinked(bs: seq<Block>, f: nat, n: nat, ptr: map<int, int>, size: map<int, nat>, size': map<int, nat>)
    requires Canonical(bs) && 1 <= f < |bs| && 0 < n < bs[f].size
    requires forall i :: 0 <= i < |bs| ==> LinkedAt(ptr, size, bs, i)
    requires size' == size[bs[f].addr := bs[f].size - n][bs[f].End() - n := n]
    ensures forall i :: 0 <= i < |bs| ==> LinkedAt(ptr, size', Carve(bs, f, n), i)
  {
    var r := Carve(bs, f, n);
    forall i | 0 <= i < |bs|
      ensures LinkedAt(ptr, size', r, i)
    {
      assert LinkedAt(ptr, size, bs, i);
      var next := if i + 1 < |bs| then i + 1 else 0;
      assert r[i].addr == bs[i].addr && r[next].addr == bs[next].addr;
    }
  }

  /** Blocks a scan that started after `s` still has ahead of it at `j`. */
  ghost function ToGo(n: nat, s: nat, j: nat): nat
    requires s < n && j < n
  {
    if j > s then n - (j - s) else s - j
  }

  /** `h1` is `h` after a request that no block of `h` could serve was met by `sbrk` with `b`. */
  ghost predicate Grown(h: Heap, n: nat, b: Block, h1: Heap)
    requires |h.blocks| > 0
  {
    && NoFit(h.blocks, n) && GrowStep(h, b, h1)
    && b.size == (if n < MIN_GROW then MIN_GROW else n)
    && !NoFit(h1.blocks, n)
  }

  /** The header address behind a result of `malloc`. */
  function HeaderOf(ap: int): int {
    if ap == NULL then NULL else ap - 1
  }

  lemma RefusedIsMallocStep(base: int, h: Heap, nbytes: nat, n: nat, h': Heap)
    requires Inv(base, h) && n == UnitsFor(nbytes) && NoFit(h.blocks, n) && h' == Started(base, h)
    ensures MallocStep(base, h, n, None, NULL, h') && Given(h, nbytes, None, NULL, h')
  {
    NothingIsGiven(base, h, nbytes, h');
  }

  lemma FirstFitFits(bs: seq<Block>, s: nat, f: nat, n: nat)
    requires FirstFit(bs, s, f, n)
    ensures !NoFit(bs, n)
  {
  }

  lemma ServedIsMallocStep(base: int, h: Heap, nbytes: nat, n: nat, grow: Option<Block>, h1: Heap, r: int, h': Heap)
    requires Inv(base, h) && n == UnitsFor(nbytes) && |h1.blocks| > 0 && r - 1 != NULL && r != NULL
    requires if grow == None then h1 == Started(base, h) && !NoFit(h1.blocks, n)
             else Grown(Started(base, h), n, grow.value, h1)
    requires CarveStep(h1, n, r - 1, h')
    ensures MallocStep(base, h, n, grow, r - 1, h') && Given(h, nbytes, grow, r, h')
    ensures grow == None <==> !NoFit(h.blocks, n)
  {
    BlockIsGiven(base, h, nbytes, grow, r, h');
  }

  lemma SameLink(bs: seq<Block>, i: nat, r: seq<Block>, j: nat, ptr: map<int, int>, size: map<int, nat>)
    requires i < |bs| && j < |r| && LinkedAt(ptr, size, bs, i) && r[j] == bs[i]
    requires i + 1 < |bs| <==> j + 1 < |r|
    requires (if j + 1 < |r| then r[j + 1] else r[0]).addr == (if i + 1 < |bs| then bs[i + 1] else bs[0]).addr
    ensures LinkedAt(ptr, size, r, j)
  {
  }

  lemma OthersStayLinked(bs: seq<Block>, k: nat, i: nat, bp: int,
                         ptr: map<int, int>, size: map<int, nat>, ptr': map<int, int>, size': map<int, nat>)
    requires Canonical(bs) && k < |bs| && i < |bs| && i != k && bs[i].addr != bp
    requires LinkedAt(ptr, size, bs, i)
    requires SameExcept(ptr, ptr', bs[k].addr, bp) && SameExcept(size, size', bs[k].addr, bp)
    ensures LinkedAt(ptr', size', bs, i)
  {
    assert bs[i].addr != bs[k].addr by {
      if i < k { assert bs[i].End() < bs[k].addr; } else { assert bs[k].End() < bs[i].addr; }
    }
  }

  /** The globals `base` and `freep`, and the headers in memory: `ptr[a]` and `size[a]` are `s.ptr` and
      `s.size` of the header at address `a`. */
  class Allocator {
    const base: int
    const system: System
    var freep: int
    var ptr: map<int, int>
    var size: map<int, nat>
    ghost var blocks: seq<Block>
    ghost var live: map<int, nat>
    ghost var owned: set<int>

    ghost function State(): Heap
      reads this
    {
      Heap(blocks, freep, live, owned)
    }

    /** Following `ptr` from `base` gives the blocks in order and returns to `base`. */
    ghost predicate Linked()
      reads this
    {
      forall i :: 0 <= i < |blocks| ==> LinkedAt(ptr, size, blocks, i)
    }

    ghost predicate Valid()
      reads this, system
    {
      && Inv(base, State())
      && system.floor == base
      && owned <= system.mapped
      && (freep != NULL ==> Linked())
      && (forall a: int :: a in live ==> a in size && size[a] == live[a])
    }

    constructor (system: System)
      requires system.floor > NULL
      ensures Valid() && State() == Initial(base) && this.system == system
    {
      base, this.system := system.floor, system;
      freep := NULL;
      ptr, size := map[], map[];
      blocks, live, owned := [Block(system.floor, 0)], map[], {};
      new;
      InitialInv(base);
    }

    /** `free` (lib/umalloc.c:24-42).  The caller passes the pointer `malloc` returned. */
    method Free(ap: int)
      requires Valid() && ap - 1 in live
      modifies this
      ensures Valid() && FreeStep(old(State()), ap - 1, State())
    {
      var bp := ap - 1;
      ghost var h := State();
      ghost var k := Pred(blocks, bp);
      ghost var b := Block(bp, live[bp]);
      LiveUnitsWithout(live, bp);
      InRegion(b, bp);
      LiveIsNotFree(base, h);
      InsertKeepsEnds(blocks, k, b);
      var p := FindPlace(bp);
      ghost var at, skip := InsertShape(blocks, k, b);
      Relink(p, bp, Insert(blocks, k, b), k, at, skip);
      freep := p;
      blocks := Insert(blocks, k, b);
      live := live - {bp};
      FreeKeepsInv(base, h, bp, State());
    }

    /** The search loop of `free` (lib/umalloc.c:28-30): it stops at the left neighbour of `bp`. */
    method FindPlace(bp: int) returns (p: int)
      requires Canonical(blocks) && Linked() && IsFree(State(), freep)
      requires blocks[0].addr < bp && forall i :: 0 <= i < |blocks| ==> blocks[i].addr != bp
      ensures p == blocks[Pred(blocks, bp)].addr
    {
      ghost var k := Pred(blocks, bp);
      p := freep;
      ghost var i: nat :| i < |blocks| && blocks[i].addr == freep;
      assert LinkedAt(ptr, size, blocks, i);
      while !(p < bp < ptr[p])
        invariant i < |blocks| && p == blocks[i].addr && LinkedAt(ptr, size, blocks, i)
        decreases if i <= k then k - i else |blocks| + k - i
      {
        if p >= ptr[p] && (bp > p || bp < ptr[p]) {
          assert i + 1 == |blocks|;
          assert i == k;
          break;
        }
        p := ptr[p];
        i := if i + 1 < |blocks| then i + 1 else 0;
        assert LinkedAt(ptr, size, blocks, i);
      }
    }

    /** The tail of `free`: join `bp` to the upper, then to the lower neighbour (lib/umalloc.c:31-40). */
    method Relink(p: int, bp: int, ghost r: seq<Block>, ghost k: nat, ghost at: nat, ghost skip: int)
      requires Linked() && Spliced(blocks, r, k, at, skip, bp) && p == blocks[k].addr
      requires bp in size && blocks[0].addr < bp
      requires at == k <==> blocks[k].End() == bp
      requires at + skip == k + 1 <==> k + 1 < |blocks| && bp + size[bp] == blocks[k + 1].addr
      requires at != k ==> at == k + 1
      requires r[at].End() == if at + skip == k + 1 then blocks[k + 1].End() else bp + size[bp]
      modifies this`ptr, this`size
      ensures forall i :: 0 <= i < |r| ==> LinkedAt(ptr, size, r, i)
      ensures SameExcept(old(size), size, p, bp)
    {
      ghost var next := if k + 1 < |blocks| then k + 1 else 0;
      assert LinkedAt(ptr, size, blocks, k) && LinkedAt(ptr, size, blocks, next);
      JoinUpper(p, bp);
      assert r[at].size == size[bp] + if at == k then blocks[k].size else 0;
      JoinLower(p, bp);
      EndsLinked(blocks, r, k, at, skip, bp, ptr, size);
      RelinkedIsLinked(blocks, r, k, at, skip, bp, old(ptr), old(size), ptr, size);
    }

    /** lib/umalloc.c:31-35 */
    method JoinUpper(p: int, bp: int)
      requires p in ptr && bp in size && ptr[p] in ptr && ptr[p] in size
      modifies this`ptr, this`size
      ensures var q := old(ptr[p]);
        if bp + old(size[bp]) == q
        then size == old(size)[bp := old(size[bp] + size[q])] && ptr == old(ptr)[bp := old(ptr[q])]
        else size == old(size) && ptr == old(ptr)[bp := q]
    {
      if bp + size[bp] == ptr[p] {
        size := size[bp := size[bp] + size[ptr[p]]];
        ptr := ptr[bp := ptr[ptr[p]]];
      } else {
        ptr := ptr[bp := ptr[p]];
      }
    }

    /** lib/umalloc.c:36-40 */
    method JoinLower(p: int, bp: int)
      requires p in size && bp in size && bp in ptr
      modifies this`ptr, this`size
      ensures
        if p + old(size[p]) == bp
        then size == old(size)[p := old(size[p] + size[bp])] && ptr == old(ptr)[p := old(ptr[bp])]
        else size == old(size) && ptr == old(ptr)[p := bp]
    {
      if p + size[p] == bp {
        size := size[p := size[p] + size[bp]];
        ptr := ptr[p := ptr[bp]];
      } else {
        ptr := ptr[p := bp];
      }
    }

    /** `morecore` (lib/umalloc.c:44-57), asked when no free block fits. */
    method MoreCore(nu: nat) returns (r: int, ghost grow: Option<Block>)
      requires Valid() && freep != NULL && nu > 0 && NoFit(blocks, nu)
      modifies this, system
      ensures Valid() && freep != NULL && system.requests == old(system.requests) + 1
      ensures r == NULL <==> grow == None
      ensures grow == None ==> State() == old(State())
      ensures grow.Some? ==> r == freep && Grown(old(State()), nu, grow.value, State())
    {
      var want := if nu < MIN_GROW then MIN_GROW else nu;
      var p := system.Sbrk(want);
      if p == None {
        return NULL, None;
      }
      var hp := p.value;
      ghost var h := State();
      ghost var b := Block(hp, want);
      Adopt(hp, want);
      Free(hp + 1);
      GrowKeepsInv(base, h, b, State());
      return freep, Some(b);
    }

    /** Writes the header of a new region (lib/umalloc.c:53-54); from here it counts as allocated. */
    method Adopt(hp: int, want: nat)
      requires Valid() && freep != NULL && want > 0
      requires FreshRegion(State(), Block(hp, want)) && Region(Block(hp, want)) <= system.mapped
      modifies this`size, this`live, this`owned
      ensures Valid() && live == old(live)[hp := want] && owned == old(owned) + Region(Block(hp, want))
    {
      ghost var h := State();
      InRegion(Block(hp, want), hp);
      if hp in live {
        LiveContain(live, hp, hp);
      }
      NotFreeAddress(base, h, hp);
      size := size[hp := want];
      live := live[hp := want];
      owned := owned + Region(Block(hp, want));
      forall i | 0 <= i < |blocks|
        ensures LinkedAt(ptr, size, blocks, i)
      {
        assert LinkedAt(ptr, old(size), blocks, i);
      }
      GrantKeepsInv(base, h, Block(hp, want), State());
    }

    /** Hands out `n` units of block `f` (lib/umalloc.c:70-76); the result is their header. */
    method Take(prevp: int, p: int, n: nat, ghost f: nat) returns (q: int)
      requires Canonical(blocks) && Linked() && 1 <= f < |blocks| && 0 < n <= blocks[f].size
      requires prevp == blocks[f - 1].addr && p == blocks[f].addr
      modifies this`ptr, this`size
      ensures q == Carved(blocks, f, n).addr
      ensures forall i :: 0 <= i < |Carve(blocks, f, n)| ==> LinkedAt(ptr, size, Carve(blocks, f, n), i)
      ensures q in size && size[q] == n && SameExcept(old(size), size, p, q)
    {
      ghost var r := Carve(blocks, f, n);
      assert LinkedAt(ptr, size, blocks, f) && LinkedAt(ptr, size, blocks, f - 1);
      if size[p] == n {
        ptr := ptr[prevp := ptr[p]];
        q := p;
        UnlinkedIsLinked(blocks, f, old(ptr), ptr, size);
      } else {
        size := size[p := size[p] - n];
        q := p + size[p];
        size := size[q := n];
        ShrunkIsLinked(blocks, f, n, ptr, old(size), size);
      }
    }

    /** Serves the request from block `f` and leaves `freep` behind it (lib/umalloc.c:69-78). */
    method Serve(prevp: int, p: int, n: nat, ghost s: nat, ghost f: nat) returns (r: int)
      requires Valid() && freep != NULL && n > 0 && FirstFit(blocks, s, f, n) && blocks[s].addr == freep
      requires f > 0 && prevp == blocks[f - 1].addr && p == blocks[f].addr
      modifies this
      ensures Valid() && freep != NULL && r != NULL && CarveStep(old(State()), n, r - 1, State())
    {
      ghost var h := State();
      LiveIsNotFree(base, h);
      var q := Take(prevp, p, n, f);
      freep := prevp;
      blocks := Carve(blocks, f, n);
      live := live[q := n];
      assert CarveStep(h, n, q, State());
      CarveKeepsInv(base, h, n, q, State());
      return q + 1;
    }

    /** `malloc` (lib/umalloc.c:59-84): `r` is the pointer, `grow` the region obtained, if any.  The pointer is
        one unit behind a header that was in no live block, and the caller may use the bytes behind it. */
    method Malloc(nbytes: nat) returns (r: int, ghost grow: Option<Block>)
      requires Valid()
      modifies this, system
      ensures Valid()
      ensures Given(old(State()), nbytes, grow, r, State())
      ensures MallocStep(base, old(State()), UnitsFor(nbytes), grow, HeaderOf(r), State())
      ensures system.requests == old(system.requests) + if NoFit(old(blocks), UnitsFor(nbytes)) then 1 else 0
    {
      ghost var h := State();
      var nunits := (nbytes + 15) / 16 + 1;
      assert nunits == UnitsFor(nbytes);
      Start();
      assert blocks == h.blocks;
      var prevp, p;
      ghost var s, j;
      prevp, p, grow, s, j := Scan(nunits);
      ghost var h1 := State();
      if p == NULL {
        RefusedIsMallocStep(base, h, nbytes, nunits, h1);
        return NULL, None;
      }
      FirstFitFits(blocks, s, j, nunits);
      r := Serve(prevp, p, nunits, s, j);
      ServedIsMallocStep(base, h, nbytes, nunits, grow, h1, r, State());
    }

    /** What a program sees when it gives a block back at once: the heap as it was, if no memory was obtained for
        it. */
    method MallocThenFree(nbytes: nat) returns (r: int, ghost grow: Option<Block>)
      requires Valid()
      modifies this, system
      ensures Valid() && State().live == old(State()).live
      ensures grow == None ==> SameHeap(old(State()), State())
    {
      ghost var h := State();
      r, grow := Malloc(nbytes);
      if r == NULL {
        return;
      }
      ghost var h1 := State();
      Free(r);
      GivenBack(base, h, nbytes, grow, r, h1, State());
    }

    /** The first call makes the cycle of one block (lib/umalloc.c:64-67). */
    method Start()
      requires Valid()
      modifies this
      ensures Valid() && freep != NULL && State() == Started(base, old(State()))
    {
      ghost var h := State();
      if freep == NULL {
        freep := base;
        ptr, size := ptr[base := base], size[base := 0];
        assert LinkedAt(ptr, size, blocks, 0);
      }
      StartedInv(base, h);
    }

    /** The scan of `malloc` (lib/umalloc.c:68-83): finds the first fit after `freep`, growing the heap
        at most once; `p` is NULL when `sbrk` refuses. */
    method Scan(n: nat) returns (prevp: int, p: int, ghost grow: Option<Block>, ghost s: nat, ghost j: nat)
      requires Valid() && freep != NULL && n > 0
      modifies this, system
      ensures Valid()
      ensures grow == None ==> State() == old(State())
      ensures grow.Some? ==> Grown(old(State()), n, grow.value, State())
      ensures p == NULL ==> grow == None && NoFit(blocks, n)
      ensures p != NULL ==> Scanning(s, j, prevp, p, n) && FirstFit(blocks, s, j, n) && j > 0
      ensures system.requests == old(system.requests) + if p == NULL || grow.Some? then 1 else 0
    {
      prevp, grow := freep, None;
      s, j := ScanStarts(n);
      p := ptr[prevp];
      while true
        invariant Valid() && Scanning(s, j, prevp, p, n)
        invariant grow == None ==> State() == old(State()) && system.requests == old(system.requests)
        invariant grow.Some? ==> Grown(old(State()), n, grow.value, State())
        invariant grow.Some? ==> system.requests == old(system.requests) + 1
        decreases grow == None, ToGo(|blocks|, s, j)
      {
        ScanMeets(s, j, prevp, p, n);
        if size[p] >= n {
          return;
        }
        if p == freep {
          p, grow := MoreCore(n);
          if p == NULL {
            return;
          }
          s, j := ScanStarts(n);
        } else {
          ScanAdvances(s, j, prevp, p, n);
          j := if j + 1 < |blocks| then j + 1 else 0;
        }
        prevp, p := p, ptr[p];
      }
    }

    /** A scan for `n` units that began after block `s` has reached block `j` without a fit. */
    ghost predicate Scanning(s: nat, j: nat, prevp: int, p: int, n: nat)
      reads this
    {
      && freep != NULL && s < |blocks| && j < |blocks| && blocks[s].addr == freep
      && p == blocks[j].addr && prevp == blocks[if j == 0 then |blocks| - 1 else j - 1].addr
      && forall t :: 0 <= t < |blocks| && MetBefore(s, t, j) ==> blocks[t].size < n
    }

    lemma ScanStarts(n: nat) returns (s: nat, j: nat)
      requires Valid() && freep != NULL
      ensures freep in ptr && Scanning(s, j, freep, ptr[freep], n)
    {
      s :| s < |blocks| && blocks[s].addr == freep;
      assert LinkedAt(ptr, size, blocks, s);
      j := if s + 1 < |blocks| then s + 1 else 0;
    }

    lemma ScanMeets(s: nat, j: nat, prevp: int, p: int, n: nat)
      requires Valid() && Scanning(s, j, prevp, p, n) && n > 0
      ensures p in size && p in ptr && p != NULL
      ensures size[p] >= n ==> FirstFit(blocks, s, j, n) && j > 0 && !NoFit(blocks, n)
      ensures size[p] < n && p == freep ==> NoFit(blocks, n)
    {
      assert LinkedAt(ptr, size, blocks, j);
      if p == freep {
        SameAddressSameIndex(s, j);
      }
    }

    lemma SameAddressSameIndex(s: nat, j: nat)
      requires Canonical(blocks) && s < |blocks| && j < |blocks| && blocks[s].addr == blocks[j].addr
      ensures s == j
    {
    }

    lemma ScanAdvances(s: nat, j: nat, prevp: int, p: int, n: nat)
      requires Valid() && Scanning(s, j, prevp, p, n) && p != freep && p in size && p in ptr && size[p] < n
      ensures var j' := if j + 1 < |blocks| then j + 1 else 0;
        Scanning(s, j', p, ptr[p], n) && ToGo(|blocks|, s, j') < ToGo(|blocks|, s, j)
    {
      assert LinkedAt(ptr, size, blocks, j);
      var j' := if j + 1 < |blocks| then j + 1 else 0;
      forall t | 0 <= t < |blocks| && MetBefore(s, t, j')
        ensures blocks[t].size < n
      {
        assert t != j ==> MetBefore(s, t, j);
      }
    }
  }
}
