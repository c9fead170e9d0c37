/** What `malloc` and `free` of lib/umalloc.c do to the heap, as steps between abstract states, and
    what every run of such steps keeps. */
module HeapModel {
  import opened Wrappers
  import opened FreeList

  const NULL := 0
  /** `morecore` never asks the system for less (lib/umalloc.c:48-49). */
  const MIN_GROW: nat := 4096

  /** `blocks`: the free list from `base`.  `cursor`: `freep`, NULL before the first call.
      `live`: the allocated blocks by header address.  `owned`: all units obtained from `sbrk`. */
  datatype Heap = Heap(blocks: seq<Block>, cursor: int, live: map<int, nat>, owned: set<int>)

  ghost predicate LiveHolds(live: map<int, nat>, a: int, u: int) {
    a in live && a <= u < a + live[a]
  }

  /** The units of all allocated blocks. */
  ghost function LiveUnits(live: map<int, nat>): set<int> {
    set a: int, u: int | a in live && a <= u < a + live[a] && LiveHolds(live, a, u) :: u
  }

  ghost predicate IsFree(h: Heap, addr: int) {
    exists i :: 0 <= i < |h.blocks| && h.blocks[i].addr == addr
  }

  ghost predicate LiveDisjoint(live: map<int, nat>) {
    forall a: int, b: int :: a in live && b in live && a != b
      ==> a + live[a] <= b || b + live[b] <= a
  }

  /** The invariant of every reachable heap. */
  ghost predicate Inv(base: int, h: Heap) {
    && Canonical(h.blocks)
    && h.blocks[0] == Block(base, 0)
    && base > NULL
    && (h.cursor == NULL ==> h == Initial(base))
    && (h.cursor != NULL ==> IsFree(h, h.cursor))
    && (forall a: int :: a in h.live ==> h.live[a] > 0 && base < a)
    && LiveDisjoint(h.live)
    && Units(h.blocks) !! LiveUnits(h.live)
    && Units(h.blocks) + LiveUnits(h.live) == h.owned
  }

  function Initial(base: int): Heap {
    Heap([Block(base, 0)], NULL, map[], {})
  }

  /** `malloc` makes the one-element cycle on its first call (lib/umalloc.c:64-67). */
  function Started(base: int, h: Heap): Heap {
    if h.cursor == NULL then h.(cursor := base) else h
  }

  /** Header units for `nbytes` bytes, one header included (lib/umalloc.c:63, 16-byte headers). */
  function UnitsFor(nbytes: nat): nat {
    (nbytes + 15) / 16 + 1
  }

  /** For every 32-bit byte count the units fit 32 bits and leave, behind the header, room for the
      bytes but no spare unit. */
  lemma UnitsForCoversBytes(nbytes: nat)
    requires nbytes < 0x1_0000_0000
    ensures 0 < UnitsFor(nbytes) < 0x1_0000_0000
    ensures nbytes <= 16 * (UnitsFor(nbytes) - 1) < nbytes + 16
  {
  }

  /** The scan from `s` (exclusive) meets `t` strictly before `f`, wrapping around the cycle. */
  predicate MetBefore(s: nat, t: nat, f: nat) {
    if s < f then s < t < f else t > s || t < f
  }

  /** `f` is the first block of at least `n` units met by a scan that starts after `s`. */
  ghost predicate FirstFit(bs: seq<Block>, s: nat, f: nat, n: nat) {
    && s < |bs| && f < |bs| && bs[f].size >= n
    && (forall t :: 0 <= t < |bs| && MetBefore(s, t, f) ==> bs[t].size < n)
  }

  ghost predicate NoFit(bs: seq<Block>, n: nat) {
    forall t :: 0 <= t < |bs| ==> bs[t].size < n
  }

  /** `free` of the block with header `a`: insert it, leave the cursor on its left neighbour. */
  ghost predicate FreeStep(h: Heap, a: int, h': Heap)
    requires |h.blocks| > 0
  {
    && a in h.live && h.blocks[0].addr < a
    && var k := Pred(h.blocks, a);
       h' == Heap(Insert(h.blocks, k, Block(a, h.live[a])), h.blocks[k].addr, h.live - {a}, h.owned)
  }

  /** `malloc` served from the list: header `r` is the tail of the first fit after the cursor. */
  ghost predicate CarveStep(h: Heap, n: nat, r: int, h': Heap) {
    exists s: nat, f: nat ::
      && FirstFit(h.blocks, s, f, n)
      && h.blocks[s].addr == h.cursor
      && r == Carved(h.blocks, f, n).addr
      && h' == Heap(Carve(h.blocks, f, n),
                    h.blocks[if f == 0 then |h.blocks| - 1 else f - 1].addr,
                    h.live[r := n], h.owned)
  }

  /** A region the system may hand out: unused so far and above `base`. */
  ghost predicate FreshRegion(h: Heap, b: Block)
    requires |h.blocks| > 0
  {
    h.blocks[0].addr < b.addr && b.size > 0 && Region(b) !! h.owned
  }

  /** `morecore` that succeeds: the new region is treated as one live block and freed. */
  ghost predicate GrowStep(h: Heap, b: Block, h': Heap)
    requires |h.blocks| > 0
  {
    && FreshRegion(h, b)
    && FreeStep(h.(live := h.live[b.addr := b.size], owned := h.owned + Region(b)), b.addr, h')
  }

  /** The three outcomes of `malloc` for `n` units; `grow` is what `sbrk` gave, if it was asked. */
  ghost predicate MallocStep(base: int, h: Heap, n: nat, grow: Option<Block>, r: int, h': Heap)
    requires |h.blocks| > 0
  {
    var h0 := Started(base, h);
    if !NoFit(h0.blocks, n) then
      grow == None && CarveStep(h0, n, r, h')
    else if grow == None then
      r == NULL && h' == h0
    else
      && grow.value.size == (if n < MIN_GROW then MIN_GROW else n)
      && exists h1 :: GrowStep(h0, grow.value, h1) && |h1.blocks| > 0 && CarveStep(h1, n, r, h')
  }

  // ---- one step keeps the invariant ----

  lemma LiveContain(live: map<int, nat>, a: int, u: int)
    requires LiveHolds(live, a, u)
    ensures u in LiveUnits(live)
  {
    assert a in live && a <= u < a + live[a] && LiveHolds(live, a, u);
  }

  lemma LiveLocate(live: map<int, nat>, u: int) returns (a: int)
    requires u in LiveUnits(live)
    ensures LiveHolds(live, a, u)
  {
    a :| a in live && LiveHolds(live, a, u);
  }

  lemma InRegion(b: Block, u: int)
    ensures u in Region(b) <==> b.addr <= u < b.addr + b.size
  {
    assert b.addr <= u < b.addr + b.size ==> b.Holds(u);
  }

  lemma LiveUnitsWith(live: map<int, nat>, a: int, n: nat)
    requires a !in live
    ensures LiveUnits(live[a := n]) == LiveUnits(live) + Region(Block(a, n))
  {
    var l := live[a := n];
    forall u
      ensures u in LiveUnits(l) <==> u in LiveUnits(live) + Region(Block(a, n))
    {
      InRegion(Block(a, n), u);
      if u in LiveUnits(l) {
        var b := LiveLocate(l, u);
        if b != a { LiveContain(live, b, u); }
      }
      if u in LiveUnits(live) {
        var b := LiveLocate(live, u);
        LiveContain(l, b, u);
      }
      if u in Region(Block(a, n)) {
        LiveContain(l, a, u);
      }
    }
  }

  lemma LiveUnitsWithout(live: map<int, nat>, a: int)
    requires a in live && LiveDisjoint(live)
    ensures LiveUnits(live - {a}) == LiveUnits(live) - Region(Block(a, live[a]))
    ensures Region(Block(a, live[a])) <= LiveUnits(live)
  {
    var l := live - {a};
    forall u
      ensures u in LiveUnits(l) <==> u in LiveUnits(live) && u !in Region(Block(a, live[a]))
      ensures u in Region(Block(a, live[a])) ==> u in LiveUnits(live)
    {
      InRegion(Block(a, live[a]), u);
      if u in LiveUnits(l) {
        var b := LiveLocate(l, u);
        assert b in live && b != a && l[b] == live[b];
        assert a + live[a] <= b || b + live[b] <= a;
        LiveContain(live, b, u);
      }
      if u in LiveUnits(live) && u !in Region(Block(a, live[a])) {
        var b := LiveLocate(live, u);
        LiveContain(l, b, u);
      }
      if u in Region(Block(a, live[a])) {
        LiveContain(live, a, u);
      }
    }
  }

  lemma {:induction false} FreeKeepsInv(base: int, h: Heap, a: int, h': Heap)
    requires Inv(base, h) && FreeStep(h, a, h')
    ensures Inv(base, h')
    ensures Units(h'.blocks) == Units(h.blocks) + Region(Block(a, h.live[a]))
  {
    var b := Block(a, h.live[a]);
    var k := Pred(h.blocks, a);
    LiveUnitsWithout(h.live, a);
    assert Insertable(h.blocks, b);
    InsertKeepsCanonical(h.blocks, b);
    InsertAddsRegion(h.blocks, b);
    InsertKeepsEnds(h.blocks, k, b);
    assert h'.live == h.live - {a} && h'.blocks == Insert(h.blocks, k, b);
    assert LiveDisjoint(h'.live);
    RegionMoves(Units(h.blocks), LiveUnits(h.live), Region(b));
    assert IsFree(h', h'.cursor);
  }

  lemma RegionMoves(free: set<int>, live: set<int>, r: set<int>)
    requires free !! live && r <= live
    ensures (free + r) !! (live - r) && (free + r) + (live - r) == free + live
  {
  }

  lemma CarveKeepsEnds(bs: seq<Block>, f: nat, n: nat)
    requires Canonical(bs) && f < |bs| && 0 < n <= bs[f].size
    ensures f > 0 && bs[0].addr < Carved(bs, f, n).addr
    ensures f - 1 < |Carve(bs, f, n)| && Carve(bs, f, n)[0] == bs[0] && Carve(bs, f, n)[f - 1] == bs[f - 1]
  {
  }

  lemma CarvedMoves(free: set<int>, live: set<int>, r: set<int>)
    requires free !! live && r <= free
    ensures (free - r) !! (live + r) && (free - r) + (live + r) == free + live
  {
  }

  lemma InsertKeepsEnds(bs: seq<Block>, k: nat, b: Block)
    requires Canonical(bs) && Insertable(bs, b) && k == Pred(bs, b.addr)
    ensures Insert(bs, k, b)[0] == bs[0]
    ensures k < |Insert(bs, k, b)| && Insert(bs, k, b)[k].addr == bs[k].addr
  {
    InsertableSits(bs, b, k);
    assert k == 0 ==> bs[k].End() == bs[0].addr;
  }

  lemma {:induction false} CarveKeepsInv(base: int, h: Heap, n: nat, r: int, h': Heap)
    requires Inv(base, h) && n > 0 && CarveStep(h, n, r, h')
    ensures Inv(base, h') && r !in h.live
    ensures Units(h'.blocks) == Units(h.blocks) - Region(Block(r, n))
    ensures Region(Block(r, n)) <= Units(h.blocks)
  {
    var s: nat, f: nat :| FirstFit(h.blocks, s, f, n)
      && h.blocks[s].addr == h.cursor
      && r == Carved(h.blocks, f, n).addr
      && h' == Heap(Carve(h.blocks, f, n),
                    h.blocks[if f == 0 then |h.blocks| - 1 else f - 1].addr,
                    h.live[r := n], h.owned);
    CarveKeepsCanonical(h.blocks, f, n);
    CarveRemovesRegion(h.blocks, f, n);
    InRegion(Block(r, n), r);
    if r in h.live {
      LiveContain(h.live, r, r);
    }
    LiveUnitsWith(h.live, r, n);
    CarvedMoves(Units(h.blocks), LiveUnits(h.live), Region(Block(r, n)));
    CarveKeepsEnds(h.blocks, f, n);
    assert h'.blocks[f - 1].addr == h'.cursor;
    CarvedApart(h, r, n);
  }

  /** A unit above `base` that is not free is no block's address. */
  lemma NotFreeAddress(base: int, h: Heap, u: int)
    requires Inv(base, h) && base < u && u !in Units(h.blocks)
    ensures forall i :: 0 <= i < |h.blocks| ==> h.blocks[i].addr != u
  {
    forall i | 0 <= i < |h.blocks|
      ensures h.blocks[i].addr != u
    {
      if i > 0 && h.blocks[i].addr == u {
        UnitsContain(h.blocks, i, u);
      }
    }
  }

  lemma LiveIsNotFree(base: int, h: Heap)
    requires Inv(base, h)
    ensures forall a: int, i :: a in h.live && 0 <= i < |h.blocks| ==> h.blocks[i].addr != a
  {
    forall a: int | a in h.live
      ensures forall i :: 0 <= i < |h.blocks| ==> h.blocks[i].addr != a
    {
      LiveContain(h.live, a, a);
      NotFreeAddress(base, h, a);
    }
  }

  /** A stretch of free units overlaps no live block. */
  lemma CarvedApart(h: Heap, r: int, n: nat)
    requires n > 0 && Region(Block(r, n)) !! LiveUnits(h.live) && LiveDisjoint(h.live)
    requires forall a: int :: a in h.live ==> h.live[a] > 0
    ensures LiveDisjoint(h.live[r := n])
  {
    forall a: int | a in h.live
      ensures a + h.live[a] <= r || r + n <= a
    {
      var u := if a < r then r else a;
      InRegion(Block(r, n), u);
      if r < a + h.live[a] && a < r + n {
        LiveContain(h.live, a, u);
      }
    }
  }

  lemma {:induction false} GrowKeepsInv(base: int, h: Heap, b: Block, h': Heap)
    requires Inv(base, h) && h.cursor != NULL && GrowStep(h, b, h')
    ensures Inv(base, h')
    ensures Units(h'.blocks) == Units(h.blocks) + Region(b)
    ensures h'.live == h.live && h'.owned == h.owned + Region(b) && b.addr !in h.live
    ensures exists i :: 0 <= i < |h'.blocks| && h'.blocks[i].size >= b.size
  {
    assert Block(b.addr, b.size) == b;
    InRegion(b, b.addr);
    if b.addr in h.live {
      LiveContain(h.live, b.addr, b.addr);
    }
    var h1 := h.(live := h.live[b.addr := b.size], owned := h.owned + Region(b));
    GrantKeepsInv(base, h, b, h1);
    FreeKeepsInv(base, h1, b.addr, h');
    assert h1.live - {b.addr} == h.live;
    var k := Pred(h.blocks, b.addr);
    var at, skip := InsertShape(h.blocks, k, b);
    assert h'.blocks[at].size >= b.size;
  }

  /** A fresh region may be counted as one more live block. */
  lemma GrantKeepsInv(base: int, h: Heap, b: Block, h1: Heap)
    requires Inv(base, h) && h.cursor != NULL && FreshRegion(h, b) && b.addr !in h.live
    requires h1 == h.(live := h.live[b.addr := b.size], owned := h.owned + Region(b))
    ensures Inv(base, h1)
  {
    LiveUnitsWith(h.live, b.addr, b.size);
    assert Block(b.addr, b.size) == b;
    CarvedApart(h, b.addr, b.size);
    assert IsFree(h1, h1.cursor);
    assert LiveDisjoint(h1.live);
  }

  /** `malloc` keeps the invariant; its block was free before (or is part of the new region). */
  lemma {:induction false} MallocKeepsInv(base: int, h: Heap, n: nat, grow: Option<Block>, r: int, h': Heap)
    requires Inv(base, h) && n > 0 && MallocStep(base, h, n, grow, r, h')
    ensures Inv(base, h')
    ensures h'.owned == h.owned + if grow.Some? then Region(grow.value) else {}
    ensures r == NULL <==> NoFit(h.blocks, n) && grow == None
    ensures r != NULL ==> h'.live == h.live[r := n] && r !in h.live
    ensures r == NULL ==> h'.live == h.live && h'.blocks == h.blocks
  {
    var h0 := Started(base, h);
    assert h0.blocks[0].addr == base;
    assert IsFree(h0, h0.cursor);
    if !NoFit(h0.blocks, n) {
      CarveKeepsInv(base, h0, n, r, h');
    } else if grow.Some? {
      var h1 :| GrowStep(h0, grow.value, h1) && |h1.blocks| > 0 && CarveStep(h1, n, r, h');
      GrowKeepsInv(base, h0, grow.value, h1);
      CarveKeepsInv(base, h1, n, r, h');
    }
    if r == NULL && r in h'.live {
      assert false;
    }
  }

  /** The memory from unit `r` to the end of the live block `a` holds `nbytes` bytes; no other block, live or free,
      and no header lies in it. */
  ghost predicate Usable(h: Heap, a: int, r: int, nbytes: nat) {
    && a in h.live && a < r && nbytes <= 16 * (a + h.live[a] - r)
    && forall u :: r <= u < a + h.live[a] ==> Private(h, a, u)
  }

  /** The unit `u` is memory of the program that only the live block `a` has. */
  ghost predicate Private(h: Heap, a: int, u: int) {
    u in h.owned && u !in Units(h.blocks) && forall b: int :: b in h.live && LiveHolds(h.live, b, u) ==> b == a
  }

  /** What the caller of `malloc` is told by `r`: nothing has happened, or the block with its header one unit
      before `r` is new and the bytes behind the header are the caller's alone. */
  ghost predicate Given(h: Heap, nbytes: nat, grow: Option<Block>, r: int, h': Heap) {
    && (r == NULL <==> NoFit(h.blocks, UnitsFor(nbytes)) && grow == None)
    && if r == NULL then SameHeap(h, h')
       else r - 1 !in h.live && h'.live == h.live[r - 1 := UnitsFor(nbytes)] && Usable(h', r - 1, r, nbytes)
  }

  /** The same blocks, free and live, and the same memory. */
  predicate SameHeap(h: Heap, h': Heap) {
    h'.blocks == h.blocks && h'.live == h.live && h'.owned == h.owned
  }

  lemma NothingIsGiven(base: int, h: Heap, nbytes: nat, h': Heap)
    requires Inv(base, h) && MallocStep(base, h, UnitsFor(nbytes), None, NULL, h')
    ensures Given(h, nbytes, None, NULL, h')
  {
    MallocKeepsInv(base, h, UnitsFor(nbytes), None, NULL, h');
  }

  lemma BlockIsGiven(base: int, h: Heap, nbytes: nat, grow: Option<Block>, r: int, h': Heap)
    requires Inv(base, h) && MallocStep(base, h, UnitsFor(nbytes), grow, r - 1, h') && r - 1 != NULL && r != NULL
    ensures Given(h, nbytes, grow, r, h')
  {
    var a, n := r - 1, UnitsFor(nbytes);
    MallocKeepsInv(base, h, n, grow, a, h');
    UnitsForCovers(nbytes);
    forall u | a + 1 <= u < a + h'.live[a]
      ensures Private(h', a, u)
    {
      LiveContain(h'.live, a, u);
    }
  }

  /** A block given back at once. */
  lemma GivenBack(base: int, h: Heap, nbytes: nat, grow: Option<Block>, r: int, h1: Heap, h2: Heap)
    requires Inv(base, h) && MallocStep(base, h, UnitsFor(nbytes), grow, r - 1, h1) && r - 1 != NULL && r != NULL
    requires Given(h, nbytes, grow, r, h1) && |h1.blocks| > 0 && FreeStep(h1, r - 1, h2)
    ensures h2.live == h.live && (grow == None ==> SameHeap(h, h2))
  {
    LiveAgain(h.live, h1.live, h2.live, r - 1, UnitsFor(nbytes));
    if grow == None {
      FreeUndoesMalloc(base, h, UnitsFor(nbytes), r - 1, h1, h2);
    }
  }

  lemma LiveAgain(live: map<int, nat>, live1: map<int, nat>, live2: map<int, nat>, a: int, n: nat)
    requires a !in live && live1 == live[a := n] && live2 == live1 - {a}
    ensures live2 == live
  {
  }

  lemma UnitsForCovers(nbytes: nat)
    ensures nbytes <= 16 * (UnitsFor(nbytes) - 1) < nbytes + 16
  {
  }

  lemma StartedInv(base: int, h: Heap)
    requires Inv(base, h)
    ensures Inv(base, Started(base, h))
  {
    assert Started(base, h).blocks[0].addr == base;
    assert IsFree(Started(base, h), Started(base, h).cursor);
  }

  // ---- runs ----

  datatype Call = Malloc(n: nat, grow: Option<Block>, r: int) | Free(a: int)

  ghost predicate Step(base: int, h: Heap, c: Call, h': Heap)
    requires |h.blocks| > 0
  {
    match c
    case Malloc(n, grow, r) => n > 0 && MallocStep(base, h, n, grow, r, h')
    case Free(a) => FreeStep(h, a, h')
  }

  /** `hs` are the heaps before, between and after the calls `cs`. */
  ghost predicate Run(base: int, hs: seq<Heap>, cs: seq<Call>) {
    && |hs| == |cs| + 1
    && hs[0] == Initial(base)
    && (forall i :: 0 <= i < |cs| ==> |hs[i].blocks| > 0 && Step(base, hs[i], cs[i], hs[i + 1]))
  }

  lemma InitialInv(base: int)
    requires base > NULL
    ensures Inv(base, Initial(base))
  {
    assert Units([Block(base, 0)]) == {};
    assert LiveUnits(map[]) == {};
  }

  /** Safety over whole runs: after any calls of `malloc` and `free` the list is canonical, live and
      free blocks are disjoint, and together they are exactly what `sbrk` gave. */
  lemma {:induction false} RunKeepsInv(base: int, hs: seq<Heap>, cs: seq<Call>, i: nat)
    requires base > NULL && Run(base, hs, cs) && i < |hs|
    ensures Inv(base, hs[i])
  {
    if i == 0 {
      InitialInv(base);
    } else {
      RunKeepsInv(base, hs, cs, i - 1);
      assert Step(base, hs[i - 1], cs[i - 1], hs[i]);
      match cs[i - 1] {
        case Malloc(n, grow, r) => MallocKeepsInv(base, hs[i - 1], n, grow, r, hs[i]);
        case Free(a) => FreeKeepsInv(base, hs[i - 1], a, hs[i]);
      }
    }
  }

  /** What a run has obtained from `sbrk` is what the growing calls were given. */
  ghost function Granted(cs: seq<Call>): set<int> {
    if cs == [] then {}
    else Granted(cs[..|cs| - 1]) + match cs[|cs| - 1] {
      case Malloc(_, Some(b), _) => Region(b)
      case _ => {}
    }
  }

  lemma {:induction false} RunConservesUnits(base: int, hs: seq<Heap>, cs: seq<Call>)
    requires base > NULL && Run(base, hs, cs)
    ensures Units(hs[|cs|].blocks) + LiveUnits(hs[|cs|].live) == Granted(cs)
    ensures Units(hs[|cs|].blocks) !! LiveUnits(hs[|cs|].live)
  {
    RunOwnsGranted(base, hs, cs);
    RunKeepsInv(base, hs, cs, |cs|);
  }

  lemma {:induction false} RunOwnsGranted(base: int, hs: seq<Heap>, cs: seq<Call>)
    requires base > NULL && Run(base, hs, cs)
    ensures hs[|cs|].owned == Granted(cs)
  {
    var n := |cs|;
    if n > 0 {
      RunOwnsGranted(base, hs[..n], cs[..n - 1]);
      RunKeepsInv(base, hs, cs, n - 1);
      assert Step(base, hs[n - 1], cs[n - 1], hs[n]);
      match cs[n - 1] {
        case Malloc(m, grow, r) => MallocKeepsInv(base, hs[n - 1], m, grow, r, hs[n]);
        case Free(a) =>
      }
    }
  }

  // ---- what one call undoes ----

  /** The live blocks and the units from `sbrk` determine the free list. */
  lemma LiveDeterminesBlocks(base: int, h: Heap, h': Heap)
    requires Inv(base, h) && Inv(base, h') && h.live == h'.live && h.owned == h'.owned
    ensures h.blocks == h'.blocks
  {
    assert Units(h.blocks) == h.owned - LiveUnits(h.live);
    assert Units(h'.blocks) == h'.owned - LiveUnits(h'.live);
    CanonicalFormIsUnique(h.blocks, h'.blocks);
  }

  /** `free(malloc(n))` without growth restores exactly the earlier blocks, on every heap. */
  lemma {:induction false} FreeUndoesMalloc(base: int, h: Heap, n: nat, r: int, h1: Heap, h2: Heap)
    requires Inv(base, h) && n > 0
    requires MallocStep(base, h, n, None, r, h1) && r != NULL
    requires |h1.blocks| > 0 && FreeStep(h1, r, h2)
    ensures h2.blocks == h.blocks && h2.live == h.live && h2.owned == h.owned
  {
    MallocKeepsInv(base, h, n, None, r, h1);
    FreeKeepsInv(base, h1, r, h2);
    ComesAndGoes(h.live, r, n);
    LiveDeterminesBlocks(base, h2, h);
  }

  lemma ComesAndGoes(live: map<int, nat>, r: int, n: nat)
    requires r !in live
    ensures live[r := n] - {r} == live
  {
  }

  /** `h'` is reached from `h` by freeing `xs` in order. */
  ghost predicate Frees(h: Heap, xs: seq<int>, h': Heap)
    decreases |xs|
  {
    if xs == [] then h' == h
    else |h.blocks| > 0 && exists h1 :: FreeStep(h, xs[0], h1) && Frees(h1, xs[1..], h')
  }

  ghost function Elements(xs: seq<int>): set<int> {
    set x | x in xs
  }

  lemma WithoutElements(live: map<int, nat>, xs: seq<int>)
    requires xs != []
    ensures (live - {xs[0]}) - Elements(xs[1..]) == live - Elements(xs)
  {
    assert Elements(xs) == {xs[0]} + Elements(xs[1..]);
  }

  lemma {:induction false} FreesKeepInv(base: int, h: Heap, xs: seq<int>, h': Heap)
    requires Inv(base, h) && Frees(h, xs, h')
    ensures Inv(base, h') && h'.owned == h.owned
    ensures h'.live == h.live - Elements(xs)
    decreases |xs|
  {
    if xs == [] {
      assert h.live - Elements(xs) == h.live;
    } else {
      var h1 :| FreeStep(h, xs[0], h1) && Frees(h1, xs[1..], h');
      FreeKeepsInv(base, h, xs[0], h1);
      FreesKeepInv(base, h1, xs[1..], h');
      WithoutElements(h.live, xs);
    }
  }

  /** The order in which blocks are freed does not matter for the free list that results. */
  lemma FreesInAnyOrder(base: int, h: Heap, xs: seq<int>, ys: seq<int>, hx: Heap, hy: Heap)
    requires Inv(base, h) && Frees(h, xs, hx) && Frees(h, ys, hy)
    requires Elements(xs) == Elements(ys)
    ensures hx.blocks == hy.blocks && hx.live == hy.live && hx.owned == hy.owned
  {
    FreesKeepInv(base, h, xs, hx);
    FreesKeepInv(base, h, ys, hy);
    LiveDeterminesBlocks(base, hx, hy);
  }

  /** A call grows the heap only if no run of free units would do, and what it returns reaches into the new
      region: growing was needed and is used. */
  lemma GrowthIsNeeded(base: int, h: Heap, n: nat, grow: Option<Block>, r: int, h': Heap)
    requires Inv(base, h) && n > 0 && MallocStep(base, h, n, grow, r, h') && grow.Some?
    ensures forall a: int :: !(Region(Block(a, n)) <= Units(h.blocks))
    ensures Region(Block(r, n)) * Region(grow.value) != {}
  {
    forall a: int
      ensures !(Region(Block(a, n)) <= Units(h.blocks))
    {
      if Region(Block(a, n)) <= Units(h.blocks) {
        var i := RunInOneBlock(h.blocks, a, n);
      }
    }
    var h0, b := Started(base, h), grow.value;
    StartedInv(base, h);
    var h1 :| GrowStep(h0, b, h1) && |h1.blocks| > 0 && CarveStep(h1, n, r, h');
    GrowKeepsInv(base, h0, b, h1);
    CarveKeepsInv(base, h1, n, r, h');
    assert Region(Block(r, n)) <= Units(h.blocks) + Region(b);
    Overlaps(Region(Block(r, n)), Units(h.blocks), Region(b));
  }

  lemma Overlaps(a: set<int>, b: set<int>, c: set<int>)
    requires a <= b + c && !(a <= b)
    ensures a * c != {}
  {
    if a * c == {} {
      forall x | x in a
        ensures x in b
      {
        assert x !in a * c;
      }
    }
  }
}
