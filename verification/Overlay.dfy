/** What copying a subtree achieves, and what holds while a directory is being copied (lib/fsutil.c:124-328). */
module Overlay {
  import opened Wrappers
  import opened Paths
  import opened FileTree
  import opened Remove

  // ---- what a copy achieves ----

  ghost predicate Apart(s: Path, d: Path) {
    !(s <= d) && !(d <= s)
  }

  /** Neither place lies inside the other; they may be the same. */
  ghost predicate NotNested(s: Path, d: Path) {
    s == d || Apart(s, d)
  }

  /** What a place holds once the subtree at `s` has been laid over the one at `d`. */
  function OverlayAt(fs: FS, s: Path, d: Path, q: Path): Option<Node> {
    if d <= q && s + q[|d|..] in fs then Some(fs[s + q[|d|..]]) else Get(fs, q)
  }

  /** From `fs` to `fs'` the subtree at `s` was copied to `d`, and nothing else happened. */
  ghost predicate Copied(fs: FS, fs': FS, s: Path, d: Path) {
    forall q :: Get(fs', q) == OverlayAt(fs, s, d, q)
  }

  predicate IsFile(fs: FS, q: Path) {
    q in fs && fs[q].File?
  }

  /** The same as the code does it: a regular file does not replace a link, but goes where that leads. */
  function LaidAt(fs: FS, s: Path, d: Path, q: Path): Option<Node> {
    if d <= q && IsLink(fs, q) && IsFile(fs, s + q[|d|..]) then Get(fs, q) else OverlayAt(fs, s, d, q)
  }

  /** From `fs` to `fs'` the subtree at `s` was laid over the one at `d`; files went through links to `w`. */
  ghost predicate Laid(fs: FS, fs': FS, s: Path, d: Path, w: set<Path>) {
    forall q :: q in w || Get(fs', q) == LaidAt(fs, s, d, q)
  }

  /** At each place of `w` there is a file of the source. */
  ghost predicate Landings(fs: FS, fs': FS, s: Path, w: set<Path>) {
    forall q :: q in w ==> HoldsFileOf(fs, fs', s, q)
  }

  ghost predicate HoldsFileOf(fs: FS, fs': FS, s: Path, q: Path) {
    exists r :: IsFile(fs, s + r) && Get(fs', q) == Get(fs, s + r)
  }

  /** Neither the source nor the destination has a place of `w`. */
  ghost predicate Afar(w: set<Path>, s: Path, d: Path) {
    forall q :: q in w ==> !(s <= q) && !(d <= q)
  }

  /** Outside `d` nothing has changed but at places of `w`. */
  ghost predicate KeptBut(fs: FS, fs': FS, d: Path, w: set<Path>) {
    forall q :: d <= q || q in w || Get(fs', q) == Get(fs, q)
  }

  ghost predicate OutsideKept(fs: FS, fs': FS, d: Path) {
    KeptBut(fs, fs', d, {})
  }

  /** Some link of the source was not copied as a link. */
  ghost predicate Spoiled(fs: FS, fs': FS, s: Path, d: Path) {
    exists r :: SpoiledAt(fs, fs', s, d, r)
  }

  ghost predicate SpoiledAt(fs: FS, fs': FS, s: Path, d: Path, r: Path) {
    IsLink(fs, s + r) && !IsLink(fs', d + r)
  }

  /** The source has no links. */
  ghost predicate NoLinks(fs: FS, s: Path) {
    forall r :: !IsLink(fs, s + r)
  }

  /** No regular file of the source has a link at its destination. */
  ghost predicate NoLinkTarget(fs: FS, s: Path, d: Path) {
    forall r :: IsFile(fs, s + r) ==> !IsLink(fs, d + r)
  }

  /** Room for a new node. */
  ghost predicate Vacant(fs: FS, d: Path) {
    d !in fs && d != [] && PlaceOk(fs, d)
  }

  /** What a copy without detours asks of the node at `r` below the source: the paths of places below source and
      destination fit their buffers; the target of a link fits with two bytes to spare; and a node at the
      destination is a directory exactly if this one is, and no link if this one is a file. */
  ghost predicate Suits(fs: FS, s: Path, d: Path, slen: nat, dlen: nat, max: nat, r: Path) {
    s + r in fs ==>
      && (r != [] ==> FitsAt(slen, r, max) && FitsAt(dlen, r, max))
      && (fs[s + r].Link? ==> |fs[s + r].target| + 2 <= max)
      && (d + r in fs ==> (fs[s + r].Dir? <==> fs[d + r].Dir?) && !(fs[s + r].File? && fs[d + r].Link?))
  }

  /** The conditions under which a copy needs no detour, and only a failing system call can make it fail. */
  ghost predicate Copyable(fs: FS, s: Path, d: Path, slen: nat, dlen: nat, max: nat, recursive: bool) {
    && s in fs && s != d && (d in fs || Vacant(fs, d)) && (recursive || !fs[s].Dir?)
    && forall r :: Suits(fs, s, d, slen, dlen, max, r)
  }

  /** The conditions can be met: a directory with a file in it, to be copied beside it. */
  lemma CopyableExample() returns (fs: FS)
    ensures var s, d := ["a"], ["b"];
      Tree(fs) && Apart(s, d) && NoLinkTarget(fs, s, d) && Copyable(fs, s, d, 1, 1, 8, true) && s + ["f"] in fs
  {
    var s: Path, d: Path := ["a"], ["b"];
    var f: Path := ["a", "f"];
    fs := map[[] := Dir(7), s := Dir(7), f := File("x", 6)];
    assert Parent(s) == [] && Parent(d) == [] && Parent(f) == s && s + ["f"] == f;
    SpellChild("f", []);
    assert ["f"] + [] == ["f"];
    forall r
      ensures Suits(fs, s, d, 1, 1, 8, r) && (IsFile(fs, s + r) ==> !IsLink(fs, d + r))
    {
      if s + r in fs {
        if s + r == s {
          assert |r| == 0;
        } else {
          assert |s + r| == 2 && r == (s + r)[1..] == f[1..];
        }
      }
    }
  }

  /** They can be met where there is a directory with something in it already. */
  lemma MergeExample() returns (fs: FS)
    ensures var s, d := ["a"], ["b"];
      && Tree(fs) && Apart(s, d) && Copyable(fs, s, d, 1, 1, 8, true)
      && s + ["f"] in fs && d in fs && d + ["f"] in fs
  {
    var s: Path, d: Path := ["a"], ["b"];
    var f: Path, f': Path := ["a", "f"], ["b", "f"];
    fs := map[[] := Dir(7), s := Dir(7), f := File("x", 6), d := Dir(5), f' := File("y", 6)];
    assert Parent(s) == [] && Parent(d) == [] && Parent(f) == s && Parent(f') == d;
    assert s + ["f"] == f && d + ["f"] == f';
    SpellChild("f", []);
    assert ["f"] + [] == ["f"];
    forall r
      ensures Suits(fs, s, d, 1, 1, 8, r)
    {
      if s + r in fs {
        assert (s + r)[0] == "a" && r == (s + r)[1..];
        assert s + r == s || s + r == f;
        assert d + [] == d && s[1..] == [] && f[1..] == ["f"];
      }
    }
  }

  /** Whatever a copy from `s` to `d` comes to: what has happened outside `d`, and when no link can have been
      involved.  `followed` says that a link of the source was followed; `w` are the places of files that were
      written through links. */
  ghost predicate Held(fs: FS, fs': FS, s: Path, d: Path, followed: bool, w: set<Path>) {
    && Blurred(fs, fs', d) && KeptBut(fs, fs', d, w) && (d !in fs ==> w == {})
    && (NoLinks(fs, s) ==> !followed) && (NoLinks(fs, s) && NoLinkTarget(fs, s, d) ==> w == {})
  }

  /** The source was laid over the destination; where nothing went through a link it was copied. */
  ghost predicate Achieved(fs: FS, fs': FS, s: Path, d: Path, w: set<Path>) {
    && Laid(fs, fs', s, d, w) && Landings(fs, fs', s, w)
    && (w == {} ==> NoLinkTarget(fs, s, d) && Copied(fs, fs', s, d))
  }

  lemma LaidIsCopied(fs: FS, fs': FS, s: Path, d: Path)
    requires Laid(fs, fs', s, d, {}) && NoLinkTarget(fs, s, d)
    ensures Copied(fs, fs', s, d)
  {
    forall q
      ensures Get(fs', q) == OverlayAt(fs, s, d, q)
    {
      assert Get(fs', q) == LaidAt(fs, s, d, q);
      if d <= q {
        assert q == d + q[|d|..];
        assert IsFile(fs, s + q[|d|..]) ==> !IsLink(fs, d + q[|d|..]);
      }
    }
  }

  // ---- one file or link ----

  /** The places written when a regular file is copied to `d`, but `d` itself. */
  function Through(fs: FS, d: Path): set<Path> {
    if IsLink(fs, d) && Landing(fs, d).Some? then {Landing(fs, d).value} else {}
  }

  /** The regular file at `t` was copied to where `d` leads; onto itself that empties it. */
  ghost predicate Written(fs: FS, fs': FS, t: Path, d: Path) {
    && IsFile(fs, t) && Landing(fs, d).Some?
    && var w := Landing(fs, d).value;
       fs' == fs[w := if w == t then fs[t].(content := []) else fs[t]]
  }

  /** The file is still what it was exactly if the destination does not lead to it (or it was empty). */
  lemma WrittenKeeps(fs: FS, fs': FS, t: Path, d: Path)
    requires Written(fs, fs', t, d)
    ensures fs[t].content != [] ==> (Get(fs', t) == Get(fs, t) <==> Landing(fs, d) != Some(t))
  {
  }

  /** A regular file laid over what was at `d`. */
  lemma FileAchieved(fs: FS, fs': FS, s: Path, d: Path)
    requires Tree(fs) && s != d && Written(fs, fs', s, d) && Afar(Through(fs, d), s, d)
    ensures Achieved(fs, fs', s, d, Through(fs, d))
  {
    var w := Landing(fs, d).value;
    assert s + [] == s && d + [] == d;
    assert w != s;
    forall q
      ensures q in Through(fs, d) || Get(fs', q) == LaidAt(fs, s, d, q)
    {
      if d <= q && q != d {
        NothingBelow(fs, s, s + q[|d|..]);
      }
    }
    forall q | q in Through(fs, d)
      ensures HoldsFileOf(fs, fs', s, q)
    {
      assert IsFile(fs, s + []) && Get(fs', q) == Get(fs, s + []);
    }
    if Through(fs, d) == {} {
      OnlyRootIsFile(fs, s, d);
      LaidIsCopied(fs, fs', s, d);
    }
  }

  lemma OnlyRootIsFile(fs: FS, s: Path, d: Path)
    requires Tree(fs) && s in fs && !fs[s].Dir? && (fs[s].File? ==> !IsLink(fs, d))
    ensures NoLinkTarget(fs, s, d)
  {
    forall r | IsFile(fs, s + r)
      ensures !IsLink(fs, d + r)
    {
      if r == [] {
        assert s + r == s && d + r == d;
      } else {
        NothingBelow(fs, s, s + r);
      }
    }
  }

  /** A link put at `d`. */
  lemma LinkAchieved(fs: FS, s: Path, d: Path)
    requires Tree(fs) && IsLink(fs, s)
    ensures Achieved(fs, fs[d := fs[s]], s, d, {})
  {
    forall q
      ensures Get(fs[d := fs[s]], q) == LaidAt(fs, s, d, q)
    {
      if d <= q {
        if q == d {
          assert s + q[|d|..] == s;
        } else {
          NothingBelow(fs, s, s + q[|d|..]);
        }
      }
    }
    OnlyRootIsFile(fs, s, d);
    LaidIsCopied(fs, fs[d := fs[s]], s, d);
  }

  // ---- changes outside the destination ----

  lemma BlurTrans(a: FS, b: FS, c: FS, d: Path, e: Path)
    requires Blurred(a, b, d) && Blurred(b, c, e) && d <= e
    ensures Blurred(a, c, d)
  {
    forall q | q in a.Keys + c.Keys
      ensures d <= q || SameOrFile(Get(a, q), Get(c, q))
    {
      BlurredAt(a, b, d, q);
      BlurredAt(b, c, e, q);
      assert e <= q ==> d <= q;
    }
  }

  lemma KeptTrans(a: FS, b: FS, c: FS, d: Path, e: Path, v: set<Path>, w: set<Path>)
    requires KeptBut(a, b, d, v) && KeptBut(b, c, e, w) && d <= e
    ensures KeptBut(a, c, d, v + w)
  {
    forall q
      ensures d <= q || q in v + w || Get(c, q) == Get(a, q)
    {
      assert d <= q || q in v || Get(b, q) == Get(a, q);
      assert e <= q || q in w || Get(c, q) == Get(b, q);
      assert e <= q ==> d <= q;
    }
  }

  lemma KeptIsBlurred(fs: FS, fs': FS, d: Path)
    requires OutsideKept(fs, fs', d)
    ensures Blurred(fs, fs', d)
  {
    forall q | q in fs.Keys + fs'.Keys
      ensures d <= q || SameOrFile(Get(fs, q), Get(fs', q))
    {
      assert d <= q || Get(fs', q) == Get(fs, q);
    }
  }

  /** All that differs, if anything, is the regular file at `w`. */
  ghost predicate FileOnly(fs: FS, fs': FS, w: Path) {
    fs' == fs || (w in fs' && fs'[w].File? && (w in fs ==> fs[w].File?) && fs' == fs[w := fs'[w]])
  }

  /** Writing one regular file, at `d` or through a link. */
  lemma OneFile(fs: FS, fs': FS, at: Path, d: Path, w: set<Path>)
    requires FileOnly(fs, fs', at) && (at == d || at in w || fs' == fs)
    ensures Blurred(fs, fs', d) && KeptBut(fs, fs', d, w) && (IsLink(fs', d) ==> IsLink(fs, d))
  {
  }

  // ---- a directory being filled ----

  /** Below `d` the children not in `seen` are as they were. */
  ghost predicate UnseenKept(fs: FS, cur: FS, d: Path, seen: set<string>) {
    forall q :: d <= q && q != d && q[|d|] !in seen ==> Get(cur, q) == Get(fs, q)
  }

  /** Below `d` the children in `seen` have been laid. */
  ghost predicate SeenLaid(fs: FS, cur: FS, s: Path, d: Path, seen: set<string>) {
    forall q :: d <= q && q != d && q[|d|] in seen ==> Get(cur, q) == LaidAt(fs, s, d, q)
  }

  /** No regular file in the children `seen` has a link at its destination. */
  ghost predicate SeenClear(fs: FS, s: Path, d: Path, seen: set<string>) {
    forall r :: r != [] && r[0] in seen && IsFile(fs, s + r) ==> !IsLink(fs, d + r)
  }

  ghost predicate SpoiledIn(fs: FS, cur: FS, s: Path, d: Path, seen: set<string>) {
    exists r :: r != [] && r[0] in seen && SpoiledAt(fs, cur, s, d, r)
  }

  /** The source, and below `d` what is still to be done, are as they were. */
  ghost predicate Ahead(fs: FS, cur: FS, s: Path, d: Path, seen: set<string>, w: set<Path>) {
    Apart(s, d) && KeptBut(fs, cur, d, w) && Afar(w, s, d) && UnseenKept(fs, cur, d, seen)
  }

  /** The directory `d`, of which `fs` is the state before, is being filled from `s`: the children in `seen`
      are done.  `followed` says that a link of the source was followed; `w` are the places of files that were
      written through links. */
  ghost predicate Filling(fs: FS, cur: FS, s: Path, d: Path, seen: set<string>, followed: bool, w: set<Path>) {
    && Tree(fs) && Apart(s, d) && s in fs && fs[s].Dir?
    && Held(fs, cur, s, d, followed, w) && d in cur && cur[d].Dir?
    && (Afar(w, s, d) ==> UnseenKept(fs, cur, d, seen))
    && (Afar(w, s, d) && !followed ==> Done(fs, cur, s, d, seen, w))
    && (followed && d !in fs ==> SpoiledIn(fs, cur, s, d, seen))
  }

  ghost predicate Done(fs: FS, cur: FS, s: Path, d: Path, seen: set<string>, w: set<Path>) {
    SeenLaid(fs, cur, s, d, seen) && Landings(fs, cur, s, w) && (w == {} ==> SeenClear(fs, s, d, seen))
  }

  /** Achieved but for the node at `d` itself, which is some directory. */
  ghost predicate AchievedBelow(fs: FS, cur: FS, s: Path, d: Path, w: set<Path>) {
    && d in cur && cur[d].Dir? && (forall q :: q == d || q in w || Get(cur, q) == LaidAt(fs, s, d, q))
    && Landings(fs, cur, s, w) && (w == {} ==> NoLinkTarget(fs, s, d))
  }

  /** The source is the same while the copy is being made. */
  lemma SourceKept(fs: FS, cur: FS, s: Path, d: Path, w: set<Path>, r: Path)
    requires KeptBut(fs, cur, d, w) && Afar(w, s, d) && Apart(s, d)
    ensures Get(cur, s + r) == Get(fs, s + r)
  {
    assert d <= s + r ==> d <= s || s <= d;
    assert s <= s + r;
  }

  ghost function DirsUnder(fs: FS, p: Path): set<Path> {
    set q | q in fs && p <= q && fs[q].Dir?
  }

  /** The recursion ends because a child has fewer directories below it, whatever happens to files. */
  lemma ChildHasFewerDirs(fs: FS, cur: FS, s: Path, d: Path, n: string)
    requires Blurred(fs, cur, d) && Apart(s, d) && s in fs && fs[s].Dir?
    ensures |DirsUnder(cur, s + [n])| < |DirsUnder(fs, s)|
  {
    var a, b := DirsUnder(cur, s + [n]), DirsUnder(fs, s);
    forall q | q in a
      ensures q in b && q != s
    {
      BlurredAt(fs, cur, d, q);
      assert d <= q && s <= q ==> d <= s || s <= d;
      assert s <= s + [n] <= q;
    }
    assert s in b;
    Smaller(a, b - {s});
  }

  lemma ChildrenApart(s: Path, d: Path, n: string)
    requires Apart(s, d)
    ensures Apart(s + [n], d + [n])
  {
    assert s + [n] <= d + [n] ==> s <= d + [n];
    assert d + [n] <= s + [n] ==> d <= s + [n];
  }

  /** A child not done yet is as it was, at the source and at the destination. */
  lemma ChildAsBefore(fs: FS, cur: FS, s: Path, d: Path, seen: set<string>, w: set<Path>, n: string, r: Path)
    requires Ahead(fs, cur, s, d, seen, w) && n !in seen
    ensures s + [n] + r == s + ([n] + r) && d + [n] + r == d + ([n] + r)
    ensures Get(cur, s + [n] + r) == Get(fs, s + ([n] + r))
    ensures Get(cur, d + [n] + r) == Get(fs, d + ([n] + r))
  {
    SourceKept(fs, cur, s, d, w, [n] + r);
    var q := d + [n] + r;
    assert q == d + ([n] + r) && s + [n] + r == s + ([n] + r);
    assert d <= q && q != d && q[|d|] == n;
  }

  /** A source without links gets none, whatever is written through links. */
  lemma ChildHasNoLinks(fs: FS, cur: FS, s: Path, d: Path, n: string)
    requires Blurred(fs, cur, d) && Apart(s, d) && NoLinks(fs, s)
    ensures NoLinks(cur, s + [n])
  {
    forall r
      ensures !IsLink(cur, s + [n] + r)
    {
      var r' := [n] + r;
      assert s + [n] + r == s + r';
      BlurredAt(fs, cur, d, s + r');
      assert d <= s + r' ==> d <= s || s <= d;
      assert !IsLink(fs, s + r');
    }
  }

  lemma ChildNoLinkTarget(fs: FS, cur: FS, s: Path, d: Path, seen: set<string>, w: set<Path>, n: string)
    requires Ahead(fs, cur, s, d, seen, w) && n !in seen
    ensures NoLinkTarget(fs, s, d) ==> NoLinkTarget(cur, s + [n], d + [n])
  {
    forall r | NoLinkTarget(fs, s, d) && IsFile(cur, s + [n] + r)
      ensures !IsLink(cur, d + [n] + r)
    {
      ChildAsBefore(fs, cur, s, d, seen, w, n, r);
      assert IsFile(fs, s + ([n] + r)) && !IsLink(fs, d + ([n] + r));
    }
  }

  lemma ChildAbsent(fs: FS, cur: FS, s: Path, d: Path, seen: set<string>, w: set<Path>, n: string)
    requires Tree(fs) && Ahead(fs, cur, s, d, seen, w) && n !in seen && d !in fs
    ensures d + [n] !in cur
  {
    ChildAsBefore(fs, cur, s, d, seen, w, n, []);
    NothingBelow(fs, d, d + [n]);
    assert d + [n] + [] == d + [n] && [n] + [] == [n];
  }

  /** The paths of the child `n`, spelt with `slen'` and `dlen'` characters, fit. */
  predicate BothFit(n: string, slen: nat, dlen: nat, slen': nat, dlen': nat, max: nat) {
    slen' == slen + 1 + |n| && dlen' == dlen + 1 + |n| && slen' + 1 <= max && dlen' + 1 <= max
  }

  /** A place below a child whose paths fit suits the directory exactly if it suits the child. */
  lemma ChildSuits(fs: FS, cur: FS, s: Path, d: Path, seen: set<string>, w: set<Path>, n: string,
                   slen: nat, dlen: nat, slen': nat, dlen': nat, max: nat, r: Path)
    requires Ahead(fs, cur, s, d, seen, w) && n !in seen && BothFit(n, slen, dlen, slen', dlen', max)
    ensures Suits(fs, s, d, slen, dlen, max, [n] + r) <==> Suits(cur, s + [n], d + [n], slen', dlen', max, r)
  {
    ChildAsBefore(fs, cur, s, d, seen, w, n, r);
    SpellChild(n, r);
  }

  lemma SuitsFits(fs: FS, s: Path, d: Path, slen: nat, dlen: nat, slen': nat, dlen': nat, max: nat, n: string)
    requires Suits(fs, s, d, slen, dlen, max, [n]) && s + [n] in fs
    requires slen' == slen + 1 + |n| && dlen' == dlen + 1 + |n|
    ensures BothFit(n, slen, dlen, slen', dlen', max)
  {
    SpellChild(n, []);
    assert [n] + [] == [n];
  }

  lemma ChildPlace(fs: FS, d: Path, n: string)
    requires d in fs && fs[d].Dir? && IsName(n) && !IsDot(n)
    ensures d + [n] in fs || Vacant(fs, d + [n])
  {
    assert Parent(d + [n]) == d;
  }

  lemma ChildCopyable(fs: FS, cur: FS, s: Path, d: Path, seen: set<string>, w: set<Path>, n: string,
                      slen: nat, dlen: nat, slen': nat, dlen': nat, max: nat)
    requires Tree(fs) && Ahead(fs, cur, s, d, seen, w) && n !in seen && d in cur && cur[d].Dir?
    requires n in ChildNames(fs, s) && Copyable(fs, s, d, slen, dlen, max, true)
    requires slen' == slen + 1 + |n| && dlen' == dlen + 1 + |n|
    ensures Copyable(cur, s + [n], d + [n], slen', dlen', max, true) && BothFit(n, slen, dlen, slen', dlen', max)
  {
    ChildIsNamed(fs, s, n);
    ChildAsBefore(fs, cur, s, d, seen, w, n, []);
    assert s + [n] + [] == s + [n] && [n] + [] == [n];
    ChildrenApart(s, d, n);
    ChildPlace(cur, d, n);
    SuitsFits(fs, s, d, slen, dlen, slen', dlen', max, n);
    forall r
      ensures Suits(cur, s + [n], d + [n], slen', dlen', max, r)
    {
      ChildSuits(fs, cur, s, d, seen, w, n, slen, dlen, slen', dlen', max, r);
      assert Suits(fs, s, d, slen, dlen, max, [n] + r);
    }
  }

  /** All places in the children `seen` suit. */
  ghost predicate SeenSuit(fs: FS, s: Path, d: Path, slen: nat, dlen: nat, max: nat, seen: set<string>) {
    forall r :: r != [] && r[0] in seen ==> Suits(fs, s, d, slen, dlen, max, r)
  }

  /** One more child that could be copied. */
  lemma ChildSuited(fs: FS, cur: FS, s: Path, d: Path, seen: set<string>, w: set<Path>, n: string,
                    slen: nat, dlen: nat, slen': nat, dlen': nat, max: nat)
    requires Ahead(fs, cur, s, d, seen, w) && n !in seen && SeenSuit(fs, s, d, slen, dlen, max, seen)
    requires Copyable(cur, s + [n], d + [n], slen', dlen', max, true) && BothFit(n, slen, dlen, slen', dlen', max)
    ensures SeenSuit(fs, s, d, slen, dlen, max, seen + {n})
  {
    forall r | r != [] && r[0] in seen + {n}
      ensures Suits(fs, s, d, slen, dlen, max, r)
    {
      if r[0] == n {
        assert r == [n] + r[1..];
        ChildSuits(fs, cur, s, d, seen, w, n, slen, dlen, slen', dlen', max, r[1..]);
        assert Suits(cur, s + [n], d + [n], slen', dlen', max, r[1..]);
      }
    }
  }

  /** What `Copyable` asks of a directory besides its children. */
  ghost predicate DirMeets(fs: FS, s: Path, d: Path) {
    s in fs && fs[s].Dir? && s != d && if d in fs then fs[d].Dir? else Vacant(fs, d)
  }

  lemma DirCopyable(fs: FS, s: Path, d: Path, slen: nat, dlen: nat, max: nat)
    requires Tree(fs) && s in fs && fs[s].Dir?
    ensures Copyable(fs, s, d, slen, dlen, max, true) <==>
      DirMeets(fs, s, d) && SeenSuit(fs, s, d, slen, dlen, max, ChildNames(fs, s))
  {
    assert s + [] == s && d + [] == d;
    if DirMeets(fs, s, d) && SeenSuit(fs, s, d, slen, dlen, max, ChildNames(fs, s)) {
      forall r
        ensures Suits(fs, s, d, slen, dlen, max, r)
      {
        if r != [] && s + r in fs {
          UnderExists(fs, s, s + r);
          assert (s + r)[|s|] == r[0];
        }
      }
    }
    if Copyable(fs, s, d, slen, dlen, max, true) {
      assert Suits(fs, s, d, slen, dlen, max, []);
    }
  }

  /** Where a node that is no directory can be put without a detour. */
  ghost predicate LeafMeets(fs: FS, s: Path, d: Path)
    requires s in fs
  {
    if d in fs then !fs[d].Dir? && !(fs[s].File? && fs[d].Link?) else Vacant(fs, d)
  }

  lemma LeafCopyable(fs: FS, s: Path, d: Path, slen: nat, dlen: nat, max: nat, recursive: bool)
    requires Tree(fs) && s in fs && !fs[s].Dir?
    ensures Copyable(fs, s, d, slen, dlen, max, recursive) <==>
      s != d && LeafMeets(fs, s, d) && (fs[s].Link? ==> |fs[s].target| + 2 <= max)
  {
    assert s + [] == s && d + [] == d;
    forall r | r != []
      ensures s + r !in fs
    {
      NothingBelow(fs, s, s + r);
    }
    if Copyable(fs, s, d, slen, dlen, max, recursive) {
      assert Suits(fs, s, d, slen, dlen, max, []);
    }
    if s != d && LeafMeets(fs, s, d) && (fs[s].Link? ==> |fs[s].target| + 2 <= max) {
      forall r
        ensures Suits(fs, s, d, slen, dlen, max, r)
      {
      }
    }
  }

  /** A regular file can be put there exactly if it can be written there without going through a link. */
  lemma FileMeets(fs: FS, s: Path, d: Path)
    requires Tree(fs) && IsFile(fs, s)
    ensures LeafMeets(fs, s, d) <==> Writable(fs, d) && !IsLink(fs, d)
  {
  }

  /** What holds of a child's copy holds of the directory's; `followed` and `w` tell of the child alone. */
  lemma ChildHeld(fs: FS, cur: FS, cur': FS, s: Path, d: Path, seen: set<string>, n: string,
                  followed0: bool, w0: set<Path>, followed: bool, w: set<Path>)
    requires Filling(fs, cur, s, d, seen, followed0, w0) && n !in seen
    requires Held(cur, cur', s + [n], d + [n], followed, w)
    ensures Held(fs, cur', s, d, followed0 || followed, w0 + w)
  {
    BlurTrans(fs, cur, cur', d, d + [n]);
    KeptTrans(fs, cur, cur', d, d + [n], w0, w);
    if NoLinks(fs, s) {
      ChildHasNoLinks(fs, cur, s, d, n);
    }
    if w0 == {} {
      ChildNoLinkTarget(fs, cur, s, d, seen, w0, n);
      if d !in fs {
        ChildAbsent(fs, cur, s, d, seen, w0, n);
      }
    }
  }

  /** One more child is done. */
  lemma ChildDone(fs: FS, cur: FS, cur': FS, s: Path, d: Path, seen: set<string>, n: string,
                  followed0: bool, w0: set<Path>, followed: bool, w: set<Path>)
    requires Filling(fs, cur, s, d, seen, followed0, w0) && n !in seen
    requires Held(cur, cur', s + [n], d + [n], followed, w)
    requires !followed && Afar(w, s + [n], d + [n]) ==> Achieved(cur, cur', s + [n], d + [n], w)
    requires followed && d + [n] !in cur ==> Spoiled(cur, cur', s + [n], d + [n])
    ensures Filling(fs, cur', s, d, seen + {n}, followed0 || followed, w0 + w)
  {
    ChildHeld(fs, cur, cur', s, d, seen, n, followed0, w0, followed, w);
    BlurredAt(cur, cur', d + [n], d);
    if Afar(w0 + w, s, d) {
      AfarParts(w0, w, s, d, n);
      UnseenStays(fs, cur, cur', s, d, seen, n, w);
      if !followed0 && !followed {
        SeenGrows(fs, cur, cur', s, d, seen, n, w0, w);
        LandingsGrow(fs, cur, cur', s, d, seen, n, w0, w);
        ClearGrows(fs, cur, cur', s, d, seen, n, w0, w);
      }
    }
    if d !in fs && (followed0 || followed) {
      ChildAbsent(fs, cur, s, d, seen, w0, n);
      if followed {
        SpoiledBelow(fs, cur, cur', s, d, seen, n);
      } else {
        SpoiledStays(fs, cur, cur', s, d, seen, n);
      }
    }
  }

  lemma AfarParts(v: set<Path>, w: set<Path>, s: Path, d: Path, n: string)
    requires Afar(v + w, s, d)
    ensures Afar(v, s, d) && Afar(w, s, d) && Afar(w, s + [n], d + [n])
  {
    forall q | q in v
      ensures !(s <= q) && !(d <= q)
    {
      assert q in v + w;
    }
    forall q | q in w
      ensures !(s <= q) && !(d <= q) && !(s + [n] <= q) && !(d + [n] <= q)
    {
      assert q in v + w;
      assert (s + [n] <= q ==> s <= q) && (d + [n] <= q ==> d <= q);
    }
  }

  lemma UnseenStays(fs: FS, cur: FS, cur': FS, s: Path, d: Path, seen: set<string>, n: string, w: set<Path>)
    requires UnseenKept(fs, cur, d, seen) && KeptBut(cur, cur', d + [n], w) && Afar(w, s, d)
    ensures UnseenKept(fs, cur', d, seen + {n})
  {
    forall q | d <= q && q != d && q[|d|] !in seen + {n}
      ensures Get(cur', q) == Get(fs, q)
    {
      assert !(d + [n] <= q) && q !in w;
      assert Get(cur', q) == Get(cur, q);
    }
  }

  lemma SeenGrows(fs: FS, cur: FS, cur': FS, s: Path, d: Path, seen: set<string>, n: string, w0: set<Path>,
                  w: set<Path>)
    requires Ahead(fs, cur, s, d, seen, w0) && n !in seen && Afar(w, s, d)
    requires SeenLaid(fs, cur, s, d, seen) && Laid(cur, cur', s + [n], d + [n], w)
    ensures SeenLaid(fs, cur', s, d, seen + {n})
  {
    forall q | d <= q && q != d && q[|d|] in seen + {n}
      ensures Get(cur', q) == LaidAt(fs, s, d, q)
    {
      assert q !in w;
      assert Get(cur', q) == LaidAt(cur, s + [n], d + [n], q);
      if q[|d|] == n {
        ChildLaid(fs, cur, s, d, seen, w0, n, q);
      } else {
        assert !(d + [n] <= q);
      }
    }
  }

  lemma ChildLaid(fs: FS, cur: FS, s: Path, d: Path, seen: set<string>, w: set<Path>, n: string, q: Path)
    requires Ahead(fs, cur, s, d, seen, w) && n !in seen && d <= q && q != d && q[|d|] == n
    ensures LaidAt(cur, s + [n], d + [n], q) == LaidAt(fs, s, d, q)
  {
    var r := q[|d| + 1..];
    assert q[|d|..] == [n] + r && d + [n] <= q && q[|d + [n]|..] == r;
    ChildAsBefore(fs, cur, s, d, seen, w, n, r);
    assert q == d + [n] + r;
  }

  lemma LandingsGrow(fs: FS, cur: FS, cur': FS, s: Path, d: Path, seen: set<string>, n: string, w0: set<Path>,
                     w: set<Path>)
    requires Ahead(fs, cur, s, d, seen, w0) && n !in seen && KeptBut(cur, cur', d + [n], w)
    requires Landings(fs, cur, s, w0) && Landings(cur, cur', s + [n], w)
    ensures Landings(fs, cur', s, w0 + w)
  {
    forall q | q in w0 + w
      ensures HoldsFileOf(fs, cur', s, q)
    {
      if q in w {
        assert HoldsFileOf(cur, cur', s + [n], q);
        var r :| IsFile(cur, s + [n] + r) && Get(cur', q) == Get(cur, s + [n] + r);
        ChildAsBefore(fs, cur, s, d, seen, w0, n, r);
        assert IsFile(fs, s + ([n] + r));
      } else {
        assert HoldsFileOf(fs, cur, s, q);
        assert d + [n] <= q ==> d <= q;
        assert Get(cur', q) == Get(cur, q);
      }
    }
  }

  lemma ClearGrows(fs: FS, cur: FS, cur': FS, s: Path, d: Path, seen: set<string>, n: string, w0: set<Path>,
                   w: set<Path>)
    requires Ahead(fs, cur, s, d, seen, w0) && n !in seen
    requires w0 == {} ==> SeenClear(fs, s, d, seen)
    requires w == {} ==> NoLinkTarget(cur, s + [n], d + [n])
    ensures w0 + w == {} ==> SeenClear(fs, s, d, seen + {n})
  {
    if w0 + w == {} {
      assert w0 == {} && w == {};
      forall r | r != [] && r[0] in seen + {n} && IsFile(fs, s + r)
        ensures !IsLink(fs, d + r)
      {
        if r[0] == n {
          assert r == [n] + r[1..];
          ChildAsBefore(fs, cur, s, d, seen, w0, n, r[1..]);
          assert IsFile(cur, s + [n] + r[1..]);
        }
      }
    }
  }

  /** A link of the child that was followed is one of the directory. */
  lemma SpoiledBelow(fs: FS, cur: FS, cur': FS, s: Path, d: Path, seen: set<string>, n: string)
    requires Apart(s, d) && OutsideKept(fs, cur, d) && Spoiled(cur, cur', s + [n], d + [n])
    ensures SpoiledIn(fs, cur', s, d, seen + {n})
  {
    var r :| SpoiledAt(cur, cur', s + [n], d + [n], r);
    var r' := [n] + r;
    SourceKept(fs, cur, s, d, {}, r');
    assert s + [n] + r == s + r' && d + [n] + r == d + r';
    assert SpoiledAt(fs, cur', s, d, r') && r'[0] == n;
  }

  lemma SpoiledStays(fs: FS, cur: FS, cur': FS, s: Path, d: Path, seen: set<string>, n: string)
    requires SpoiledIn(fs, cur, s, d, seen) && OutsideKept(cur, cur', d + [n]) && n !in seen
    ensures SpoiledIn(fs, cur', s, d, seen + {n})
  {
    var r :| r != [] && r[0] in seen && SpoiledAt(fs, cur, s, d, r);
    assert (d + r)[|d|] == r[0] && !(d + [n] <= d + r);
    assert Get(cur', d + r) == Get(cur, d + r);
    assert SpoiledAt(fs, cur', s, d, r);
  }

  /** With all children done the subtree is. */
  lemma AllDone(fs: FS, cur: FS, s: Path, d: Path, seen: set<string>, w: set<Path>)
    requires Filling(fs, cur, s, d, seen, false, w) && Afar(w, s, d) && seen == ChildNames(fs, s)
    ensures AchievedBelow(fs, cur, s, d, w)
  {
    forall q
      ensures q == d || q in w || Get(cur, q) == LaidAt(fs, s, d, q)
    {
      assert d <= q || q in w || Get(cur, q) == Get(fs, q);
      if d <= q && q != d && q[|d|] !in seen {
        var p := s + q[|d|..];
        if p in fs {
          UnderExists(fs, s, p);
        }
      }
    }
    if w == {} {
      assert s + [] == s;
      forall r | IsFile(fs, s + r)
        ensures !IsLink(fs, d + r)
      {
        if r != [] {
          UnderExists(fs, s, s + r);
          assert (s + r)[|s|] == r[0];
        }
      }
    }
  }

  lemma WalkDone(fs: FS, cur: FS, s: Path, d: Path, seen: set<string>, followed: bool, w: set<Path>)
    requires Filling(fs, cur, s, d, seen, followed, w) && seen == ChildNames(fs, s)
    ensures !followed && Afar(w, s, d) ==> AchievedBelow(fs, cur, s, d, w)
    ensures followed && d !in fs ==> Spoiled(fs, cur, s, d)
  {
    if !followed && Afar(w, s, d) {
      AllDone(fs, cur, s, d, seen, w);
    }
    if followed && d !in fs {
      var r :| r != [] && r[0] in seen && SpoiledAt(fs, cur, s, d, r);
    }
  }

  /** Setting the mode of the new directory completes the copy. */
  lemma ModeSet(fs: FS, cur: FS, cur': FS, s: Path, d: Path, followed: bool, w: set<Path>, ret: int)
    requires s in fs && fs[s].Dir? && d in cur && cur[d].Dir? && Held(fs, cur, s, d, followed, w)
    requires cur' == if ret < 0 then cur else cur[d := cur[d].(mode := fs[s].mode)]
    ensures Held(fs, cur', s, d, followed, w)
    ensures ret >= 0 && Afar(w, s, d) && AchievedBelow(fs, cur, s, d, w) ==> Achieved(fs, cur', s, d, w)
    ensures Spoiled(fs, cur, s, d) ==> Spoiled(fs, cur', s, d)
  {
    KeptIsBlurred(cur, cur', d);
    BlurTrans(fs, cur, cur', d, d);
    KeptTrans(fs, cur, cur', d, d, w, {});
    assert w + {} == w;
    if ret >= 0 && Afar(w, s, d) && AchievedBelow(fs, cur, s, d, w) {
      BelowToWhole(fs, cur, cur', s, d, w);
    }
    if Spoiled(fs, cur, s, d) {
      var r :| SpoiledAt(fs, cur, s, d, r);
      assert SpoiledAt(fs, cur', s, d, r);
    }
  }

  lemma BelowToWhole(fs: FS, cur: FS, cur': FS, s: Path, d: Path, w: set<Path>)
    requires s in fs && fs[s].Dir? && Afar(w, s, d) && AchievedBelow(fs, cur, s, d, w)
    requires cur' == cur[d := Dir(fs[s].mode)]
    ensures Achieved(fs, cur', s, d, w)
  {
    assert s + d[|d|..] == s && cur'[d] == fs[s];
    forall q
      ensures q in w || Get(cur', q) == LaidAt(fs, s, d, q)
    {
      assert q == d || q in w || Get(cur, q) == LaidAt(fs, s, d, q);
    }
    forall q | q in w
      ensures HoldsFileOf(fs, cur', s, q)
    {
      assert HoldsFileOf(fs, cur, s, q);
      assert Get(cur', q) == Get(cur, q);
    }
    if w == {} {
      LaidIsCopied(fs, cur', s, d);
    }
  }
}
