/** `fsutil_move_path` (lib/fsutil.c:418-439). */
module Move {
  import opened Wrappers
  import opened Paths
  import opened FileTree
  import opened Remove
  import opened Overlay
  import opened Copy

  // ---- what a move achieves ----

  /** The subtree at `s` is now at `d`, and nothing else happened. */
  ghost predicate Moved(fs: FS, fs': FS, s: Path, d: Path) {
    forall q :: Get(fs', q) == MovedAt(fs, s, d, q)
  }

  /** The same where `d` may have had something below it: the subtree was laid over that. */
  ghost predicate MovedOver(fs: FS, fs': FS, s: Path, d: Path) {
    forall q :: Get(fs', q) == if s != d && s <= q then None else OverlayAt(fs, s, d, q)
  }

  /** Nothing of the source is lost. */
  ghost predicate SourceThere(fs: FS, fs': FS, s: Path) {
    forall r :: Get(fs', s + r) == Get(fs, s + r)
  }

  /** All of the source is at the destination. */
  ghost predicate CopyThere(fs: FS, fs': FS, s: Path, d: Path) {
    forall r :: s + r in fs ==> Get(fs', d + r) == Get(fs, s + r)
  }

  /** Elsewhere nothing has changed but at places of `w`. */
  ghost predicate ElseKept(fs: FS, fs': FS, s: Path, d: Path, w: set<Path>) {
    forall q :: s <= q || d <= q || q in w || Get(fs', q) == Get(fs, q)
  }

  /** The subtree at `s` was laid over the one at `d` and is gone; files went through links to `w`. */
  ghost predicate LaidOver(fs: FS, fs': FS, s: Path, d: Path, w: set<Path>) {
    && (forall q :: q in w || Get(fs', q) == if s <= q then None else LaidAt(fs, s, d, q))
    && Landings(fs, fs', s, w)
  }

  /** The regular file at `s` is gone and where `d` led there is what it was, unless that was the file itself. */
  ghost predicate WrittenAway(fs: FS, fs': FS, s: Path, d: Path) {
    && IsFile(fs, s) && IsLink(fs, d) && Landing(fs, d).Some?
    && var w := Landing(fs, d).value;
       fs' == if w == s then fs - {s} else fs[w := fs[s]] - {s}
  }

  /** Where there was nothing below `d` the two kinds of move are one. */
  lemma OverBareIsMoved(fs: FS, fs': FS, s: Path, d: Path)
    requires Apart(s, d) && s in fs && Bare(fs, d)
    ensures MovedOver(fs, fs', s, d) <==> Moved(fs, fs', s, d)
  {
    forall q
      ensures MovedAt(fs, s, d, q) == if s <= q then None else OverlayAt(fs, s, d, q)
    {
      assert s <= q && d <= q ==> s <= d || d <= s;
      if d <= q && q in fs {
        assert q == d && s + q[|d|..] == s;
      }
    }
    if MovedOver(fs, fs', s, d) {
      forall q
        ensures Get(fs', q) == MovedAt(fs, s, d, q)
      {
        assert Get(fs', q) == if s <= q then None else OverlayAt(fs, s, d, q);
      }
    }
    if Moved(fs, fs', s, d) {
      forall q
        ensures Get(fs', q) == if s != d && s <= q then None else OverlayAt(fs, s, d, q)
      {
        assert Get(fs', q) == MovedAt(fs, s, d, q);
      }
    }
  }

  lemma AbsentIsBare(fs: FS, d: Path)
    requires Tree(fs) && d !in fs
    ensures Bare(fs, d)
  {
    forall q | d <= q
      ensures q !in fs
    {
      NothingBelow(fs, d, q);
    }
  }

  /** A move that is one step, or none. */
  lemma RenamedIsMoved(fs: FS, fs': FS, s: Path, d: Path)
    requires NotNested(s, d) && s in fs
    requires if s == d then fs' == fs else Bare(fs, d) && Moved(fs, fs', s, d)
    ensures MovedOver(fs, fs', s, d) && ElseKept(fs, fs', s, d, {}) && CopyThere(fs, fs', s, d)
  {
    if s == d {
      forall q
        ensures OverlayAt(fs, s, d, q) == Get(fs, q)
      {
        assert d <= q ==> s + q[|d|..] == q;
      }
    } else {
      OverBareIsMoved(fs, fs', s, d);
      forall r
        ensures Get(fs', d + r) == Get(fs, s + r)
      {
        assert Get(fs', d + r) == MovedAt(fs, s, d, d + r);
        assert (d + r)[|d|..] == r;
      }
    }
  }

  /** Until something is removed the source stays, unless it is written to. */
  lemma CopyKeepsSource(fs: FS, fs1: FS, s: Path, d: Path, w: set<Path>)
    requires Apart(s, d) && KeptBut(fs, fs1, d, w)
    ensures ElseKept(fs, fs1, s, d, w) && (Afar(w, s, d) ==> SourceThere(fs, fs1, s))
  {
    forall r | Afar(w, s, d)
      ensures Get(fs1, s + r) == Get(fs, s + r)
    {
      SourceKept(fs, fs1, s, d, w, r);
    }
  }

  lemma CopiedIsThere(fs: FS, fs1: FS, s: Path, d: Path)
    requires Copied(fs, fs1, s, d)
    ensures CopyThere(fs, fs1, s, d)
  {
    forall r | s + r in fs
      ensures Get(fs1, d + r) == Get(fs, s + r)
    {
      assert Get(fs1, d + r) == OverlayAt(fs, s, d, d + r);
      assert (d + r)[|d|..] == r;
    }
  }

  /** The node at the source is of the same kind after the copy, whatever was written through links. */
  lemma SourceNode(fs: FS, fs1: FS, s: Path, d: Path)
    requires s in fs && Apart(s, d) && Blurred(fs, fs1, d)
    ensures s in fs1 && (fs1[s].Dir? <==> fs[s].Dir?) && (IsFile(fs, s) ==> IsFile(fs1, s))
  {
    BlurredAt(fs, fs1, d, s);
  }

  /** A source that could be removed still can be once it has been copied. */
  lemma SourceRemovable(fs: FS, fs1: FS, s: Path, d: Path, src: string, max: nat)
    requires Apart(s, d)
    ensures Removable(fs, s, src, true, max) && OutsideKept(fs, fs1, d) ==> Removable(fs1, s, src, true, max)
  {
    if Removable(fs, s, src, true, max) && OutsideKept(fs, fs1, d) {
      CopyKeepsSource(fs, fs1, s, d, {});
      assert s + [] == s && Get(fs1, s + []) == Get(fs, s + []);
      forall r | r != [] && s + r in fs1
        ensures FitsAt(DirLength(src), r, max)
      {
        assert Get(fs1, s + r) == Get(fs, s + r);
      }
    }
  }

  /** Removing from the source does not touch the copy. */
  lemma CopySurvives(fs: FS, fs1: FS, fs2: FS, s: Path, d: Path)
    requires Apart(s, d) && Shrunk(fs1, fs2, s)
    ensures forall w :: ElseKept(fs, fs1, s, d, w) ==> ElseKept(fs, fs2, s, d, w)
    ensures CopyThere(fs, fs1, s, d) ==> CopyThere(fs, fs2, s, d)
  {
    forall q
      ensures s <= q || Get(fs2, q) == Get(fs1, q)
    {
      assert Get(fs2, q) == Get(fs1, q) || (s <= q && q !in fs2);
    }
    forall r
      ensures Get(fs2, d + r) == Get(fs1, d + r)
    {
      assert s <= d + r ==> s <= d || d <= s;
    }
  }

  lemma MoveDone(fs: FS, fs1: FS, fs2: FS, s: Path, d: Path)
    requires Apart(s, d) && Copied(fs, fs1, s, d) && Gone(fs1, fs2, s)
    ensures MovedOver(fs, fs2, s, d)
  {
    forall q
      ensures Get(fs2, q) == if s <= q then None else OverlayAt(fs, s, d, q)
    {
      assert Get(fs2, q) == if s <= q then None else Get(fs1, q);
      assert Get(fs1, q) == OverlayAt(fs, s, d, q);
    }
  }

  lemma LaidDone(fs: FS, fs1: FS, fs2: FS, s: Path, d: Path, w: set<Path>)
    requires Apart(s, d) && Laid(fs, fs1, s, d, w) && Landings(fs, fs1, s, w) && Afar(w, s, d) && Gone(fs1, fs2, s)
    ensures LaidOver(fs, fs2, s, d, w)
  {
    forall q
      ensures q in w || Get(fs2, q) == if s <= q then None else LaidAt(fs, s, d, q)
    {
      assert Get(fs2, q) == if s <= q then None else Get(fs1, q);
      assert q in w || Get(fs1, q) == LaidAt(fs, s, d, q);
    }
    forall q | q in w
      ensures HoldsFileOf(fs, fs2, s, q)
    {
      assert HoldsFileOf(fs, fs1, s, q);
      assert Get(fs2, q) == if s <= q then None else Get(fs1, q);
    }
  }

  lemma FileDone(fs: FS, fs1: FS, fs2: FS, s: Path, d: Path)
    requires Tree(fs1) && IsFile(fs1, s) && IsLink(fs, d) && Written(fs, fs1, s, d) && Gone(fs1, fs2, s)
    ensures WrittenAway(fs, fs2, s, d)
  {
    LeafGoneIsRemoved(fs1, fs2, s);
  }

  lemma LeafGoneIsRemoved(fs: FS, fs': FS, s: Path)
    requires Tree(fs) && s in fs && !fs[s].Dir? && Gone(fs, fs', s)
    ensures fs' == fs - {s}
  {
    forall q
      ensures Get(fs', q) == Get(fs - {s}, q)
    {
      assert Get(fs', q) == if s <= q then None else Get(fs, q);
      if s <= q && s != q {
        NothingBelow(fs, s, q);
      }
    }
    SameEverywhere(fs', fs - {s});
  }

  /** A link that was followed is at neither place once the source is gone. */
  lemma LinkLost(fs: FS, fs1: FS, fs2: FS, s: Path, d: Path)
    requires Apart(s, d) && Spoiled(fs, fs1, s, d) && Gone(fs1, fs2, s)
    ensures !SourceThere(fs, fs2, s) && !CopyThere(fs, fs2, s, d) && !Moved(fs, fs2, s, d)
  {
    var r :| SpoiledAt(fs, fs1, s, d, r);
    assert s <= s + r && Get(fs2, s + r) == None != Get(fs, s + r);
    assert s <= d + r ==> s <= d || d <= s;
    assert Get(fs2, d + r) == Get(fs1, d + r) != Get(fs, s + r);
    assert (d + r)[|d|..] == r && MovedAt(fs, s, d, d + r) == Get(fs, s + r);
  }

  // ---- the code ----

  /** Nothing but a failing call or a listing that shows a removed file stands in the way of a move, whether the
      two places are on one device or not. */
  ghost predicate Movable(k: Kernel, fs: FS, src: string, dst: string) {
    && Ready(k, fs, src, dst, true) && Removable(fs, k.At(src), src, true, k.maxPath)
    && (k.At(dst) in fs ==> MayReplace(fs, k.At(src), k.At(dst)))
  }

  /** What the link at `s` leads to is at `d`, and the link is gone. */
  ghost predicate FollowedAway(fs: FS, fs': FS, s: Path, d: Path) {
    exists t :: LeadsTo(fs, s, t) && FollowedAwayFrom(fs, fs', s, t, d)
  }

  ghost predicate FollowedAwayFrom(fs: FS, fs': FS, s: Path, t: Path, d: Path)
    requires t in fs
  {
    if fs[t].File? then fs' == fs[d := fs[t]] - {s} else d in fs' && fs'[d].Dir? && s !in fs'
  }

  /** What a move from `s` to `d` comes to, `ret` being its result; `followed` says that a link of the source
      was followed; `w` are the places of files that were written through links at the destination. */
  ghost predicate Outcome(fs: FS, fs': FS, s: Path, d: Path, ret: int, followed: bool, w: set<Path>) {
    // outside source and destination only files in `w` change
    && ElseKept(fs, fs', s, d, w)
    // without links nothing is lost, and success is a move
    && (!followed && w == {} ==> SourceThere(fs, fs', s) || CopyThere(fs, fs', s, d))
    && (!followed && w == {} && ret == 0 ==> s in fs && MovedOver(fs, fs', s, d))
    // where files went through links that lead elsewhere, success is a move but for those
    && (!followed && w != {} && Afar(w, s, d) && ret == 0 ==> LaidOver(fs, fs', s, d, w))
    // a regular file moved onto a link is where that leads; if it leads to the file itself it is nowhere
    && (IsFile(fs, s) && w != {} && ret == 0 ==> WrittenAway(fs, fs', s, d))
    // onto a free place success is a move if and only if no link was followed; if one was, the source is whole
    // at neither place
    && (d !in fs ==> w == {})
    && (d !in fs && ret == 0 ==> (Moved(fs, fs', s, d) <==> !followed))
    && (d !in fs && ret == 0 && followed ==> !SourceThere(fs, fs', s) && !CopyThere(fs, fs', s, d))
    && (d !in fs && ret == 0 && followed && IsLink(fs, s) ==> FollowedAway(fs, fs', s, d))
    // failing to move a file or link onto a free place leaves it where it was
    && (d !in fs && ret < 0 && !(s in fs && fs[s].Dir?) ==> SourceThere(fs, fs', s))
    // and so onto any place, unless it was written to; a regular file is so only if the destination leads to it
    && (ret < 0 && !(s in fs && fs[s].Dir?) && s !in w ==> Get(fs', s) == Get(fs, s))
    && (IsFile(fs, s) ==> w <= Through(fs, d))
    // what to look at beforehand
    && (NoLinks(fs, s) ==> !followed) && (NoLinks(fs, s) && NoLinkTarget(fs, s, d) ==> w == {})
  }

  /** What a caller can look at: whatever the outcome, a regular file is lost only if the destination leads to
      it, which `stat` of the destination tells.  Otherwise its contents and mode are at the source, if the move
      failed, or at the destination, or where the link there leads. */
  lemma FileIsLostOnlyOntoItself(fs: FS, fs': FS, s: Path, d: Path, ret: int, followed: bool, w: set<Path>)
    requires Tree(fs) && Apart(s, d) && IsFile(fs, s) && Outcome(fs, fs', s, d, ret, followed, w) && ret <= 0
    ensures Landing(fs, d) != Some(s) && ret < 0 ==> Get(fs', s) == Some(fs[s])
    ensures Landing(fs, d) != Some(s) && ret == 0 ==>
      (Get(fs', d) == Some(fs[s]) || (Landing(fs, d).Some? && Get(fs', Landing(fs, d).value) == Some(fs[s])))
    ensures Landing(fs, d) == Some(s) && ret == 0 ==> (w != {} <==> Get(fs', d) != Some(fs[s]))
    ensures Landing(fs, d) == Some(s) && ret == 0 && w != {} ==> fs' == fs - {s}
  {
    assert s + [] == s && d + [] == d;
    FileIsNoLink(fs, s);
    if w == {} && ret == 0 {
      assert Get(fs', d) == if s != d && s <= d then None else OverlayAt(fs, s, d, d);
      assert d[|d|..] == [];
    }
  }

  lemma FileIsNoLink(fs: FS, s: Path)
    requires Tree(fs) && IsFile(fs, s)
    ensures NoLinks(fs, s)
  {
    forall r
      ensures !IsLink(fs, s + r)
    {
      if r == [] {
        assert s + r == s;
      } else {
        NothingBelow(fs, s, s + r);
      }
    }
  }

  lemma NothingMoved(fs: FS, s: Path, d: Path, ret: int)
    requires ret < 0
    ensures Outcome(fs, fs, s, d, ret, false, {})
  {
  }

  lemma Renamed(fs: FS, fs': FS, s: Path, d: Path)
    requires NotNested(s, d) && s in fs && (if s == d then fs' == fs else Bare(fs, d) && Moved(fs, fs', s, d))
    ensures Outcome(fs, fs', s, d, 0, false, {})
  {
    RenamedIsMoved(fs, fs', s, d);
  }

  lemma NotCopied(fs: FS, fs1: FS, s: Path, d: Path, ret: int, followed: bool, w: set<Path>)
    requires ret < 0 && Apart(s, d) && CopyOutcome(fs, fs1, s, d, ret, followed, w)
    ensures Outcome(fs, fs1, s, d, ret, followed, w)
  {
    CopyKeepsSource(fs, fs1, s, d, w);
  }

  /** Moves `src` to `dst`.  The outcome is exact as long as no link has to be followed and no file goes through
      a link into the source or the destination.  When a link is followed, a move that reports success has
      lost it; when a regular file is moved between devices onto a link that leads to it, its contents are lost.
      No link of the source is followed if it has none, and none at the destination is written through if also
      none is in the way of a file.  Neither happens, and the move succeeds, if it is `Movable`, no call fails and
      no listing shows a removed file. */
  method MovePath(k: Kernel, src: string, dst: string) returns (ret: int)
    requires k.Valid() && Strings(src, dst) && NotNested(k.At(src), k.At(dst))
    modifies k
    ensures k.Valid() && k.failures >= old(k.failures) && k.stale <= old(k.stale) && ret <= 0
    ensures k.follows >= old(k.follows) && old(k.strays) <= k.strays
    ensures Outcome(old(k.fs), k.fs, k.At(src), k.At(dst), ret, k.follows > old(k.follows),
                    Since(k.strays, |old(k.strays)|))
    ensures Movable(k, old(k.fs), src, dst) ==>
      (ret == 0 && Straight(k, old(k.follows), |old(k.strays)|)) || k.failures > old(k.failures) ||
      k.stale < old(k.stale)
  {
    ghost var s, d, fs0 := k.At(src), k.At(dst), k.fs;
    SinceEnd(k.strays);
    ret := k.Rename(src, dst);
    if ret == 0 {
      Renamed(fs0, k.fs, s, d);
      return;
    }
    NothingMoved(fs0, s, d, ret);
    if ret != -EXDEV {
      return;
    }
    var st;
    ret, st := k.Lstat(src);
    if ret < 0 {
      NothingMoved(fs0, s, d, ret);
      return;
    }
    ret := CopyAndRemove(k, src, dst, st.node.Dir?);
  }

  /** The move between devices (fsutil.c:430-438). */
  method CopyAndRemove(k: Kernel, src: string, dst: string, isDir: bool) returns (ret: int)
    requires k.Valid() && Strings(src, dst) && Apart(k.At(src), k.At(dst))
    requires k.At(src) in k.fs && (k.fs[k.At(src)].Dir? <==> isDir)
    modifies k
    ensures k.Valid() && k.failures >= old(k.failures) && k.stale <= old(k.stale) && ret <= 0
    ensures k.follows >= old(k.follows) && old(k.strays) <= k.strays
    ensures Outcome(old(k.fs), k.fs, k.At(src), k.At(dst), ret, k.follows > old(k.follows),
                    Since(k.strays, |old(k.strays)|))
    ensures Ready(k, old(k.fs), src, dst, true) && Removable(old(k.fs), k.At(src), src, true, k.maxPath) ==>
      (ret == 0 && Straight(k, old(k.follows), |old(k.strays)|)) || k.failures > old(k.failures) ||
      k.stale < old(k.stale)
  {
    ghost var s, d, fs0, f0, t0 := k.At(src), k.At(dst), k.fs, k.follows, |k.strays|;
    ret := CopyPath(k, src, dst, true);
    ghost var fs1, followed, w := k.fs, k.follows > f0, Since(k.strays, t0);
    if ret < 0 {
      NotCopied(fs0, fs1, s, d, ret, followed, w);
      return;
    }
    SourceNode(fs0, fs1, s, d);
    SourceRemovable(fs0, fs1, s, d, src, k.maxPath);
    ret := RemoveSource(k, src, isDir);
    Concluded(fs0, fs1, k.fs, s, d, followed, w, ret);
  }

  /** The last step (fsutil.c:435-438). */
  method RemoveSource(k: Kernel, src: string, isDir: bool) returns (ret: int)
    requires k.Valid() && src != "" && '\0' !in src && k.At(src) in k.fs && (k.fs[k.At(src)].Dir? <==> isDir)
    modifies k
    ensures k.Valid() && k.failures >= old(k.failures) && k.stale <= old(k.stale) && ret <= 0
    ensures k.follows == old(k.follows) && k.strays == old(k.strays)
    ensures Shrunk(old(k.fs), k.fs, k.At(src)) && (ret == 0 ==> Gone(old(k.fs), k.fs, k.At(src)))
    ensures ret < 0 && !isDir ==> k.fs == old(k.fs)
    ensures Removable(old(k.fs), k.At(src), src, true, k.maxPath) ==>
      ret == 0 || k.failures > old(k.failures) || k.stale < old(k.stale)
  {
    if isDir {
      ret := RemovePath(k, src, true, false);
    } else {
      LeafIsGone(k.fs, k.At(src));
      ret := k.Unlink(src);
    }
  }

  /** Copy and removal together; `ret` is the result of the removal. */
  lemma Concluded(fs: FS, fs1: FS, fs2: FS, s: Path, d: Path, followed: bool, w: set<Path>, ret: int)
    requires Tree(fs) && Tree(fs1) && s in fs && s in fs1 && Apart(s, d)
    requires (fs1[s].Dir? <==> fs[s].Dir?) && (IsFile(fs, s) ==> IsFile(fs1, s))
    requires CopyOutcome(fs, fs1, s, d, 0, followed, w) && Shrunk(fs1, fs2, s) && ret <= 0
    requires ret == 0 ==> Gone(fs1, fs2, s)
    requires ret < 0 && !fs1[s].Dir? ==> fs2 == fs1
    ensures Outcome(fs, fs2, s, d, ret, followed, w)
  {
    CopySurvives(fs, fs1, fs2, s, d);
    CopyKeepsSource(fs, fs1, s, d, w);
    if !followed && Afar(w, s, d) {
      LaidConcluded(fs, fs1, fs2, s, d, w, ret);
    }
    if ret == 0 && IsFile(fs, s) && w != {} {
      assert IsLink(fs, d);
      FileDone(fs, fs1, fs2, s, d);
    }
    if ret == 0 && d !in fs {
      FreeConcluded(fs, fs1, fs2, s, d, followed);
    }
  }

  lemma LaidConcluded(fs: FS, fs1: FS, fs2: FS, s: Path, d: Path, w: set<Path>, ret: int)
    requires Apart(s, d) && Achieved(fs, fs1, s, d, w) && Afar(w, s, d) && Shrunk(fs1, fs2, s)
    requires ret == 0 ==> Gone(fs1, fs2, s)
    ensures w == {} ==> CopyThere(fs, fs2, s, d) && (ret == 0 ==> MovedOver(fs, fs2, s, d))
    ensures ret == 0 ==> LaidOver(fs, fs2, s, d, w)
  {
    CopySurvives(fs, fs1, fs2, s, d);
    if w == {} {
      CopiedIsThere(fs, fs1, s, d);
    }
    if ret == 0 {
      LaidDone(fs, fs1, fs2, s, d, w);
      if w == {} {
        MoveDone(fs, fs1, fs2, s, d);
      }
    }
  }

  lemma FreeConcluded(fs: FS, fs1: FS, fs2: FS, s: Path, d: Path, followed: bool)
    requires Tree(fs) && s in fs && Apart(s, d) && d !in fs
    requires CopyOutcome(fs, fs1, s, d, 0, followed, {}) && Gone(fs1, fs2, s)
    ensures Moved(fs, fs2, s, d) <==> !followed
    ensures followed ==> !SourceThere(fs, fs2, s) && !CopyThere(fs, fs2, s, d)
    ensures followed && IsLink(fs, s) ==> FollowedAway(fs, fs2, s, d)
  {
    AbsentIsBare(fs, d);
    OverBareIsMoved(fs, fs2, s, d);
    if followed {
      LinkLost(fs, fs1, fs2, s, d);
      if IsLink(fs, s) {
        FollowedIsAway(fs, fs1, fs2, s, d);
      }
    } else {
      MoveDone(fs, fs1, fs2, s, d);
    }
  }

  lemma FollowedIsAway(fs: FS, fs1: FS, fs2: FS, s: Path, d: Path)
    requires Tree(fs) && IsLink(fs, s) && Apart(s, d) && d !in fs && Followed(fs, fs1, s, d) && Gone(fs1, fs2, s)
    ensures FollowedAway(fs, fs2, s, d)
  {
    var t :| LeadsTo(fs, s, t) && FollowedTo(fs, fs1, t, d);
    assert Get(fs2, d) == Get(fs1, d) && Get(fs2, s) == None;
    if fs[t].File? {
      forall q
        ensures Get(fs2, q) == Get(fs[d := fs[t]] - {s}, q)
      {
        assert Get(fs2, q) == if s <= q then None else Get(fs1, q);
        if s <= q && s != q {
          NothingBelow(fs, s, q);
          assert q == d ==> s <= d;
        }
      }
      SameEverywhere(fs2, fs[d := fs[t]] - {s});
    }
  }

  lemma SameEverywhere(a: FS, b: FS)
    requires forall q :: Get(a, q) == Get(b, q)
    ensures a == b
  {
    forall q
      ensures q in a <==> q in b
      ensures q in a ==> a[q] == b[q]
    {
      assert Get(a, q) == Get(b, q);
    }
  }

  // ---- a link that is lost ----

  function LinkAndFile(): FS {
    map[[] := Dir(7), ["f"] := File("x", 6), ["l"] := Link("f")]
  }

  function FileTwice(): FS {
    map[[] := Dir(7), ["f"] := File("x", 6), ["m"] := File("x", 6)]
  }

  function LinkMoved(): FS {
    map[[] := Dir(7), ["f"] := File("x", 6), ["m"] := Link("f")]
  }

  /** Where moving the link `l` to the free place `m` means following it, success leaves a second file there
      and no link anywhere: `l` is at neither place.  Otherwise it leaves the link there. */
  method MoveOfLink(k: Kernel) returns (ret: int)
    requires k.Valid() && k.cwd == [] && k.fs == LinkAndFile()
    modifies k
    ensures ret == 0 ==> k.fs == if k.follows > old(k.follows) then FileTwice() else LinkMoved()
    ensures ret == 0 && k.follows > old(k.follows) ==>
      !SourceThere(LinkAndFile(), k.fs, ["l"]) && !CopyThere(LinkAndFile(), k.fs, ["l"], ["m"])
  {
    NameResolves([], "l");
    NameResolves([], "m");
    assert [] + ["l"] == ["l"] && [] + ["m"] == ["m"];
    ret := MovePath(k, "l", "m");
    OutcomeOfExample(k.fs, ret, k.follows > old(k.follows), Since(k.strays, |old(k.strays)|));
  }

  lemma OutcomeOfExample(fs': FS, ret: int, followed: bool, w: set<Path>)
    requires Outcome(LinkAndFile(), fs', ["l"], ["m"], ret, followed, w)
    ensures ret == 0 ==> fs' == if followed then FileTwice() else LinkMoved()
    ensures ret == 0 && followed ==>
      !SourceThere(LinkAndFile(), fs', ["l"]) && !CopyThere(LinkAndFile(), fs', ["l"], ["m"])
  {
    var fs, s: Path, d: Path := LinkAndFile(), ["l"], ["m"];
    assert d !in fs && IsLink(fs, s);
    if ret == 0 {
      if followed {
        LinkFollowed(fs');
      } else {
        OneLinkMoved(fs');
      }
    }
  }

  /** The bad outcome is one of those a move can come to. */
  lemma LinkCanBeLost()
    ensures Outcome(LinkAndFile(), FileTwice(), ["l"], ["m"], 0, true, {})
  {
    var fs, fs', s: Path, d: Path, f: Path := LinkAndFile(), FileTwice(), ["l"], ["m"], ["f"];
    assert s + [] == s && d + [] == d;
    assert IsLink(fs, s + []) && Get(fs', s + []) == None != Get(fs, s + []);
    assert Get(fs', d + []) != Get(fs, s + []);
    assert MovedAt(fs, s, d, d) == Get(fs, s) by {
      assert d[|d|..] == [];
    }
    NeighbourIsEnd(fs, s, "f");
    assert LeadsTo(fs, s, f) && fs' == fs[d := fs[f]] - {s};
    forall q
      ensures s <= q || d <= q || Get(fs', q) == Get(fs, q)
    {
    }
  }

  /** A link that names its neighbour leads there. */
  lemma NeighbourIsEnd(fs: FS, p: Path, n: string)
    requires IsLink(fs, p) && |p| == 1 && fs[p].target == n && IsName(p[0]) && !IsDot(p[0]) && IsName(n) && !IsDot(n)
    requires [n] in fs && !IsLink(fs, [n])
    ensures Landing(fs, p) == Some([n])
  {
    OneComponent(n);
    var names := [p[0]];
    assert Parent(p) == [] && names == [p[|p| - 1]] && [] + names == p && names[1..] == [];
    assert n[0] != '/' && n[|n| - 1] != '/';
    assert TargetNames(n) + [] == [n];
    assert [] + [n] == [n];
    assert Lookup(fs, [], [n], MAX_LINKS - 1) == Some([n]);
    assert Lookup(fs, [], names, MAX_LINKS) == Lookup(fs, [], TargetNames(n) + names[1..], MAX_LINKS - 1);
  }

  lemma LinkFollowed(fs': FS)
    requires FollowedAway(LinkAndFile(), fs', ["l"], ["m"])
    ensures fs' == FileTwice()
  {
    var fs, s: Path, d: Path, f: Path := LinkAndFile(), ["l"], ["m"], ["f"];
    var t :| LeadsTo(fs, s, t) && FollowedAwayFrom(fs, fs', s, t, d);
    assert Parent(s) + [fs[s].target] == f;
    assert t == f;
  }

  lemma OneLinkMoved(fs': FS)
    requires Moved(LinkAndFile(), fs', ["l"], ["m"])
    ensures fs' == LinkMoved()
  {
    var fs, s: Path, d: Path := LinkAndFile(), ["l"], ["m"];
    forall q
      ensures Get(fs', q) == Get(LinkMoved(), q)
    {
      assert Get(fs', q) == MovedAt(fs, s, d, q);
      if d <= q {
        assert q == d + q[|d|..];
        assert s + q[|d|..] in fs ==> |q| == 1;
        assert |q| == 1 ==> q == d && s + q[|d|..] == s;
      }
    }
    SameEverywhere(fs', LinkMoved());
  }

  // ---- a file that is lost ----

  function FileAndLink(): FS {
    map[[] := Dir(7), ["a"] := File("x", 6), ["m"] := Link("a")]
  }

  function FileMoved(): FS {
    map[[] := Dir(7), ["m"] := File("x", 6)]
  }

  function FileEmptied(): FS {
    map[[] := Dir(7), ["a"] := File("", 6), ["m"] := Link("a")]
  }

  function LinkAlone(): FS {
    map[[] := Dir(7), ["m"] := Link("a")]
  }

  /** `fs` has the file `a` at `s` and the link `m` to it at `d`. */
  ghost predicate IsExample(fs: FS, s: Path, d: Path) {
    fs == FileAndLink() && s == ["a"] && d == ["m"]
  }

  lemma LinkOfExample(fs: FS, s: Path, d: Path)
    requires IsExample(fs, s, d)
    ensures Tree(fs) && IsFile(fs, s) && IsLink(fs, d) && Landing(fs, d) == Some(s) && Writable(fs, d) && Apart(s, d)
  {
    NeighbourIsEnd(fs, d, "a");
  }

  lemma ExampleWritten(fs: FS, fs': FS, s: Path, d: Path)
    requires IsExample(fs, s, d) && Landing(fs, d) == Some(s) && Written(fs, fs', s, d)
    ensures fs' == FileEmptied()
  {
  }

  /** The paths of the example. */
  lemma ExamplePaths(k: Kernel)
    requires k.cwd == []
    ensures k.At("a") == ["a"] && k.At("m") == ["m"]
  {
    NameResolves([], "a");
    NameResolves([], "m");
    assert [] + ["a"] == ["a"] && [] + ["m"] == ["m"];
  }

  /** Copying the file `a` onto the link `m` to it empties `a` and succeeds, without any call failing. */
  method CopyOntoLink(k: Kernel) returns (ret: int)
    requires k.Valid() && k.cwd == [] && k.fs == FileAndLink()
    modifies k
    ensures ret == 0 ==> k.fs == FileEmptied()
    ensures k.failures == old(k.failures) ==> ret == 0
  {
    ghost var fs, s, d := k.fs, k.At("a"), k.At("m");
    ExamplePaths(k);
    LinkOfExample(fs, s, d);
    ret := CopyPath(k, "a", "m", false);
    if ret == 0 {
      ExampleWritten(fs, k.fs, s, d);
    }
  }

  /** Moving `a` there between devices succeeds too, and leaves the contents nowhere; within one device it
      replaces the link. */
  method MoveOntoLink(k: Kernel) returns (ret: int)
    requires k.Valid() && k.cwd == [] && k.fs == FileAndLink()
    modifies k
    ensures ret == 0 ==> k.fs == if |k.strays| > |old(k.strays)| then LinkAlone() else FileMoved()
  {
    ghost var fs, s, d, log := k.fs, k.At("a"), k.At("m"), k.strays;
    ExamplePaths(k);
    LinkOfExample(fs, s, d);
    ret := MovePath(k, "a", "m");
    SinceSome(log, k.strays);
    if ret == 0 {
      OutcomeOntoLink(fs, k.fs, s, d, k.follows > old(k.follows), Since(k.strays, |log|));
    }
  }

  lemma SinceSome(log: seq<Path>, log': seq<Path>)
    requires log <= log'
    ensures Since(log', |log|) != {} <==> |log'| > |log|
  {
    if |log'| > |log| {
      assert log'[|log|] in Since(log', |log|);
    }
  }

  lemma OutcomeOntoLink(fs: FS, fs': FS, s: Path, d: Path, followed: bool, w: set<Path>)
    requires IsExample(fs, s, d) && Outcome(fs, fs', s, d, 0, followed, w)
    ensures fs' == if w != {} then LinkAlone() else FileMoved()
  {
    LinkOfExample(fs, s, d);
    if w != {} {
      assert fs' == fs - {s};
    } else {
      FileIsNoLink(fs, s);
      FileReplacesLink(fs, fs', s, d);
    }
  }

  /** A file laid over a link. */
  lemma FileReplacesLink(fs: FS, fs': FS, s: Path, d: Path)
    requires Tree(fs) && IsFile(fs, s) && IsLink(fs, d) && Apart(s, d) && MovedOver(fs, fs', s, d)
    ensures fs' == fs[d := fs[s]] - {s}
  {
    forall q
      ensures Get(fs', q) == Get(fs[d := fs[s]] - {s}, q)
    {
      assert Get(fs', q) == if s != d && s <= q then None else OverlayAt(fs, s, d, q);
      LeafOverLeaf(fs, s, d, q);
    }
    SameEverywhere(fs', fs[d := fs[s]] - {s});
  }

  lemma LeafOverLeaf(fs: FS, s: Path, d: Path, q: Path)
    requires Tree(fs) && IsFile(fs, s) && IsLink(fs, d)
    ensures OverlayAt(fs, s, d, q) == Get(fs[d := fs[s]], q)
    ensures s <= q && s != q ==> q !in fs
  {
    if s <= q && s != q {
      NothingBelow(fs, s, q);
    }
    if d <= q {
      if q == d {
        assert s + q[|d|..] == s;
      } else {
        NothingBelow(fs, s, s + q[|d|..]);
      }
    }
  }

  /** Nothing forbids it: with no link in the source, the file is at neither place. */
  lemma FileCanBeLost()
    ensures var fs, s, d := FileAndLink(), ["a"], ["m"];
      && NoLinks(fs, s) && Outcome(fs, LinkAlone(), s, d, 0, false, {s})
      && !SourceThere(fs, LinkAlone(), s) && !CopyThere(fs, LinkAlone(), s, d)
  {
    var fs, s: Path, d: Path := FileAndLink(), ["a"], ["m"];
    LinkOfExample(fs, s, d);
    assert LinkAlone() == fs - {s};
    FileLostOntoItself(fs, fs - {s}, s, d);
  }

  /** What a move between devices comes to when the destination leads to the file itself. */
  lemma FileLostOntoItself(fs: FS, fs': FS, s: Path, d: Path)
    requires Tree(fs) && IsFile(fs, s) && IsLink(fs, d) && Landing(fs, d) == Some(s) && Apart(s, d) && fs' == fs - {s}
    ensures NoLinks(fs, s) && Outcome(fs, fs', s, d, 0, false, {s})
    ensures !SourceThere(fs, fs', s) && !CopyThere(fs, fs', s, d)
  {
    FileIsNoLink(fs, s);
    assert s + [] == s && d + [] == d;
    assert Get(fs', s + []) == None != Get(fs, s + []) && Get(fs', d + []) != Get(fs, s + []);
    assert !Afar({s}, s, d);
    assert IsFile(fs, s + []) && IsLink(fs, d + []);
    assert !NoLinkTarget(fs, s, d);
    forall q
      ensures s <= q || d <= q || Get(fs', q) == Get(fs, q)
    {
    }
  }
}
