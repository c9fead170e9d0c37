/** `fsutil_copy_path` (lib/fsutil.c:124-328). */
module Copy {
  import opened Wrappers
  import opened Paths
  import opened FileTree
  import opened Remove
  import opened Overlay

  const COPY_BUFSZ: nat := 4096
  const ENOTDIR: int := 20

  /** The two paths of a call. */
  predicate Strings(src: string, dst: string) {
    src != "" && dst != "" && '\0' !in src && '\0' !in dst
  }

  /** Nothing but a failing call stands in the way of copying without a detour. */
  ghost predicate Ready(k: Kernel, fs: FS, src: string, dst: string, recursive: bool) {
    Copyable(fs, k.At(src), k.At(dst), DirLength(src), DirLength(dst), k.maxPath, recursive)
  }

  /** All places in the children `seen` suit. */
  ghost predicate ReadyBelow(k: Kernel, fs: FS, src: string, dst: string, seen: set<string>) {
    SeenSuit(fs, k.At(src), k.At(dst), DirLength(src), DirLength(dst), k.maxPath, seen)
  }

  /** No link has been followed, or written through, since there were `follows` and `strays` entries. */
  ghost predicate Straight(k: Kernel, follows: nat, strays: nat)
    reads k
  {
    k.follows == follows && |k.strays| == strays
  }

  // ---- regular files (fsutil.c:124-180) ----

  /** Copies the regular file that `st` describes, to which `src` leads.  It goes where `dst` leads, which the
      code does not look at: a destination that leads to the file itself is emptied before it is read, and then
      success is reported.  Only if `dst` names the file itself is that refused, and only if `lstat` works. */
  method CopyRegular(k: Kernel, src: string, dst: string, st: Stat) returns (ret: int)
    requires k.Valid() && Strings(src, dst)
    requires st.id in k.fs && k.fs[st.id].File? && st.node == k.fs[st.id]
    modifies k
    ensures k.Valid() && k.failures >= old(k.failures) && ret <= 0
    ensures k.follows == old(k.follows) && old(k.strays) <= k.strays && k.stale == old(k.stale)
    ensures Blurred(old(k.fs), k.fs, k.At(dst)) && (IsLink(k.fs, k.At(dst)) ==> IsLink(old(k.fs), k.At(dst)))
    ensures KeptBut(old(k.fs), k.fs, k.At(dst), Since(k.strays, |old(k.strays)|))
    ensures !IsLink(old(k.fs), k.At(dst)) ==> k.strays == old(k.strays)
    ensures Since(k.strays, |old(k.strays)|) <= Through(old(k.fs), k.At(dst))
    ensures ret == 0 ==> Written(old(k.fs), k.fs, st.id, k.At(dst)) && Writable(old(k.fs), k.At(dst))
    ensures ret == 0 ==> Since(k.strays, |old(k.strays)|) == Through(old(k.fs), k.At(dst))
    ensures ret == 0 && st.node.content != [] ==>
      (Get(k.fs, st.id) == Some(st.node) <==> Landing(old(k.fs), k.At(dst)) != Some(st.id))
    ensures k.failures == old(k.failures) && st.id == k.At(dst) ==> ret == -EINVAL && k.fs == old(k.fs)
    ensures k.failures == old(k.failures) && st.id != k.At(dst) && Writable(old(k.fs), k.At(dst)) ==> ret == 0
  {
    var dstSt;
    ret, dstSt := k.Lstat(dst);
    ghost var fs0, d, log := k.fs, k.At(dst), k.strays;
    ghost var w := d;
    if ret >= 0 && st.id == dstSt.id {
      ret := -EINVAL;
    } else {
      ret, w := Transfer(k, src, dst, st);
    }
    Conveyed(fs0, k.fs, st.id, d, log, k.strays, w, ret);
  }

  /** What became of the regular file at `t` when `w` was where the data went. */
  lemma Conveyed(fs: FS, fs': FS, t: Path, d: Path, log: seq<Path>, log': seq<Path>, w: Path, ret: int)
    requires IsFile(fs, t) && FileOnly(fs, fs', w)
    requires (ret < 0 && fs' == fs && log' == log) || Logged(fs, d, log, log', w)
    requires ret == 0 ==> fs' == fs[w := if t == w then fs[t].(content := []) else fs[t]]
    ensures log <= log' && (!IsLink(fs, d) ==> log' == log)
    ensures Blurred(fs, fs', d) && KeptBut(fs, fs', d, Since(log', |log|)) && (IsLink(fs', d) ==> IsLink(fs, d))
    ensures Since(log', |log|) <= Through(fs, d)
    ensures ret == 0 ==> Written(fs, fs', t, d) && Since(log', |log|) == Through(fs, d)
    ensures ret == 0 && fs[t].content != [] ==> (Get(fs', t) == Get(fs, t) <==> Landing(fs, d) != Some(t))
  {
    LoggedOne(log', |log|);
    OneFile(fs, fs', w, d, Since(log', |log|));
    if ret == 0 {
      WrittenKeeps(fs, fs', t, d);
    }
  }

  /** The file opened is where `d` leads, and is logged if that is a link. */
  ghost predicate Logged(fs: FS, d: Path, log: seq<Path>, log': seq<Path>, w: Path) {
    Landing(fs, d) == Some(w) && log' == log + if IsLink(fs, d) then [w] else []
  }

  lemma LoggedOne(log: seq<Path>, n: nat)
    ensures |log| == n + 1 ==> Since(log, n) == {log[n]}
    ensures |log| == n ==> Since(log, n) == {}
  {
  }

  /** The rest of it (fsutil.c:132-179); `w` is where the data goes. */
  method Transfer(k: Kernel, src: string, dst: string, st: Stat) returns (ret: int, ghost w: Path)
    requires k.Valid() && st.id in k.fs && k.fs[st.id].File? && st.node == k.fs[st.id]
    modifies k`fs, k`failures, k`strays
    ensures k.Valid() && k.failures >= old(k.failures) && ret <= 0 && FileOnly(old(k.fs), k.fs, w)
    ensures (ret < 0 && k.fs == old(k.fs) && k.strays == old(k.strays)) ||
      Logged(old(k.fs), k.At(dst), old(k.strays), k.strays, w)
    ensures ret == 0 ==> k.fs == old(k.fs)[w := if st.id == w then st.node.(content := []) else st.node]
    ensures ret == 0 ==> Writable(old(k.fs), k.At(dst))
    ensures ret < 0 ==> k.failures > old(k.failures) || !Writable(old(k.fs), k.At(dst))
  {
    ghost var fs0 := k.fs;
    w := k.At(dst);
    var sfd;
    ret, sfd := k.OpenRead(src, st.id);
    if ret < 0 {
      return;
    }
    var at;
    ret, at := k.OpenWrite(dst);
    if ret < 0 {
      return;
    }
    w := at;
    ret := Fill(k, sfd, dst, at, st, fs0);
  }

  /** The loops and the mode (fsutil.c:142-179): the emptied file at `w` gets the data. */
  method Fill(k: Kernel, sfd: Reader, dst: string, w: Path, st: Stat, ghost fs0: FS) returns (ret: int)
    requires k.Valid() && sfd.pos == 0 && sfd.place == st.id
    requires st.id in fs0 && fs0[st.id].File? && st.node == fs0[st.id]
    requires w in k.fs && k.fs[w].File? && OnlyFile(fs0, k.fs, w, File([], k.fs[w].mode))
    modifies k`fs, k`failures, sfd
    ensures k.Valid() && k.failures >= old(k.failures) && ret <= 0 && (ret < 0 ==> k.failures > old(k.failures))
    ensures w in k.fs && k.fs[w].File? && OnlyFile(fs0, k.fs, w, k.fs[w])
    ensures ret == 0 ==> k.fs[w] == if st.id == w then st.node.(content := []) else st.node
  {
    ret := CopyBytes(k, sfd, w, fs0, k.fs[w].mode);
    if ret == 0 {
      ghost var fs1 := k.fs;
      ret := k.Chmod(dst, w, st.node.mode);
      if ret >= 0 {
        RewriteOnce(fs0, fs1, k.fs, w);
        ret := 0;
      }
    }
  }

  /** All that differs is the file at `d`. */
  ghost predicate OnlyFile(fs: FS, fs': FS, d: Path, node: Node) {
    fs' == fs[d := node]
  }

  /** The read and write loops (fsutil.c:143-168).  A file that is its own destination has just been
      emptied, and nothing is read. */
  method CopyBytes(k: Kernel, sfd: Reader, w: Path, ghost fs0: FS, ghost mode: nat) returns (ret: int)
    requires k.Valid() && sfd.pos == 0 && sfd.place in fs0 && fs0[sfd.place].File?
    requires OnlyFile(fs0, k.fs, w, File([], mode))
    modifies k`fs, k`failures, sfd
    ensures k.Valid() && k.failures >= old(k.failures) && ret <= 0
    ensures w in k.fs && k.fs[w].File? && OnlyFile(fs0, k.fs, w, k.fs[w])
    ensures ret == 0 ==> k.fs[w] == File(if sfd.place == w then [] else fs0[sfd.place].content, mode)
    ensures ret < 0 ==> k.failures > old(k.failures)
  {
    var buf := new char[COPY_BUFSZ];
    ghost var data := fs0[sfd.place].content;
    while true
      invariant k.Valid() && k.failures >= old(k.failures)
      invariant if sfd.place == w then sfd.pos == 0 else sfd.pos <= |data|
      invariant OnlyFile(fs0, k.fs, w, File(data[..if sfd.place == w then 0 else sfd.pos], mode))
      decreases |data| - sfd.pos
    {
      ghost var done := sfd.pos;
      assert sfd.place != w ==> k.fs[sfd.place] == fs0[sfd.place];
      var n := k.Read(sfd, buf);
      if n < 0 {
        return n;
      }
      if n == 0 {
        return 0;
      }
      var piece := buf[..n];
      PieceRead(data, done, sfd.pos, piece);
      ret := WriteAll(k, piece, w, fs0, data[..done], mode);
      if ret < 0 {
        return;
      }
    }
  }

  lemma PieceRead(data: seq<char>, from: nat, to: nat, piece: seq<char>)
    requires from <= to <= |data| && piece == data[from..to]
    ensures data[..from] + piece == data[..to]
  {
  }

  /** The inner loop (fsutil.c:155-167): `write` may take less than it is offered. */
  method WriteAll(k: Kernel, piece: seq<char>, d: Path, ghost fs0: FS, ghost before: seq<char>, ghost mode: nat)
    returns (ret: int)
    requires k.Valid() && d in k.fs && OnlyFile(fs0, k.fs, d, File(before, mode))
    modifies k`fs, k`failures
    ensures k.Valid() && k.failures >= old(k.failures) && ret <= 0
    ensures d in k.fs && k.fs[d].File? && OnlyFile(fs0, k.fs, d, k.fs[d])
    ensures ret == 0 ==> k.fs[d] == File(before + piece, mode)
    ensures ret < 0 ==> k.failures > old(k.failures)
  {
    var off := 0;
    ghost var now := before;
    while off < |piece|
      invariant 0 <= off <= |piece| && k.Valid() && k.failures >= old(k.failures)
      invariant now == before + piece[..off] && d in k.fs && k.fs[d] == File(now, mode)
      invariant OnlyFile(fs0, k.fs, d, k.fs[d])
    {
      ghost var fs1 := k.fs;
      var w := k.Write(d, piece[off..]);
      RewriteOnce(fs0, fs1, k.fs, d);
      if w < 0 {
        return w;
      }
      if w == 0 {
        return -EIO;
      }
      PieceAdded(before, piece, off, w);
      now := now + piece[off..][..w];
      off := off + w;
    }
    return 0;
  }

  lemma PieceAdded(before: seq<char>, piece: seq<char>, off: nat, w: nat)
    requires off + w <= |piece|
    ensures before + piece[..off] + piece[off..][..w] == before + piece[..off + w]
  {
    assert piece[..off + w] == piece[..off] + piece[off..][..w];
  }

  lemma RewriteOnce(fs0: FS, fs1: FS, fs2: FS, d: Path)
    requires d in fs1 && OnlyFile(fs0, fs1, d, fs1[d]) && d in fs2 && fs2 == fs1[d := fs2[d]]
    ensures OnlyFile(fs0, fs2, d, fs2[d])
  {
    assert fs2 == fs0[d := fs2[d]];
  }

  // ---- symbolic links (fsutil.c:182-208) ----

  /** Copied onto itself a link is removed and made again; if that is refused it is lost. */
  method CopySymlink(k: Kernel, src: string, dst: string) returns (ret: int)
    requires k.Valid() && IsLink(k.fs, k.At(src))
    modifies k`fs, k`failures
    ensures k.Valid() && k.failures >= old(k.failures) && ret <= 0
    ensures ret == 0 ==> k.fs == old(k.fs)[k.At(dst) := old(k.fs)[k.At(src)]]
    ensures ret < 0 ==> k.fs == old(k.fs) || (k.At(dst) in old(k.fs) && k.fs == old(k.fs) - {k.At(dst)})
    ensures ret == 0 ==> LeafMeets(old(k.fs), k.At(src), k.At(dst))
    ensures ret == 0 ==> |old(k.fs)[k.At(src)].target| + 2 <= k.maxPath
    ensures k.failures == old(k.failures) && ret < 0 ==>
      k.fs == old(k.fs) &&
      !(LeafMeets(old(k.fs), k.At(src), k.At(dst)) && |old(k.fs)[k.At(src)].target| + 2 <= k.maxPath)
  {
    ghost var fs0 := k.fs;
    if k.At(dst) in fs0 && !fs0[k.At(dst)].Dir? {
      LeafCanGo(fs0, k.At(dst));
    }
    var target;
    ret, target := ReadTarget(k, src);
    if ret < 0 {
      return;
    }
    ret := ClearPlace(k, dst);
    if ret < 0 {
      return;
    }
    Replaced(fs0, k.fs, k.At(dst), fs0[k.At(src)]);
    ghost var fs1 := k.fs;
    ret := k.Symlink(target, dst);
    if ret == 0 {
      MadeIsVacant(fs1, k.fs, k.At(dst));
    }
  }

  /** A file or link at `dst` makes room (fsutil.c:193-205). */
  method ClearPlace(k: Kernel, dst: string) returns (ret: int)
    requires k.Valid()
    modifies k`fs, k`failures
    ensures k.Valid() && k.failures >= old(k.failures) && ret <= 0
    ensures k.fs == old(k.fs) || (ret == 0 && k.At(dst) in old(k.fs) && k.fs == old(k.fs) - {k.At(dst)})
    ensures k.failures == old(k.failures) && (Vacant(old(k.fs), k.At(dst)) || LeafAt(old(k.fs), k.At(dst))) ==>
      ret == 0 && Vacant(k.fs, k.At(dst))
    ensures ret == 0 && k.At(dst) in old(k.fs) ==> !old(k.fs)[k.At(dst)].Dir?
  {
    var dstSt;
    ret, dstSt := k.Lstat(dst);
    if ret >= 0 {
      if dstSt.node.Dir? {
        return -EISDIR;
      }
      ret := k.Unlink(dst);
    } else if ret == -ENOENT {
      ret := 0;
    }
  }

  /** A node that can be removed and made again. */
  ghost predicate LeafAt(fs: FS, q: Path) {
    q in fs && !fs[q].Dir? && q != [] && ChildNames(fs, q) == {} && PlaceOk(fs - {q}, q)
  }

  /** Where a node was made there was room for it. */
  lemma MadeIsVacant(fs: FS, fs': FS, d: Path)
    requires Tree(fs) && Tree(fs') && d !in fs && d in fs' && fs' == fs[d := fs'[d]]
    ensures Vacant(fs, d)
  {
    assert PlaceOk(fs', d);
    assert d != [] ==> Parent(d) in fs;
  }

  lemma LeafCanGo(fs: FS, s: Path)
    requires Tree(fs) && s in fs && !fs[s].Dir?
    ensures LeafAt(fs, s)
  {
    LeafIsGone(fs, s);
    assert PlaceOk(fs, s);
  }

  lemma Replaced(fs0: FS, fs1: FS, d: Path, node: Node)
    requires fs1 == fs0 || fs1 == fs0 - {d}
    ensures fs1[d := node] == fs0[d := node]
  {
  }

  lemma LinkPlaced(fs0: FS, fs1: FS, d: Path)
    requires fs1 == fs0 || fs1 == fs0 - {d} || (d in fs1 && fs1 == fs0[d := fs1[d]])
    ensures OutsideKept(fs0, fs1, d)
  {
  }

  /** The target of a link (fsutil.c:183-191). */
  method ReadTarget(k: Kernel, src: string) returns (ret: int, target: string)
    requires k.Valid() && IsLink(k.fs, k.At(src))
    modifies k`failures
    ensures k.failures >= old(k.failures)
    ensures ret >= 0 ==> target == k.fs[k.At(src)].target && |target| + 2 <= k.maxPath
    ensures ret < 0 && k.failures == old(k.failures) ==> |k.fs[k.At(src)].target| + 2 > k.maxPath
  {
    var buf := new char[k.maxPath];
    ret := k.Readlink(src, buf, k.maxPath - 1);
    if ret < 0 {
      return ret, "";
    }
    if ret >= k.maxPath - 1 {
      return -ENAMETOOLONG, "";
    }
    buf[ret] := '\0';
    ghost var t := k.fs[k.At(src)].target;
    assert buf[..ret] == t;
    TextIs(buf[..], t);
    target := Text(buf[..]);
  }

  // ---- directories (fsutil.c:210-286) ----

  /** The names of the children in a listing. */
  function NamesIn(l: seq<Dirent>): set<string> {
    if l == [] then {}
    else if !l[|l| - 1].Live() then NamesIn(l[..|l| - 1])
    else NamesIn(l[..|l| - 1]) + {l[|l| - 1].name}
  }

  lemma {:induction false} NamesAre(l: seq<Dirent>, n: string)
    ensures n in NamesIn(l) <==> exists i :: 0 <= i < |l| && l[i].Live() && l[i].name == n
  {
    if l != [] {
      var m := |l| - 1;
      NamesAre(l[..m], n);
      if n in NamesIn(l) && n !in NamesIn(l[..m]) {
        assert l[m].name == n;
      }
      forall i | 0 <= i < |l| && l[i].Live() && l[i].name == n
        ensures n in NamesIn(l)
      {
        assert i < m ==> l[..m][i] == l[i];
      }
    }
  }

  /** The children among the first `i` entries. */
  function Seen(l: seq<Dirent>, i: nat): set<string> {
    if i <= |l| then NamesIn(l[..i]) else {}
  }

  lemma AllListed(fs: FS, s: Path, l: seq<Dirent>)
    requires Tree(fs) && IsListing(ChildNames(fs, s), l)
    ensures Seen(l, |l|) == ChildNames(fs, s)
  {
    assert l[..|l|] == l;
    forall n: string
      ensures n in NamesIn(l) <==> n in ChildNames(fs, s)
    {
      NamesAre(l, n);
      if n in ChildNames(fs, s) {
        ChildIsNamed(fs, s, n);
        assert Lists(l, n);
      }
    }
  }

  /** The entry `de` turns the set of children seen into `seen'`. */
  ghost predicate Adds(names: set<string>, de: Dirent, seen: set<string>, seen': set<string>) {
    if !de.Live() then seen' == seen
    else IsName(de.name) && de.name in names && de.name !in seen && seen' == seen + {de.name}
  }

  /** `steps` are the sets of children seen before, between and after the entries of `batch`. */
  ghost predicate Steps(names: set<string>, batch: seq<Dirent>, steps: seq<set<string>>) {
    |steps| == |batch| + 1 && forall b :: 0 <= b < |batch| ==> Adds(names, batch[b], steps[b], steps[b + 1])
  }

  lemma BatchSteps(names: set<string>, l: seq<Dirent>, from: nat, to: nat) returns (steps: seq<set<string>>)
    requires IsListing(names, l) && from <= to <= |l|
    ensures Steps(names, l[from..to], steps) && steps[0] == Seen(l, from) && steps[to - from] == Seen(l, to)
  {
    steps := seq(to - from + 1, i requires 0 <= i <= to - from => Seen(l, from + i));
    forall b | 0 <= b < to - from
      ensures Adds(names, l[from..to][b], steps[b], steps[b + 1])
    {
      NextEntry(names, l, from + b);
    }
  }

  lemma NextEntry(names: set<string>, l: seq<Dirent>, i: nat)
    requires IsListing(names, l) && i < |l|
    ensures Adds(names, l[i], Seen(l, i), Seen(l, i + 1))
  {
    assert l[..i + 1][..i] == l[..i] && l[..i + 1][i] == l[i];
    NamesAre(l[..i], l[i].name);
  }

  /** The directory named `dst` is being filled from the one named `src`. */
  ghost predicate Walk(cwd: Path, fs0: FS, cur: FS, src: string, dst: string, seen: set<string>,
                       followed: bool, w: set<Path>) {
    Strings(src, dst) && Filling(fs0, cur, Resolve(cwd, src), Resolve(cwd, dst), seen, followed, w)
  }

  method CopyDirectory(k: Kernel, src: string, dst: string, st: Stat, recursive: bool) returns (ret: int)
    requires k.Valid() && Strings(src, dst) && NotNested(k.At(src), k.At(dst))
    requires k.At(src) in k.fs && k.fs[k.At(src)].Dir? && st == Stat(k.At(src), k.fs[k.At(src)])
    modifies k
    ensures k.Valid() && k.failures >= old(k.failures) && k.stale <= old(k.stale) && ret <= 0
    ensures k.follows >= old(k.follows) && old(k.strays) <= k.strays
    ensures DirOutcome(old(k.fs), k.fs, k.At(src), k.At(dst), ret, k.follows > old(k.follows),
                       Since(k.strays, |old(k.strays)|))
    ensures k.At(src) == k.At(dst) ==> ret < 0 && k.fs == old(k.fs)
    ensures DirRefused(old(k.fs), k.At(dst), recursive) ==> ret < 0 && k.fs == old(k.fs)
    ensures DirRefused(old(k.fs), k.At(dst), recursive) && k.failures == old(k.failures) ==>
      ret == if recursive then -ENOTDIR else -EISDIR
    ensures ret == 0 && Straight(k, old(k.follows), |old(k.strays)|) ==> Ready(k, old(k.fs), src, dst, recursive)
    ensures Ready(k, old(k.fs), src, dst, recursive) ==>
      (ret == 0 && Straight(k, old(k.follows), |old(k.strays)|)) || k.failures > old(k.failures)
    decreases |DirsUnder(k.fs, k.At(src))|, 5
  {
    if !recursive {
      return -EISDIR;
    }
    ghost var fs0 := k.fs;
    SinceEnd(k.strays);
    DirCopyable(fs0, k.At(src), k.At(dst), DirLength(src), DirLength(dst), k.maxPath);
    ret := EnterDirectory(k, dst, st);
    if ret < 0 {
      NothingFilled(fs0, k.At(src), k.At(dst), ret);
      return;
    }
    FillingBegins(fs0, k.fs, k.At(src), k.At(dst));
    ret := CopyChildren(k, src, dst, fs0, k.follows, |k.strays|);
  }

  /** A directory is not copied at all without `recursive`, nor onto something that is none. */
  predicate DirRefused(fs: FS, d: Path, recursive: bool) {
    !recursive || (d in fs && !fs[d].Dir?)
  }

  /** What copying a directory comes to, but for its own mode. */
  ghost predicate DirOutcome(fs: FS, fs': FS, s: Path, d: Path, ret: int, followed: bool, w: set<Path>) {
    && Held(fs, fs', s, d, followed, w)
    && (ret == 0 ==> d in fs' && fs'[d].Dir?)
    && (ret == 0 && !followed && Afar(w, s, d) ==> AchievedBelow(fs, fs', s, d, w))
    && (ret == 0 && followed && d !in fs ==> Spoiled(fs, fs', s, d))
  }

  lemma NothingFilled(fs: FS, s: Path, d: Path, ret: int)
    requires ret < 0
    ensures DirOutcome(fs, fs, s, d, ret, false, {})
  {
  }

  /** The destination is there or is made (fsutil.c:215-232); it is not the source. */
  method EnterDirectory(k: Kernel, dst: string, st: Stat) returns (ret: int)
    requires k.Valid() && st.id in k.fs
    modifies k`fs, k`failures
    ensures k.Valid() && k.failures >= old(k.failures) && ret <= 0
    ensures ret < 0 ==> k.fs == old(k.fs)
    ensures ret == 0 ==> st.id != k.At(dst) && Entered(old(k.fs), k.fs, k.At(dst))
    ensures ret == 0 && k.At(dst) !in old(k.fs) ==> Vacant(old(k.fs), k.At(dst))
    ensures Vacant(old(k.fs), k.At(dst)) ==> ret == 0 || k.failures > old(k.failures)
    ensures k.At(dst) in old(k.fs) && k.failures == old(k.failures) ==>
      ret == if !old(k.fs)[k.At(dst)].Dir? then -ENOTDIR else if st.id == k.At(dst) then -EINVAL else 0
  {
    ghost var fs0 := k.fs;
    var dstSt;
    ret, dstSt := k.Lstat(dst);
    if ret >= 0 {
      if !dstSt.node.Dir? {
        return -ENOTDIR;
      }
      if st.id == dstSt.id {
        return -EINVAL;
      }
      return 0;
    }
    if ret == -ENOENT {
      ret := k.Mkdir(dst);
      if ret == 0 {
        MadeIsVacant(fs0, k.fs, k.At(dst));
      }
    }
  }

  /** There is a directory at `d`, new or as it was. */
  ghost predicate Entered(fs: FS, cur: FS, d: Path) {
    d in cur && cur[d].Dir? && if d in fs then cur == fs else cur == fs[d := cur[d]]
  }

  lemma FillingBegins(fs: FS, cur: FS, s: Path, d: Path)
    requires Tree(fs) && Apart(s, d) && s in fs && fs[s].Dir? && Entered(fs, cur, d)
    ensures Filling(fs, cur, s, d, {}, false, {})
  {
  }

  /** The listing loops (fsutil.c:234-281). */
  method CopyChildren(k: Kernel, src: string, dst: string, ghost fs0: FS, ghost f0: nat, ghost t0: nat)
    returns (ret: int)
    requires k.Valid() && Walk(k.cwd, fs0, k.fs, src, dst, {}, false, {}) && Straight(k, f0, t0)
    modifies k
    ensures k.Valid() && k.failures >= old(k.failures) && k.stale <= old(k.stale) && ret <= 0
    ensures k.follows >= f0 && |k.strays| >= t0 && old(k.strays) <= k.strays
    ensures DirOutcome(fs0, k.fs, k.At(src), k.At(dst), ret, k.follows > f0, Since(k.strays, t0))
    ensures ret == 0 && Straight(k, f0, t0) ==> ReadyBelow(k, fs0, src, dst, ChildNames(fs0, k.At(src)))
    ensures Ready(k, fs0, src, dst, true) ==>
      (ret == 0 && Straight(k, f0, t0)) || k.failures > old(k.failures)
    decreases |DirsUnder(fs0, k.At(src))|, 4
  {
    ghost var s, d := k.At(src), k.At(dst);
    SinceEnd(k.strays);
    SourceKept(fs0, k.fs, s, d, {}, []);
    assert s + [] == s;
    ChildNamesKept(fs0, k.fs, s, d);
    var l;
    ret, l := k.OpenDir(src);
    if ret < 0 {
      return;
    }
    assert Seen(l.all, 0) == {};
    ret := CopyListing(k, src, dst, l, fs0, f0, t0);
    if ret == 0 {
      AllListed(fs0, s, l.all);
      WalkDone(fs0, k.fs, s, d, Seen(l.all, |l.all|), k.follows > f0, Since(k.strays, t0));
    }
  }

  /** The loop over the batches (fsutil.c:243-281). */
  method CopyListing(k: Kernel, src: string, dst: string, l: Listing, ghost fs0: FS, ghost f0: nat, ghost t0: nat)
    returns (ret: int)
    requires k.Valid() && Walk(k.cwd, fs0, k.fs, src, dst, Seen(l.all, 0), false, {}) && Straight(k, f0, t0)
    requires l.pos == 0 && IsListing(ChildNames(fs0, k.At(src)), l.all)
    modifies k, l
    ensures k.Valid() && k.failures >= old(k.failures) && k.stale <= old(k.stale) && ret <= 0
    ensures k.follows >= f0 && |k.strays| >= t0 && old(k.strays) <= k.strays
    ensures Held(fs0, k.fs, k.At(src), k.At(dst), k.follows > f0, Since(k.strays, t0))
    ensures ret == 0 ==> Walk(k.cwd, fs0, k.fs, src, dst, Seen(l.all, |l.all|), k.follows > f0, Since(k.strays, t0))
    ensures ret == 0 && Straight(k, f0, t0) ==> ReadyBelow(k, fs0, src, dst, Seen(l.all, |l.all|))
    ensures Ready(k, fs0, src, dst, true) ==>
      (ret == 0 && Straight(k, f0, t0)) || k.failures > old(k.failures)
    decreases |DirsUnder(fs0, k.At(src))|, 3
  {
    ghost var names := ChildNames(fs0, k.At(src));
    SinceEnd(k.strays);
    while true
      invariant k.Valid() && k.failures >= old(k.failures) && k.stale <= old(k.stale)
      invariant k.follows >= f0 && |k.strays| >= t0 && old(k.strays) <= k.strays && l.pos <= |l.all|
      invariant Walk(k.cwd, fs0, k.fs, src, dst, Seen(l.all, l.pos), k.follows > f0, Since(k.strays, t0))
      invariant Straight(k, f0, t0) ==> ReadyBelow(k, fs0, src, dst, Seen(l.all, l.pos))
      invariant Ready(k, fs0, src, dst, true) ==>
        Straight(k, f0, t0) || k.failures > old(k.failures)
      decreases |l.all| - l.pos
    {
      ghost var from := l.pos;
      var nread, batch := k.Getdents(l);
      if nread < 0 {
        return nread;
      }
      if nread == 0 {
        return 0;
      }
      ghost var steps := BatchSteps(names, l.all, from, l.pos);
      ret := CopyBatch(k, src, dst, batch, fs0, f0, t0, steps);
      if ret < 0 {
        return;
      }
    }
  }

  /** The loop over one batch of entries (fsutil.c:252-280). */
  method CopyBatch(k: Kernel, src: string, dst: string, batch: seq<Dirent>, ghost fs0: FS, ghost f0: nat, ghost t0: nat,
                   ghost steps: seq<set<string>>)
    returns (ret: int)
    requires k.Valid() && k.follows >= f0 && |k.strays| >= t0 && Steps(ChildNames(fs0, k.At(src)), batch, steps)
    requires Walk(k.cwd, fs0, k.fs, src, dst, steps[0], k.follows > f0, Since(k.strays, t0))
    requires Straight(k, f0, t0) ==> ReadyBelow(k, fs0, src, dst, steps[0])
    modifies k
    ensures k.Valid() && k.failures >= old(k.failures) && k.stale <= old(k.stale) && ret <= 0
    ensures k.follows >= f0 && |k.strays| >= t0 && old(k.strays) <= k.strays
    ensures Held(fs0, k.fs, k.At(src), k.At(dst), k.follows > f0, Since(k.strays, t0))
    ensures ret == 0 ==> Walk(k.cwd, fs0, k.fs, src, dst, steps[|batch|], k.follows > f0, Since(k.strays, t0))
    ensures ret == 0 && Straight(k, f0, t0) ==> ReadyBelow(k, fs0, src, dst, steps[|batch|])
    ensures old(Straight(k, f0, t0)) && Sound(batch) ==>
      Ready(k, fs0, src, dst, true) ==>
      (ret == 0 && Straight(k, f0, t0)) || k.failures > old(k.failures)
    decreases |DirsUnder(fs0, k.At(src))|, 2
  {
    var bpos := 0;
    while bpos < |batch|
      invariant 0 <= bpos <= |batch| && k.Valid() && k.failures >= old(k.failures) && k.stale <= old(k.stale)
      invariant k.follows >= f0 && |k.strays| >= t0 && old(k.strays) <= k.strays
      invariant Walk(k.cwd, fs0, k.fs, src, dst, steps[bpos], k.follows > f0, Since(k.strays, t0))
      invariant Straight(k, f0, t0) ==> ReadyBelow(k, fs0, src, dst, steps[bpos])
      invariant Ready(k, fs0, src, dst, true) && old(Straight(k, f0, t0)) ==>
        Straight(k, f0, t0) || k.failures > old(k.failures)
    {
      var de := batch[bpos];
      if de.reclen == 0 {
        return -EIO;
      }
      ret := CopyEntry(k, src, dst, de, fs0, f0, t0, steps[bpos], steps[bpos + 1]);
      if ret < 0 {
        return;
      }
      bpos := bpos + 1;
    }
    return 0;
  }

  lemma ChildNamesKept(fs: FS, cur: FS, s: Path, d: Path)
    requires OutsideKept(fs, cur, d) && Apart(s, d)
    ensures ChildNames(cur, s) == ChildNames(fs, s)
  {
    forall n: string
      ensures n in ChildNames(cur, s) <==> n in ChildNames(fs, s)
    {
      NamesOf(cur, s, n);
      NamesOf(fs, s, n);
      SourceKept(fs, cur, s, d, {}, [n]);
    }
  }

  /** One entry (fsutil.c:259-277); that of a removed file is passed over. */
  method CopyEntry(k: Kernel, src: string, dst: string, de: Dirent, ghost fs0: FS, ghost f0: nat, ghost t0: nat,
                   ghost seen: set<string>, ghost seen': set<string>)
    returns (ret: int)
    requires k.Valid() && k.follows >= f0 && |k.strays| >= t0 && Adds(ChildNames(fs0, k.At(src)), de, seen, seen')
    requires Walk(k.cwd, fs0, k.fs, src, dst, seen, k.follows > f0, Since(k.strays, t0))
    requires Straight(k, f0, t0) ==> ReadyBelow(k, fs0, src, dst, seen)
    modifies k
    ensures k.Valid() && k.failures >= old(k.failures) && k.stale <= old(k.stale) && ret <= 0
    ensures k.follows >= f0 && |k.strays| >= t0 && old(k.strays) <= k.strays
    ensures Held(fs0, k.fs, k.At(src), k.At(dst), k.follows > f0, Since(k.strays, t0))
    ensures ret == 0 ==> Walk(k.cwd, fs0, k.fs, src, dst, seen', k.follows > f0, Since(k.strays, t0))
    ensures ret == 0 && Straight(k, f0, t0) ==> ReadyBelow(k, fs0, src, dst, seen')
    ensures Ready(k, fs0, src, dst, true) && old(Straight(k, f0, t0)) ==>
      (ret == 0 && Straight(k, f0, t0)) || k.failures > old(k.failures)
    decreases |DirsUnder(fs0, k.At(src))|, 1
  {
    if de.ino == 0 || IsDot(de.name) {
      return 0;
    }
    ret := CopyChild(k, src, dst, de.name, fs0, f0, t0, seen);
  }

  /** The entry of a child (fsutil.c:260-276). */
  method CopyChild(k: Kernel, src: string, dst: string, name: string, ghost fs0: FS, ghost f0: nat, ghost t0: nat,
                   ghost seen: set<string>)
    returns (ret: int)
    requires k.Valid() && k.follows >= f0 && |k.strays| >= t0
    requires IsName(name) && name in ChildNames(fs0, k.At(src)) && name !in seen
    requires Walk(k.cwd, fs0, k.fs, src, dst, seen, k.follows > f0, Since(k.strays, t0))
    requires Straight(k, f0, t0) ==> ReadyBelow(k, fs0, src, dst, seen)
    modifies k
    ensures k.Valid() && k.failures >= old(k.failures) && k.stale <= old(k.stale) && ret <= 0
    ensures k.follows >= f0 && |k.strays| >= t0 && old(k.strays) <= k.strays
    ensures Held(fs0, k.fs, k.At(src), k.At(dst), k.follows > f0, Since(k.strays, t0))
    ensures ret == 0 ==> Walk(k.cwd, fs0, k.fs, src, dst, seen + {name}, k.follows > f0, Since(k.strays, t0))
    ensures ret == 0 && Straight(k, f0, t0) ==> ReadyBelow(k, fs0, src, dst, seen + {name})
    ensures Ready(k, fs0, src, dst, true) && old(Straight(k, f0, t0)) ==>
      (ret == 0 && Straight(k, f0, t0)) || k.failures > old(k.failures)
    decreases |DirsUnder(fs0, k.At(src))|, 0
  {
    ghost var s, d, fs1, f1, log := k.At(src), k.At(dst), k.fs, k.follows, k.strays;
    ghost var w0 := Since(log, t0);
    EntryReady(k.cwd, fs0, fs1, s, d, name, src, dst);
    ghost var slen, dlen := DirLength(src), DirLength(dst);
    ghost var slen', dlen' := DirLength(Join(src, name)), DirLength(Join(dst, name));
    EntryLengths(name, src, dst, k.maxPath);
    EntryCopyable(fs0, fs1, s, d, seen, name, slen, dlen, slen', dlen', k.maxPath, f1 > f0, w0);
    SinceNone(log, t0);
    var srcChild, dstChild;
    ret, srcChild, dstChild := JoinBoth(src, dst, name, k.maxPath);
    if ret < 0 {
      return;
    }
    ret := CopyPath(k, srcChild, dstChild, true);
    ghost var w := Since(k.strays, |log|);
    SinceTrans(log, k.strays, t0);
    EntryDone(fs0, fs1, k.fs, s, d, seen, name, f1 > f0, w0, k.follows > f1, w, ret);
    if ret == 0 && Straight(k, f0, t0) {
      ChildSuited(fs0, fs1, s, d, seen, w0, name, slen, dlen, slen', dlen', k.maxPath);
    }
  }

  lemma SinceNone(log: seq<Path>, n: nat)
    ensures |log| == n ==> Since(log, n) == {}
  {
  }

  lemma EntryDone(fs: FS, cur: FS, cur': FS, s: Path, d: Path, seen: set<string>, n: string,
                  followed0: bool, w0: set<Path>, followed: bool, w: set<Path>, ret: int)
    requires Filling(fs, cur, s, d, seen, followed0, w0) && n !in seen && s + [n] != d + [n]
    requires CopyOutcome(cur, cur', s + [n], d + [n], ret, followed, w)
    ensures Held(fs, cur', s, d, followed0 || followed, w0 + w)
    ensures ret == 0 ==> Filling(fs, cur', s, d, seen + {n}, followed0 || followed, w0 + w)
  {
    ChildHeld(fs, cur, cur', s, d, seen, n, followed0, w0, followed, w);
    if ret == 0 {
      ChildDone(fs, cur, cur', s, d, seen, n, followed0, w0, followed, w);
    }
  }

  /** The paths of the child in its two buffers (fsutil.c:260-272). */
  method JoinBoth(src: string, dst: string, name: string, max: nat)
    returns (ret: int, srcChild: string, dstChild: string)
    requires Strings(src, dst) && IsName(name)
    ensures ret <= 0 && (ret == 0 <==> |Join(src, name)| + 1 <= max && |Join(dst, name)| + 1 <= max)
    ensures ret == 0 ==> srcChild == Join(src, name) && dstChild == Join(dst, name)
  {
    srcChild, dstChild := "", "";
    var srcBuf := new char[max];
    var dstBuf := new char[max];
    ret := JoinPath(srcBuf, src, name);
    if ret < 0 {
      return;
    }
    ret := JoinPath(dstBuf, dst, name);
    if ret < 0 {
      return;
    }
    srcChild, dstChild := Text(srcBuf[..]), Text(dstBuf[..]);
  }

  lemma EntryReady(cwd: Path, fs0: FS, fs1: FS, s: Path, d: Path, n: string, src: string, dst: string)
    requires Tree(fs0) && Blurred(fs0, fs1, d) && Apart(s, d) && s in fs0 && fs0[s].Dir? && n in ChildNames(fs0, s)
    requires Strings(src, dst) && s == Resolve(cwd, src) && d == Resolve(cwd, dst)
    ensures var sj, dj := Join(src, n), Join(dst, n);
      && IsName(n) && Strings(sj, dj) && Resolve(cwd, sj) == s + [n] && Resolve(cwd, dj) == d + [n]
      && Apart(s + [n], d + [n]) && |DirsUnder(fs1, s + [n])| < |DirsUnder(fs0, s)|
  {
    ChildIsNamed(fs0, s, n);
    JoinNamesChild(cwd, src, n);
    JoinNamesChild(cwd, dst, n);
    ChildrenApart(s, d, n);
    ChildHasFewerDirs(fs0, fs1, s, d, n);
  }

  /** The paths of the child in the buffers. */
  ghost predicate EntryFits(n: string, src: string, dst: string, max: nat) {
    && |Join(src, n)| + 1 <= max && |Join(dst, n)| + 1 <= max
    && BothFit(n, DirLength(src), DirLength(dst), DirLength(Join(src, n)), DirLength(Join(dst, n)), max)
  }

  lemma EntryLengths(n: string, src: string, dst: string, max: nat)
    requires IsName(n)
    ensures DirLength(Join(src, n)) == DirLength(src) + 1 + |n| && DirLength(Join(dst, n)) == DirLength(dst) + 1 + |n|
    ensures EntryFits(n, src, dst, max) <==> |Join(src, n)| + 1 <= max && |Join(dst, n)| + 1 <= max
    ensures EntryFits(n, src, dst, max) <==>
      BothFit(n, DirLength(src), DirLength(dst), DirLength(Join(src, n)), DirLength(Join(dst, n)), max)
  {
    JoinLength(src, n);
    JoinLength(dst, n);
  }

  lemma EntryCopyable(fs0: FS, fs1: FS, s: Path, d: Path, seen: set<string>, n: string, slen: nat, dlen: nat,
                      slen': nat, dlen': nat, max: nat, followed: bool, w: set<Path>)
    requires Filling(fs0, fs1, s, d, seen, followed, w) && n !in seen && n in ChildNames(fs0, s)
    requires slen' == slen + 1 + |n| && dlen' == dlen + 1 + |n|
    ensures Copyable(fs0, s, d, slen, dlen, max, true) && w == {} ==>
      Copyable(fs1, s + [n], d + [n], slen', dlen', max, true) && BothFit(n, slen, dlen, slen', dlen', max)
  {
    if Copyable(fs0, s, d, slen, dlen, max, true) && w == {} {
      ChildCopyable(fs0, fs1, s, d, seen, w, n, slen, dlen, slen', dlen', max);
    }
  }

  // ---- the whole (fsutil.c:288-328) ----

  /** Instead of the link at `s` what it leads to was copied: the same regular file, or a directory. */
  ghost predicate FollowedFrom(fs: FS, fs': FS, s: Path, d: Path) {
    exists t :: LeadsTo(fs, s, t) && FollowedTo(fs, fs', t, d)
  }

  ghost predicate FollowedTo(fs: FS, fs': FS, t: Path, d: Path)
    requires t in fs
  {
    if fs[t].File? then Written(fs, fs', t, d) else d in fs' && fs'[d].Dir?
  }

  /** The same when what was at `d` may have been removed before. */
  ghost predicate Followed(fs: FS, fs': FS, s: Path, d: Path) {
    FollowedFrom(fs, fs', s, d) || (d in fs && FollowedFrom(fs - {d}, fs', s, d))
  }

  /** A link whose target fits its buffer has been made again. */
  ghost predicate Unchanged(fs: FS, fs': FS, s: Path, ret: int, max: nat) {
    IsLink(fs, s) && |fs[s].target| + 2 <= max ==> ret == 0 && fs' == fs
  }

  /** What a copy from `s` to `d` comes to, `ret` being its result. */
  ghost predicate CopyOutcome(fs: FS, fs': FS, s: Path, d: Path, ret: int, followed: bool, w: set<Path>) {
    && Held(fs, fs', s, d, followed, w)
    && (ret == 0 ==> s in fs)
    && (ret == 0 && !followed && s != d && Afar(w, s, d) ==> Achieved(fs, fs', s, d, w))
    && (ret == 0 && IsFile(fs, s) ==> !followed && Written(fs, fs', s, d) && w == Through(fs, d))
    && (IsFile(fs, s) ==> w <= Through(fs, d))
    && (ret == 0 && followed && d !in fs ==> Spoiled(fs, fs', s, d))
    && (ret == 0 && followed && IsLink(fs, s) ==> Followed(fs, fs', s, d) && (IsLink(fs', d) ==> IsLink(fs, d)))
  }

  /** Copies a file, a link or, when `recursive`, a whole subtree.  As long as no link of the source has to be
      followed and no file goes through a link into the source or the destination, success lays the source
      exactly over the destination, contents, link targets and modes of files and directories alike, but that
      a file at whose destination there is a link goes where that leads; nothing else changes.  A regular file
      is described exactly wherever it goes.  Links are not involved if the source has none and none is in
      the way of a file; nor if no call fails, the place is vacant and paths and links fit their buffers, and
      then the copy succeeds. */
  method CopyPath(k: Kernel, src: string, dst: string, recursive: bool) returns (ret: int)
    requires k.Valid() && Strings(src, dst) && NotNested(k.At(src), k.At(dst))
    modifies k
    ensures k.Valid() && k.failures >= old(k.failures) && k.stale <= old(k.stale) && ret <= 0
    ensures k.follows >= old(k.follows) && old(k.strays) <= k.strays
    ensures CopyOutcome(old(k.fs), k.fs, k.At(src), k.At(dst), ret, k.follows > old(k.follows),
                 Since(k.strays, |old(k.strays)|))
    ensures k.At(src) == k.At(dst) && k.failures == old(k.failures) ==>
      if IsLink(old(k.fs), k.At(src)) then Unchanged(old(k.fs), k.fs, k.At(src), ret, k.maxPath)
      else ret < 0 && k.fs == old(k.fs)
    ensures IsFile(old(k.fs), k.At(src)) && k.At(src) != k.At(dst) && Writable(old(k.fs), k.At(dst)) ==>
      ret == 0 || k.failures > old(k.failures)
    ensures k.At(src) !in old(k.fs) ==> ret < 0 && k.fs == old(k.fs)
    ensures k.At(src) !in old(k.fs) && k.failures == old(k.failures) ==> ret == -ENOENT
    ensures IsDir(old(k.fs), k.At(src)) && DirRefused(old(k.fs), k.At(dst), recursive) ==>
      ret < 0 && k.fs == old(k.fs) &&
      (k.failures == old(k.failures) ==> ret == if recursive then -ENOTDIR else -EISDIR)
    ensures Ready(k, old(k.fs), src, dst, recursive) ==>
      (ret == 0 && Straight(k, old(k.follows), |old(k.strays)|)) || k.failures > old(k.failures)
    ensures ret == 0 && Straight(k, old(k.follows), |old(k.strays)|) && k.At(src) != k.At(dst) ==>
      Ready(k, old(k.fs), src, dst, recursive)
    ensures LeadsToFile(old(k.fs), k.At(src), k.At(dst)) ==> ret == 0 || k.failures > old(k.failures)
    decreases |DirsUnder(k.fs, k.At(src))|, 6
  {
    ghost var s, d, fs0 := k.At(src), k.At(dst), k.fs;
    var st;
    ret, st := k.Lstat(src);
    if ret < 0 {
      return;
    }
    SinceEnd(k.strays);
    if st.node.File? {
      NoLinkAtRoot(fs0, s, d);
      FileMeets(fs0, s, d);
      LeafCopyable(fs0, s, d, DirLength(src), DirLength(dst), k.maxPath, recursive);
      ret := CopyRegular(k, src, dst, st);
      if ret == 0 && s != d && Afar(Through(fs0, d), s, d) {
        FileAchieved(fs0, k.fs, s, d);
      }
      return;
    }
    if st.node.Link? {
      ret := CopyLink(k, src, dst, recursive);
      return;
    }
    ret := CopyDirectory(k, src, dst, st, recursive);
    if ret == 0 {
      ghost var cur := k.fs;
      ret := k.Chmod(dst, k.At(dst), st.node.mode);
      ModeSet(fs0, cur, k.fs, s, d, k.follows > old(k.follows), Since(k.strays, |old(k.strays)|), ret);
      if ret > 0 {
        ret := 0;
      }
    }
  }

  predicate IsDir(fs: FS, q: Path) {
    q in fs && fs[q].Dir?
  }

  lemma NoLinkAtRoot(fs: FS, s: Path, d: Path)
    requires s in fs
    ensures fs[s].File? && NoLinkTarget(fs, s, d) ==> !IsLink(fs, d)
    ensures NoLinks(fs, s) ==> !IsLink(fs, s)
  {
    assert s + [] == s && d + [] == d;
    assert NoLinks(fs, s) ==> !IsLink(fs, s + []);
  }

  /** A link (fsutil.c:297-314): if it cannot be copied as one, for whatever reason, what it leads to is. */
  method CopyLink(k: Kernel, src: string, dst: string, recursive: bool) returns (ret: int)
    requires k.Valid() && Strings(src, dst) && NotNested(k.At(src), k.At(dst)) && IsLink(k.fs, k.At(src))
    modifies k
    ensures k.Valid() && k.failures >= old(k.failures) && k.stale <= old(k.stale) && ret <= 0
    ensures k.follows >= old(k.follows) && old(k.strays) <= k.strays
    ensures CopyOutcome(old(k.fs), k.fs, k.At(src), k.At(dst), ret, k.follows > old(k.follows),
                        Since(k.strays, |old(k.strays)|))
    ensures k.At(src) == k.At(dst) && k.failures == old(k.failures) ==>
      Unchanged(old(k.fs), k.fs, k.At(src), ret, k.maxPath)
    ensures Ready(k, old(k.fs), src, dst, recursive) ==>
      (ret == 0 && Straight(k, old(k.follows), |old(k.strays)|)) || k.failures > old(k.failures)
    ensures ret == 0 && Straight(k, old(k.follows), |old(k.strays)|) && k.At(src) != k.At(dst) ==>
      Ready(k, old(k.fs), src, dst, recursive)
    ensures LeadsToFile(old(k.fs), k.At(src), k.At(dst)) ==> ret == 0 || k.failures > old(k.failures)
  {
    ghost var s, d, fs0, log := k.At(src), k.At(dst), k.fs, k.strays;
    LinkAtRoot(fs0, s);
    LeafCopyable(fs0, s, d, DirLength(src), DirLength(dst), k.maxPath, recursive);
    SinceEnd(log);
    ret := CopySymlink(k, src, dst);
    ghost var fs1 := k.fs;
    LinkPlaced(fs0, fs1, d);
    KeptIsBlurred(fs0, fs1, d);
    if ret == 0 {
      LinkAchieved(fs0, s, d);
      return;
    }
    LinkStillThere(fs0, fs1, s, d);
    ret := FollowLink(k, src, dst, recursive, ret);
    FollowHeld(fs0, fs1, k.fs, s, d, ret, Since(k.strays, |log|));
  }

  /** What the fallback makes of the whole. */
  lemma FollowHeld(fs0: FS, fs1: FS, fs2: FS, s: Path, d: Path, ret: int, w: set<Path>)
    requires IsLink(fs0, s) && (fs1 == fs0 || (d in fs0 && fs1 == fs0 - {d}))
    requires Blurred(fs0, fs1, d) && OutsideKept(fs0, fs1, d)
    requires Blurred(fs1, fs2, d) && KeptBut(fs1, fs2, d, w) && (d !in fs1 ==> w == {})
    requires ret == 0 ==> FollowedFrom(fs1, fs2, s, d) && (IsLink(fs2, d) ==> IsLink(fs1, d))
    ensures CopyOutcome(fs0, fs2, s, d, ret, true, w)
    ensures ret < 0 ==> CopyOutcome(fs0, fs2, s, d, ret, false, w)
  {
    LinkAtRoot(fs0, s);
    BlurTrans(fs0, fs1, fs2, d, d);
    KeptTrans(fs0, fs1, fs2, d, d, {}, w);
    assert {} + w == w;
    if ret == 0 && d !in fs0 {
      assert s + [] == s && d + [] == d;
      assert SpoiledAt(fs0, fs2, s, d, []);
    }
  }

  /** The link at `s` leads to a regular file that can be copied to `d`. */
  ghost predicate LeadsToFile(fs: FS, s: Path, d: Path) {
    exists t :: LeadsTo(fs, s, t) && fs[t].File? && t != d && Writable(fs, d)
  }

  /** The fallback (fsutil.c:302-314); `err` is why the link was not copied. */
  method FollowLink(k: Kernel, src: string, dst: string, recursive: bool, err: int) returns (ret: int)
    requires k.Valid() && Strings(src, dst) && err < 0 && (k.At(src) in k.fs ==> IsLink(k.fs, k.At(src)))
    modifies k
    ensures k.Valid() && k.failures >= old(k.failures) && k.stale <= old(k.stale) && ret <= 0
    ensures k.follows >= old(k.follows) && old(k.strays) <= k.strays
    ensures Blurred(old(k.fs), k.fs, k.At(dst))
    ensures KeptBut(old(k.fs), k.fs, k.At(dst), Since(k.strays, |old(k.strays)|))
    ensures k.At(dst) !in old(k.fs) ==> k.strays == old(k.strays)
    ensures ret == 0 ==> k.follows > old(k.follows)
    ensures ret == 0 ==> FollowedFrom(old(k.fs), k.fs, k.At(src), k.At(dst))
    ensures ret == 0 && IsLink(k.fs, k.At(dst)) ==> IsLink(old(k.fs), k.At(dst))
    ensures LeadsToFile(old(k.fs), k.At(src), k.At(dst)) ==> ret == 0 || k.failures > old(k.failures)
  {
    ghost var fs1 := k.fs;
    SinceEnd(k.strays);
    var follow, st := k.StatTarget(src);
    if follow < 0 {
      KeptIsBlurred(fs1, fs1, k.At(dst));
      return err;
    }
    if st.node.File? {
      ret := CopyRegular(k, src, dst, st);
    } else {
      ret := CopyThroughLink(k, dst, recursive);
    }
    if ret == 0 {
      assert LeadsTo(fs1, k.At(src), st.id) && FollowedTo(fs1, k.fs, st.id, k.At(dst));
    }
  }

  lemma LinkAtRoot(fs: FS, s: Path)
    requires IsLink(fs, s)
    ensures !NoLinks(fs, s)
  {
    assert s + [] == s;
    assert IsLink(fs, s + []);
  }

  lemma LinkStillThere(fs0: FS, fs1: FS, s: Path, d: Path)
    requires IsLink(fs0, s) && (fs1 == fs0 || fs1 == fs0 - {d})
    ensures s in fs1 ==> IsLink(fs1, s)
  {
  }

  /** `fsutil_copy_directory` on a link to a directory.  What it does at and below `dst` is left open, and so
      is its result; it writes elsewhere only through links it finds at a destination that existed. */
  method CopyThroughLink(k: Kernel, dst: string, recursive: bool) returns (ret: int)
    requires k.Valid()
    modifies k
    ensures k.Valid() && k.failures >= old(k.failures) && k.stale <= old(k.stale) && ret <= 0
    ensures k.follows >= old(k.follows) && old(k.strays) <= k.strays
    ensures Blurred(old(k.fs), k.fs, k.At(dst))
    ensures KeptBut(old(k.fs), k.fs, k.At(dst), Since(k.strays, |old(k.strays)|))
    ensures k.At(dst) !in old(k.fs) ==> k.strays == old(k.strays)
    ensures ret == 0 ==> k.At(dst) in k.fs && k.fs[k.At(dst)].Dir?
    ensures !recursive ==> ret == -EISDIR && k.fs == old(k.fs)
  {
    SinceEnd(k.strays);
    if !recursive {
      return -EISDIR;
    }
    var d, log := k.At(dst), k.strays;
    var fs': FS, failures: nat, follows: nat, more: seq<Path> := *, *, *, *;
    ret := *;
    if k.Allows(d, fs', Since(more, 0)) && (d in k.fs || more == []) && ret <= 0 &&
      (ret == 0 ==> d in fs' && fs'[d].Dir?) {
      AllowedIsKept(k.fs, fs', d, Since(more, 0));
      SinceAppended(log, more);
      k.fs, k.failures, k.follows := fs', k.failures + failures, k.follows + follows;
      k.strays := log + more;
    } else {
      ret := -1;
      KeptIsBlurred(k.fs, k.fs, d);
    }
  }

  lemma SinceAppended(log: seq<Path>, more: seq<Path>)
    ensures Since(log + more, |log|) == Since(more, 0)
  {
    forall q
      ensures q in Since(log + more, |log|) <==> q in Since(more, 0)
    {
      if q in Since(more, 0) {
        var i :| 0 <= i < |more| && more[i] == q;
        assert (log + more)[|log| + i] == q;
      }
      if q in Since(log + more, |log|) {
        var i :| |log| <= i < |log + more| && (log + more)[i] == q;
        assert more[i - |log|] == q;
      }
    }
  }

  lemma AllowedIsKept(fs: FS, fs': FS, d: Path, w: set<Path>)
    requires forall q :: q in fs.Keys + fs'.Keys ==> d <= q || q in w || Get(fs', q) == Get(fs, q)
    ensures KeptBut(fs, fs', d, w)
  {
  }
}
