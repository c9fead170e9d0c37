/** `fsutil_remove_path` (lib/fsutil.c:330-416). */
module Remove {
  import opened Wrappers
  import opened Paths
  import opened FileTree

  const EINVAL: int := 22
  const EISDIR: int := 21

  /** From `fs` to `fs'` nothing happened but that places at or below `p` went away. */
  ghost predicate Shrunk(fs: FS, fs': FS, p: Path) {
    forall q :: Get(fs', q) == Get(fs, q) || (p <= q && q !in fs')
  }

  /** Exactly the subtree at `p` is gone. */
  ghost predicate Gone(fs: FS, fs': FS, p: Path) {
    forall q :: Get(fs', q) == if p <= q then None else Get(fs, q)
  }

  /** The length of the names of `s` with a slash before each. */
  function Spell(s: Path): nat {
    if s == [] then 0 else |s[0]| + 1 + Spell(s[1..])
  }

  /** Every path that a walk below `p`, spelt with `len` characters, builds fits a buffer of `max`. */
  ghost predicate Fits(fs: FS, p: Path, len: nat, max: nat) {
    forall s :: s != [] && p + s in fs ==> FitsAt(len, s, max)
  }

  predicate FitsAt(len: nat, s: Path, max: nat) {
    len + Spell(s) + 1 <= max
  }

  /** What the code itself asks for before it removes `path`, which names `p`. */
  ghost predicate Removable(fs: FS, p: Path, path: string, recursive: bool, max: nat) {
    && p in fs && p != [] && Named(path, max)
    && (recursive || !fs[p].Dir?) && Fits(fs, p, DirLength(path), max)
  }

  /** The last name of `path` fits a buffer of `max`, and is neither `.` nor `..`. */
  predicate Named(path: string, max: nat) {
    |Basename(path)| + 1 <= max && !IsDot(Basename(path))
  }

  /** The code for a path that it refuses to remove because of its last name, or because it is a directory. */
  function Refusal(path: string, max: nat): int {
    if |Basename(path)| + 1 > max then -ENAMETOOLONG else if IsDot(Basename(path)) then -EINVAL else -EISDIR
  }

  /** Whatever has gone from `fs` to `fs'` below `p` could be spelt. */
  ghost predicate GoneFits(fs: FS, fs': FS, p: Path, len: nat, max: nat) {
    forall s :: s != [] && p + s in fs && p + s !in fs' ==> FitsAt(len, s, max)
  }

  lemma SpellChild(n: string, s: Path)
    ensures Spell([n] + s) == |n| + 1 + Spell(s)
  {
    assert ([n] + s)[1..] == s;
  }

  lemma FitsChild(fs: FS, p: Path, len: nat, max: nat, n: string, len': nat)
    requires Fits(fs, p, len, max) && len' == len + 1 + |n|
    ensures Fits(fs, p + [n], len', max)
    ensures p + [n] in fs ==> len' + 1 <= max
  {
    forall s | s != [] && p + [n] + s in fs
      ensures FitsAt(len', s, max)
    {
      assert p + [n] + s == p + ([n] + s);
      SpellChild(n, s);
      assert FitsAt(len, [n] + s, max);
    }
    if p + [n] in fs {
      SpellChild(n, []);
      assert [n] + [] == [n] && FitsAt(len, [n], max);
    }
  }

  /** What goes with a child that could be spelt. */
  lemma ChildGoneFits(fs: FS, fs': FS, p: Path, len: nat, max: nat, n: string, len': nat)
    requires Shrunk(fs, fs', p + [n]) && len' == len + 1 + |n| && len' + 1 <= max
    requires fs' == fs || Fits(fs, p + [n], len', max)
    ensures GoneFits(fs, fs', p, len, max)
  {
    forall s | s != [] && p + s in fs && p + s !in fs'
      ensures FitsAt(len, s, max)
    {
      assert Get(fs', p + s) != Get(fs, p + s) && p + [n] <= p + s;
      var t := s[1..];
      assert s[0] == (p + s)[|p|] == n && s == [n] + t;
      SpellChild(n, t);
      assert p + s == p + [n] + t;
      assert t != [] ==> FitsAt(len', t, max);
    }
  }

  lemma GoneFitsTrans(a: FS, b: FS, c: FS, p: Path, len: nat, max: nat)
    requires GoneFits(a, b, p, len, max) && GoneFits(b, c, p, len, max) && Shrunk(a, b, p)
    ensures GoneFits(a, c, p, len, max)
  {
    forall s | s != [] && p + s in a && p + s !in c
      ensures FitsAt(len, s, max)
    {
      assert p + s in b || p + s !in b;
    }
  }

  lemma AllGoneFits(fs: FS, fs': FS, p: Path, len: nat, max: nat)
    requires Tree(fs') && p in fs' && ChildNames(fs', p) == {} && GoneFits(fs, fs', p, len, max)
    ensures Fits(fs, p, len, max)
  {
    ChildlessIsBare(fs', p);
    forall s | s != [] && p + s in fs
      ensures FitsAt(len, s, max)
    {
      assert p + s != p;
    }
  }

  lemma ShrunkTrans(a: FS, b: FS, c: FS, p: Path, r: Path)
    requires Shrunk(a, b, p) && Shrunk(b, c, r) && p <= r
    ensures Shrunk(a, c, p)
  {
    forall q
      ensures Get(c, q) == Get(a, q) || (p <= q && q !in c)
    {
      assert Get(c, q) == Get(b, q) || (r <= q && q !in c);
      assert Get(b, q) == Get(a, q) || (p <= q && q !in b);
    }
  }

  lemma ShrunkFits(fs: FS, fs': FS, p: Path, len: nat, max: nat)
    requires Shrunk(fs, fs', p) && Fits(fs, p, len, max)
    ensures Fits(fs', p, len, max)
  {
    forall s | s != [] && p + s in fs'
      ensures FitsAt(len, s, max)
    {
      assert Get(fs', p + s) == Get(fs, p + s);
    }
  }

  lemma ShrunkCount(fs: FS, fs': FS, p: Path, r: Path)
    requires Shrunk(fs, fs', r)
    ensures |NodesUnder(fs', p)| <= |NodesUnder(fs, p)|
    ensures r in fs && r !in fs' && p <= r ==> |NodesUnder(fs', p)| < |NodesUnder(fs, p)|
  {
    var a, b := NodesUnder(fs', p), NodesUnder(fs, p);
    forall q | q in a
      ensures q in b
    {
      assert Get(fs', q) == Get(fs, q);
    }
    Smaller(a, b);
    if r in fs && r !in fs' && p <= r {
      assert r in b && a <= b - {r};
      Smaller(a, b - {r});
    }
  }

  /** One scan of the directory (fsutil.c:357-400): the path of its first child, if it has any.  An entry
      of a removed file counts too; the scan does not look at the inode number. */
  method FindChild(k: Kernel, path: string, child: array<char>) returns (ret: int, found: bool, ghost n: string)
    requires k.Valid() && '\0' !in path && k.At(path) in k.fs && k.fs[k.At(path)].Dir?
    modifies k`failures, k`stale, child
    ensures k.failures >= old(k.failures) && k.stale <= old(k.stale) && ret <= 0
    ensures ret == 0 && found ==> IsName(n) && !IsDot(n) && Text(child[..]) == Join(path, n)
    ensures ret == 0 && found ==> |Join(path, n)| + 1 <= child.Length
    ensures n == "" || n in ChildNames(k.fs, k.At(path)) || k.stale < old(k.stale)
    ensures ret == 0 && !found ==> ChildNames(k.fs, k.At(path)) == {}
    ensures ret < 0 && k.failures == old(k.failures) ==> n != "" && |Join(path, n)| + 1 > child.Length
  {
    n, found := "", false;
    var l;
    ret, l := k.OpenDir(path);
    if ret < 0 {
      return;
    }
    ghost var stale1 := k.stale;
    while true
      invariant l.pos <= |l.all| && k.failures >= old(k.failures) && k.stale == stale1
      invariant forall i :: 0 <= i < l.pos ==> IsDot(l.all[i].name)
      decreases |l.all| - l.pos
    {
      ghost var seen := l.pos;
      var nread, batch := k.Getdents(l);
      if nread < 0 {
        return nread, false, n;
      }
      if nread == 0 {
        break;
      }
      var bpos := 0;
      while bpos < nread
        invariant 0 <= bpos <= nread
        invariant forall i :: 0 <= i < seen + bpos ==> IsDot(l.all[i].name)
      {
        var de := batch[bpos];
        assert de == l.all[seen + bpos];
        if de.reclen == 0 {
          return -EIO, false, n;
        }
        if !IsDot(de.name) {
          n := de.name;
          assert l.all[seen + bpos].ino == 0 ==> HasStale(l.all);
          ret := JoinPath(child, path, de.name);
          return ret, ret == 0, n;
        }
        bpos := bpos + 1;
      }
    }
    OnlyDotsIsEmpty(k.fs, k.At(path), l.all);
    return 0, false, n;
  }

  lemma OnlyDotsIsEmpty(fs: FS, p: Path, l: seq<Dirent>)
    requires Tree(fs) && IsListing(ChildNames(fs, p), l) && forall i :: 0 <= i < |l| ==> IsDot(l[i].name)
    ensures ChildNames(fs, p) == {}
  {
    forall n | n in ChildNames(fs, p)
      ensures Lists(l, n) && !IsDot(n)
    {
      ChildIsNamed(fs, p, n);
    }
  }

  /** Removes a file, a link or, when `recursive`, a whole subtree.  Success leaves everything but that
      subtree as it was and nothing of it; on failure too nothing outside it is touched.  Where there is
      something, success means that it is `Removable`, and if it is only a failing system call or a listing that
      shows a removed file can make it fail.  It ends because listings show removed files only finitely often:
      removing one of those changes nothing, and `force` takes that for success, so that the directory is
      scanned again. */
  method RemovePath(k: Kernel, path: string, recursive: bool, force: bool) returns (ret: int)
    requires k.Valid() && path != "" && '\0' !in path
    modifies k
    ensures k.Valid() && k.failures >= old(k.failures) && k.stale <= old(k.stale) && ret <= 0
    ensures k.follows == old(k.follows) && k.strays == old(k.strays)
    ensures Shrunk(old(k.fs), k.fs, k.At(path))
    ensures k.At(path) !in old(k.fs) ==> k.fs == old(k.fs)
    ensures k.At(path) !in old(k.fs) && k.failures == old(k.failures) ==> ret == if force then 0 else -ENOENT
    ensures ret == 0 ==> Gone(old(k.fs), k.fs, k.At(path)) && (k.At(path) in old(k.fs) || force)
    ensures ret == 0 && k.At(path) in old(k.fs) ==> Removable(old(k.fs), k.At(path), path, recursive, k.maxPath)
    ensures Removable(old(k.fs), k.At(path), path, recursive, k.maxPath) ==>
      ret == 0 || k.failures > old(k.failures) || k.stale < old(k.stale)
    ensures k.At(path) in old(k.fs) && (!Named(path, k.maxPath) || (old(k.fs)[k.At(path)].Dir? && !recursive)) ==>
      ret < 0 && k.fs == old(k.fs) && (k.failures == old(k.failures) ==> ret == Refusal(path, k.maxPath))
    decreases k.stale, |NodesUnder(k.fs, k.At(path))|, 3
  {
    ghost var p, fs0 := k.At(path), k.fs;
    var st;
    ret, st := k.Lstat(path);
    if ret < 0 {
      if p !in k.fs {
        AbsentIsGone(k.fs, p);
      }
      return if force && ret == -ENOENT then 0 else ret;
    }
    var base := new char[k.maxPath];
    ret := CopyBasename(base, path);
    if ret < 0 {
      return;
    }
    if IsDot(Text(base[..])) {
      return -EINVAL;
    }
    if !st.node.Dir? {
      LeafIsGone(fs0, p);
      LeafFits(fs0, p, DirLength(path), k.maxPath);
      ret := k.Unlink(path);
      return if force && ret == -ENOENT then 0 else ret;
    }
    ret := RemoveDirectory(k, path, recursive, force);
  }

  /** A directory (fsutil.c:352-416). */
  method RemoveDirectory(k: Kernel, path: string, recursive: bool, force: bool) returns (ret: int)
    requires k.Valid() && path != "" && '\0' !in path && k.At(path) in k.fs && k.fs[k.At(path)].Dir?
    modifies k
    ensures k.Valid() && k.failures >= old(k.failures) && k.stale <= old(k.stale) && ret <= 0
    ensures k.follows == old(k.follows) && k.strays == old(k.strays)
    ensures Shrunk(old(k.fs), k.fs, k.At(path))
    ensures ret == 0 ==> Gone(old(k.fs), k.fs, k.At(path))
    ensures !recursive ==> ret == -EISDIR && k.fs == old(k.fs)
    ensures ret == 0 ==> k.At(path) != [] && Fits(old(k.fs), k.At(path), DirLength(path), k.maxPath)
    ensures recursive && k.At(path) != [] && Fits(old(k.fs), k.At(path), DirLength(path), k.maxPath) ==>
      ret == 0 || k.failures > old(k.failures) || k.stale < old(k.stale)
    decreases k.stale, |NodesUnder(k.fs, k.At(path))|, 2
  {
    if !recursive {
      return -EISDIR;
    }
    ghost var fs0 := k.fs;
    ret := RemoveChildren(k, path, force);
    if ret < 0 {
      return;
    }
    AllGoneFits(fs0, k.fs, k.At(path), DirLength(path), k.maxPath);
    EmptyIsGone(fs0, k.fs, k.At(path));
    ret := k.Unlink(path);
    return if force && ret == -ENOENT then 0 else ret;
  }

  /** The rescan loop (fsutil.c:356-412): afterwards the directory is empty. */
  method RemoveChildren(k: Kernel, path: string, force: bool) returns (ret: int)
    requires k.Valid() && path != "" && '\0' !in path && k.At(path) in k.fs && k.fs[k.At(path)].Dir?
    modifies k
    ensures k.Valid() && k.failures >= old(k.failures) && k.stale <= old(k.stale) && ret <= 0
    ensures k.follows == old(k.follows) && k.strays == old(k.strays)
    ensures Shrunk(old(k.fs), k.fs, k.At(path)) && k.At(path) in k.fs
    ensures ret == 0 ==> ChildNames(k.fs, k.At(path)) == {}
    ensures ret == 0 ==> GoneFits(old(k.fs), k.fs, k.At(path), DirLength(path), k.maxPath)
    ensures Fits(old(k.fs), k.At(path), DirLength(path), k.maxPath) ==>
      ret == 0 || k.failures > old(k.failures) || k.stale < old(k.stale)
    decreases k.stale, |NodesUnder(k.fs, k.At(path))|, 1
  {
    ghost var p, fs0 := k.At(path), k.fs;
    while true
      invariant k.Valid() && k.failures >= old(k.failures) && k.stale <= old(k.stale)
      invariant k.follows == old(k.follows) && k.strays == old(k.strays)
      invariant Shrunk(fs0, k.fs, p) && p in k.fs && k.fs[p].Dir?
      invariant GoneFits(fs0, k.fs, p, DirLength(path), k.maxPath)
      decreases k.stale, |NodesUnder(k.fs, p)|
    {
      ghost var fs1 := k.fs;
      ShrunkCount(fs0, fs1, p, p);
      var found;
      ret, found := RemoveChild(k, path, force, fs0);
      if ret < 0 {
        return;
      }
      GoneFitsTrans(fs0, fs1, k.fs, p, DirLength(path), k.maxPath);
      if !found {
        return;
      }
    }
  }

  /** One turn of the loop: a scan from the start, and the removal of what it finds. */
  method RemoveChild(k: Kernel, path: string, force: bool, ghost fs0: FS) returns (ret: int, found: bool)
    requires k.Valid() && path != "" && '\0' !in path && Shrunk(fs0, k.fs, k.At(path))
    requires k.At(path) in k.fs && k.fs[k.At(path)].Dir?
    modifies k
    ensures k.Valid() && k.failures >= old(k.failures) && k.stale <= old(k.stale) && ret <= 0
    ensures k.follows == old(k.follows) && k.strays == old(k.strays)
    ensures Shrunk(fs0, k.fs, k.At(path)) && k.At(path) in k.fs && k.fs[k.At(path)].Dir?
    ensures ret == 0 ==>
      if found then k.stale < old(k.stale) || |NodesUnder(k.fs, k.At(path))| < |NodesUnder(old(k.fs), k.At(path))|
      else ChildNames(k.fs, k.At(path)) == {}
    ensures ret == 0 ==> GoneFits(old(k.fs), k.fs, k.At(path), DirLength(path), k.maxPath)
    ensures Fits(fs0, k.At(path), DirLength(path), k.maxPath) ==>
      ret == 0 || k.failures > old(k.failures) || k.stale < old(k.stale)
    decreases k.stale, |NodesUnder(k.fs, k.At(path))|, 0
  {
    ghost var p, fs1 := k.At(path), k.fs;
    var child := new char[k.maxPath];
    ghost var n;
    ret, found, n := FindChild(k, path, child);
    if ret < 0 {
      if k.failures == old(k.failures) && k.stale == old(k.stale) {
        ChildFits(fs0, fs1, p, path, n, k.maxPath);
      }
      return;
    }
    if !found {
      return;
    }
    ChildReady(k.cwd, fs0, fs1, p, path, n, k.maxPath);
    var c := Text(child[..]);
    ret := RemovePath(k, c, true, force);
    ChildRemoved(fs0, fs1, k.fs, p, n);
    if ret == 0 {
      ChildGoneFits(fs1, k.fs, p, DirLength(path), k.maxPath, n, |c|);
    }
  }

  /** What is gone was below the directory; if all of the child is, there is less below it, or there was no such
      child. */
  lemma ChildRemoved(fs0: FS, fs1: FS, fs2: FS, p: Path, n: string)
    requires p in fs1 && fs1[p].Dir? && Shrunk(fs0, fs1, p) && Shrunk(fs1, fs2, p + [n])
    ensures Shrunk(fs0, fs2, p) && p in fs2 && fs2[p].Dir?
    ensures Gone(fs1, fs2, p + [n]) && p + [n] in fs1 ==> |NodesUnder(fs2, p)| < |NodesUnder(fs1, p)|
  {
    assert Get(fs2, p) == Get(fs1, p);
    ShrunkTrans(fs0, fs1, fs2, p, p + [n]);
    ShrunkCount(fs1, fs2, p, p + [n]);
    if Gone(fs1, fs2, p + [n]) {
      assert Get(fs2, p + [n]) == None;
    }
  }

  lemma ChildFits(fs0: FS, fs1: FS, p: Path, path: string, n: string, max: nat)
    requires Tree(fs1) && Shrunk(fs0, fs1, p) && n in ChildNames(fs1, p)
    ensures Fits(fs0, p, DirLength(path), max) ==> |Join(path, n)| + 1 <= max
  {
    if Fits(fs0, p, DirLength(path), max) {
      ShrunkFits(fs0, fs1, p, DirLength(path), max);
      ChildIsNamed(fs1, p, n);
      JoinLength(path, n);
      FitsChild(fs1, p, DirLength(path), max, n, |Join(path, n)|);
    }
  }

  /** The recursive call on child `n` stays inside the tree and its path fits if the parent's do. */
  lemma ChildReady(cwd: Path, fs0: FS, fs1: FS, p: Path, path: string, n: string, max: nat)
    requires Tree(fs1) && p == Resolve(cwd, path) && p in fs1 && path != "" && '\0' !in path
    requires Shrunk(fs0, fs1, p) && IsName(n) && !IsDot(n) && |Join(path, n)| + 1 <= max
    ensures var c := Join(path, n);
      && c != "" && '\0' !in c && Resolve(cwd, c) == p + [n] && p + [n] != []
      && Named(c, max) && (n in ChildNames(fs1, p) <==> p + [n] in fs1)
      && |NodesUnder(fs1, p + [n])| < |NodesUnder(fs1, p)| <= |NodesUnder(fs0, p)|
      && DirLength(c) == |c| == DirLength(path) + 1 + |n|
      && (Fits(fs0, p, DirLength(path), max) ==> Fits(fs1, p + [n], |c|, max))
  {
    NamesOf(fs1, p, n);
    JoinNamesChild(cwd, path, n);
    BasenameOfJoin(path, n);
    ChildCountsLess(fs1, p, n);
    ShrunkCount(fs0, fs1, p, p);
    JoinLength(path, n);
    if Fits(fs0, p, DirLength(path), max) {
      ShrunkFits(fs0, fs1, p, DirLength(path), max);
      FitsChild(fs1, p, DirLength(path), max, n, |Join(path, n)|);
    }
  }

  lemma AbsentIsGone(fs: FS, p: Path)
    requires Tree(fs) && p !in fs
    ensures Gone(fs, fs, p)
  {
    forall q
      ensures Get(fs, q) == if p <= q then None else Get(fs, q)
    {
      if p <= q { NothingBelow(fs, p, q); }
    }
  }

  lemma LeafIsGone(fs: FS, p: Path)
    requires Tree(fs) && p in fs && !fs[p].Dir?
    ensures Gone(fs, fs - {p}, p) && ChildNames(fs, p) == {}
  {
    forall q
      ensures Get(fs - {p}, q) == if p <= q then None else Get(fs, q)
    {
      if p <= q && p != q { NothingBelow(fs, p, q); }
    }
    forall n | n in ChildNames(fs, p)
      ensures false
    {
      NamesOf(fs, p, n);
      NothingBelow(fs, p, p + [n]);
    }
  }

  lemma EmptyIsGone(fs0: FS, fs1: FS, p: Path)
    requires Tree(fs1) && Shrunk(fs0, fs1, p) && p in fs1 && ChildNames(fs1, p) == {}
    ensures Gone(fs0, fs1 - {p}, p) && Shrunk(fs0, fs1 - {p}, p)
  {
    forall q
      ensures Get(fs1 - {p}, q) == if p <= q then None else Get(fs0, q)
    {
      assert Get(fs1, q) == Get(fs0, q) || (p <= q && q !in fs1);
      if p <= q && p != q && q in fs1 {
        UnderExists(fs1, p, q);
      }
    }
  }

  lemma LeafFits(fs: FS, p: Path, len: nat, max: nat)
    requires Tree(fs) && p in fs && !fs[p].Dir?
    ensures Fits(fs, p, len, max)
  {
    forall s | s != []
      ensures p + s !in fs
    {
      NothingBelow(fs, p, p + s);
    }
  }
}
