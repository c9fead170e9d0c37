/** A file system without hard links as the set of places that exist, and the operations the system
    offers lib/fsutil.c on it.  Every call may fail for reasons of its own. */
module FileTree {
  import opened Wrappers
  import opened Paths

  /** `mode` holds the permission bits; the type is the constructor. */
  datatype Node = File(content: seq<char>, mode: nat) | Link(target: string) | Dir(mode: nat)

  type FS = map<Path, Node>

  function Get(fs: FS, q: Path): Option<Node> {
    if q in fs then Some(fs[q]) else None
  }

  function Parent(q: Path): Path
    requires q != []
  {
    q[..|q| - 1]
  }

  predicate PlaceOk(fs: FS, q: Path) {
    q == [] || (Parent(q) in fs && fs[Parent(q)].Dir? && IsName(q[|q| - 1]) && !IsDot(q[|q| - 1]))
  }

  /** The root is a directory, and every other place lies in a directory that exists. */
  predicate Tree(fs: FS) {
    && [] in fs && fs[[]].Dir?
    && (forall q :: q in fs ==> PlaceOk(fs, q))
    && (forall q :: q in fs && fs[q].Link? ==> '\0' !in fs[q].target)
  }

  predicate IsLink(fs: FS, q: Path) {
    q in fs && fs[q].Link?
  }

  /** Nothing exists below `d`. */
  predicate Bare(fs: FS, d: Path) {
    forall q :: q in fs && d <= q ==> q == d
  }

  function ChildNames(fs: FS, p: Path): set<string> {
    set q | q in fs && |q| == |p| + 1 && p <= q :: q[|p|]
  }

  ghost function NodesUnder(fs: FS, p: Path): set<Path> {
    set q | q in fs && p <= q
  }

  lemma {:induction false} UnderExists(fs: FS, p: Path, q: Path)
    requires Tree(fs) && q in fs && p <= q
    ensures p in fs && (p != q ==> fs[p].Dir?)
    ensures p != q ==> q[|p|] in ChildNames(fs, p) && p + [q[|p|]] in fs
    decreases |q|
  {
    assert PlaceOk(fs, q);
    if p != q {
      var r := Parent(q);
      assert p <= r;
      UnderExists(fs, p, r);
      if p == r {
        assert q == p + [q[|p|]];
      } else {
        assert r[|p|] == q[|p|];
      }
    }
  }

  lemma ChildlessIsBare(fs: FS, p: Path)
    requires Tree(fs) && ChildNames(fs, p) == {}
    ensures Bare(fs, p)
  {
    forall q | q in fs && p <= q
      ensures q == p
    {
      UnderExists(fs, p, q);
    }
  }

  /** Nothing exists below a place that does not exist or is no directory. */
  lemma NothingBelow(fs: FS, p: Path, q: Path)
    requires Tree(fs) && p <= q && (p !in fs || (p != q && !fs[p].Dir?))
    ensures q !in fs
  {
    if q in fs {
      UnderExists(fs, p, q);
    }
  }

  lemma ChildCountsLess(fs: FS, p: Path, n: string)
    requires p in fs
    ensures |NodesUnder(fs, p + [n])| < |NodesUnder(fs, p)|
  {
    var a, b := NodesUnder(fs, p + [n]), NodesUnder(fs, p);
    forall q | q in a
      ensures q in b && q != p
    {
    }
    Smaller(a, b - {p});
    assert p in b;
  }

  lemma {:induction false} Smaller<T>(a: set<T>, b: set<T>)
    requires a <= b
    ensures |a| <= |b|
    decreases |a|
  {
    if a != {} {
      var x :| x in a;
      Smaller(a - {x}, b - {x});
    }
  }

  lemma NamesOf(fs: FS, p: Path, n: string)
    ensures n in ChildNames(fs, p) <==> p + [n] in fs
  {
    if n in ChildNames(fs, p) {
      var q :| q in fs && |q| == |p| + 1 && p <= q && q[|p|] == n;
      assert q == p + [n];
    }
    if p + [n] in fs {
      assert (p + [n])[|p|] == n;
    }
  }

  lemma ChildIsNamed(fs: FS, p: Path, n: string)
    requires Tree(fs) && n in ChildNames(fs, p)
    ensures IsName(n) && !IsDot(n) && p + [n] in fs
  {
    NamesOf(fs, p, n);
    assert PlaceOk(fs, p + [n]);
  }

  /** What `rename` asks of a node that is to be replaced. */
  predicate MayReplace(fs: FS, s: Path, d: Path)
    requires s in fs && d in fs
  {
    (fs[s].Dir? <==> fs[d].Dir?) && ChildNames(fs, d) == {}
  }

  // ---- directory listings ----

  datatype Dirent = Dirent(ino: nat, reclen: nat, name: string) {
    /** An entry of a file that is there; inode number 0 marks one that has been removed. */
    predicate Live() { ino != 0 && !IsDot(name) }
  }

  /** What reading a directory yields in the end: `.` and `..`, the name of each child once, in any order,
      and perhaps entries of removed files. */
  predicate IsListing(names: set<string>, l: seq<Dirent>) {
    && (forall i :: 0 <= i < |l| ==> IsDot(l[i].name) || (IsName(l[i].name) && (l[i].ino != 0 ==> l[i].name in names)))
    && (forall n :: n in names ==> Lists(l, n))
    && (forall i, j :: 0 <= i < j < |l| && l[i].Live() && l[j].Live() ==> l[i].name != l[j].name)
  }

  predicate Lists(l: seq<Dirent>, n: string) {
    exists i :: 0 <= i < |l| && l[i].ino != 0 && l[i].name == n
  }

  predicate HasStale(l: seq<Dirent>) {
    exists i :: 0 <= i < |l| && l[i].ino == 0 && !IsDot(l[i].name)
  }

  /** Record lengths the loops can step over. */
  predicate Sound(batch: seq<Dirent>) {
    forall i :: 0 <= i < |batch| ==> batch[i].reclen > 0
  }

  // ---- the system ----

  const ENOENT: int := 2
  const EIO: int := 5
  const EXDEV: int := 18

  /** What `lstat` reports; `id` stands for device and inode number. */
  datatype Stat = Stat(id: Path, node: Node)

  /** An open regular file being read. */
  class Reader {
    const place: Path
    var pos: nat

    constructor (place: Path)
      ensures this.place == place && pos == 0
    {
      this.place, pos := place, 0;
    }
  }

  /** An open directory being read. */
  class Listing {
    const all: seq<Dirent>
    var pos: nat

    constructor (all: seq<Dirent>)
      ensures this.all == all && pos == 0
    {
      this.all, pos := all, 0;
    }
  }

  /** What may differ where nothing but regular files was written through links. */
  predicate SameOrFile(a: Option<Node>, b: Option<Node>) {
    b == a || (b.Some? && b.value.File? && (a.Some? ==> a.value.File?))
  }

  /** From `fs` to `fs'` nothing happened outside `d` but to regular files. */
  predicate Blurred(fs: FS, fs': FS, d: Path) {
    forall q :: q in fs.Keys + fs'.Keys ==> d <= q || SameOrFile(Get(fs, q), Get(fs', q))
  }

  lemma BlurredAt(fs: FS, fs': FS, d: Path, q: Path)
    requires Blurred(fs, fs', d)
    ensures d <= q || SameOrFile(Get(fs, q), Get(fs', q))
  {
    if q in fs.Keys + fs'.Keys {
    }
  }

  /** As many links may be met on the way to one place. */
  const MAX_LINKS: nat := 40

  /** Where `names` lead from the directory `base`, following up to `n` links: to nowhere if there are more, or
      if a directory on the way is missing.  The place at the end need not exist. */
  function Lookup(fs: FS, base: Path, names: seq<string>, n: nat): Option<Path>
    decreases n, |names|
  {
    if names == [] then Some(base)
    else if names[0] == "." then Lookup(fs, base, names[1..], n)
    else if names[0] == ".." then Lookup(fs, if base == [] then [] else Parent(base), names[1..], n)
    else
      var p := base + [names[0]];
      if IsLink(fs, p) then
        var t := fs[p].target;
        if n == 0 || t == "" then None
        else Lookup(fs, if t[0] == '/' then [] else base, TargetNames(t) + names[1..], n - 1)
      else if |names| == 1 then Some(p)
      else if p in fs && fs[p].Dir? then Lookup(fs, p, names[1..], n)
      else None
  }

  /** The components of a target; a slash at its end asks for a directory. */
  function TargetNames(t: string): seq<string> {
    Components(t) + if t != "" && t[|t| - 1] == '/' then ["."] else []
  }

  /** Where writing to `d` ends up: at `d`, or where the link there leads. */
  function Landing(fs: FS, d: Path): Option<Path> {
    if IsLink(fs, d) && d != [] then Lookup(fs, Parent(d), [d[|d| - 1]], MAX_LINKS) else Some(d)
  }

  /** The link at `p` leads to `t`. */
  predicate LeadsTo(fs: FS, p: Path, t: Path) {
    IsLink(fs, p) && Landing(fs, p) == Some(t) && t in fs && !fs[t].Link?
  }

  /** A regular file at `d`, or where the link there leads, can be written or made. */
  predicate Writable(fs: FS, d: Path) {
    && Landing(fs, d).Some?
    && var w := Landing(fs, d).value;
       if w in fs then fs[w].File? else w != [] && PlaceOk(fs, w)
  }

  /** The places in the log from entry `n` on. */
  function Since(log: seq<Path>, n: nat): set<Path> {
    set i | n <= i < |log| :: log[i]
  }

  lemma SinceEnd(log: seq<Path>)
    ensures Since(log, |log|) == {}
  {
  }

  lemma SinceTrans(a: seq<Path>, b: seq<Path>, n: nat)
    requires a <= b && n <= |a|
    ensures Since(b, n) == Since(a, n) + Since(b, |a|)
  {
    forall w
      ensures w in Since(b, n) <==> w in Since(a, n) || w in Since(b, |a|)
    {
      if w in Since(a, n) {
        var i :| n <= i < |a| && a[i] == w;
        assert b[i] == w;
      }
    }
  }

  /** `failures` counts the calls that failed, or moved nothing, although the tree did not call for it;
      `follows` the links that `stat` has followed; `strays` logs the places of files that have been written
      through a link.  `stale` is how many more listings will show entries of removed files. */
  class Kernel {
    const cwd: Path
    const maxPath: nat
    var fs: FS
    var failures: nat
    var follows: nat
    var strays: seq<Path>
    var stale: nat

    ghost predicate Valid()
      reads this
    {
      Tree(fs) && maxPath >= 2
    }

    function At(path: string): Path {
      Resolve(cwd, path)
    }

    /** What code that only writes at and below `d` can make of the tree; where something is there already, it
        may also write files through links, at `strays`. */
    predicate Allows(d: Path, fs': FS, strays: set<Path>)
      reads this
    {
      && Tree(fs') && Blurred(fs, fs', d) && (d !in fs ==> strays == {})
      && forall q :: q in fs.Keys + fs'.Keys ==> d <= q || q in strays || Get(fs', q) == Get(fs, q)
    }

    /** A spontaneous error: any negative code but the two the callers give a meaning. */
    method Fault() returns (e: int)
      modifies this`failures
      ensures e < 0 ==> failures == old(failures) + 1 && e != -ENOENT && e != -EXDEV
      ensures e >= 0 ==> e == 0 && failures == old(failures)
    {
      e := *;
      if e < 0 && e != -ENOENT && e != -EXDEV {
        failures := failures + 1;
      } else {
        e := 0;
      }
    }

    method Lstat(path: string) returns (ret: int, st: Stat)
      modifies this`failures
      ensures failures >= old(failures)
      ensures ret >= 0 ==> At(path) in fs && st == Stat(At(path), fs[At(path)])
      ensures ret == -ENOENT ==> At(path) !in fs
      ensures ret < 0 && failures == old(failures) ==> At(path) !in fs && ret == -ENOENT
    {
      st := Stat([], Link(""));
      ret := Fault();
      if ret == 0 {
        if At(path) in fs {
          st := Stat(At(path), fs[At(path)]);
        } else {
          ret := -ENOENT;
        }
      }
    }

    /** `stat`, which follows a link to the end. */
    method StatTarget(path: string) returns (ret: int, st: Stat)
      modifies this`failures, this`follows
      ensures failures >= old(failures) && follows == old(follows) + if ret >= 0 && IsLink(fs, At(path)) then 1 else 0
      ensures ret >= 0 ==> At(path) in fs && st.id in fs && st == Stat(st.id, fs[st.id]) && !st.node.Link?
      ensures ret >= 0 ==> if IsLink(fs, At(path)) then LeadsTo(fs, At(path), st.id) else st.id == At(path)
      ensures ret < 0 && failures == old(failures) ==> forall t :: !LeadsTo(fs, At(path), t)
    {
      st := Stat([], Link(""));
      ret := Fault();
      if ret < 0 {
        return;
      }
      var p := At(path);
      if p !in fs {
        return -ENOENT, st;
      }
      var t := p;
      if IsLink(fs, p) {
        var end := Landing(fs, p);
        if end == None || !LeadsTo(fs, p, end.value) {
          return -ENOENT, st;
        }
        t := end.value;
        follows := follows + 1;
      }
      st := Stat(t, fs[t]);
    }

    /** `open(path, O_RDONLY)` where `path` leads to the regular file at `at`. */
    method OpenRead(path: string, at: Path) returns (ret: int, r: Reader)
      requires at in fs && fs[at].File?
      modifies this`failures
      ensures failures >= old(failures) && (ret < 0 ==> failures > old(failures))
      ensures fresh(r) && r.place == at && r.pos == 0
    {
      ret := Fault();
      r := new Reader(at);
    }

    /** `read`: some of what is left, at most the buffer. */
    method Read(r: Reader, buf: array<char>) returns (n: int)
      requires r.place in fs && fs[r.place].File? && buf.Length > 0
      modifies this`failures, r, buf
      ensures failures >= old(failures) && (n < 0 ==> failures > old(failures))
      ensures n <= buf.Length && r.pos == old(r.pos) + (if n > 0 then n else 0)
      ensures var data := fs[r.place].content;
        (n == 0 ==> r.pos >= |data|) && (n > 0 ==> r.pos <= |data| && buf[..n] == data[old(r.pos)..r.pos])
    {
      n := Fault();
      if n < 0 {
        return;
      }
      var data := fs[r.place].content;
      var left := if r.pos < |data| then |data| - r.pos else 0;
      n := if left < buf.Length then left else buf.Length;
      var less: int := *;
      if 0 < less < n {
        n := less;
      }
      for i := 0 to n
        invariant r.pos == old(r.pos) && failures == old(failures)
        invariant forall j :: 0 <= j < i ==> buf[j] == data[r.pos + j]
      {
        buf[i] := data[r.pos + i];
      }
      assert n > 0 ==> buf[..n] == data[r.pos..r.pos + n];
      r.pos := r.pos + n;
    }

    /** `open(path, O_WRONLY | O_CREAT | O_TRUNC)`: the regular file it empties or makes is at `w`, which is
        where the link leads if `path` names one. */
    method OpenWrite(path: string) returns (ret: int, w: Path)
      requires Valid()
      modifies this`fs, this`failures, this`strays
      ensures Valid() && failures >= old(failures)
      ensures strays == old(strays) + if ret >= 0 && IsLink(old(fs), At(path)) then [w] else []
      ensures ret < 0 ==> fs == old(fs)
      ensures ret >= 0 ==> Writable(old(fs), At(path)) && Landing(old(fs), At(path)) == Some(w)
      ensures ret >= 0 && w in old(fs) ==> old(fs)[w].File?
      ensures ret >= 0 ==> w in fs && fs[w].File? && fs == old(fs)[w := File([], fs[w].mode)]
      ensures ret < 0 && failures == old(failures) ==> !Writable(fs, At(path))
    {
      ret := Fault();
      w := At(path);
      if ret < 0 {
        return;
      }
      if !Writable(fs, w) {
        return -1, w;
      }
      var mode: nat := *;
      var through := IsLink(fs, w);
      w := Landing(fs, w).value;
      if w in fs {
        mode := fs[w].mode;
      }
      if through {
        strays := strays + [w];
      }
      fs := fs[w := File([], mode)];
      AddedFileKeepsTree(old(fs), w, fs[w]);
    }

    /** `write` to the regular file at `p`: appends some of the bytes offered. */
    method Write(p: Path, bytes: seq<char>) returns (w: int)
      requires Valid() && p in fs && fs[p].File? && bytes != []
      modifies this`fs, this`failures
      ensures Valid() && failures >= old(failures) && (w <= 0 ==> failures > old(failures))
      ensures w <= |bytes| && p in fs && fs == old(fs)[p := fs[p]]
      ensures fs[p] == old(fs)[p].(content := old(fs)[p].content + bytes[..if w > 0 then w else 0])
    {
      w := Fault();
      if w == 0 {
        var some: int := *;
        w := if 0 <= some < |bytes| then some else |bytes|;
        if w == 0 {
          failures := failures + 1;
        }
      }
      Append(p, bytes[..if w > 0 then w else 0]);
    }

    method Append(p: Path, bytes: seq<char>)
      requires Valid() && p in fs && fs[p].File?
      modifies this`fs
      ensures Valid() && p in fs && fs == old(fs)[p := fs[p]]
      ensures fs[p] == old(fs)[p].(content := old(fs)[p].content + bytes)
    {
      var node := fs[p].(content := fs[p].content + bytes);
      SameKindKeepsTree(fs, p, node);
      fs := fs[p := node];
    }

    /** `fchmodat(AT_FDCWD, path, mode, 0)` where `path` leads to `at`. */
    method Chmod(path: string, at: Path, mode: nat) returns (ret: int)
      requires Valid() && at in fs && !fs[at].Link?
      modifies this`fs, this`failures
      ensures Valid() && failures >= old(failures) && (ret < 0 ==> failures > old(failures))
      ensures fs == if ret < 0 then old(fs) else old(fs)[at := old(fs)[at].(mode := mode)]
    {
      ret := Fault();
      if ret == 0 {
        fs := fs[at := fs[at].(mode := mode)];
        SameKindKeepsTree(old(fs), at, fs[at]);
      }
    }

    /** `readlink` cuts the target off at `size` bytes. */
    method Readlink(path: string, buf: array<char>, size: nat) returns (ret: int)
      requires At(path) in fs && fs[At(path)].Link? && size <= buf.Length
      modifies this`failures, buf
      ensures failures >= old(failures) && (ret < 0 ==> failures > old(failures))
      ensures ret >= 0 ==> var t := fs[At(path)].target;
        ret == (if |t| < size then |t| else size) && buf[..ret] == t[..ret]
    {
      ret := Fault();
      if ret < 0 {
        return;
      }
      var t := fs[At(path)].target;
      ret := if |t| < size then |t| else size;
      CopyIn(buf, 0, t[..ret]);
    }

    method Symlink(target: string, path: string) returns (ret: int)
      requires Valid() && '\0' !in target
      modifies this`fs, this`failures
      ensures Valid() && failures >= old(failures) && ret <= 0
      ensures ret < 0 ==> fs == old(fs)
      ensures ret == 0 ==> At(path) !in old(fs) && fs == old(fs)[At(path) := Link(target)]
      ensures ret < 0 && failures == old(failures) ==> At(path) in fs || !PlaceOk(fs, At(path)) || At(path) == []
    {
      ret := Create(path, Link(target));
    }

    method Mkdir(path: string) returns (ret: int)
      requires Valid()
      modifies this`fs, this`failures
      ensures Valid() && failures >= old(failures) && ret <= 0
      ensures ret < 0 ==> fs == old(fs)
      ensures ret == 0 ==> At(path) !in old(fs) && At(path) in fs && fs[At(path)].Dir?
      ensures ret == 0 ==> fs == old(fs)[At(path) := fs[At(path)]]
      ensures ret < 0 && failures == old(failures) ==> At(path) in fs || !PlaceOk(fs, At(path)) || At(path) == []
    {
      var mode: nat := *;
      ret := Create(path, Dir(mode));
    }

    /** A new node where there was none. */
    method Create(path: string, node: Node) returns (ret: int)
      requires Valid() && (node.Link? ==> '\0' !in node.target)
      modifies this`fs, this`failures
      ensures Valid() && failures >= old(failures) && ret <= 0
      ensures ret < 0 ==> fs == old(fs)
      ensures ret == 0 ==> At(path) !in old(fs) && fs == old(fs)[At(path) := node]
      ensures ret < 0 && failures == old(failures) ==> At(path) in fs || !PlaceOk(fs, At(path)) || At(path) == []
    {
      ret := Fault();
      if ret < 0 {
        return;
      }
      var p := At(path);
      if p in fs || p == [] || Parent(p) !in fs || !fs[Parent(p)].Dir? || !IsName(p[|p| - 1]) || IsDot(p[|p| - 1]) {
        return -1;
      }
      fs := fs[p := node];
      AddedFileKeepsTree(old(fs), p, node);
    }

    /** `unlink` removes anything but the root and directories with children. */
    method Unlink(path: string) returns (ret: int)
      requires Valid()
      modifies this`fs, this`failures
      ensures Valid() && failures >= old(failures) && ret <= 0
      ensures ret == -ENOENT ==> At(path) !in fs
      ensures ret < 0 ==> fs == old(fs)
      ensures ret == 0 ==> At(path) in old(fs) && ChildNames(old(fs), At(path)) == {} && fs == old(fs) - {At(path)}
      ensures ret < 0 && failures == old(failures) ==>
        At(path) !in fs || At(path) == [] || ChildNames(fs, At(path)) != {}
    {
      ret := Fault();
      if ret < 0 {
        return;
      }
      var p := At(path);
      if p !in fs {
        return -ENOENT;
      }
      if p == [] || ChildNames(fs, p) != {} {
        return -1;
      }
      fs := fs - {p};
      RemovedLeafKeepsTree(old(fs), p);
    }

    /** `rename`: within one device the whole subtree moves at once, and takes the place of a file or link,
        or of an empty directory if it is one. */
    method Rename(src: string, dst: string) returns (ret: int)
      requires Valid()
      modifies this`fs, this`failures
      ensures Valid() && failures >= old(failures) && ret <= 0
      ensures ret < 0 ==> fs == old(fs)
      ensures ret == -EXDEV ==> At(src) != At(dst)
      ensures ret == 0 ==> At(src) in old(fs)
      ensures ret == 0 && At(src) == At(dst) ==> fs == old(fs)
      ensures ret == 0 && At(src) != At(dst) ==>
        Bare(old(fs), At(dst)) && forall q :: Get(fs, q) == MovedAt(old(fs), At(src), At(dst), q)
      ensures ret < 0 && ret != -EXDEV && failures == old(failures) ==>
        At(src) !in fs || !PlaceOk(fs, At(dst)) || At(src) <= At(dst) || At(dst) <= At(src) ||
        (At(dst) in fs && !MayReplace(fs, At(src), At(dst)))
    {
      ret := Fault();
      if ret < 0 {
        return;
      }
      var s, d := At(src), At(dst);
      if s !in fs {
        return -ENOENT;
      }
      if s == d {
        return 0;
      }
      var cross: bool := *;
      if cross {
        return -EXDEV;
      }
      if s <= d || d <= s || !PlaceOk(fs, d) {
        return -1;
      }
      if d in fs && !MayReplace(fs, s, d) {
        return -1;
      }
      RenameReady(fs, d);
      fs := Without(fs, s) + Transplant(fs, s, d);
      RenameMoves(old(fs), s, d);
    }

    /** `open(path, O_RDONLY)` on a directory; the listing is fixed here, in any order. */
    method OpenDir(path: string) returns (ret: int, l: Listing)
      requires At(path) in fs && fs[At(path)].Dir?
      modifies this`failures, this`stale
      ensures failures >= old(failures) && (ret < 0 ==> failures > old(failures)) && stale <= old(stale)
      ensures fresh(l) && l.pos == 0 && (ret >= 0 ==> IsListing(ChildNames(fs, At(path)), l.all))
      ensures ret >= 0 && HasStale(l.all) ==> stale < old(stale)
    {
      ret := Fault();
      var all: seq<Dirent> := *;
      if ret == 0 && (!IsListing(ChildNames(fs, At(path)), all) || (HasStale(all) && stale == 0)) {
        failures := failures + 1;
        ret := -1;
      }
      if ret == 0 && HasStale(all) {
        stale := stale - 1;
      }
      l := new Listing(all);
    }

    /** `getdents`: the next few entries, none at the end.  A record length of 0 counts as a failure. */
    method Getdents(l: Listing) returns (nread: int, batch: seq<Dirent>)
      requires l.pos <= |l.all|
      modifies this`failures, l
      ensures failures >= old(failures) && (nread < 0 ==> failures > old(failures))
      ensures l.pos <= |l.all| && (nread <= 0 ==> l.pos == old(l.pos))
      ensures nread == 0 ==> l.pos == |l.all|
      ensures nread > 0 ==> nread == |batch| && l.pos == old(l.pos) + nread && batch == l.all[old(l.pos)..l.pos]
      ensures nread > 0 && failures == old(failures) ==> Sound(batch)
    {
      batch := [];
      nread := Fault();
      if nread < 0 {
        return;
      }
      nread := |l.all| - l.pos;
      var less: int := *;
      if 0 < less < nread {
        nread := less;
      }
      batch := l.all[l.pos..l.pos + nread];
      l.pos := l.pos + nread;
      if !Sound(batch) {
        failures := failures + 1;
      }
    }
  }

  // ---- the tree invariant ----

  lemma AddedFileKeepsTree(fs: FS, p: Path, node: Node)
    requires Tree(fs) && p != [] && PlaceOk(fs, p) && (node.Link? ==> '\0' !in node.target)
    requires p !in fs || (fs[p].File? && node.File?)
    ensures Tree(fs[p := node])
  {
    var fs' := fs[p := node];
    forall q | q in fs'
      ensures PlaceOk(fs', q)
    {
      if q in fs {
        assert PlaceOk(fs, q);
      }
    }
  }

  lemma SameKindKeepsTree(fs: FS, p: Path, node: Node)
    requires Tree(fs) && p in fs && (fs[p].Dir? <==> node.Dir?) && !node.Link?
    ensures Tree(fs[p := node])
  {
    var fs' := fs[p := node];
    forall q | q in fs'
      ensures PlaceOk(fs', q)
    {
      assert PlaceOk(fs, q);
    }
  }

  lemma RemovedLeafKeepsTree(fs: FS, p: Path)
    requires Tree(fs) && p in fs && p != [] && ChildNames(fs, p) == {}
    ensures Tree(fs - {p})
  {
    var fs' := fs - {p};
    forall q | q in fs'
      ensures PlaceOk(fs', q)
    {
      assert PlaceOk(fs, q);
      if q != [] && Parent(q) == p {
        assert q == p + [q[|q| - 1]];
        NamesOf(fs, p, q[|q| - 1]);
      }
    }
  }

  lemma RenameReady(fs: FS, d: Path)
    requires Tree(fs) && (d in fs ==> ChildNames(fs, d) == {})
    ensures Bare(fs, d)
  {
    if d in fs {
      ChildlessIsBare(fs, d);
    } else {
      forall q | d <= q
        ensures q !in fs
      {
        NothingBelow(fs, d, q);
      }
    }
  }

  /** What a place holds after the subtree at `s` has moved to `d`, below which there was nothing. */
  function MovedAt(fs: FS, s: Path, d: Path, q: Path): Option<Node> {
    if d <= q then Get(fs, s + q[|d|..])
    else if s <= q then None
    else Get(fs, q)
  }

  /** The file system without the subtree at `p`. */
  function Without(fs: FS, p: Path): FS {
    map q | q in fs && !(p <= q) :: fs[q]
  }

  /** The subtree at `s` as it looks at `d`. */
  function Transplant(fs: FS, s: Path, d: Path): FS {
    SameTail(s, d);
    map p | p in fs && s <= p :: d + p[|s|..] := fs[p]
  }

  lemma SameTail(s: Path, d: Path)
    ensures forall p: Path, p': Path {:trigger d + p[|s|..], d + p'[|s|..]} ::
      s <= p && s <= p' && d + p[|s|..] == d + p'[|s|..] ==> p == p'
  {
    forall p: Path, p': Path | s <= p && s <= p' && d + p[|s|..] == d + p'[|s|..]
      ensures p == p'
    {
      assert (d + p[|s|..])[|d|..] == p[|s|..] && (d + p'[|s|..])[|d|..] == p'[|s|..];
      assert p == s + p[|s|..] && p' == s + p'[|s|..];
    }
  }

  lemma TransplantAt(fs: FS, s: Path, d: Path, q: Path)
    ensures Get(Transplant(fs, s, d), q) == if d <= q then Get(fs, s + q[|d|..]) else None
  {
    var t := Transplant(fs, s, d);
    if d <= q {
      var p := s + q[|d|..];
      assert p[|s|..] == q[|d|..] && q == d + p[|s|..];
      if p in fs {
        SameTail(s, d);
        assert d + p[|s|..] in t;
      }
    }
    if q in t {
      var p :| p in fs && s <= p && q == d + p[|s|..];
      assert q[|d|..] == p[|s|..];
      assert p == s + p[|s|..];
    }
  }

  lemma RenameMoves(fs: FS, s: Path, d: Path)
    requires Tree(fs) && s in fs && s != [] && d != [] && Bare(fs, d) && PlaceOk(fs, d) && !(s <= d) && !(d <= s)
    ensures var fs' := Without(fs, s) + Transplant(fs, s, d);
      Tree(fs') && forall q :: Get(fs', q) == MovedAt(fs, s, d, q)
  {
    var fs' := Without(fs, s) + Transplant(fs, s, d);
    forall q
      ensures Get(fs', q) == MovedAt(fs, s, d, q)
    {
      TransplantAt(fs, s, d, q);
      TransplantAt(fs, s, d, d);
      if d <= q && q in fs {
        assert q == d && s + d[|d|..] == s;
      }
    }
    MovedIsTree(fs, s, d, fs');
  }

  lemma MovedIsTree(fs: FS, s: Path, d: Path, fs': FS)
    requires Tree(fs) && s in fs && s != [] && d != [] && Bare(fs, d) && PlaceOk(fs, d) && !(s <= d) && !(d <= s)
    requires forall q :: Get(fs', q) == MovedAt(fs, s, d, q)
    ensures Tree(fs')
  {
    forall q | q in fs'
      ensures PlaceOk(fs', q) && (fs'[q].Link? ==> '\0' !in fs'[q].target)
    {
      MovedPlaceOk(fs, s, d, fs', q);
    }
    assert Get(fs', []) == MovedAt(fs, s, d, []);
  }

  lemma MovedPlaceOk(fs: FS, s: Path, d: Path, fs': FS, q: Path)
    requires Tree(fs) && s in fs && s != [] && d != [] && Bare(fs, d) && PlaceOk(fs, d) && !(s <= d) && !(d <= s)
    requires forall q :: Get(fs', q) == MovedAt(fs, s, d, q)
    requires q in fs'
    ensures PlaceOk(fs', q) && (fs'[q].Link? ==> '\0' !in fs'[q].target)
  {
    assert Get(fs', q) == MovedAt(fs, s, d, q);
    if d <= q {
      var p := s + q[|d|..];
      assert p in fs && PlaceOk(fs, p);
      if q == d {
        OutsideBoth(s, d, Parent(d));
        assert Get(fs', Parent(d)) == MovedAt(fs, s, d, Parent(d));
      } else {
        InsideBoth(s, d, q);
        assert Get(fs', Parent(q)) == MovedAt(fs, s, d, Parent(q));
      }
    } else {
      assert PlaceOk(fs, q);
      if q != [] {
        assert !(s <= Parent(q)) && !(d <= Parent(q));
        assert Get(fs', Parent(q)) == MovedAt(fs, s, d, Parent(q));
      }
    }
  }

  lemma OutsideBoth(s: Path, d: Path, r: Path)
    requires d != [] && r == Parent(d) && !(s <= d)
    ensures !(s <= r) && !(d <= r)
  {
    assert s <= r ==> s <= d;
  }

  lemma InsideBoth(s: Path, d: Path, q: Path)
    requires d <= q && q != d
    ensures d <= Parent(q) && s + Parent(q)[|d|..] == Parent(s + q[|d|..])
    ensures q[|q| - 1] == (s + q[|d|..])[|s + q[|d|..]| - 1]
  {
  }
}
