/** The path helpers of lib/fsutil.c (lines 35-92) and the places their paths name. */
module Paths {

  const ENAMETOOLONG: int := 36

  /** A place in the tree: the names from the root down. */
  type Path = seq<string>

  /** A file name: not empty, without slash or NUL. */
  predicate IsName(n: string) {
    n != "" && '/' !in n && '\0' !in n
  }

  predicate IsDot(n: string) {
    n == "." || n == ".."
  }

  /** Where the last component of `s` begins: behind its last slash. */
  function LastStart(s: string): (k: nat)
    ensures k <= |s| && SlashFree(s, k)
    ensures k > 0 ==> s[k - 1] == '/'
  {
    if s == [] || s[|s| - 1] == '/' then |s| else LastStart(s[..|s| - 1])
  }

  ghost predicate SlashFree(s: string, k: nat) {
    forall i :: k <= i < |s| ==> s[i] != '/'
  }

  /** The non-empty stretches between slashes. */
  function Components(s: string): Path
    decreases |s|
  {
    if s == [] then []
    else if s[|s| - 1] == '/' then Components(s[..|s| - 1])
    else
      var k := LastStart(s);
      assert k < |s| by {
        assert s[|s| - 1] != '/';
      }
      Components(s[..k]) + [s[k..]]
  }

  /** Following `names` from `base`: `.` stays, `..` goes up (from the root it stays). */
  function Follow(base: Path, names: Path): Path {
    if names == [] then base
    else
      var p := Follow(base, names[..|names| - 1]);
      var n := names[|names| - 1];
      if n == "." then p
      else if n == ".." then (if p == [] then [] else p[..|p| - 1])
      else p + [n]
  }

  /** The place a path string names, relative to the working directory. */
  function Resolve(cwd: Path, s: string): Path {
    Follow(if s != "" && s[0] == '/' then [] else cwd, Components(s))
  }

  /** Trailing slashes removed, all but a leading one. */
  function Trim(s: string): (t: string)
    ensures t <= s && (s != "" ==> t != "")
  {
    if |s| > 1 && s[|s| - 1] == '/' then Trim(s[..|s| - 1]) else s
  }

  function Join(dir: string, name: string): string {
    var d := Trim(dir);
    d + (if d == "/" then "" else "/") + name
  }

  function Basename(path: string): string {
    var t := Trim(path);
    var base := t[LastStart(t)..];
    if base == "" then "/" else base
  }

  // ---- what the helpers mean ----

  lemma {:induction false} TrimKeepsComponents(s: string)
    ensures Components(Trim(s)) == Components(s)
  {
    if |s| > 1 && s[|s| - 1] == '/' {
      TrimKeepsComponents(s[..|s| - 1]);
    }
  }

  lemma {:induction false} LastStartAt(s: string, k: nat)
    requires k <= |s| && SlashFree(s, k) && (k == 0 || s[k - 1] == '/')
    ensures LastStart(s) == k
  {
    var m := LastStart(s);
    assert m > 0 ==> s[m - 1] == '/';
  }

  /** Adding a name behind a slash adds one component. */
  lemma {:induction false} ComponentsOfJoin(d: string, n: string)
    requires IsName(n)
    ensures Components(d + "/" + n) == Components(d) + [n]
  {
    var s := d + "/" + n;
    assert s[|d| + 1..] == n;
    LastStartAt(s, |d| + 1);
    assert s[|s| - 1] == n[|n| - 1] != '/';
    assert s[..|d| + 1] == d + "/";
    assert (d + "/")[..|d|] == d;
    assert Components(d + "/") == Components(d);
  }

  /** The joined path names the child `n` of the directory: each recursive call of copy and remove stays
      inside the tree of its argument. */
  lemma {:induction false} JoinNamesChild(cwd: Path, dir: string, n: string)
    requires dir != "" && IsName(n) && !IsDot(n)
    ensures Resolve(cwd, Join(dir, n)) == Resolve(cwd, dir) + [n]
  {
    var d := Trim(dir);
    var j := Join(dir, n);
    TrimKeepsComponents(dir);
    if d == "/" {
      assert j == "" + "/" + n;
      ComponentsOfJoin("", n);
      assert Components("/") == Components("");
    } else {
      assert j == d + "/" + n;
      ComponentsOfJoin(d, n);
    }
    assert j[0] == d[0] == dir[0];
    assert Components(j) == Components(dir) + [n];
    assert (Components(dir) + [n])[..|Components(dir)|] == Components(dir);
  }

  /** A name by itself is a child of the working directory. */
  lemma NameResolves(cwd: Path, n: string)
    requires IsName(n) && !IsDot(n)
    ensures Resolve(cwd, n) == cwd + [n]
  {
    OneComponent(n);
    var names := [n];
    assert names[..0] == [] && names[|names| - 1] == n;
    assert Follow(cwd, names) == Follow(cwd, []) + [n];
  }

  lemma OneComponent(n: string)
    requires IsName(n)
    ensures Components(n) == [n]
  {
    LastStartAt(n, 0);
    assert n[|n| - 1] != '/' && n[..0] == "" && n[0..] == n;
    assert Components(n[..0]) == [];
  }

  /** `fsutil_copy_basename` finds the name again that `fsutil_join_path` put last. */
  lemma {:induction false} BasenameOfJoin(dir: string, n: string)
    requires IsName(n)
    ensures Basename(Join(dir, n)) == n
  {
    var j := Join(dir, n);
    var d := Trim(dir);
    var k := |j| - |n|;
    assert j[|j| - 1] == n[|n| - 1] != '/';
    assert Trim(j) == j;
    assert j[k..] == n;
    LastStartAt(j, k);
  }

  /** The base name is the last component, however many slashes follow it; that of the root is a slash. */
  lemma BasenameIsLast(path: string)
    requires path != ""
    ensures var names := Components(path);
      Basename(path) == if names == [] then "/" else names[|names| - 1]
  {
    var t := Trim(path);
    TrimKeepsComponents(path);
    TrimEnds(path);
    if t[|t| - 1] != '/' {
      var k := LastStart(t);
      assert k < |t| by {
        assert k > 0 ==> t[k - 1] == '/';
      }
      assert Components(t) == Components(t[..k]) + [t[k..]];
    } else {
      assert t == "/";
      assert Components(t) == Components(t[..0]) == [];
      assert LastStart(t) == 1;
    }
  }

  lemma {:induction false} TrimEnds(s: string)
    requires s != ""
    ensures var t := Trim(s); t[|t| - 1] == '/' ==> t == "/"
  {
    if |s| > 1 && s[|s| - 1] == '/' {
      TrimEnds(s[..|s| - 1]);
    }
  }

  /** Components are not empty and have no slash. */
  lemma {:induction false} ComponentsAreNames(s: string, i: nat)
    requires i < |Components(s)|
    ensures Components(s)[i] != "" && '/' !in Components(s)[i]
    decreases |s|
  {
    if s[|s| - 1] == '/' {
      ComponentsAreNames(s[..|s| - 1], i);
    } else {
      var k := LastStart(s);
      if i < |Components(s[..k])| {
        ComponentsAreNames(s[..k], i);
      } else {
        assert Components(s)[i] == s[k..];
        assert forall j :: k <= j < |s| ==> s[j] == s[k..][j - k];
      }
    }
  }

  /** How much of a joined path the directory takes, but for the slash behind it. */
  function DirLength(dir: string): nat {
    if Trim(dir) == "/" then 0 else |Trim(dir)|
  }

  lemma JoinLength(dir: string, n: string)
    requires IsName(n)
    ensures |Join(dir, n)| == DirLength(dir) + 1 + |n| && DirLength(Join(dir, n)) == |Join(dir, n)|
  {
    var j := Join(dir, n);
    assert j[|j| - 1] == n[|n| - 1] != '/';
  }

  // ---- the code ----

  /** The C string at the start of a buffer. */
  function Text(s: seq<char>): string {
    if s == [] || s[0] == '\0' then "" else [s[0]] + Text(s[1..])
  }

  lemma {:induction false} TextIs(s: seq<char>, t: string)
    requires |t| < |s| && s[..|t|] == t && s[|t|] == '\0' && '\0' !in t
    ensures Text(s) == t
  {
    if t != "" {
      assert s[0] == s[..|t|][0] == t[0];
      assert s[1..][..|t| - 1] == s[..|t|][1..] == t[1..];
      TextIs(s[1..], t[1..]);
    }
  }

  /** `memmove` from a string into a buffer. */
  method CopyIn(dst: array<char>, at: nat, s: string)
    requires at + |s| <= dst.Length
    modifies dst
    ensures dst[..] == old(dst[..at]) + s + old(dst[at + |s|..])
  {
    for i := 0 to |s|
      invariant forall k :: 0 <= k < dst.Length ==> dst[k] == if at <= k < at + i then s[k - at] else old(dst[k])
    {
      dst[at + i] := s[i];
    }
  }

  /** `fsutil_join_path` (fsutil.c:69-92) */
  method JoinPath(dst: array<char>, dir: string, name: string) returns (ret: int)
    requires '\0' !in dir && '\0' !in name
    modifies dst
    ensures ret == 0 || ret == -ENAMETOOLONG
    ensures ret == 0 <==> |Join(dir, name)| + 1 <= dst.Length
    ensures ret == 0 ==> Text(dst[..]) == Join(dir, name)
  {
    var dirLen := |dir|;
    assert dir[..dirLen] == dir;
    while dirLen > 1 && dir[dirLen - 1] == '/'
      invariant 0 <= dirLen <= |dir| && Trim(dir[..dirLen]) == Trim(dir)
    {
      assert dir[..dirLen][..dirLen - 1] == dir[..dirLen - 1];
      dirLen := dirLen - 1;
    }
    assert dir[..dirLen] == Trim(dir);
    var needSlash := !(dirLen == 1 && dir[0] == '/');
    var total := dirLen + (if needSlash then 1 else 0) + |name|;
    if total + 1 > dst.Length {
      return -ENAMETOOLONG;
    }
    CopyIn(dst, 0, dir[..dirLen]);
    var off := dirLen;
    if needSlash {
      dst[off] := '/';
      off := off + 1;
    }
    assert dst[..off] == Trim(dir) + if needSlash then "/" else "";
    CopyIn(dst, off, name);
    dst[off + |name|] := '\0';
    assert dst[..off + |name|] == Join(dir, name);
    TextIs(dst[..], Join(dir, name));
    return 0;
  }

  /** The two loops of `fsutil_copy_basename` (fsutil.c:36-45): the base name is `path[start..len]`. */
  method FindBase(path: string) returns (start: nat, len: nat)
    ensures start <= len <= |path| && path[..len] == Trim(path) && start == LastStart(Trim(path))
  {
    len := |path|;
    assert path[..len] == path;
    while len > 1 && path[len - 1] == '/'
      invariant 0 <= len <= |path| && Trim(path[..len]) == Trim(path)
    {
      assert path[..len][..len - 1] == path[..len - 1];
      len := len - 1;
    }
    ghost var t := path[..len];
    assert t == Trim(path);
    start := len;
    while start > 0 && path[start - 1] != '/'
      invariant 0 <= start <= len && SlashFree(t, start)
    {
      start := start - 1;
    }
    LastStartAt(t, start);
  }

  /** `fsutil_copy_basename` (fsutil.c:35-63) */
  method CopyBasename(dst: array<char>, path: string) returns (ret: int)
    requires '\0' !in path
    modifies dst
    ensures ret == 0 || ret == -ENAMETOOLONG
    ensures ret == 0 <==> |Basename(path)| + 1 <= dst.Length
    ensures ret == 0 ==> Text(dst[..]) == Basename(path)
  {
    var start, len := FindBase(path);
    var baseLen := len - start;
    assert path[start..len] == Trim(path)[start..];
    if baseLen == 0 {
      if dst.Length < 2 {
        return -ENAMETOOLONG;
      }
      dst[0] := '/';
      dst[1] := '\0';
      TextIs(dst[..], "/");
      return 0;
    }
    if baseLen + 1 > dst.Length {
      return -ENAMETOOLONG;
    }
    CopyIn(dst, 0, path[start..start + baseLen]);
    dst[baseLen] := '\0';
    assert dst[..baseLen] == path[start..len];
    TextIs(dst[..], path[start..len]);
    return 0;
  }
}
