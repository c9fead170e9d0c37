/** The line filter of programs/grep/grep.c (lines 12-38): a fixed buffer refilled by `read`, against
    the split of the whole input into lines. */
module Grep {
  import opened Wrappers
  import opened Regex
  import opened ULib

  const BUFSZ: nat := 1024

  /** A file being read: `read` may return any part of what is left, or fail at any time. */
  class Input {
    const data: seq<char>
    var pos: nat

    constructor (data: seq<char>)
      ensures this.data == data && pos == 0
    {
      this.data, pos := data, 0;
    }

    method Read(buf: array<char>, at: nat, cap: nat) returns (n: int)
      requires at + cap <= buf.Length && pos <= |data|
      modifies this`pos, buf
      ensures n <= cap && pos <= |data|
      ensures n == 0 ==> cap == 0 || pos == |data|
      ensures n <= 0 ==> pos == old(pos) && buf[..] == old(buf[..])
      ensures n > 0 ==> pos == old(pos) + n
      ensures n > 0 ==> buf[..] == old(buf[..at]) + data[old(pos)..pos] + old(buf[at + n..])
    {
      var choice: int := *;
      if choice < 0 {
        return choice;
      }
      var left := |data| - pos;
      n := if left < cap then left else cap;
      if 0 < choice < n {
        n := choice;
      }
      for i := 0 to n
        invariant pos == old(pos)
        invariant forall k :: 0 <= k < buf.Length ==>
          buf[k] == if at <= k < at + i then data[pos + k - at] else old(buf[k])
      {
        buf[at + i] := data[pos + i];
      }
      pos := pos + n;
    }
  }

  /** Standard output: what each `write` that did not fail has accepted, and how many of them accepted less
      than they were offered. */
  class Output {
    var written: seq<seq<char>>
    var shorts: nat

    constructor ()
      ensures written == [] && shorts == 0
    {
      written, shorts := [], 0;
    }

    /** Since it was `before`, with `short0` short writes, the output has taken `lines`. */
    ghost predicate Has(before: seq<seq<char>>, short0: nat, lines: seq<seq<char>>)
      reads this
    {
      shorts >= short0 && Wrote(before, written, lines, shorts == short0)
    }

    method Write(s: seq<char>) returns (w: int)
      modifies this
      ensures w < 0 ==> written == old(written) && shorts == old(shorts)
      ensures w >= 0 ==> w <= |s| && written == old(written) + [s[..w]]
      ensures w >= 0 ==> shorts == old(shorts) + if w < |s| then 1 else 0
    {
      w := *;
      if w > |s| {
        w := |s|;
      }
      if w >= 0 {
        written, shorts := written + [s[..w]], shorts + if w < |s| then 1 else 0;
      }
    }
  }

  // ---- what the output should be ----

  ghost predicate FreeOfNewline(s: seq<char>, end: nat)
    requires end <= |s|
  {
    forall i :: 0 <= i < end ==> s[i] != '\n'
  }

  /** The index of the first newline, -1 if there is none. */
  function Newline(s: seq<char>): (k: int)
    ensures -1 <= k < |s|
    ensures k >= 0 ==> s[k] == '\n' && FreeOfNewline(s, k)
    ensures k < 0 ==> FreeOfNewline(s, |s|)
  {
    if s == [] then -1
    else if s[0] == '\n' then 0
    else
      var k := Newline(s[1..]);
      assert forall i :: 1 <= i < |s| ==> s[i] == s[1..][i - 1];
      if k < 0 then -1 else k + 1
  }

  /** The newline-terminated lines of the input, in order, newline included. */
  function AllLines(s: seq<char>): seq<seq<char>> {
    var k := Newline(s);
    if k < 0 then [] else [s[..k + 1]] + AllLines(s[k + 1..])
  }

  /** A line the buffer can hold and the string routines can see whole. */
  predicate Fits(line: seq<char>) {
    |line| <= BUFSZ - 1 && '\0' !in line
  }

  /** The lines before the first one that does not fit. */
  function SeenLines(s: seq<char>): seq<seq<char>> {
    var k := Newline(s);
    if k < 0 || !Fits(s[..k + 1]) then [] else [s[..k + 1]] + SeenLines(s[k + 1..])
  }

  /** The lines a pattern selects, in order. */
  ghost function Selected(pattern: seq<char>, lines: seq<seq<char>>): seq<seq<char>> {
    if lines == [] then [] else IfSelected(pattern, lines[0]) + Selected(pattern, lines[1..])
  }

  ghost function IfSelected(pattern: seq<char>, l: seq<char>): seq<seq<char>> {
    if l != [] && Selects(pattern, l[..|l| - 1]) then [l] else []
  }

  lemma {:induction false} SelectedAppend(pattern: seq<char>, a: seq<seq<char>>, b: seq<seq<char>>)
    ensures Selected(pattern, a + b) == Selected(pattern, a) + Selected(pattern, b)
  {
    if a == [] {
      assert a + b == b;
    } else {
      SelectedAppend(pattern, a[1..], b);
      assert (a + b)[1..] == a[1..] + b;
      Assoc(IfSelected(pattern, a[0]), Selected(pattern, a[1..]), Selected(pattern, b));
    }
  }

  function Flatten(lines: seq<seq<char>>): seq<char> {
    if lines == [] then [] else lines[0] + Flatten(lines[1..])
  }

  /** `AllLines` is the split of the input: the lines joined, then a tail without a newline. */
  lemma {:induction false} AllLinesSplitInput(s: seq<char>) returns (tail: seq<char>)
    ensures s == Flatten(AllLines(s)) + tail && FreeOfNewline(tail, |tail|)
    ensures forall l :: l in AllLines(s) ==> l != [] && Newline(l) == |l| - 1
    decreases |s|
  {
    var k := Newline(s);
    if k < 0 {
      tail := s;
    } else {
      tail := AllLinesSplitInput(s[k + 1..]);
      NewlineAt(s[..k + 1], k);
      assert s == s[..k + 1] + s[k + 1..];
      assert AllLines(s) == [s[..k + 1]] + AllLines(s[k + 1..]);
      assert AllLines(s)[1..] == AllLines(s[k + 1..]);
      Assoc(s[..k + 1], Flatten(AllLines(s[k + 1..])), tail);
    }
  }

  /** The input ends with its last line, or has none. */
  predicate Terminated(s: seq<char>) {
    s == [] || s[|s| - 1] == '\n'
  }

  /** What follows the last newline is no line: the reference drops it, and so does the code. */
  lemma {:induction false} UnterminatedIsDropped(s: seq<char>, tail: seq<char>)
    requires Terminated(s) && FreeOfNewline(tail, |tail|)
    ensures AllLines(s + tail) == AllLines(s) && SeenLines(s + tail) == SeenLines(s)
    decreases |s|
  {
    var k, t := Newline(s), s + tail;
    if s == [] {
      assert t == tail;
    } else {
      assert k >= 0;
      NewlineAt(t, k);
      assert t[..k + 1] == s[..k + 1] && t[k + 1..] == s[k + 1..] + tail;
      UnterminatedIsDropped(s[k + 1..], tail);
    }
  }

  /** The lines are all of the input exactly if it ends with a newline or is empty. */
  lemma {:induction false} LinesAreInputIffTerminated(s: seq<char>)
    ensures Flatten(AllLines(s)) == s <==> Terminated(s)
    decreases |s|
  {
    var k := Newline(s);
    if k >= 0 {
      var line, rest := s[..k + 1], s[k + 1..];
      LinesAreInputIffTerminated(rest);
      FlattenCons(line, AllLines(rest));
      assert s == line + rest;
      SameRest(line, Flatten(AllLines(rest)), rest);
      assert Terminated(s) <==> Terminated(rest);
    }
  }

  lemma FlattenCons(line: seq<char>, lines: seq<seq<char>>)
    ensures Flatten([line] + lines) == line + Flatten(lines)
  {
    assert ([line] + lines)[1..] == lines;
  }

  lemma SameRest(x: seq<char>, a: seq<char>, b: seq<char>)
    ensures x + a == x + b <==> a == b
  {
    assert (x + a)[|x|..] == a && (x + b)[|x|..] == b;
  }

  /** Where the filter falls short: once 1023 bytes pass without a newline, nothing more is seen. */
  lemma LongLineHidesTheRest(s: seq<char>)
    requires |s| >= BUFSZ - 1 && FreeOfNewline(s, BUFSZ - 1)
    ensures SeenLines(s) == []
    ensures SeenLines(seq(BUFSZ - 1, _ => 'a') + ['\n']) != AllLines(seq(BUFSZ - 1, _ => 'a') + ['\n'])
  {
    var k := Newline(s);
    assert k >= 0 ==> k >= BUFSZ - 1;
    var long := seq(BUFSZ - 1, _ => 'a') + ['\n'];
    NewlineAt(long, BUFSZ - 1);
  }

  // ---- what reaches the output ----

  lemma SelectedOne(pattern: seq<char>, lines: seq<seq<char>>, l: seq<char>)
    ensures Selected(pattern, lines + [l]) == Selected(pattern, lines) + IfSelected(pattern, l)
  {
    SelectedAppend(pattern, lines, [l]);
    assert [l][1..] == [] && IfSelected(pattern, l) + [] == IfSelected(pattern, l);
  }

  /** Of each line its beginning was accepted. */
  predicate Took(pieces: seq<seq<char>>, lines: seq<seq<char>>) {
    |pieces| == |lines| && forall i :: 0 <= i < |lines| ==> pieces[i] <= lines[i]
  }

  /** Since the output was `before` it has taken `lines`, whole lines exactly if `whole`. */
  ghost predicate Wrote(before: seq<seq<char>>, after: seq<seq<char>>, lines: seq<seq<char>>, whole: bool) {
    before <= after && Took(after[|before|..], lines) && (whole <==> after[|before|..] == lines)
  }

  lemma WroteNothing(before: seq<seq<char>>)
    ensures Wrote(before, before, [], true)
  {
  }

  lemma WroteMore(before: seq<seq<char>>, after: seq<seq<char>>, lines: seq<seq<char>>, whole: bool, l: seq<char>,
                  w: nat)
    requires Wrote(before, after, lines, whole) && w <= |l|
    ensures Wrote(before, after + [l[..w]], lines + [l], whole && w == |l|)
  {
    var p, piece := after[|before|..], l[..w];
    assert (after + [piece])[|before|..] == p + [piece];
    LastSame(p, piece, lines, l);
    assert w == |l| ==> piece == l;
  }

  lemma LastSame<T>(a: seq<T>, x: T, b: seq<T>, y: T)
    ensures a + [x] == b + [y] <==> a == b && x == y
  {
    if a + [x] == b + [y] {
      assert a == (a + [x])[..|a|] && b == (b + [y])[..|b|];
      assert x == (a + [x])[|a|] && y == (b + [y])[|b|];
    }
  }

  /** The bytes of the output are those of the lines exactly if every line was taken whole. */
  lemma {:induction false} BytesWholeIffTakenWhole(pieces: seq<seq<char>>, lines: seq<seq<char>>)
    requires Took(pieces, lines)
    ensures |Flatten(pieces)| <= |Flatten(lines)|
    ensures Flatten(pieces) == Flatten(lines) <==> pieces == lines
  {
    if lines != [] {
      BytesWholeIffTakenWhole(pieces[1..], lines[1..]);
      assert pieces[0] <= lines[0];
      assert pieces == [pieces[0]] + pieces[1..] && lines == [lines[0]] + lines[1..];
      if Flatten(pieces) == Flatten(lines) {
        assert |pieces[0]| == |lines[0]|;
        assert Flatten(pieces)[|pieces[0]|..] == Flatten(pieces[1..]);
        assert Flatten(lines)[|lines[0]|..] == Flatten(lines[1..]);
      }
    }
  }

  // ---- what is seen and what is hidden ----

  /** Every line is seen exactly when every line fits: no line over 1023 bytes, no NUL in a line. */
  lemma {:induction false} SeenIsAllIffFits(s: seq<char>)
    ensures SeenLines(s) == AllLines(s) <==> forall l :: l in AllLines(s) ==> Fits(l)
    decreases |s|
  {
    var k := Newline(s);
    if k >= 0 {
      var line, rest := s[..k + 1], s[k + 1..];
      SeenIsAllIffFits(rest);
      assert AllLines(s) == [line] + AllLines(rest);
      assert AllLines(s)[0] == line && AllLines(s)[1..] == AllLines(rest);
      if Fits(line) {
        assert SeenLines(s) == [line] + SeenLines(rest) && SeenLines(s)[1..] == SeenLines(rest);
      }
    }
  }

  /** The lines from the first one that does not fit. */
  function HiddenLines(s: seq<char>): seq<seq<char>> {
    var k := Newline(s);
    if k < 0 then [] else if Fits(s[..k + 1]) then HiddenLines(s[k + 1..]) else AllLines(s)
  }

  lemma {:induction false} SeenThenHidden(s: seq<char>)
    ensures AllLines(s) == SeenLines(s) + HiddenLines(s)
    decreases |s|
  {
    var k := Newline(s);
    if k >= 0 && Fits(s[..k + 1]) {
      SeenThenHidden(s[k + 1..]);
      FirstLine(s, k, s[..k + 1], s[k + 1..]);
      Assoc([s[..k + 1]], SeenLines(s[k + 1..]), HiddenLines(s[k + 1..]));
    } else {
      NothingSeen(s);
    }
  }

  lemma FirstLine(s: seq<char>, k: nat, line: seq<char>, rest: seq<char>)
    requires k < |s| && k == Newline(s) && line == s[..k + 1] && rest == s[k + 1..] && Fits(line)
    ensures AllLines(s) == [line] + AllLines(rest)
    ensures SeenLines(s) == [line] + SeenLines(rest) && HiddenLines(s) == HiddenLines(rest)
  {
  }

  lemma NothingSeen(s: seq<char>)
    requires Newline(s) < 0 || !Fits(s[..Newline(s) + 1])
    ensures SeenLines(s) == [] && HiddenLines(s) == AllLines(s)
  {
  }

  lemma {:induction false} SelectedIsEmpty(pattern: seq<char>, lines: seq<seq<char>>)
    ensures Selected(pattern, lines) == [] <==> forall l :: l in lines ==> IfSelected(pattern, l) == []
  {
    if lines != [] {
      SelectedIsEmpty(pattern, lines[1..]);
      assert forall l :: l in lines <==> l == lines[0] || l in lines[1..];
    }
  }

  /** For one pattern the output is that of a plain line splitter exactly if the pattern selects no hidden
      line. */
  lemma OutputIsAllIffNoneHidden(pattern: seq<char>, s: seq<char>)
    ensures Selected(pattern, SeenLines(s)) == Selected(pattern, AllLines(s)) <==>
      forall l :: l in HiddenLines(s) ==> IfSelected(pattern, l) == []
  {
    SeenThenHidden(s);
    SelectedAppend(pattern, SeenLines(s), HiddenLines(s));
    SelectedIsEmpty(pattern, HiddenLines(s));
    var a, b := Selected(pattern, SeenLines(s)), Selected(pattern, HiddenLines(s));
    assert a == a + b ==> |b| == 0;
  }

  /** For every pattern it is, exactly if every line fits. */
  lemma OutputIsAllIffFits(s: seq<char>)
    ensures (forall pattern :: Selected(pattern, SeenLines(s)) == Selected(pattern, AllLines(s))) <==>
      forall l :: l in AllLines(s) ==> Fits(l)
  {
    SeenIsAllIffFits(s);
    SeenThenHidden(s);
    LinesEndInNewline(s);
    EmptySelectsAll(AllLines(s));
    EmptySelectsAll(SeenLines(s));
    if SeenLines(s) != AllLines(s) {
      assert Selected([], SeenLines(s)) != Selected([], AllLines(s));
    }
  }

  predicate NonEmpty(lines: seq<seq<char>>) {
    forall i :: 0 <= i < |lines| ==> lines[i] != []
  }

  lemma LinesEndInNewline(s: seq<char>)
    ensures NonEmpty(AllLines(s)) && NonEmpty(SeenLines(s))
  {
    var tail := AllLinesSplitInput(s);
    forall i | 0 <= i < |AllLines(s)|
      ensures AllLines(s)[i] != []
    {
      assert AllLines(s)[i] in AllLines(s);
    }
    SeenThenHidden(s);
    forall i | 0 <= i < |SeenLines(s)|
      ensures SeenLines(s)[i] != []
    {
      assert SeenLines(s)[i] == AllLines(s)[i];
    }
  }

  /** The empty pattern selects every line. */
  lemma {:induction false} EmptySelectsAll(lines: seq<seq<char>>)
    requires NonEmpty(lines)
    ensures Selected([], lines) == lines
  {
    if lines != [] {
      EmptySelectsAll(lines[1..]);
      var text := lines[0][..|lines[0]| - 1];
      PlainIsSubstring([], text);
      assert [] <= text[0..];
      assert lines == [lines[0]] + lines[1..];
    }
  }

  /** An input and a pattern for which the output is not that of a line splitter: one line of 1024 bytes. */
  lemma LongLineIsLost()
    ensures var s, pattern := seq(BUFSZ - 1, _ => 'a') + ['\n'], ['a'];
      Selected(pattern, SeenLines(s)) == [] && Selected(pattern, AllLines(s)) == [s]
  {
    var line, pattern := seq(BUFSZ - 1, _ => 'a'), ['a'];
    var s := line + ['\n'];
    NewlineAt(s, BUFSZ - 1);
    assert s[..BUFSZ] == s && s[BUFSZ..] == [];
    assert AllLines(s) == [s] + AllLines([]) == [s];
    assert s[..|s| - 1] == line && pattern <= line[0..];
    PlainIsSubstring(pattern, line);
    assert IfSelected(pattern, s) == [s] && [s][1..] == [];
  }

  // ---- the lines already taken out of the buffer ----

  ghost predicate IsLine(l: seq<char>) {
    Fits(l) && Newline(l) == |l| - 1 && l != []
  }

  lemma {:induction false} FlattenAppend(lines: seq<seq<char>>, l: seq<char>)
    ensures Flatten(lines + [l]) == Flatten(lines) + l
  {
    if lines == [] {
      assert [l][1..] == [];
    } else {
      FlattenAppend(lines[1..], l);
      assert (lines + [l])[1..] == lines[1..] + [l];
    }
  }

  lemma {:induction false} NewlineAt(s: seq<char>, k: nat)
    requires k < |s| && s[k] == '\n' && FreeOfNewline(s, k)
    ensures Newline(s) == k
  {
    var m := Newline(s);
    assert m >= 0 && s[m] == '\n';
  }

  lemma {:induction false} SeenLine(l: seq<char>, tail: seq<char>)
    requires IsLine(l)
    ensures SeenLines(l + tail) == [l] + SeenLines(tail)
  {
    var s := l + tail;
    NewlineAt(s, |l| - 1);
    assert s[..|l|] == l && s[|l|..] == tail;
  }

  /** Lines cut off the front are the first lines seen, whatever follows them. */
  lemma {:induction false} SeenAfterCut(done: seq<seq<char>>, rest: seq<char>)
    requires forall l :: l in done ==> IsLine(l)
    ensures SeenLines(Flatten(done) + rest) == done + SeenLines(rest)
  {
    if done == [] {
      assert Flatten(done) + rest == rest;
    } else {
      var tail := Flatten(done[1..]) + rest;
      Assoc(done[0], Flatten(done[1..]), rest);
      SeenLine(done[0], tail);
      SeenAfterCut(done[1..], rest);
      assert done == [done[0]] + done[1..];
      Assoc([done[0]], done[1..], SeenLines(rest));
    }
  }

  /** The string routines meet the end of `s`, or a NUL, before any newline. */
  ghost predicate NoLine(s: seq<char>) {
    exists z :: 0 <= z <= |s| && (z < |s| ==> s[z] == '\0') && FreeOfNewline(s, z)
  }

  lemma ShowsNoLine(a: seq<char>, p: nat, z: nat, m: nat)
    requires p <= z <= m < |a| && a[z] == '\0' && Clear(a, p, z, '\n')
    ensures NoLine(a[p..m])
  {
    var s := a[p..m];
    assert FreeOfNewline(s, z - p) && (z - p < |s| ==> s[z - p] == '\0');
  }

  lemma NoLineSeesNothing(s: seq<char>, more: seq<char>)
    requires NoLine(s) && (more == [] || |s| >= BUFSZ - 1)
    ensures SeenLines(s + more) == []
  {
    var z :| 0 <= z <= |s| && (z < |s| ==> s[z] == '\0') && FreeOfNewline(s, z);
    var t := s + more;
    var k := Newline(t);
    if k >= 0 {
      assert k >= z;
      assert z < |s| ==> t[..k + 1][z] == '\0';
    }
  }

  // ---- the code ----

  datatype Outcome = Returned | Exited

  /** The global `buf` and the function `grep`. */
  class Filter {
    const buf: array<char>

    constructor ()
      ensures buf.Length == BUFSZ && fresh(buf)
    {
      buf := new char[BUFSZ];
    }

    /** `grep` (grep.c:15-38) writes exactly the selected lines among those it can see, in order, for
        every way `read` splits the input.  It leaves early only when `read` fails (it then has dealt
        with what was read) or when `write` fails. */
    method Grep(pattern: seq<char>, input: Input, output: Output) returns (r: Outcome, ghost failed: bool)
      requires CString(pattern) && buf.Length == BUFSZ && input.pos == 0
      modifies input, output, buf
      ensures input.pos <= |input.data|
      ensures r == Returned ==>
        var seen := SeenLines(if failed then input.data[..input.pos] else input.data);
        output.Has(old(output.written), old(output.shorts), Selected(pattern, seen))
      ensures r == Exited ==> exists lines :: (
        lines <= SeenLines(input.data) && output.Has(old(output.written), old(output.shorts), Selected(pattern, lines)))
    {
      var m := 0;
      ghost var done: seq<seq<char>> := [];
      failed := false;
      ghost var out0, short0 := output.written, output.shorts;
      WroteNothing(out0);
      assert FreeOfNewline(buf[..m], 0);
      while true
        invariant 0 <= m <= BUFSZ - 1 && input.pos <= |input.data|
        invariant Cut(done, input, buf[..m]) && NoLine(buf[..m])
        invariant output.Has(out0, short0, Selected(pattern, done))
        decreases |input.data| - input.pos
      {
        ghost var held := buf[..m];
        var n := input.Read(buf, m, BUFSZ - m - 1);
        if n <= 0 {
          failed := n < 0;
          Finish(done, input, held, failed);
          return Returned, failed;
        }
        CutRead(done, input, input.pos - n, held, buf[m..m + n]);
        assert buf[..m + n] == held + buf[m..m + n];
        ghost var all := buf[..m + n];
        m := m + n;
        buf[m] := '\0';
        assert buf[..m] == all;
        var p;
        r, p, done := Drain(pattern, m, input, output, done, out0, short0);
        if r == Exited {
          CutIsSeen(done, input, buf[p..m]);
          return Exited, false;
        }
        if m > 0 {
          m := Shift(p, m);
        }
      }
    }

    /** What is left moves to the front (grep.c:33-36). */
    method Shift(p: nat, m: nat) returns (left: nat)
      requires p <= m < buf.Length
      modifies buf
      ensures left == m - p && buf[..left] == old(buf[p..m])
    {
      left := m - p;
      ghost var rest := buf[p..p + left];
      MemMove(buf, 0, p, left);
      assert buf[..left] == rest;
    }

    /** More of the input is in the buffer. */
    lemma CutRead(done: seq<seq<char>>, input: Input, from: nat, held: seq<char>, piece: seq<char>)
      requires (forall l :: l in done ==> IsLine(l)) && from <= input.pos <= |input.data|
      requires input.data[..from] == Flatten(done) + held && piece == input.data[from..input.pos]
      ensures Cut(done, input, held + piece)
    {
      assert input.data[..input.pos] == input.data[..from] + piece;
      Assoc(Flatten(done), held, piece);
    }

    /** The inner loop (grep.c:23-32): takes every visible line out of `buf[..m]`. */
    method Drain(pattern: seq<char>, m: nat, input: Input, output: Output,
                 ghost done0: seq<seq<char>>, ghost out0: seq<seq<char>>, ghost short0: nat)
      returns (r: Outcome, p: nat, ghost done: seq<seq<char>>)
      requires CString(pattern) && buf.Length == BUFSZ && m <= BUFSZ - 1 && buf[m] == '\0'
      requires Cut(done0, input, buf[..m])
      requires output.Has(out0, short0, Selected(pattern, done0))
      modifies output, buf
      ensures p <= m && Cut(done, input, buf[p..m])
      ensures r == Returned ==> NoLine(buf[p..m])
      ensures output.Has(out0, short0, Selected(pattern, done))
    {
      p, done := 0, done0;
      var q := Look(p, m);
      while q >= 0
        invariant p <= m && Cut(done, input, buf[p..m]) && buf[m] == '\0'
        invariant Found(p, q, m)
        invariant output.Has(out0, short0, Selected(pattern, done))
        decreases m - p, q
      {
        var w;
        w, done := TakeLine(pattern, p, q, m, input, output, done, out0, short0);
        if w < 0 {
          return Exited, p, done;
        }
        p := q + 1;
        q := Look(p, m);
      }
      return Returned, p, done;
    }

    /** One turn of the loop (grep.c:25-31): a line leaves the buffer, for the output if it is selected. */
    method TakeLine(pattern: seq<char>, p: nat, q: nat, m: nat, input: Input, output: Output,
                    ghost done0: seq<seq<char>>, ghost out0: seq<seq<char>>, ghost short0: nat)
      returns (w: int, ghost done: seq<seq<char>>)
      requires CString(pattern) && buf.Length == BUFSZ && p <= q < m <= BUFSZ - 1
      requires buf[q] == '\n' && Clear(buf[..], p, q, '\n')
      requires Cut(done0, input, buf[p..m]) && output.Has(out0, short0, Selected(pattern, done0))
      modifies output, buf
      ensures Cut(done, input, if w < 0 then buf[p..m] else buf[q + 1..m])
      ensures output.Has(out0, short0, Selected(pattern, done)) && buf[m] == old(buf[m])
    {
      ghost var line := buf[p..q + 1];
      CutLine(done0, input, buf[..], p, q, m);
      SelectedOne(pattern, done0, line);
      w := Emit(pattern, p, q, m, output, out0, short0, Selected(pattern, done0));
      done := if w < 0 then done0 else done0 + [line];
    }

    /** One line (grep.c:25-30). */
    method Emit(pattern: seq<char>, p: nat, q: nat, m: nat, output: Output,
                ghost out0: seq<seq<char>>, ghost short0: nat, ghost lines: seq<seq<char>>)
      returns (w: int)
      requires CString(pattern) && p <= q < m < buf.Length && buf[q] == '\n' && Clear(buf[..], p, q, '\n')
      requires output.Has(out0, short0, lines)
      modifies output, buf
      ensures w < 0 ==> output.Has(out0, short0, lines) && buf[p..m] == old(buf[p..m])
      ensures w >= 0 ==> output.Has(out0, short0, lines + IfSelected(pattern, old(buf[p..q + 1])))
      ensures buf[q + 1..m] == old(buf[q + 1..m]) && buf[m] == old(buf[m])
    {
      ghost var line := buf[p..q + 1];
      assert line[..|line| - 1] == buf[p..q];
      buf[q] := '\0';
      var selected := Match(pattern, buf[p..q]);
      w := 0;
      if selected {
        buf[q] := '\n';
        assert buf[p..q + 1] == line;
        ghost var after, shorts := output.written, output.shorts;
        w := output.Write(buf[p..q + 1]);
        if w >= 0 {
          WroteMore(out0, after, lines, shorts == short0, line, w);
        }
        assert buf[..] == old(buf[..]);
      } else {
        assert lines + [] == lines;
      }
    }

    /** `q` is the end of the next line the string routines can see, or there is none and it is negative. */
    ghost predicate Found(p: nat, q: int, m: nat)
      requires p <= m < buf.Length
      reads buf
    {
      if q < 0 then NoLine(buf[p..m]) else p <= q < m && buf[q] == '\n' && Clear(buf[..], p, q, '\n')
    }

    /** The `strchr` of grep.c:24. */
    method Look(p: nat, m: nat) returns (q: int)
      requires p <= m < buf.Length && buf[m] == '\0'
      ensures Found(p, q, m)
    {
      q := StrChr(buf, p, '\n', m);
      if q < 0 {
        ghost var z: nat :| p <= z <= m && buf[z] == '\0' && Clear(buf[..], p, z, '\n');
        ShowsNoLine(buf[..], p, z, m);
        assert buf[..][p..m] == buf[p..m];
      }
    }

    /** What has been read is the lines taken out so far followed by what is still in the buffer. */
    ghost predicate Cut(done: seq<seq<char>>, input: Input, held: seq<char>)
      reads input
    {
      && (forall l :: l in done ==> IsLine(l))
      && input.pos <= |input.data|
      && input.data[..input.pos] == Flatten(done) + held
    }

    lemma CutIsSeen(done: seq<seq<char>>, input: Input, held: seq<char>)
      requires Cut(done, input, held)
      ensures done <= SeenLines(input.data)
    {
      var more := input.data[input.pos..];
      assert input.data == Flatten(done) + (held + more);
      SeenAfterCut(done, held + more);
    }

    lemma CutLine(done: seq<seq<char>>, input: Input, b: seq<char>, p: nat, q: nat, m: nat)
      requires p <= q < m < |b| && m <= BUFSZ - 1 && b[q] == '\n' && Clear(b, p, q, '\n')
      requires Cut(done, input, b[p..m])
      ensures Cut(done + [b[p..q + 1]], input, b[q + 1..m])
    {
      var line := b[p..q + 1];
      FlattenAppend(done, line);
      NewlineAt(line, q - p);
      assert b[p..m] == line + b[q + 1..m];
      assert IsLine(line);
    }

    lemma Finish(done: seq<seq<char>>, input: Input, held: seq<char>, failed: bool)
      requires Cut(done, input, held) && NoLine(held)
      requires failed || input.pos == |input.data| || |held| >= BUFSZ - 1
      ensures SeenLines(input.data[..input.pos]) == done
      ensures !failed ==> SeenLines(input.data) == done
    {
      NoLineSeesNothing(held, []);
      assert held + [] == held;
      SeenAfterCut(done, held);
      var more := input.data[input.pos..];
      assert input.data == Flatten(done) + (held + more);
      SeenAfterCut(done, held + more);
      if !failed {
        NoLineSeesNothing(held, more);
      }
    }
  }
}
