/** The pattern matcher of programs/grep/grep.c (lines 66-103), proved against the language its
    patterns denote.  A C string is the sequence of its characters before the NUL. */
module Regex {

  datatype Char = Exactly(c: char) | Any

  /** A pattern is a list of items. */
  datatype Item = One(ch: Char) | Star(ch: Char) | End

  /** The character at index `i` of a C string, the terminator included. */
  function At(s: seq<char>, i: nat): char
    requires i <= |s|
  {
    if i < |s| then s[i] else '\0'
  }

  ghost predicate CString(s: seq<char>) {
    '\0' !in s
  }

  function CharOf(c: char): Char {
    if c == '.' then Any else Exactly(c)
  }

  /** How the matcher reads a pattern: a character followed by `*` is a repetition, a `$` that ends the
      pattern is an anchor, and every other character stands for itself or, if `.`, for any. */
  function Parse(re: seq<char>): seq<Item>
    decreases |re|
  {
    if re == [] then []
    else if |re| > 1 && re[1] == '*' then [Star(CharOf(re[0]))] + Parse(re[2..])
    else if re == ['$'] then [End]
    else [One(CharOf(re[0]))] + Parse(re[1..])
  }

  predicate Accepts(ch: Char, c: char) {
    ch == Any || ch == Exactly(c)
  }

  ghost predicate AllAccepted(ch: Char, w: seq<char>) {
    forall i :: 0 <= i < |w| ==> Accepts(ch, w[i])
  }

  /** `w` is a word of the items' language, read with `rest` of the text still to come. */
  ghost predicate Denotes(items: seq<Item>, w: seq<char>, rest: seq<char>)
    decreases |items|
  {
    if items == [] then w == []
    else match items[0]
      case One(ch) => w != [] && Accepts(ch, w[0]) && Denotes(items[1..], w[1..], rest)
      case Star(ch) => exists k :: 0 <= k <= |w| && AllAccepted(ch, w[..k]) && Denotes(items[1..], w[k..], rest)
      case End => w == [] && rest == [] && Denotes(items[1..], w, rest)
  }

  /** Some prefix of `text` is a word of the pattern. */
  ghost predicate HasPrefix(items: seq<Item>, text: seq<char>) {
    exists n :: 0 <= n <= |text| && Denotes(items, text[..n], text[n..])
  }

  /** What `match` decides: with a leading `^` a prefix of the text itself must be a word of the rest
      of the pattern, otherwise a prefix of some suffix. */
  ghost predicate Selects(re: seq<char>, text: seq<char>) {
    if re != [] && re[0] == '^' then HasPrefix(Parse(re[1..]), text)
    else exists i :: 0 <= i <= |text| && HasPrefix(Parse(re), text[i..])
  }

  // ---- how a prefix is found, item by item ----

  lemma EmptyPattern(text: seq<char>)
    ensures HasPrefix([], text)
  {
    assert Denotes([], text[..0], text[0..]);
  }

  lemma EndPattern(text: seq<char>)
    ensures HasPrefix([End], text) <==> text == []
  {
    if text == [] {
      assert Denotes([], [], []);
      assert Denotes([End], text[..0], text[0..]);
    }
  }

  lemma OnePattern(ch: Char, items: seq<Item>, text: seq<char>)
    ensures HasPrefix([One(ch)] + items, text)
        <==> text != [] && Accepts(ch, text[0]) && HasPrefix(items, text[1..])
  {
    var all := [One(ch)] + items;
    assert all[1..] == items;
    if HasPrefix(all, text) {
      var n :| 0 <= n <= |text| && Denotes(all, text[..n], text[n..]);
      assert text[..n][1..] == text[1..][..n - 1] && text[n..] == text[1..][n - 1..];
    }
    if text != [] && Accepts(ch, text[0]) && HasPrefix(items, text[1..]) {
      var n :| 0 <= n <= |text| - 1 && Denotes(items, text[1..][..n], text[1..][n..]);
      assert text[..n + 1][1..] == text[1..][..n] && text[n + 1..] == text[1..][n..];
      assert Denotes(all, text[..n + 1], text[n + 1..]);
    }
  }

  lemma StarPattern(ch: Char, items: seq<Item>, text: seq<char>)
    ensures HasPrefix([Star(ch)] + items, text)
        <==> exists k :: 0 <= k <= |text| && AllAccepted(ch, text[..k]) && HasPrefix(items, text[k..])
  {
    var all := [Star(ch)] + items;
    assert all[1..] == items;
    if HasPrefix(all, text) {
      var n :| 0 <= n <= |text| && Denotes(all, text[..n], text[n..]);
      var k :| 0 <= k <= n && AllAccepted(ch, text[..n][..k]) && Denotes(items, text[..n][k..], text[n..]);
      assert text[..n][..k] == text[..k];
      assert text[..n][k..] == text[k..][..n - k] && text[n..] == text[k..][n - k..];
      assert HasPrefix(items, text[k..]);
    }
    if exists k :: 0 <= k <= |text| && AllAccepted(ch, text[..k]) && HasPrefix(items, text[k..]) {
      var k :| 0 <= k <= |text| && AllAccepted(ch, text[..k]) && HasPrefix(items, text[k..]);
      var m :| 0 <= m <= |text| - k && Denotes(items, text[k..][..m], text[k..][m..]);
      var n := k + m;
      assert text[..n][..k] == text[..k];
      assert text[..n][k..] == text[k..][..m] && text[n..] == text[k..][m..];
      assert Denotes(all, text[..n], text[n..]);
    }
  }

  // ---- the code ----

  /** `match` (grep.c:73-81) decides exactly what the pattern denotes. */
  method Match(re: seq<char>, text: seq<char>) returns (b: bool)
    requires CString(re) && CString(text)
    ensures b <==> Selects(re, text)
  {
    if At(re, 0) == '^' {
      b := MatchHere(re, 1, text, 0);
      assert text[0..] == text;
      return;
    }
    assert re[0..] == re;
    var t := 0;
    while true
      invariant 0 <= t <= |text|
      invariant forall i :: 0 <= i < t ==> !HasPrefix(Parse(re), text[i..])
      decreases |text| - t
    {
      var here := MatchHere(re, 0, text, t);
      if here {
        return true;
      }
      if At(text, t) == '\0' {
        break;
      }
      t := t + 1;
    }
    return false;
  }

  /** `matchhere` (grep.c:84-94) on the pattern from index `r` and the text from index `t`. */
  method MatchHere(re: seq<char>, r: nat, text: seq<char>, t: nat) returns (b: bool)
    requires CString(re) && CString(text) && r <= |re| && t <= |text|
    ensures b <==> HasPrefix(Parse(re[r..]), text[t..])
    decreases |re| - r, 0
  {
    ghost var pat, txt := re[r..], text[t..];
    if At(re, r) == '\0' {
      EmptyPattern(txt);
      return true;
    }
    if At(re, r + 1) == '*' {
      b := MatchStar(re[r], re, r + 2, text, t);
      StarPattern(CharOf(re[r]), Parse(re[r + 2..]), txt);
      assert pat[2..] == re[r + 2..];
      return;
    }
    if re[r] == '$' && At(re, r + 1) == '\0' {
      EndPattern(txt);
      assert pat == ['$'];
      return At(text, t) == '\0';
    }
    OnePattern(CharOf(re[r]), Parse(re[r + 1..]), txt);
    assert pat[1..] == re[r + 1..];
    if At(text, t) != '\0' && (re[r] == '.' || re[r] == text[t]) {
      assert txt[1..] == text[t + 1..];
      b := MatchHere(re, r + 1, text, t + 1);
      return;
    }
    return false;
  }

  /** `matchstar` (grep.c:97-103): zero or more of `c`, then the pattern from index `r`. */
  method MatchStar(c: char, re: seq<char>, r: nat, text: seq<char>, t0: nat) returns (b: bool)
    requires CString(re) && CString(text) && r <= |re| && t0 <= |text|
    ensures b <==> exists k :: (
      0 <= k <= |text| - t0 && AllAccepted(CharOf(c), text[t0..][..k]) && HasPrefix(Parse(re[r..]), text[t0..][k..]))
    decreases |re| - r, 1
  {
    var t := t0;
    ghost var txt, ch := text[t0..], CharOf(c);
    while true
      invariant t0 <= t <= |text|
      invariant AllAccepted(ch, txt[..t - t0])
      invariant forall k :: 0 <= k < t - t0 ==> !HasPrefix(Parse(re[r..]), txt[k..])
      decreases |text| - t
    {
      var here := MatchHere(re, r, text, t);
      assert txt[t - t0..] == text[t..];
      if here {
        return true;
      }
      if At(text, t) == '\0' {
        break;
      }
      assert text[t] == txt[t - t0];
      if !(text[t] == c || c == '.') {
        forall k | t - t0 < k <= |txt|
          ensures !AllAccepted(ch, txt[..k])
        {
          assert txt[..k][t - t0] == text[t];
        }
        break;
      }
      t := t + 1;
    }
    return false;
  }

  // ---- a pattern without operators is a substring search ----

  ghost predicate Plain(re: seq<char>) {
    forall i :: 0 <= i < |re| ==> re[i] != '.' && re[i] != '*' && re[i] != '$' && re[i] != '^'
  }

  lemma {:induction false} PlainPrefix(re: seq<char>, text: seq<char>)
    requires Plain(re)
    ensures HasPrefix(Parse(re), text) <==> re <= text
  {
    if re == [] {
      EmptyPattern(text);
    } else {
      OnePattern(Exactly(re[0]), Parse(re[1..]), text);
      if text != [] {
        PlainPrefix(re[1..], text[1..]);
        assert re == [re[0]] + re[1..] && text == [text[0]] + text[1..];
        if re <= text {
          assert re[1..] == text[..|re|][1..] == text[1..][..|re| - 1];
        }
      }
    }
  }

  lemma PlainIsSubstring(re: seq<char>, text: seq<char>)
    requires Plain(re)
    ensures Selects(re, text) <==> exists i :: 0 <= i <= |text| && re <= text[i..]
  {
    forall i | 0 <= i <= |text|
      ensures HasPrefix(Parse(re), text[i..]) <==> re <= text[i..]
    {
      PlainPrefix(re, text[i..]);
    }
  }

  // ---- what patterns select, without parsing them ----

  /** The first `k` characters are all `c`, or anything if `c` is a dot. */
  ghost predicate Run(c: char, text: seq<char>, k: nat) {
    k <= |text| && forall i :: 0 <= i < k ==> c == '.' || text[i] == c
  }

  lemma AnchoredParse(re: seq<char>, text: seq<char>)
    ensures Selects(['^'] + re, text) <==> HasPrefix(Parse(re), text)
  {
    assert (['^'] + re)[1..] == re;
  }

  /** A pattern that does not begin with `^` may match anywhere. */
  lemma Unanchored(re: seq<char>, text: seq<char>)
    requires re == [] || re[0] != '^'
    ensures Selects(re, text) <==> exists i :: 0 <= i <= |text| && Selects(['^'] + re, text[i..])
  {
    forall i | 0 <= i <= |text|
      ensures Selects(['^'] + re, text[i..]) <==> HasPrefix(Parse(re), text[i..])
    {
      AnchoredParse(re, text[i..]);
    }
  }

  /** `^` alone selects every text, and `^$` the empty one. */
  lemma AnchorsAlone(text: seq<char>)
    ensures Selects(['^'], text) && (Selects(['^', '$'], text) <==> text == [])
  {
    EmptyPattern(text);
    EndPattern(text);
    AnchoredParse([], text);
    AnchoredParse(['$'], text);
    assert ['^'] + [] == ['^'] && ['^'] + ['$'] == ['^', '$'];
  }

  /** A character followed by `*`: the rest matches after some run of it. */
  lemma StarSelects(c: char, re: seq<char>, text: seq<char>)
    ensures Selects(['^', c, '*'] + re, text) <==>
      exists k :: 0 <= k <= |text| && Run(c, text, k) && Selects(['^'] + re, text[k..])
  {
    var all := [c, '*'] + re;
    assert ['^', c, '*'] + re == ['^'] + all && all[2..] == re;
    AnchoredParse(all, text);
    StarPattern(CharOf(c), Parse(re), text);
    forall k | 0 <= k <= |text|
      ensures Run(c, text, k) <==> AllAccepted(CharOf(c), text[..k])
      ensures Selects(['^'] + re, text[k..]) <==> HasPrefix(Parse(re), text[k..])
    {
      AnchoredParse(re, text[k..]);
      assert Run(c, text, k) ==> forall i :: 0 <= i < k ==> text[..k][i] == text[i];
      assert AllAccepted(CharOf(c), text[..k]) ==> forall i :: 0 <= i < k ==> Accepts(CharOf(c), text[..k][i]);
    }
  }

  /** Any other character, a `$` that is not the last included: it is the first of the text, or a dot and there
      is one, and the rest matches behind it. */
  lemma CharSelects(c: char, re: seq<char>, text: seq<char>)
    requires (re == [] || re[0] != '*') && !(c == '$' && re == [])
    ensures Selects(['^', c] + re, text) <==>
      text != [] && (c == '.' || text[0] == c) && Selects(['^'] + re, text[1..])
  {
    var all := [c] + re;
    assert ['^', c] + re == ['^'] + all && all[1..] == re;
    assert |all| > 1 ==> all[1] == re[0];
    assert all != ['$'] by {
      assert all[0] == c && |all| == 1 + |re|;
    }
    AnchoredParse(all, text);
    OnePattern(CharOf(c), Parse(re), text);
    if text != [] {
      AnchoredParse(re, text[1..]);
    }
  }

  /** No repetition, and no `$` at the end. */
  ghost predicate Simple(re: seq<char>) {
    (forall i :: 0 <= i < |re| ==> re[i] != '*') && (re != [] ==> re[|re| - 1] != '$')
  }

  /** `text` begins with `re`, dots standing for anything. */
  ghost predicate Begins(re: seq<char>, text: seq<char>) {
    |re| <= |text| && forall i :: 0 <= i < |re| ==> re[i] == '.' || text[i] == re[i]
  }

  lemma BeginsStep(re: seq<char>, text: seq<char>)
    requires re != []
    ensures Begins(re, text) <==> text != [] && (re[0] == '.' || text[0] == re[0]) && Begins(re[1..], text[1..])
  {
    if text != [] && Begins(re[1..], text[1..]) && (re[0] == '.' || text[0] == re[0]) {
      forall i | 0 <= i < |re|
        ensures re[i] == '.' || text[i] == re[i]
      {
        assert i > 0 ==> re[1..][i - 1] == re[i] && text[1..][i - 1] == text[i];
      }
    }
  }

  /** Anchored at the start a pattern of characters and dots is a prefix of the text; anchored at both ends it is
      the text. */
  lemma {:induction false} SimpleSelects(re: seq<char>, text: seq<char>)
    requires Simple(re)
    ensures Selects(['^'] + re, text) <==> Begins(re, text)
    ensures Selects(['^'] + re + ['$'], text) <==> |re| == |text| && Begins(re, text)
    decreases |re|
  {
    if re == [] {
      AnchorsAlone(text);
      assert ['^'] + re == ['^'] && ['^'] + re + ['$'] == ['^', '$'];
    } else {
      var c, rest := re[0], re[1..];
      BeginsStep(re, text);
      CharSelects(c, rest, text);
      CharSelects(c, rest + ['$'], text);
      assert ['^', c] + rest == ['^'] + re && ['^', c] + (rest + ['$']) == ['^'] + re + ['$'];
      if text != [] {
        SimpleSelects(rest, text[1..]);
        assert ['^'] + (rest + ['$']) == ['^'] + rest + ['$'];
      }
    }
  }

  /** Not anchored at the start it is somewhere in the text, and with a `$` behind it at its end. */
  lemma SimpleSelectsAnywhere(re: seq<char>, text: seq<char>)
    requires Simple(re) && re != [] && re[0] != '^'
    ensures Selects(re, text) <==> exists i :: 0 <= i <= |text| && Begins(re, text[i..])
    ensures Selects(re + ['$'], text) <==> |re| <= |text| && Begins(re, text[|text| - |re|..])
  {
    var all := re + ['$'];
    Unanchored(re, text);
    Unanchored(all, text);
    forall i | 0 <= i <= |text|
      ensures Selects(['^'] + re, text[i..]) <==> Begins(re, text[i..])
      ensures Selects(['^'] + all, text[i..]) <==> |re| == |text| - i && Begins(re, text[i..])
    {
      SimpleSelects(re, text[i..]);
      assert ['^'] + all == ['^'] + re + ['$'];
    }
  }
}
