/** Names, queries and responses of programs/dnsstress/dnsstress.c:143-265, against the message format of
    sections 3.1 and 4.1 of RFC 1035. */
module Dns {
  import opened Wrappers

  newtype byte = b: int | 0 <= b < 256

  const DOT: byte := 46

  function Get16(m: seq<byte>, at: nat): nat
    requires at + 2 <= |m|
  {
    m[at] as nat * 256 + m[at + 1] as nat
  }

  // ---- host names ----

  function FirstDot(s: seq<byte>): (k: nat)
    ensures k <= |s| && (k < |s| ==> s[k] == DOT)
  {
    if s == [] || s[0] == DOT then 0 else 1 + FirstDot(s[1..])
  }

  /** The pieces of a host name between its dots; there is always at least one. */
  function Labels(host: seq<byte>): seq<seq<byte>> {
    var k := FirstDot(host);
    if k == |host| then [host] else [host[..k]] + Labels(host[k + 1..])
  }

  function Dotted(labels: seq<seq<byte>>): seq<byte> {
    if labels == [] then []
    else if |labels| == 1 then labels[0]
    else labels[0] + [DOT] + Dotted(labels[1..])
  }

  predicate LabelOk(l: seq<byte>) {
    1 <= |l| <= 63
  }

  predicate LabelsOk(labels: seq<seq<byte>>) {
    forall i :: 0 <= i < |labels| ==> LabelOk(labels[i])
  }

  predicate Dotless(s: seq<byte>) {
    forall i :: 0 <= i < |s| ==> s[i] != DOT
  }

  /** A label as section 3.1 writes it: a length octet, then that many octets. */
  function Spell(l: seq<byte>): seq<byte> {
    [(|l| % 256) as byte] + l
  }

  function Spelled(labels: seq<seq<byte>>): seq<byte> {
    if labels == [] then [] else Spell(labels[0]) + Spelled(labels[1..])
  }

  datatype Name = Name(labels: seq<seq<byte>>, end: nat)

  /** How section 3.1 reads a name that is not compressed: its labels, and where it ends. */
  function ReadName(m: seq<byte>, off: nat): Option<Name>
    decreases |m| - off
  {
    if off >= |m| || m[off] > 63 || off + 1 + m[off] as nat > |m| then None
    else if m[off] == 0 then Some(Name([], off + 1))
    else match ReadName(m, off + 1 + m[off] as nat)
      case None => None
      case Some(rest) => Some(Name([m[off + 1..off + 1 + m[off] as nat]] + rest.labels, rest.end))
  }

  lemma {:induction false} FirstDotAfter(s: seq<byte>, t: seq<byte>)
    requires Dotless(s) && (t == [] || t[0] == DOT)
    ensures FirstDot(s + t) == |s|
  {
    if s != [] {
      assert (s + t)[1..] == s[1..] + t;
      FirstDotAfter(s[1..], t);
    }
  }

  lemma FirstLabel(s: seq<byte>, t: seq<byte>)
    requires Dotless(s)
    ensures Labels(s) == [s] && Labels(s + [DOT] + t) == [s] + Labels(t)
  {
    FirstDotAfter(s, []);
    assert s + [] == s;
    FirstDotAfter(s, [DOT] + t);
    var h := s + [DOT] + t;
    assert h == s + ([DOT] + t) && h[..|s|] == s && h[|s| + 1..] == t;
  }

  /** Joining the labels with dots gives the host back. */
  lemma {:induction false} DottedLabels(host: seq<byte>)
    ensures Labels(host) != [] && Dotted(Labels(host)) == host
    decreases |host|
  {
    var k := FirstDot(host);
    if k < |host| {
      var l, rest := host[..k], host[k + 1..];
      DottedLabels(rest);
      assert ([l] + Labels(rest))[1..] == Labels(rest);
      assert host == l + [DOT] + rest;
    }
  }

  lemma {:induction false} SpelledAdds(labels: seq<seq<byte>>, l: seq<byte>)
    ensures Spelled(labels + [l]) == Spelled(labels) + Spell(l)
  {
    if labels == [] {
      assert [] + [l] == [l] && [l][1..] == [];
    } else {
      assert (labels + [l])[1..] == labels[1..] + [l];
      SpelledAdds(labels[1..], l);
      assert Spelled(labels + [l]) == Spell(labels[0]) + Spelled(labels[1..] + [l]);
    }
  }

  /** A spelt name takes one octet for every character, one for the first label's length and one for the
      end. */
  lemma {:induction false} SpelledLength(labels: seq<seq<byte>>)
    requires labels != []
    ensures |Spelled(labels)| == |Dotted(labels)| + 1
    decreases |labels|
  {
    if |labels| > 1 {
      SpelledLength(labels[1..]);
    }
  }

  /** Reading a spelt name returns its labels, wherever it stands. */
  lemma {:induction false} ReadBack(m: seq<byte>, off: nat, labels: seq<seq<byte>>, end: nat)
    requires LabelsOk(labels) && off + |Spelled(labels)| + 1 == end <= |m|
    requires m[off..end] == Spelled(labels) + [0]
    ensures ReadName(m, off) == Some(Name(labels, end))
    decreases |labels|
  {
    if labels == [] {
      assert m[off..end][0] == 0;
    } else {
      var l, rest := labels[0], labels[1..];
      assert LabelOk(l);
      FirstSpelt(m, off, l, Spelled(rest), end);
      ReadBack(m, off + 1 + |l|, rest, end);
      assert labels == [l] + rest;
    }
  }

  lemma SliceOfSlice(m: seq<byte>, off: nat, end: nat, a: nat, b: nat)
    requires off <= end <= |m| && a <= b <= end - off
    ensures m[off..end][a..b] == m[off + a..off + b]
  {
    var w := m[off..end];
    assert forall k :: 0 <= k < b - a ==> w[a..b][k] == w[a + k] == m[off + a + k];
  }

  lemma FirstSpelt(m: seq<byte>, off: nat, l: seq<byte>, rest: seq<byte>, end: nat)
    requires LabelOk(l) && off + |Spell(l)| + |rest| + 1 == end <= |m| && m[off..end] == Spell(l) + rest + [0]
    ensures m[off] as nat == |l| && m[off + 1..off + 1 + |l|] == l && m[off + 1 + |l|..end] == rest + [0]
  {
    var w := m[off..end];
    assert w == [|l| as byte] + l + (rest + [0]);
    assert m[off] == w[0];
    SliceOfSlice(m, off, end, 1, 1 + |l|);
    assert w[1..1 + |l|] == l;
    SliceOfSlice(m, off, end, 1 + |l|, |w|);
    assert w[1 + |l|..|w|] == rest + [0];
  }

  // ---- writing names and queries (dnsstress.c:166-211) ----

  /** The octets `p` stand at `at`. */
  ghost predicate Holds(b: seq<byte>, at: nat, p: seq<byte>) {
    p == [] || (at + |p| <= |b| && b[at..at + |p|] == p)
  }

  lemma HoldsElsewhere(b: seq<byte>, at: nat, p: seq<byte>, k: nat, v: byte)
    requires Holds(b, at, p) && k < |b| && (k < at || at + |p| <= k)
    ensures Holds(b[k := v], at, p)
  {
    if p != [] {
      assert b[k := v][at..at + |p|] == b[at..at + |p|];
    }
  }

  lemma HoldsJoined(b: seq<byte>, at: nat, p: seq<byte>, q: seq<byte>)
    requires Holds(b, at, p) && Holds(b, at + |p|, q)
    ensures Holds(b, at, p + q)
  {
    if p != [] && q != [] {
      var end := at + |p| + |q|;
      assert b[at..end] == b[at..at + |p|] + b[at + |p|..end];
    }
  }

  lemma HoldsOne(b: seq<byte>, at: nat)
    requires at < |b|
    ensures Holds(b, at, [b[at]])
  {
  }

  lemma NameEnds(b: seq<byte>, start: nat, p: seq<byte>, off: nat)
    requires Holds(b, start, p) && start + |p| == off < |b|
    ensures Holds(b[off := 0], start, p + [0])
  {
    HoldsElsewhere(b, start, p, off, 0);
    HoldsOne(b[off := 0], off);
    HoldsJoined(b[off := 0], start, p, [0]);
  }

  ghost predicate SameOutside(a: seq<byte>, b: seq<byte>, lo: nat, hi: nat) {
    |a| == |b| && forall k :: 0 <= k < |a| && (k < lo || k >= hi) ==> a[k] == b[k]
  }

  lemma SetInside(a: seq<byte>, b: seq<byte>, lo: nat, hi: nat, k: nat, v: byte)
    requires SameOutside(a, b, lo, hi) && lo <= k < hi && k < |b|
    ensures SameOutside(a, b[k := v], lo, hi)
  {
  }

  /** `i` characters of the host are done: the labels `spelt` are complete and `cur` is what there is of
      the next one. */
  ghost predicate Progress(host: seq<byte>, i: nat, spelt: seq<seq<byte>>, cur: seq<byte>) {
    && i <= |host| && LabelsOk(spelt) && Dotless(cur) && |Spelled(spelt)| + |cur| == i
    && Labels(host) == spelt + Labels(cur + host[i..])
  }

  /** The complete labels stand at `start`, the next one after them with a gap for its length octet. */
  ghost predicate Placed(b: seq<byte>, start: nat, p: seq<byte>, cur: seq<byte>) {
    Holds(b, start, p) && Holds(b, start + |p| + 1, cur)
  }

  /** The buffer held `b0` and now holds `b`. */
  ghost predicate Writing(b0: seq<byte>, b: seq<byte>, start: nat, host: seq<byte>, i: nat, spelt: seq<seq<byte>>,
                          cur: seq<byte>) {
    && Progress(host, i, spelt, cur) && Placed(b, start, Spelled(spelt), cur)
    && SameOutside(b0, b, start, start + |host| + 2)
  }

  lemma WritingStarts(b: seq<byte>, start: nat, host: seq<byte>)
    ensures Writing(b, b, start, host, 0, [], [])
  {
    assert [] + Labels(host) == Labels(host) && [] + host[0..] == host;
  }

  lemma CharPlaced(b: seq<byte>, start: nat, p: seq<byte>, cur: seq<byte>, at: nat, c: byte)
    requires Placed(b, start, p, cur) && at == start + |p| + 1 + |cur| < |b|
    ensures Placed(b[at := c], start, p, cur + [c])
  {
    HoldsElsewhere(b, start, p, at, c);
    HoldsElsewhere(b, at - |cur|, cur, at, c);
    HoldsOne(b[at := c], at);
    HoldsJoined(b[at := c], at - |cur|, cur, [c]);
  }

  lemma CharWritten(b0: seq<byte>, b: seq<byte>, start: nat, host: seq<byte>, i: nat, spelt: seq<seq<byte>>,
                    cur: seq<byte>, at: nat)
    requires Writing(b0, b, start, host, i, spelt, cur) && i < |host| && host[i] != DOT && at == start + 1 + i < |b|
    ensures Writing(b0, b[at := host[i]], start, host, i + 1, spelt, cur + [host[i]])
  {
    CharPlaced(b, start, Spelled(spelt), cur, at, host[i]);
    assert cur + host[i..] == cur + [host[i]] + host[i + 1..];
    SetInside(b0, b, start, start + |host| + 2, at, host[i]);
  }

  lemma LastLabel(host: seq<byte>, spelt: seq<seq<byte>>, cur: seq<byte>)
    requires Dotless(cur) && Labels(host) == spelt + Labels(cur + host[|host|..])
    ensures Labels(host) == spelt + [cur]
  {
    assert cur + host[|host|..] == cur;
    FirstLabel(cur, []);
  }

  lemma LabelAtDot(host: seq<byte>, i: nat, spelt: seq<seq<byte>>, cur: seq<byte>, rest: seq<byte>)
    requires i < |host| && host[i] == DOT && rest == host[i + 1..]
    requires Dotless(cur) && Labels(host) == spelt + Labels(cur + host[i..])
    ensures Labels(host) == spelt + [cur] + Labels([] + rest)
  {
    assert cur + host[i..] == cur + [DOT] + rest;
    assert [] + rest == rest;
    FirstLabel(cur, rest);
    Assoc(spelt, [cur], Labels(rest));
  }

  lemma Among(before: seq<seq<byte>>, l: seq<byte>, after: seq<seq<byte>>)
    requires LabelsOk(before + [l] + after)
    ensures LabelOk(l)
  {
    assert (before + [l] + after)[|before|] == l;
  }

  /** Where a label ends, with the host or at a dot, it is one of the host's labels. */
  lemma BadLabel(host: seq<byte>, i: nat, spelt: seq<seq<byte>>, cur: seq<byte>)
    requires Progress(host, i, spelt, cur) && (i == |host| || host[i] == DOT)
    ensures LabelsOk(Labels(host)) ==> LabelOk(cur)
  {
    if LabelsOk(Labels(host)) {
      if i == |host| {
        LastLabel(host, spelt, cur);
        assert spelt + [cur] + [] == spelt + [cur];
        Among(spelt, cur, []);
      } else {
        LabelAtDot(host, i, spelt, cur, host[i + 1..]);
        Among(spelt, cur, Labels([] + host[i + 1..]));
      }
    }
  }

  lemma LabelPlaced(b: seq<byte>, start: nat, p: seq<byte>, cur: seq<byte>, octet: byte, at: nat)
    requires Placed(b, start, p, cur) && LabelOk(cur) && octet as nat == |cur| && at == start + |p| < |b|
    ensures Holds(b[at := octet], start, p + Spell(cur))
  {
    var b' := b[at := octet];
    HoldsElsewhere(b, start, p, at, octet);
    HoldsElsewhere(b, at + 1, cur, at, octet);
    HoldsOne(b', at);
    HoldsJoined(b', at, [octet], cur);
    assert Spell(cur) == [octet] + cur;
    HoldsJoined(b', start, p, Spell(cur));
  }

  lemma DotWritten(b0: seq<byte>, b: seq<byte>, start: nat, host: seq<byte>, i: nat, spelt: seq<seq<byte>>,
                   cur: seq<byte>, octet: byte, at: nat)
    requires Writing(b0, b, start, host, i, spelt, cur) && LabelOk(cur)
    requires octet as nat == |cur| && at == start + i - |cur| < |b|
    requires i < |host| && host[i] == DOT
    ensures Writing(b0, b[at := octet], start, host, i + 1, spelt + [cur], [])
  {
    LabelPlaced(b, start, Spelled(spelt), cur, octet, at);
    SpelledAdds(spelt, cur);
    LabelAtDot(host, i, spelt, cur, host[i + 1..]);
    SetInside(b0, b, start, start + |host| + 2, at, octet);
  }

  lemma EndWritten(b0: seq<byte>, b: seq<byte>, start: nat, host: seq<byte>, spelt: seq<seq<byte>>, cur: seq<byte>,
                   octet: byte, at: nat, off: nat)
    requires Writing(b0, b, start, host, |host|, spelt, cur) && LabelOk(cur) && octet as nat == |cur|
    requires at == start + |host| - |cur| && off == start + 1 + |host| < |b|
    ensures var b' := b[at := octet][off := 0];
      LabelsOk(Labels(host)) && Holds(b', start, Spelled(Labels(host)) + [0]) && SameOutside(b0, b', start, off + 1)
  {
    LabelPlaced(b, start, Spelled(spelt), cur, octet, at);
    SpelledAdds(spelt, cur);
    LastLabel(host, spelt, cur);
    NameEnds(b[at := octet], start, Spelled(Labels(host)), off);
  }

  /** The labels have 1 to 63 octets each and the name fits a buffer of `cap`. */
  predicate Putable(host: seq<byte>, start: nat, cap: nat) {
    LabelsOk(Labels(host)) && start + |host| + 2 <= cap
  }

  /** A character of a label (dnsstress.c:186-189). */
  method PutChar(buf: array<byte>, start: nat, host: seq<byte>, i: nat, off: nat,
                 ghost b0: seq<byte>, ghost spelt: seq<seq<byte>>, ghost cur: seq<byte>)
    returns (ghost longer: seq<byte>)
    requires Writing(b0, buf[..], start, host, i, spelt, cur)
    requires i < |host| && host[i] != DOT && off == start + 1 + i < buf.Length
    modifies buf
    ensures |longer| == |cur| + 1 && Writing(b0, buf[..], start, host, i + 1, spelt, longer)
  {
    ghost var b := buf[..];
    CharWritten(b0, b, start, host, i, spelt, cur, off);
    longer := cur + [host[i]];
    buf[off] := host[i];
    assert buf[..] == b[off := host[i]];
  }

  /** The length octet of a label that ends at a dot (dnsstress.c:176, 183-184). */
  method EndLabel(buf: array<byte>, start: nat, host: seq<byte>, i: nat, labelStart: nat, octet: byte,
                  ghost b0: seq<byte>, ghost spelt: seq<seq<byte>>, ghost cur: seq<byte>)
    returns (ghost more: seq<seq<byte>>)
    requires Writing(b0, buf[..], start, host, i, spelt, cur) && LabelOk(cur) && octet as nat == |cur|
    requires i < |host| && host[i] == DOT && labelStart == start + i - |cur| < buf.Length
    modifies buf
    ensures Writing(b0, buf[..], start, host, i + 1, more, [])
  {
    more := spelt + [cur];
    ghost var b := buf[..];
    DotWritten(b0, b, start, host, i, spelt, cur, octet, labelStart);
    buf[labelStart] := octet;
    assert buf[..] == b[labelStart := octet];
  }

  /** The last length octet and the zero octet (dnsstress.c:176-182). */
  method EndName(buf: array<byte>, start: nat, host: seq<byte>, labelStart: nat, octet: byte, off: nat,
                 ghost b0: seq<byte>, ghost spelt: seq<seq<byte>>, ghost cur: seq<byte>)
    returns (ret: int)
    requires Writing(b0, buf[..], start, host, |host|, spelt, cur) && LabelOk(cur) && octet as nat == |cur|
    requires labelStart == start + |host| - |cur| < buf.Length && off == start + 1 + |host|
    modifies buf
    ensures ret >= 0 <==> off < buf.Length
    ensures ret >= 0 ==> ret == off + 1 && LabelsOk(Labels(host)) && Holds(buf[..], start, Spelled(Labels(host)) + [0])
    ensures SameOutside(b0, buf[..], start, off + 1)
  {
    ghost var b := buf[..];
    buf[labelStart] := octet;
    assert buf[..] == b[labelStart := octet];
    if off >= buf.Length {
      SetInside(b0, b, start, off + 1, labelStart, octet);
      return -1;
    }
    EndWritten(b0, b, start, host, spelt, cur, octet, labelStart, off);
    buf[off] := 0;
    assert buf[..] == b[labelStart := octet][off := 0];
    return off + 1;
  }

  /** Succeeds exactly if every label has 1 to 63 octets and the name fits, and then writes the labels as
      section 3.1 asks; nothing else but the room of the name is written. */
  method PutQname(buf: array<byte>, start: nat, host: seq<byte>) returns (ret: int)
    modifies buf
    ensures ret >= 0 <==> Putable(host, start, buf.Length)
    ensures ret >= 0 ==> ret == start + |host| + 2 && Holds(buf[..], start, Spelled(Labels(host)) + [0])
    ensures SameOutside(old(buf[..]), buf[..], start, start + |host| + 2)
  {
    var labelStart: nat, off: nat, labelLen: nat, i: nat := start, start + 1, 0, 0;
    ghost var spelt: seq<seq<byte>>, cur: seq<byte> := [], [];
    ghost var b0 := buf[..];
    WritingStarts(b0, start, host);
    while true
      invariant i <= |host| && off == start + 1 + i && labelLen == |cur| && labelStart + 1 + labelLen == off
      invariant Writing(b0, buf[..], start, host, i, spelt, cur)
      decreases |host| - i
    {
      if i == |host| || host[i] == DOT {
        if labelLen == 0 || labelLen > 63 || labelStart >= buf.Length {
          BadLabel(host, i, spelt, cur);
          return -1;
        }
        if i == |host| {
          ret := EndName(buf, start, host, labelStart, labelLen as byte, off, b0, spelt, cur);
          return;
        }
        spelt := EndLabel(buf, start, host, i, labelStart, labelLen as byte, b0, spelt, cur);
        labelStart, off, labelLen := off, off + 1, 0;
        cur := [];
        assert Writing(b0, buf[..], start, host, i + 1, spelt, cur);
      } else {
        if off >= buf.Length {
          return -1;
        }
        cur := PutChar(buf, start, host, i, off, b0, spelt, cur);
        off, labelLen := off + 1, labelLen + 1;
        assert Writing(b0, buf[..], start, host, i + 1, spelt, cur);
      }
      i := i + 1;
    }
  }

  function Octets(v: nat): seq<byte>
    requires v < 0x10000
  {
    [(v / 256) as byte, (v % 256) as byte]
  }

  /** A query as section 4.1 lays it out: header with recursion desired and one question, the name, type
      and class IN. */
  function Query(id: nat, host: seq<byte>, qtype: nat): seq<byte>
    requires id < 0x10000 && qtype < 0x10000
  {
    Octets(id) + [1, 0, 0, 1, 0, 0, 0, 0, 0, 0] + (Spelled(Labels(host)) + [0]) + (Octets(qtype) + [0, 1])
  }

  /** Succeeds exactly if the name is one and everything fits. */
  method MakeQuery(buf: array<byte>, id: nat, host: seq<byte>, qtype: nat) returns (ret: int)
    requires 6 <= buf.Length && id < 0x10000 && qtype < 0x10000
    modifies buf
    ensures ret >= 0 <==> Putable(host, 16, buf.Length)
    ensures ret >= 0 ==> ret == |host| + 18 && buf[..ret] == Query(id, host, qtype)
  {
    ClearBuffer(buf);
    buf[0] := (id / 256) as byte;
    buf[1] := (id % 256) as byte;
    buf[2] := 1;
    buf[5] := 1;
    ghost var b := buf[..];
    var off := PutQname(buf, 12, host);
    if off < 0 || off + 4 > buf.Length {
      return -1;
    }
    ghost var b' := buf[..];
    buf[off] := (qtype / 256) as byte;
    buf[off + 1] := (qtype % 256) as byte;
    buf[off + 2] := 0;
    buf[off + 3] := 1;
    assert buf[..off] == b'[..off];
    QueryWritten(b, b', buf[..], id, host, qtype, off);
    return off + 4;
  }

  method ClearBuffer(buf: array<byte>)
    modifies buf
    ensures forall k :: 0 <= k < buf.Length ==> buf[k] == 0
  {
    for i := 0 to buf.Length
      invariant forall k :: 0 <= k < i ==> buf[k] == 0
    {
      buf[i] := 0;
    }
  }

  lemma QueryWritten(b: seq<byte>, b': seq<byte>, m: seq<byte>, id: nat, host: seq<byte>, qtype: nat, off: nat)
    requires id < 0x10000 && qtype < 0x10000 && off == |host| + 14 && off + 4 <= |m| == |b| && LabelsOk(Labels(host))
    requires b[..2] == Octets(id) && b[2] == b[5] == 1 && forall k :: 2 < k < |b| && k != 5 ==> b[k] == 0
    requires SameOutside(b, b', 12, off) && Holds(b', 12, Spelled(Labels(host)) + [0])
    requires m[..off] == b'[..off] && m[off..off + 4] == Octets(qtype) + [0, 1]
    ensures m[..off + 4] == Query(id, host, qtype)
  {
    var name := Spelled(Labels(host)) + [0];
    DottedLabels(host);
    SpelledLength(Labels(host));
    HeaderWritten(b, b', id, off);
    Joined3(b', m, 12, off, off + 4, name);
  }

  lemma HeaderWritten(b: seq<byte>, b': seq<byte>, id: nat, off: nat)
    requires id < 0x10000 && 12 <= off && 12 <= |b| && SameOutside(b, b', 12, off)
    requires b[..2] == Octets(id) && b[2] == b[5] == 1 && forall k :: 2 < k < |b| && k != 5 ==> b[k] == 0
    ensures b'[..12] == Octets(id) + [1, 0, 0, 1, 0, 0, 0, 0, 0, 0]
  {
    assert b[0] == b[..2][0] && b[1] == b[..2][1];
    assert b'[..12] == b[..12];
    assert b[2..12] == [1, 0, 0, 1, 0, 0, 0, 0, 0, 0];
    assert b[..12] == b[..2] + b[2..12];
  }

  lemma Joined3(b: seq<byte>, m: seq<byte>, i: nat, j: nat, k: nat, name: seq<byte>)
    requires i <= j <= k <= |m| && j <= |b| && m[..j] == b[..j] && b[i..j] == name
    ensures m[..k] == b[..i] + name + m[j..k]
  {
    assert m[..k] == m[..j] + m[j..k];
    assert b[..j] == b[..i] + b[i..j];
  }

  /** Everything that went into a query is read back from it, and it ends four octets after its name. */
  lemma QueryReadsBack(id: nat, host: seq<byte>, qtype: nat)
    requires id < 0x10000 && qtype < 0x10000 && LabelsOk(Labels(host))
    ensures var m := Query(id, host, qtype);
      && |m| == |host| + 18 && Get16(m, 0) == id && Get16(m, 4) == 1 && Get16(m, 6) == 0
      && ReadName(m, 12) == Some(Name(Labels(host), |m| - 4)) && Dotted(Labels(host)) == host
      && Get16(m, |m| - 4) == qtype && Get16(m, |m| - 2) == 1
      && NameAt(m, 12, |m| - 4)
  {
    var m, labels := Query(id, host, qtype), Labels(host);
    DottedLabels(host);
    SpelledLength(labels);
    assert |m| == |host| + 18;
    assert m[12..|m| - 4] == Spelled(labels) + [0];
    ReadBack(m, 12, labels, |m| - 4);
    assert NameIs(m, 12, |m| - 4, labels, [0]);
  }

  /** From `from` on there are `d` characters before the next dot or the end. */
  predicate RunsTo(host: seq<byte>, from: nat, d: nat) {
    && from + d <= |host| && (from + d == |host| || host[from + d] == DOT)
    && forall j :: from <= j < from + d ==> host[j] != DOT
  }

  /** A name octet by octet: a length stands before the name and in place of each dot, and every other character
      of the host one place further on. */
  ghost predicate SpellsHost(s: seq<byte>, host: seq<byte>) {
    && |s| == |host| + 1 && RunsTo(host, 0, s[0] as nat)
    && forall i :: 0 <= i < |host| ==> OctetFor(s, host, i)
  }

  predicate OctetFor(s: seq<byte>, host: seq<byte>, i: nat) {
    i < |host| && i + 1 < |s| && if host[i] == DOT then RunsTo(host, i + 1, s[i + 1] as nat) else s[i + 1] == host[i]
  }

  lemma {:induction false} SpelledOctets(host: seq<byte>)
    requires LabelsOk(Labels(host))
    ensures SpellsHost(Spelled(Labels(host)), host)
    decreases |host|
  {
    var k := FirstDot(host);
    BeforeDot(host);
    FirstLabelOk(host);
    if k == |host| {
      OneLabelSpelled(host);
      OneLabelOctets(host, Spell(host));
    } else {
      var rest := host[k + 1..];
      LabelsBehind(host);
      SpelledOctets(rest);
      assert ([host[..k]] + Labels(rest))[1..] == Labels(rest);
      OctetsBefore(host, host[..k], rest, Spelled(Labels(rest)));
    }
  }

  lemma FirstLabelOk(host: seq<byte>)
    requires LabelsOk(Labels(host))
    ensures 1 <= FirstDot(host) <= 63
  {
    assert LabelOk(Labels(host)[0]);
  }

  lemma OneLabelSpelled(l: seq<byte>)
    ensures Spelled([l]) == Spell(l)
  {
    assert [l][1..] == [];
    assert Spelled([l]) == Spell(l) + [];
  }

  lemma OneLabelOctets(host: seq<byte>, s: seq<byte>)
    requires Dotless(host) && |host| <= 63 && s == [|host| as byte] + host
    ensures SpellsHost(s, host)
  {
    forall i | 0 <= i < |host|
      ensures OctetFor(s, host, i)
    {
      assert s[i + 1] == host[i];
    }
  }

  /** One more label before a name. */
  lemma OctetsBefore(host: seq<byte>, l: seq<byte>, rest: seq<byte>, u: seq<byte>)
    requires host == l + [DOT] + rest && Dotless(l) && 1 <= |l| <= 63 && SpellsHost(u, rest)
    ensures SpellsHost(Spell(l) + u, host)
  {
    var s, k := Spell(l) + u, |l|;
    assert host[k] == DOT && host[k + 1..] == rest && host[..k] == l;
    assert forall j :: 0 <= j < k ==> host[j] == l[j];
    forall i | 0 <= i < |host|
      ensures OctetFor(s, host, i)
    {
      if i < k {
        assert s[i + 1] == l[i];
      } else {
        RunShifted(host, rest, k + 1, i, u);
        assert s[i + 1] == u[i - k];
      }
    }
  }

  lemma BeforeDot(host: seq<byte>)
    ensures forall j :: 0 <= j < FirstDot(host) ==> host[j] != DOT
  {
    if host != [] && host[0] != DOT {
      BeforeDot(host[1..]);
      forall j | 1 <= j < FirstDot(host)
        ensures host[j] != DOT
      {
        assert host[1..][j - 1] == host[j];
      }
    }
  }

  lemma LabelsBehind(host: seq<byte>)
    requires LabelsOk(Labels(host)) && FirstDot(host) < |host|
    ensures LabelsOk(Labels(host[FirstDot(host) + 1..]))
  {
    var rest := Labels(host[FirstDot(host) + 1..]);
    forall i | 0 <= i < |rest|
      ensures LabelOk(rest[i])
    {
      assert Labels(host)[i + 1] == rest[i] && LabelOk(Labels(host)[i + 1]);
    }
  }

  /** Behind the first label everything is as in the rest. */
  lemma RunShifted(host: seq<byte>, rest: seq<byte>, k: nat, i: nat, u: seq<byte>)
    requires 0 < k <= i + 1 <= |host| && rest == host[k..] && SpellsHost(u, rest)
    requires i + 1 == k ==> host[i] == DOT
    ensures if host[i] == DOT then RunsTo(host, i + 1, u[i + 1 - k] as nat) else u[i + 1 - k] == host[i]
  {
    var j := i + 1 - k;
    if j > 0 {
      assert OctetFor(u, rest, j - 1) && rest[j - 1] == host[i];
    }
    if host[i] == DOT {
      var d := u[j] as nat;
      assert RunsTo(rest, j, d);
      forall n | i + 1 <= n < i + 1 + d
        ensures host[n] != DOT
      {
        assert rest[n - k] == host[n];
      }
      assert j + d < |rest| ==> rest[j + d] == host[i + 1 + d];
    }
  }

  /** A query octet by octet. */
  lemma QueryOctets(id: nat, host: seq<byte>, qtype: nat)
    requires id < 0x10000 && qtype < 0x10000 && LabelsOk(Labels(host))
    ensures var m, n := Query(id, host, qtype), |host|;
      && |m| == n + 18 && 256 * (m[0] as nat) + m[1] as nat == id
      && m[2..12] == [1, 0, 0, 1, 0, 0, 0, 0, 0, 0] && SpellsHost(m[12..n + 13], host) && m[n + 13] == 0
      && 256 * (m[n + 14] as nat) + m[n + 15] as nat == qtype && m[n + 16] == 0 && m[n + 17] == 1
  {
    var m, n, name := Query(id, host, qtype), |host|, Spelled(Labels(host));
    DottedLabels(host);
    SpelledLength(Labels(host));
    SpelledOctets(host);
    assert m[12..n + 13] == name;
    assert m[2..12] == [1, 0, 0, 1, 0, 0, 0, 0, 0, 0];
  }

  /** The code has no limit on a whole name; it stays within the 255 octets of section 2.3.4 exactly for
      hosts of up to 253 characters. */
  lemma WithinNameLimit(host: seq<byte>)
    ensures |Spelled(Labels(host)) + [0]| <= 255 <==> |host| <= 253
  {
    DottedLabels(host);
    SpelledLength(Labels(host));
  }

  function Letters(n: nat): (s: seq<byte>)
    ensures |s| == n && Dotless(s)
  {
    seq(n, _ => 97)
  }

  /** `n` labels of 63 letters and one of 46. */
  function LongHost(n: nat): seq<byte> {
    if n == 0 then Letters(46) else Letters(63) + [DOT] + LongHost(n - 1)
  }

  lemma {:induction false} LongHostIsHost(n: nat)
    ensures |LongHost(n)| == 64 * n + 46 && LabelsOk(Labels(LongHost(n)))
  {
    if n == 0 {
      FirstLabel(Letters(46), []);
    } else {
      LongHostIsHost(n - 1);
      FirstLabel(Letters(63), LongHost(n - 1));
      LabelsOkBefore(Letters(63), Labels(LongHost(n - 1)));
    }
  }

  lemma LabelsOkBefore(l: seq<byte>, labels: seq<seq<byte>>)
    requires LabelOk(l) && LabelsOk(labels)
    ensures LabelsOk([l] + labels)
  {
  }

  /** A query of 512 octets takes a host of 494 characters and none longer; its name has 496 octets. */
  lemma AcceptsOverlongName()
    ensures var host := LongHost(7);
      |host| == 494 && Putable(host, 16, 512) && |Spelled(Labels(host)) + [0]| == 496
    ensures forall host :: Putable(host, 16, 512) ==> |host| <= 494
  {
    LongHostIsHost(7);
    DottedLabels(LongHost(7));
    SpelledLength(Labels(LongHost(7)));
  }

  // ---- skipping names (dnsstress.c:213-230) ----

  /** Section 4.1.4: a name ends with a zero octet or with a pointer of two octets. */
  predicate EndsName(tail: seq<byte>) {
    tail == [0] || (|tail| == 2 && tail[0] >= 192)
  }

  ghost predicate NameIs(m: seq<byte>, off: nat, end: nat, labels: seq<seq<byte>>, tail: seq<byte>) {
    LabelsOk(labels) && EndsName(tail) && off <= end <= |m| && m[off..end] == Spelled(labels) + tail
  }

  /** A name, compressed or not, takes the octets from `off` to `end`. */
  ghost predicate NameAt(m: seq<byte>, off: nat, end: nat) {
    exists labels, tail :: NameIs(m, off, end, labels, tail)
  }

  predicate PlainLabel(m: seq<byte>, off: nat) {
    off < |m| && 1 <= m[off] <= 63 && off + 1 + m[off] as nat <= |m|
  }

  /** Before a name ends there are only whole labels, and what remains after one is a name again. */
  lemma NameStep(m: seq<byte>, off: nat, end: nat)
    requires PlainLabel(m, off)
    ensures NameAt(m, off, end) <==> NameAt(m, off + 1 + m[off] as nat, end)
  {
    var next := off + 1 + m[off] as nat;
    if NameAt(m, off, end) {
      var labels, tail :| NameIs(m, off, end, labels, tail);
      LabelDropped(m, off, end, labels, tail);
    }
    if NameAt(m, next, end) {
      var labels, tail :| NameIs(m, next, end, labels, tail);
      LabelAdded(m, off, next, end, labels, tail);
    }
  }

  lemma LabelDropped(m: seq<byte>, off: nat, end: nat, labels: seq<seq<byte>>, tail: seq<byte>)
    requires PlainLabel(m, off) && NameIs(m, off, end, labels, tail)
    ensures labels != [] && NameIs(m, off + 1 + m[off] as nat, end, labels[1..], tail)
  {
    FirstOctet(m, off, end, labels, tail);
    var next := off + 1 + m[off] as nat;
    assert LabelOk(labels[0]);
    assert Spelled(labels) == Spell(labels[0]) + Spelled(labels[1..]);
    Assoc(Spell(labels[0]), Spelled(labels[1..]), tail);
    AfterPrefix(m, off, next, end, Spell(labels[0]), Spelled(labels[1..]) + tail);
  }

  lemma LabelAdded(m: seq<byte>, off: nat, next: nat, end: nat, labels: seq<seq<byte>>, tail: seq<byte>)
    requires PlainLabel(m, off) && next == off + 1 + m[off] as nat && NameIs(m, next, end, labels, tail)
    ensures NameIs(m, off, end, [m[off + 1..next]] + labels, tail)
  {
    var l := m[off + 1..next];
    assert ([l] + labels)[1..] == labels;
    assert m[off..next] == Spell(l);
    assert m[off..end] == m[off..next] + m[next..end];
    Assoc(Spell(l), Spelled(labels), tail);
  }

  lemma AfterPrefix(m: seq<byte>, off: nat, next: nat, end: nat, p: seq<byte>, q: seq<byte>)
    requires off <= next <= end <= |m| && m[off..end] == p + q && |p| == next - off
    ensures m[next..end] == q
  {
    SliceOfSlice(m, off, end, |p|, end - off);
    assert (p + q)[|p|..|p + q|] == q;
  }

  /** The first octet of a name tells how it goes on. */
  lemma FirstOctet(m: seq<byte>, off: nat, end: nat, labels: seq<seq<byte>>, tail: seq<byte>)
    requires NameIs(m, off, end, labels, tail)
    ensures off < |m| && m[off] == (if labels == [] then tail[0] else |labels[0]| as byte)
    ensures labels == [] ==> m[off..end] == tail
    ensures labels != [] ==> 1 <= m[off] <= 63 && off + 1 + m[off] as nat <= end
  {
    if labels != [] {
      assert LabelOk(labels[0]);
      assert (Spelled(labels) + tail)[0] == |labels[0]| as byte;
    }
    assert m[off..end][0] == m[off];
  }

  lemma NoName(m: seq<byte>, off: nat, end: nat)
    requires NameAt(m, off, end)
    ensures off < |m| && (m[off] == 0 || PlainLabel(m, off) || (m[off] >= 192 && off + 2 <= |m|))
  {
    var labels, tail :| NameIs(m, off, end, labels, tail);
    FirstOctet(m, off, end, labels, tail);
  }

  /** A name can end in one place only. */
  lemma {:induction false} NameEndsOnce(m: seq<byte>, off: nat, e: nat, e': nat)
    requires NameAt(m, off, e) && NameAt(m, off, e')
    ensures e == e'
    decreases |m| - off
  {
    NoName(m, off, e);
    if PlainLabel(m, off) {
      NameStep(m, off, e);
      NameStep(m, off, e');
      NameEndsOnce(m, off + 1 + m[off] as nat, e, e');
    } else {
      LastPiece(m, off, e);
      LastPiece(m, off, e');
    }
  }

  lemma LastPiece(m: seq<byte>, off: nat, e: nat)
    requires NameAt(m, off, e) && !PlainLabel(m, off)
    ensures e == if m[off] == 0 then off + 1 else off + 2
  {
    var labels, tail :| NameIs(m, off, e, labels, tail);
    FirstOctet(m, off, e, labels, tail);
    assert |m[off..e]| == e - off;
  }

  /** Finds the end of the name at `start` if there is a name. */
  method SkipName(m: seq<byte>, start: nat) returns (ret: int)
    ensures ret >= 0 ==> NameAt(m, start, ret)
    ensures ret < 0 ==> ret == -1 && forall e :: !NameAt(m, start, e)
  {
    var off := start;
    while true
      invariant off >= start && forall e :: NameAt(m, start, e) <==> NameAt(m, off, e)
      decreases |m| - off
    {
      forall e | NameAt(m, off, e)
        ensures off < |m| && (m[off] == 0 || PlainLabel(m, off) || (m[off] >= 192 && off + 2 <= |m|))
      {
        NoName(m, off, e);
      }
      if off >= |m| {
        return -1;
      }
      ghost var at := off;
      var n := m[off];
      off := off + 1;
      if n == 0 {
        assert NameIs(m, at, off, [], [0]);
        return off;
      }
      if n >= 192 {
        if off >= |m| {
          return -1;
        }
        assert NameIs(m, at, off + 1, [], m[at..off + 1]);
        return off + 1;
      }
      if n >= 64 || off + n as nat > |m| {
        return -1;
      }
      off := off + n as nat;
      forall e
        ensures NameAt(m, at, e) <==> NameAt(m, off, e)
      {
        NameStep(m, at, e);
      }
    }
  }

  // ---- responses (dnsstress.c:232-265) ----

  datatype Kind = Question | Record

  /** A question or a resource record takes the octets from `off` to `end`; its name ends at `e`. */
  ghost predicate ItemIs(kind: Kind, m: seq<byte>, off: nat, e: nat, end: nat) {
    && NameAt(m, off, e) && end <= |m|
    && match kind
       case Question => end == e + 4
       case Record => e + 10 <= |m| && end == e + 10 + Get16(m, e + 8)
  }

  ghost predicate ItemAt(kind: Kind, m: seq<byte>, off: nat, end: nat) {
    exists e :: ItemIs(kind, m, off, e, end)
  }

  /** Items follow each other from cut to cut. */
  ghost predicate Items(kind: Kind, m: seq<byte>, cuts: seq<nat>) {
    cuts != [] && forall i :: 0 < i < |cuts| ==> ItemAt(kind, m, cuts[i - 1], cuts[i])
  }

  lemma ItemEndsOnce(kind: Kind, m: seq<byte>, off: nat, end: nat, end': nat)
    requires ItemAt(kind, m, off, end) && ItemAt(kind, m, off, end')
    ensures end == end'
  {
    var e :| ItemIs(kind, m, off, e, end);
    var e' :| ItemIs(kind, m, off, e', end');
    NameEndsOnce(m, off, e, e');
  }

  lemma Follows(kind: Kind, m: seq<byte>, cuts: seq<nat>, i: nat)
    requires Items(kind, m, cuts) && i + 1 < |cuts|
    ensures ItemAt(kind, m, cuts[i], cuts[i + 1])
  {
    assert cuts[i + 1 - 1] == cuts[i];
  }

  /** Items can be cut in one way only. */
  lemma {:induction false} CutsAgree(kind: Kind, m: seq<byte>, a: seq<nat>, b: seq<nat>, i: nat)
    requires Items(kind, m, a) && Items(kind, m, b) && a[0] == b[0] && i < |a| && i < |b|
    ensures a[i] == b[i]
  {
    if i > 0 {
      CutsAgree(kind, m, a, b, i - 1);
      ItemEndsOnce(kind, m, a[i - 1], a[i], b[i]);
    }
  }

  /** An answer that can be used: class IN, the type asked for, and data of the length of an address. */
  ghost predicate Usable(m: seq<byte>, off: nat, qtype: nat) {
    exists e :: NameAt(m, off, e) && UsableFields(m, e, qtype)
  }

  predicate UsableFields(m: seq<byte>, e: nat, qtype: nat) {
    && e + 10 <= |m| && Get16(m, e) == qtype && Get16(m, e + 2) == 1
    && ((qtype == 1 && Get16(m, e + 8) == 4) || (qtype == 28 && Get16(m, e + 8) == 16))
  }

  /** The questions the header announces, from the end of the header. */
  ghost predicate QuestionSection(m: seq<byte>, qs: seq<nat>) {
    |m| >= 12 && Items(Question, m, qs) && qs[0] == 12 && |qs| == Get16(m, 4) + 1
  }

  /** Well-formed answers after all questions, at most as many as announced. */
  ghost predicate Parsed(m: seq<byte>, qs: seq<nat>, rs: seq<nat>) {
    && QuestionSection(m, qs) && Items(Record, m, rs) && rs[0] == qs[|qs| - 1]
    && |rs| <= Get16(m, 6) + 1
  }

  ghost predicate AnswerIs(m: seq<byte>, qtype: nat, qs: seq<nat>, rs: seq<nat>) {
    Parsed(m, qs, rs) && |rs| >= 2 && Usable(m, rs[|rs| - 2], qtype)
  }

  /** A usable answer is reached before anything malformed. */
  ghost predicate HasAnswer(m: seq<byte>, qtype: nat) {
    exists qs, rs :: AnswerIs(m, qtype, qs, rs)
  }

  ghost predicate AllParsed(m: seq<byte>, qs: seq<nat>, rs: seq<nat>) {
    Parsed(m, qs, rs) && |rs| == Get16(m, 6) + 1
  }

  /** All questions and answers are well-formed. */
  ghost predicate Complete(m: seq<byte>) {
    exists qs, rs :: AllParsed(m, qs, rs)
  }

  ghost predicate Addressed(m: seq<byte>, id: nat) {
    |m| >= 12 && Get16(m, 0) == id
  }

  /** 1 for a response with a usable answer, 0 for one that reports an error or is whole but has none,
      -1 for one that is malformed or not for us. */
  method ResponseUsable(m: seq<byte>, id: nat, qtype: nat) returns (ret: int)
    ensures ret == 1 <==> Addressed(m, id) && m[3] % 16 == 0 && HasAnswer(m, qtype)
    ensures ret == 0 <==> Addressed(m, id) && (m[3] % 16 != 0 || (Complete(m) && !HasAnswer(m, qtype)))
    ensures ret == 1 || ret == 0 || ret == -1
  {
    if |m| < 12 || Get16(m, 0) != id {
      return -1;
    }
    if m[3] % 16 != 0 {
      return 0;
    }
    var off;
    ghost var qs;
    off, qs := SkipQuestions(m);
    if off < 0 {
      return -1;
    }
    ret := FindAnswer(m, qtype, off, qs);
  }

  method SkipQuestions(m: seq<byte>) returns (off: int, ghost qs: seq<nat>)
    requires |m| >= 12
    ensures off >= 0 ==> QuestionSection(m, qs) && off == qs[|qs| - 1]
    ensures off < 0 ==> forall qs :: !QuestionSection(m, qs)
  {
    var qd := Get16(m, 4);
    off, qs := 12, [12];
    for i := 0 to qd
      invariant Items(Question, m, qs) && qs[0] == 12 && |qs| == i + 1 && off == qs[i]
    {
      ghost var at := off;
      off := SkipName(m, off);
      if off < 0 || off + 4 > |m| {
        NoQuestion(m, at, off);
        NoSection(m, qs, i);
        return -1, qs;
      }
      off := off + 4;
      assert ItemIs(Question, m, at, off - 4, off);
      qs := qs + [off];
    }
  }

  lemma NoQuestion(m: seq<byte>, at: nat, e: int)
    requires if e < 0 then forall e' :: !NameAt(m, at, e') else NameAt(m, at, e) && e + 4 > |m|
    ensures forall end :: !ItemAt(Question, m, at, end)
  {
    forall end | ItemAt(Question, m, at, end)
      ensures false
    {
      var e' :| ItemIs(Question, m, at, e', end);
      if e >= 0 {
        NameEndsOnce(m, at, e, e');
      }
    }
  }

  lemma NoSection(m: seq<byte>, qs: seq<nat>, i: nat)
    requires |m| >= 12 && Items(Question, m, qs) && qs[0] == 12 && |qs| == i + 1 && i < Get16(m, 4)
    requires forall end :: !ItemAt(Question, m, qs[i], end)
    ensures forall qs' :: !QuestionSection(m, qs')
  {
    forall qs'
      ensures !QuestionSection(m, qs')
    {
      if QuestionSection(m, qs') {
        CutsAgree(Question, m, qs, qs', i);
        Follows(Question, m, qs', i);
      }
    }
  }

  method FindAnswer(m: seq<byte>, qtype: nat, start: nat, ghost qs: seq<nat>) returns (ret: int)
    requires QuestionSection(m, qs) && start == qs[|qs| - 1]
    ensures ret == 1 <==> HasAnswer(m, qtype)
    ensures ret == 0 <==> Complete(m) && !HasAnswer(m, qtype)
    ensures ret == 1 || ret == 0 || ret == -1
  {
    var an := Get16(m, 6);
    var off: int := start;
    ghost var rs: seq<nat> := [start];
    for i := 0 to an
      invariant off >= 0 && Parsed(m, qs, rs) && |rs| == i + 1 && off == rs[i]
      invariant NoneUsable(m, rs, qtype)
    {
      ghost var at: nat := off;
      off := SkipName(m, off);
      if off < 0 || off + 10 > |m| {
        NoRecord(m, at, off);
        StopsHere(m, qtype, qs, rs, at);
        return -1;
      }
      ghost var e := off;
      var typ, cls, rdlen := Get16(m, off), Get16(m, off + 2), Get16(m, off + 8);
      off := off + 10;
      if off + rdlen > |m| {
        NoRecord(m, at, e);
        StopsHere(m, qtype, qs, rs, at);
        return -1;
      }
      assert ItemIs(Record, m, at, e, off + rdlen);
      ghost var next: nat := off + rdlen;
      ghost var rs': seq<nat> := rs + [next];
      if cls == 1 && typ == qtype && ((qtype == 1 && rdlen == 4) || (qtype == 28 && rdlen == 16)) {
        assert UsableFields(m, e, qtype);
        assert AnswerIs(m, qtype, qs, rs');
        return 1;
      }
      NotUsable(m, at, e, qtype);
      off := off + rdlen;
      rs := rs';
    }
    assert AllParsed(m, qs, rs);
    NothingFound(m, qtype, qs, rs);
    return 0;
  }

  ghost predicate NoneUsable(m: seq<byte>, rs: seq<nat>, qtype: nat) {
    forall i :: 0 <= i < |rs| - 1 ==> !Usable(m, rs[i], qtype)
  }

  lemma NotUsable(m: seq<byte>, at: nat, e: nat, qtype: nat)
    requires NameAt(m, at, e) && !UsableFields(m, e, qtype)
    ensures !Usable(m, at, qtype)
  {
    forall e' | NameAt(m, at, e')
      ensures !UsableFields(m, e', qtype)
    {
      NameEndsOnce(m, at, e, e');
    }
  }

  lemma NoRecord(m: seq<byte>, at: nat, e: int)
    requires if e < 0 then forall e' :: !NameAt(m, at, e')
      else NameAt(m, at, e) && (e + 10 > |m| || e + 10 + Get16(m, e + 8) > |m|)
    ensures forall end :: !ItemAt(Record, m, at, end)
  {
    forall end | ItemAt(Record, m, at, end)
      ensures false
    {
      var e' :| ItemIs(Record, m, at, e', end);
      if e >= 0 {
        NameEndsOnce(m, at, e, e');
      }
    }
  }

  /** Any other reading of the message has the same cuts as far as both go. */
  lemma SameReading(m: seq<byte>, qs: seq<nat>, rs: seq<nat>, qs': seq<nat>, rs': seq<nat>, i: nat)
    requires Parsed(m, qs, rs) && Parsed(m, qs', rs') && i < |rs| && i < |rs'|
    ensures rs[i] == rs'[i]
  {
    CutsAgree(Question, m, qs, qs', |qs| - 1);
    CutsAgree(Record, m, rs, rs', i);
  }

  /** Where no record follows, unread answers stay unread. */
  lemma StopsHere(m: seq<byte>, qtype: nat, qs: seq<nat>, rs: seq<nat>, at: nat)
    requires Parsed(m, qs, rs) && |rs| < Get16(m, 6) + 1 && NoneUsable(m, rs, qtype)
    requires at == rs[|rs| - 1] && forall end :: !ItemAt(Record, m, at, end)
    ensures !HasAnswer(m, qtype) && !Complete(m)
  {
    var i := |rs|;
    forall qs', rs' | Parsed(m, qs', rs')
      ensures |rs'| <= i
    {
      if |rs'| > i {
        SameReading(m, qs, rs, qs', rs', i - 1);
        Follows(Record, m, rs', i - 1);
      }
    }
    NothingFound(m, qtype, qs, rs);
  }

  lemma NothingFound(m: seq<byte>, qtype: nat, qs: seq<nat>, rs: seq<nat>)
    requires Parsed(m, qs, rs) && NoneUsable(m, rs, qtype)
    requires forall qs', rs' :: Parsed(m, qs', rs') ==> |rs'| <= |rs|
    ensures !HasAnswer(m, qtype)
  {
    forall qs', rs' | AnswerIs(m, qtype, qs', rs')
      ensures false
    {
      SameReading(m, qs, rs, qs', rs', |rs'| - 2);
    }
  }

  // ---- a good response ----

  /** A reply without error to a query for the address of `host`: the question, then a record whose name points to
      it, type A, class IN, some time to live, and the four octets of the address. */
  function Reply(id: nat, flags: byte, rcode: byte, host: seq<byte>, ttl: seq<byte>, addr: seq<byte>): seq<byte>
    requires id < 0x10000
  {
    [(id / 256) as byte, (id % 256) as byte, flags, rcode, 0, 1, 0, 1, 0, 0, 0, 0]
    + (Spelled(Labels(host)) + [0] + [0, 1, 0, 1]) + ([192, 12, 0, 1, 0, 1] + ttl + [0, 4] + addr)
  }

  /** It is usable, for every id, host and address. */
  lemma GoodReply(id: nat, flags: byte, rcode: byte, host: seq<byte>, ttl: seq<byte>, addr: seq<byte>)
    requires id < 0x10000 && LabelsOk(Labels(host)) && |ttl| == 4 && |addr| == 4 && rcode % 16 == 0
    ensures var m := Reply(id, flags, rcode, host, ttl, addr);
      Addressed(m, id) && m[3] % 16 == 0 && HasAnswer(m, 1)
  {
    var m, name := Reply(id, flags, rcode, host, ttl, addr), Spelled(Labels(host)) + [0];
    var e := 12 + |name|;
    assert m[12..e] == name;
    assert NameIs(m, 12, e, Labels(host), [0]);
    var at := e + 4;
    ReplyRecord(m, m[..at], ttl, addr);
    assert ItemIs(Question, m, 12, e, at);
    var qs: seq<nat>, rs: seq<nat> := [12, at], [at, |m|];
    assert NameAt(m, at, at + 2) && ItemIs(Record, m, at, at + 2, |m|);
    assert Get16(m, 4) == 1 && Get16(m, 6) == 1;
    assert AnswerIs(m, 1, qs, rs);
  }

  lemma ReplyRecord(m: seq<byte>, front: seq<byte>, ttl: seq<byte>, addr: seq<byte>)
    requires m == front + ([192, 12, 0, 1, 0, 1] + ttl + [0, 4] + addr) && |ttl| == 4 && |addr| == 4
    ensures |m| == |front| + 16 && NameIs(m, |front|, |front| + 2, [], [192, 12])
    ensures UsableFields(m, |front| + 2, 1) && Get16(m, |front| + 10) == 4
  {
    var k := |front|;
    var head: seq<byte> := [192, 12, 0, 1, 0, 1];
    var tail := head + ttl + [0, 4] + addr;
    assert forall i :: 0 <= i < |tail| ==> m[k + i] == tail[i];
    assert m[k] == tail[0] == head[0] && m[k + 1] == tail[1] == head[1];
    assert m[k..k + 2] == [m[k], m[k + 1]];
  }
}
