/** The order statistics and the deviation that programs/hoverprobe/hoverprobe.c:327-387 reports. */
module Summary {

  // ---- ranks ----

  /** How many elements are below `x`, or at most `x`. */
  function Below(s: seq<int>, x: int, orEqual: bool): nat {
    if s == [] then 0
    else Below(s[..|s| - 1], x, orEqual) + if s[|s| - 1] < x || (orEqual && s[|s| - 1] == x) then 1 else 0
  }

  /** `x` is the element of rank `k` of `s`: at most `k` elements are smaller, and more than `k` are no larger. */
  predicate HasRank(s: seq<int>, k: nat, x: int) {
    x in s && Below(s, x, false) <= k < Below(s, x, true)
  }

  /** It is a count of positions. */
  lemma {:induction false} BelowCounts(s: seq<int>, x: int, orEqual: bool)
    ensures Below(s, x, orEqual) == |set i | 0 <= i < |s| && (s[i] < x || (orEqual && s[i] == x))|
  {
    if s != [] {
      var m := |s| - 1;
      BelowCounts(s[..m], x, orEqual);
      var all := set i | 0 <= i < |s| && (s[i] < x || (orEqual && s[i] == x));
      var front := set i | 0 <= i < |s[..m]| && (s[..m][i] < x || (orEqual && s[..m][i] == x));
      assert all == front + if s[m] < x || (orEqual && s[m] == x) then {m} else {};
    }
  }

  predicate Sorted(s: seq<int>) {
    forall i, j :: 0 <= i < j < |s| ==> s[i] <= s[j]
  }

  lemma {:induction false} BelowAppend(s: seq<int>, t: seq<int>, x: int, orEqual: bool)
    ensures Below(s + t, x, orEqual) == Below(s, x, orEqual) + Below(t, x, orEqual)
    decreases |t|
  {
    if t == [] {
      assert s + t == s;
    } else {
      assert (s + t)[..|s + t| - 1] == s + t[..|t| - 1];
      BelowAppend(s, t[..|t| - 1], x, orEqual);
    }
  }

  lemma {:induction false} BelowAll(s: seq<int>, x: int, orEqual: bool)
    ensures Below(s, x, orEqual) <= |s|
    ensures (forall i :: 0 <= i < |s| ==> s[i] >= x) && !orEqual ==> Below(s, x, orEqual) == 0
    ensures (forall i :: 0 <= i < |s| ==> s[i] <= x) && orEqual ==> Below(s, x, orEqual) == |s|
  {
    if s != [] {
      BelowAll(s[..|s| - 1], x, orEqual);
    }
  }

  lemma Cancel(s: multiset<int>, a: multiset<int>, b: multiset<int>, e: multiset<int>)
    requires s + e == a + (e + b)
    ensures s == a + b
  {
    assert s == (s + e) - e && a + b == (a + (e + b)) - e;
  }

  /** The last element of `s`, wherever it is in `t`. */
  lemma TakeOut(s: seq<int>, t: seq<int>) returns (a: seq<int>, b: seq<int>)
    requires s != [] && multiset(s) == multiset(t)
    ensures t == a + ([s[|s| - 1]] + b) && multiset(s[..|s| - 1]) == multiset(a + b)
  {
    var n := |s| - 1;
    var e := s[n];
    assert s == s[..n] + [e] && e in multiset(t);
    var i :| 0 <= i < |t| && t[i] == e;
    a, b := t[..i], t[i + 1..];
    assert t == a + ([e] + b);
    assert multiset(t) == multiset(a) + (multiset([e]) + multiset(b));
    assert multiset(s) == multiset(s[..n]) + multiset([e]);
    Cancel(multiset(s[..n]), multiset(a), multiset(b), multiset([e]));
    assert multiset(a + b) == multiset(a) + multiset(b);
  }

  /** Ranks do not depend on the order of the elements. */
  lemma {:induction false} BelowPermuted(s: seq<int>, t: seq<int>, x: int, orEqual: bool)
    requires multiset(s) == multiset(t)
    ensures Below(s, x, orEqual) == Below(t, x, orEqual)
    decreases |s|
  {
    if s == [] {
      assert |t| == |multiset(t)| == 0;
    } else {
      var n := |s| - 1;
      var e := s[n];
      var a, b := TakeOut(s, t);
      BelowPermuted(s[..n], a + b, x, orEqual);
      BelowAppend(a, b, x, orEqual);
      BelowAppend(a, [e] + b, x, orEqual);
      BelowAppend([e], b, x, orEqual);
      assert [e][..0] == [];
    }
  }

  lemma SortedBelow(t: seq<int>, k: nat)
    requires Sorted(t) && k < |t|
    ensures Below(t, t[k], false) <= k < Below(t, t[k], true)
  {
    var x := t[k];
    SplitAt(t, k, x, false);
    BelowAll(t[..k], x, false);
    BelowAll(t[k..], x, false);
    SplitAt(t, k + 1, x, true);
    BelowAll(t[..k + 1], x, true);
  }

  lemma SplitAt(t: seq<int>, k: nat, x: int, orEqual: bool)
    requires k <= |t|
    ensures Below(t, x, orEqual) == Below(t[..k], x, orEqual) + Below(t[k..], x, orEqual)
  {
    assert t == t[..k] + t[k..];
    BelowAppend(t[..k], t[k..], x, orEqual);
  }

  /** Position `k` of a sorted arrangement has rank `k` in the original one. */
  lemma SortedHasRank(s: seq<int>, t: seq<int>, k: nat)
    requires multiset(s) == multiset(t) && Sorted(t) && k < |t|
    ensures HasRank(s, k, t[k])
  {
    assert t[k] in multiset(t);
    BelowPermuted(s, t, t[k], false);
    BelowPermuted(s, t, t[k], true);
    SortedBelow(t, k);
  }

  // ---- sort_ll (hoverprobe.c:327-338) ----

  /** Moving an element up one place and the key into the gap is an exchange of neighbours. */
  lemma ShiftKeeps(s: seq<int>, j: nat, key: int)
    requires j + 1 < |s|
    ensures multiset(s[j + 1 := s[j]][j := key]) == multiset(s[j + 1 := key])
  {
    var u, v := s[j + 1 := s[j]][j := key], s[j + 1 := key];
    var a, b := s[..j], s[j + 2..];
    assert u == a + ([key] + [s[j]]) + b;
    assert v == a + ([s[j]] + [key]) + b;
  }

  /** Up to `i` the elements ascend but for the gap at `g`, and those behind the gap exceed the key. */
  predicate Gapped(s: seq<int>, g: nat, i: nat, key: int) {
    && g <= i < |s|
    && (forall p, q :: 0 <= p < q <= i ==> InOrder(s, g, p, q))
    && (forall p :: g < p <= i ==> Exceeds(s, p, key))
  }

  predicate InOrder(s: seq<int>, g: nat, p: nat, q: nat)
    requires p < |s| && q < |s|
  {
    p == g || q == g || s[p] <= s[q]
  }

  predicate Exceeds(s: seq<int>, p: nat, key: int)
    requires p < |s|
  {
    s[p] > key
  }

  lemma GapMoves(s: seq<int>, g: nat, i: nat, key: int)
    requires Gapped(s, g, i, key) && g > 0 && s[g - 1] > key
    ensures Gapped(s[g := s[g - 1]], g - 1, i, key)
  {
    var s', g' := s[g := s[g - 1]], g - 1;
    forall p, q | 0 <= p < q <= i
      ensures InOrder(s', g', p, q)
    {
      assert InOrder(s, g, if p == g then g' else p, if q == g then g' else q) || p == g';
    }
    forall p | g' < p <= i
      ensures Exceeds(s', p, key)
    {
      assert p > g ==> Exceeds(s, p, key);
    }
  }

  lemma GapFilled(s: seq<int>, g: nat, i: nat, key: int)
    requires Gapped(s, g, i, key) && (g > 0 ==> s[g - 1] <= key)
    ensures Sorted(s[g := key][..i + 1])
  {
    var t := s[g := key][..i + 1];
    forall p, q | 0 <= p < q < |t|
      ensures t[p] <= t[q]
    {
      assert InOrder(s, g, p, q);
      if q == g && p < g - 1 {
        assert InOrder(s, g, p, g - 1);
      }
      if p == g {
        assert Exceeds(s, q, key);
      }
    }
  }

  /** Insertion into the sorted beginning, the element at `i` being the key. */
  method InsertKey(a: array<int>, i: nat)
    requires 0 < i < a.Length && Sorted(a[..i])
    modifies a
    ensures multiset(a[..]) == multiset(old(a[..])) && Sorted(a[..i + 1])
  {
    var key := a[i];
    var j: int := i - 1;
    ghost var all := multiset(a[..]);
    GapAtFirst(a[..], i);
    while j >= 0 && a[j] > key
      invariant -1 <= j < i && Gapped(a[..], j + 1, i, key) && multiset(a[..][j + 1 := key]) == all
    {
      ghost var s := a[..];
      ShiftKeeps(s, j, key);
      GapMoves(s, j + 1, i, key);
      a[j + 1] := a[j];
      assert a[..] == s[j + 1 := s[j]];
      j := j - 1;
    }
    ghost var s := a[..];
    GapFilled(s, j + 1, i, key);
    a[j + 1] := key;
    assert a[..] == s[j + 1 := key];
    assert a[..i + 1] == a[..][..i + 1];
  }

  lemma GapAtFirst(s: seq<int>, i: nat)
    requires i < |s| && Sorted(s[..i])
    ensures Gapped(s, i, i, s[i]) && s[i := s[i]] == s
  {
    forall p, q | 0 <= p < q <= i
      ensures InOrder(s, i, p, q)
    {
      assert q < i ==> s[..i][p] <= s[..i][q];
    }
  }

  method Sort(a: array<int>)
    modifies a
    ensures multiset(a[..]) == multiset(old(a[..])) && Sorted(a[..])
  {
    var i := 1;
    while i < a.Length
      invariant 1 <= i && multiset(a[..]) == multiset(old(a[..]))
      invariant i <= a.Length ==> Sorted(a[..i])
      invariant i > a.Length ==> a.Length == 0
    {
      InsertKey(a, i);
      i := i + 1;
    }
    assert i == a.Length ==> a[..i] == a[..];
  }

  // ---- isqrt_ll (hoverprobe.c:341-356) ----

  const LIMIT: int := 40000000

  predicate IsRoot(r: int, v: int) {
    0 <= r && r * r <= v < (r + 1) * (r + 1)
  }

  lemma DivideIsSquare(m: int, v: int)
    requires m > 0 && v >= 0
    ensures m <= v / m <==> m * m <= v
  {
    var q := v / m;
    assert v == m * q + v % m;
    if m <= q {
      Times(m, m, q);
    } else {
      Times(m, q + 1, m);
      assert m * (q + 1) == m * q + m;
    }
  }

  lemma Times(m: int, a: int, b: int)
    requires m >= 0 && a <= b
    ensures m * a <= m * b
  {
  }

  lemma SquaresGrow(a: int, b: int)
    requires 0 <= a <= b
    ensures a * a <= b * b
  {
    assert a * a <= a * b <= b * b;
  }

  /** The exact integer root as far as the search goes, and its upper end for anything beyond. */
  method Isqrt(v: int) returns (r: int)
    ensures v < 0 ==> r == 0
    ensures 0 <= v < (LIMIT + 1) * (LIMIT + 1) ==> IsRoot(r, v)
    ensures v >= (LIMIT + 1) * (LIMIT + 1) ==> r == LIMIT
  {
    if v <= 0 {
      return 0;
    }
    var lo, hi := 0, LIMIT;
    while lo < hi
      invariant 0 <= lo <= hi <= LIMIT && lo * lo <= v
      invariant hi < LIMIT ==> v < (hi + 1) * (hi + 1)
      decreases hi - lo
    {
      var mid := lo + (hi - lo + 1) / 2;
      DivideIsSquare(mid, v);
      if mid <= v / mid {
        lo := mid;
      } else {
        hi := mid - 1;
      }
    }
    if lo < LIMIT && v >= (LIMIT + 1) * (LIMIT + 1) {
      SquaresGrow(lo + 1, LIMIT + 1);
    }
    return lo;
  }

  // ---- the summary (hoverprobe.c:360-387) ----

  function Sum(s: seq<int>): int {
    if s == [] then 0 else Sum(s[..|s| - 1]) + s[|s| - 1]
  }

  /** C's division. */
  function Quotient(a: int, b: int): int
    requires b > 0
  {
    if a >= 0 then a / b else -(-a / b)
  }

  function Spread(s: seq<int>, mean: int): int {
    if s == [] then 0
    else Spread(s[..|s| - 1], mean) + (s[|s| - 1] - mean) * (s[|s| - 1] - mean)
  }

  /** The sum of the parts, down to single elements. */
  lemma {:induction false} SumOfParts(a: seq<int>, b: seq<int>, x: int)
    ensures Sum([]) == 0 && Sum([x]) == x && Sum(a + b) == Sum(a) + Sum(b)
    decreases |b|
  {
    assert [x][..0] == [];
    if b == [] {
      assert a + b == a;
    } else {
      assert (a + b)[..|a + b| - 1] == a + b[..|b| - 1];
      SumOfParts(a, b[..|b| - 1], x);
    }
  }

  /** The squares of the distances from `mean`, added up. */
  lemma {:induction false} SpreadOfParts(a: seq<int>, b: seq<int>, x: int, mean: int)
    ensures Spread([], mean) == 0 && Spread([x], mean) == (x - mean) * (x - mean)
    ensures Spread(a + b, mean) == Spread(a, mean) + Spread(b, mean)
    decreases |b|
  {
    assert [x][..0] == [];
    if b == [] {
      assert a + b == a;
    } else {
      assert (a + b)[..|a + b| - 1] == a + b[..|b| - 1];
      SpreadOfParts(a, b[..|b| - 1], x, mean);
    }
  }

  /** Neither depends on the order of the samples. */
  lemma {:induction false} SumsPermuted(s: seq<int>, t: seq<int>, mean: int)
    requires multiset(s) == multiset(t)
    ensures Sum(s) == Sum(t) && Spread(s, mean) == Spread(t, mean)
    decreases |s|
  {
    if s == [] {
      assert |t| == |multiset(t)| == 0;
    } else {
      var n := |s| - 1;
      var a, b := TakeOut(s, t);
      SumsPermuted(s[..n], a + b, mean);
      SumsAround(a, s[n], b, mean);
    }
  }

  lemma SumsAround(a: seq<int>, e: int, b: seq<int>, mean: int)
    ensures Sum(a + ([e] + b)) == Sum(a + b) + e
    ensures Spread(a + ([e] + b), mean) == Spread(a + b, mean) + (e - mean) * (e - mean)
  {
    SumOfParts(a, b, e);
    SumOfParts(a, [e] + b, e);
    SumOfParts([e], b, e);
    SpreadOfParts(a, b, e, mean);
    SpreadOfParts(a, [e] + b, e, mean);
    SpreadOfParts([e], b, e, mean);
  }

  /** Division cuts off towards zero: what is left is less than the divisor and has the sign of the dividend. */
  lemma QuotientTruncates(a: int, b: int)
    requires b > 0
    ensures var r := a - b * Quotient(a, b);
      -b < r < b && (a > 0 ==> r >= 0) && (a < 0 ==> r <= 0) && (a == 0 ==> r == 0)
  {
    var m := if a >= 0 then a else -a;
    var q := m / b;
    assert m == b * q + m % b;
    TimesMinus(b, q);
  }

  lemma TimesMinus(b: int, q: int)
    ensures b * -q == -(b * q)
  {
  }

  /** The deviation is the integer root of the mean square distance from the truncated mean, up to 40 s. */
  ghost predicate Deviates(s: seq<int>, sd: int)
    requires s != []
  {
    var v := Quotient(Spread(s, Quotient(Sum(s), |s|)), |s|);
    if v < (LIMIT + 1) * (LIMIT + 1) then IsRoot(sd, v) else sd == LIMIT
  }

  lemma DeviatesPermuted(s: seq<int>, t: seq<int>, sd: int)
    requires multiset(s) == multiset(t) && s != [] && t != [] && Deviates(t, sd)
    ensures Deviates(s, sd)
  {
    assert |s| == |multiset(s)| == |multiset(t)| == |t|;
    SumsPermuted(s, t, 0);
    SumsPermuted(s, t, Quotient(Sum(s), |s|));
  }

  /** The reported values are those of ranks n / 2, 9 n / 10, 0 and n - 1 of the samples, in this order of
      size, and the deviation is the integer root of the spread about the truncated mean, up to 40 s. */
  method Summarize(lat: array<int>) returns (med: int, p90: int, mn: int, mx: int, sd: int)
    modifies lat
    ensures multiset(lat[..]) == multiset(old(lat[..])) && Sorted(lat[..])
    ensures lat.Length == 0 ==> med == p90 == mn == mx == sd == 0
    ensures lat.Length > 0 ==> var n, s := lat.Length, old(lat[..]);
      && HasRank(s, n / 2, med) && HasRank(s, 9 * n / 10, p90) && HasRank(s, 0, mn) && HasRank(s, n - 1, mx)
      && mn <= med <= p90 <= mx && Deviates(s, sd)
  {
    med, p90, mn, mx, sd := 0, 0, 0, 0, 0;
    var n := lat.Length;
    ghost var s := lat[..];
    Sort(lat);
    if n > 0 {
      var i90 := 9 * n / 10;
      med, mn, mx, p90 := lat[n / 2], lat[0], lat[n - 1], lat[i90];
      SortedHasRank(s, lat[..], n / 2);
      SortedHasRank(s, lat[..], 0);
      SortedHasRank(s, lat[..], n - 1);
      SortedHasRank(s, lat[..], i90);
      sd := Deviation(lat);
      DeviatesPermuted(s, lat[..], sd);
    }
  }

  method Deviation(lat: array<int>) returns (sd: int)
    requires lat.Length > 0
    ensures Deviates(lat[..], sd)
  {
    var sum := SumUp(lat);
    var mean := Quotient(sum, lat.Length);
    var spread := SpreadUp(lat, mean);
    var v := Quotient(spread, lat.Length);
    sd := Isqrt(v);
  }

  method SumUp(lat: array<int>) returns (sum: int)
    ensures sum == Sum(lat[..])
  {
    sum := 0;
    for i := 0 to lat.Length
      invariant sum == Sum(lat[..i])
    {
      assert lat[..i + 1][..i] == lat[..i];
      sum := sum + lat[i];
    }
    assert lat[..lat.Length] == lat[..];
  }

  method SpreadUp(lat: array<int>, mean: int) returns (spread: int)
    ensures spread == Spread(lat[..], mean) && spread >= 0
  {
    spread := 0;
    for i := 0 to lat.Length
      invariant spread == Spread(lat[..i], mean) && spread >= 0
    {
      assert lat[..i + 1][..i] == lat[..i];
      var d := lat[i] - mean;
      SquareIsPositive(d);
      spread := spread + d * d;
    }
    assert lat[..lat.Length] == lat[..];
  }

  lemma SquareIsPositive(d: int)
    ensures d * d >= 0
  {
  }
}
