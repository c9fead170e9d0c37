/** Two of the string routines of lib/ulib.c, on positions in one buffer. */
module ULib {

  /** `memmove` (ulib.c:152-168) within one buffer: correct however the ranges overlap. */
  method MemMove(a: array<char>, dst: nat, src: nat, n: int)
    requires n > 0 ==> dst + n <= a.Length && src + n <= a.Length
    modifies a
    ensures n <= 0 ==> a[..] == old(a[..])
    ensures n > 0 ==> a[..] == old(a[..dst]) + old(a[src..src + n]) + old(a[dst + n..])
  {
    var d, s, left := dst, src, n;
    if src > dst {
      while left > 0
        invariant left <= n && (n > 0 ==> 0 <= left)
        invariant n <= 0 ==> left == n
        invariant d == dst + n - left && s == src + n - left
        invariant forall i :: 0 <= i < a.Length ==> a[i] == old(if dst <= i < d then a[i - dst + src] else a[i])
      {
        a[d] := a[s];
        d, s, left := d + 1, s + 1, left - 1;
      }
    } else {
      d, s := dst + n, src + n;
      while left > 0
        invariant left <= n && (n > 0 ==> 0 <= left)
        invariant n <= 0 ==> left == n
        invariant d == dst + left && s == src + left
        invariant forall i :: 0 <= i < a.Length ==> a[i] == old(if d <= i < dst + n then a[i - dst + src] else a[i])
      {
        d, s, left := d - 1, s - 1, left - 1;
        a[d] := a[s];
      }
    }
    assert n <= 0 ==> forall i :: 0 <= i < a.Length ==> a[i] == old(a[i]);
  }

  /** Up to `z` (exclusive) the buffer holds neither `c` nor the terminator. */
  ghost predicate Clear(s: seq<char>, p: nat, z: nat, c: char)
    requires z <= |s|
  {
    forall i :: p <= i < z ==> s[i] != c && s[i] != '\0'
  }

  /** `strchr` (ulib.c:120-125) from position `p`; -1 is the null pointer. */
  method StrChr(a: array<char>, p: nat, c: char, ghost end: nat) returns (q: int)
    requires p <= end < a.Length && a[end] == '\0' && c != '\0'
    ensures q >= 0 ==> p <= q < end && a[q] == c && Clear(a[..], p, q, c)
    ensures q < 0 ==> exists z: nat :: p <= z <= end && a[z] == '\0' && Clear(a[..], p, z, c)
  {
    q := p;
    while a[q] != '\0'
      invariant p <= q <= end && Clear(a[..], p, q, c)
      decreases end - q
    {
      if a[q] == c {
        return;
      }
      q := q + 1;
    }
    assert a[q] == '\0';
    return -1;
  }
}
