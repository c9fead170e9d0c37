/** `format_int`, `format_ptr` and the padding of numbers (lib/printf.c:30-82, 256-286), and what a reader
    makes of the result. */
module Numbers {
  import opened Wrappers

  datatype Flags = Flags(left: bool, plus: bool, space: bool, hash: bool, zero: bool)

  const U64: int := 0x1_0000_0000_0000_0000

  predicate IsBase(base: nat) {
    base == 8 || base == 10 || base == 16
  }

  /** Division by one of the three bases. */
  function Quotient(v: nat, base: nat): nat
    requires IsBase(base)
  {
    if base == 8 then v / 8 else if base == 10 then v / 10 else v / 16
  }

  function Rest(v: nat, base: nat): (d: nat)
    requires IsBase(base)
    ensures d < base
  {
    if base == 8 then v % 8 else if base == 10 then v % 10 else v % 16
  }

  // ---- digits ----

  function DigitChar(d: nat, upper: bool): char
    requires d < 16
  {
    if d < 10 then '0' + d as char else (if upper then 'A' else 'a') + (d - 10) as char
  }

  predicate IsDigit(c: char) {
    '0' <= c <= '9' || 'a' <= c <= 'f' || 'A' <= c <= 'F'
  }

  function DigitValue(c: char): nat {
    if '0' <= c <= '9' then (c - '0') as nat
    else if 'a' <= c <= 'f' then 10 + (c - 'a') as nat
    else if 'A' <= c <= 'F' then 10 + (c - 'A') as nat
    else 0
  }

  predicate Numeral(s: string) {
    forall i :: 0 <= i < |s| ==> IsDigit(s[i])
  }

  /** The number a string of digits stands for. */
  function ValueOf(s: string, base: nat): nat {
    if s == "" then 0 else ValueOf(s[..|s| - 1], base) * base + DigitValue(s[|s| - 1])
  }

  function Digits(v: nat, base: nat, upper: bool): (s: string)
    requires IsBase(base)
    ensures s != ""
    decreases v
  {
    if v < base then [DigitChar(v, upper)]
    else
      DivMod(v, base);
      Digits(Quotient(v, base), base, upper) + [DigitChar(Rest(v, base), upper)]
  }

  lemma DigitCharRead(d: nat, upper: bool)
    requires d < 16
    ensures IsDigit(DigitChar(d, upper)) && DigitValue(DigitChar(d, upper)) == d
  {
  }

  lemma DivMod(v: nat, base: nat)
    requires IsBase(base)
    ensures v == Quotient(v, base) * base + Rest(v, base)
    ensures if v < base then Quotient(v, base) == 0 && Rest(v, base) == v else 0 < Quotient(v, base) < v
  {
  }

  lemma LastApart(s: string, c: char, base: nat)
    ensures ValueOf(s + [c], base) == ValueOf(s, base) * base + DigitValue(c)
  {
    assert (s + [c])[..|s|] == s;
  }

  lemma {:induction false} DigitsRead(v: nat, base: nat, upper: bool)
    requires IsBase(base)
    ensures ValueOf(Digits(v, base, upper), base) == v && Numeral(Digits(v, base, upper))
    decreases v
  {
    if v < base {
      DigitCharRead(v, upper);
      OneDigit(DigitChar(v, upper), base);
    } else {
      var q, r := Quotient(v, base), Rest(v, base);
      DivMod(v, base);
      DigitsRead(q, base, upper);
      DigitCharRead(r, upper);
      LastApart(Digits(q, base, upper), DigitChar(r, upper), base);
      NumeralEnds(Digits(q, base, upper), DigitChar(r, upper));
    }
  }

  lemma OneDigit(c: char, base: nat)
    ensures ValueOf([c], base) == DigitValue(c)
  {
    assert [c][..0] == "";
  }

  lemma NumeralEnds(s: string, c: char)
    requires Numeral(s) && IsDigit(c)
    ensures Numeral(s + [c])
  {
  }

  function Power(base: nat, n: nat): (p: nat)
    ensures base > 0 ==> p > 0
  {
    if n == 0 then 1 else base * Power(base, n - 1)
  }

  /** A number has at most as many digits as its bound. */
  lemma {:induction false} DigitCount(v: nat, base: nat, upper: bool, n: nat)
    requires IsBase(base) && n > 0 && v < Power(base, n)
    ensures |Digits(v, base, upper)| <= n
    decreases v
  {
    DivMod(v, base);
    if v >= base {
      assert Power(base, 1) == base * Power(base, 0);
      Shorter(v, base, n);
      DigitCount(Quotient(v, base), base, upper, n - 1);
    }
  }

  lemma Shorter(v: nat, base: nat, n: nat)
    requires IsBase(base) && n > 0 && v < Power(base, n)
    ensures Quotient(v, base) < Power(base, n - 1)
  {
    var p := Power(base, n - 1);
    if base == 8 {
      assert Power(8, n) == 8 * p;
    } else if base == 10 {
      assert Power(10, n) == 10 * p;
    } else {
      assert Power(16, n) == 16 * p;
    }
  }

  lemma AtLeast(a: nat, b: nat, c: nat)
    requires b <= c
    ensures a * b <= a * c
  {
  }

  /** 64 bits never take more than 22 digits in base 8, 10 or 16. */
  lemma Fits64(v: nat, base: nat)
    requires v < U64 && IsBase(base)
    ensures v < Power(base, 22)
  {
    PowersGrow(base, 22);
    assert Power(8, 22) == 0x4_0000_0000_0000_0000 by {
      assert Power(8, 4) == 4096;
      assert Power(8, 8) == 0x100_0000;
      assert Power(8, 16) == 0x1_0000_0000_0000;
    }
  }

  lemma {:induction false} PowersGrow(base: nat, n: nat)
    requires base >= 8
    ensures Power(base, n) >= Power(8, n)
    decreases n
  {
    if n > 0 {
      PowersGrow(base, n - 1);
      AtLeast(8, Power(8, n - 1), Power(base, n - 1));
      AtLeast(Power(base, n - 1), 8, base);
    }
  }

  // ---- format_int ----

  function Magnitude(val: int): nat {
    if val < 0 then -val else val
  }

  function Sign(val: int, signed: bool, flags: Flags): string {
    if !signed then "" else if val < 0 then "-" else if flags.plus then "+" else if flags.space then " " else ""
  }

  function Prefix(val: int, base: nat, flags: Flags, upper: bool): string {
    if flags.hash && base == 16 then (if upper then "0X" else "0x")
    else if flags.hash && base == 8 && val != 0 then "0"
    else ""
  }

  function IntText(val: int, base: nat, signed: bool, flags: Flags, upper: bool): string
    requires IsBase(base)
  {
    Sign(val, signed, flags) + Prefix(val, base, flags, upper) + Digits(Magnitude(val), base, upper)
  }

  function Reversed(s: string): string {
    if s == "" then "" else [s[|s| - 1]] + Reversed(s[..|s| - 1])
  }

  /** The digits not generated yet, followed by those in `tmp`. */
  ghost predicate Generated(v: nat, rest: nat, done: string, base: nat, upper: bool)
    requires IsBase(base)
  {
    Digits(v, base, upper) == (if rest == 0 then "" else Digits(rest, base, upper)) + Reversed(done)
  }

  lemma GeneratesFirst(v: nat, base: nat, upper: bool)
    requires IsBase(base)
    ensures Generated(v, Quotient(v, base), [DigitChar(Rest(v, base), upper)], base, upper)
  {
    var c := [DigitChar(Rest(v, base), upper)];
    assert c[..0] == "" && Reversed(c) == c + Reversed("");
    DivMod(v, base);
  }

  lemma GeneratesNext(v: nat, rest: nat, done: string, base: nat, upper: bool)
    requires IsBase(base) && Generated(v, rest, done, base, upper) && rest != 0
    ensures Generated(v, Quotient(rest, base), done + [DigitChar(Rest(rest, base), upper)], base, upper)
  {
    var c := DigitChar(Rest(rest, base), upper);
    assert (done + [c])[..|done|] == done;
    assert Reversed(done + [c]) == [c] + Reversed(done);
    DivMod(rest, base);
    var front := if Quotient(rest, base) == 0 then "" else Digits(Quotient(rest, base), base, upper);
    assert Digits(rest, base, upper) == front + [c];
    Assoc(front, [c], Reversed(done));
  }

  lemma NothingAround(s: string)
    ensures "" + s == s && "" + s + "" == s && s + "" == s
  {
  }

  /** The most significant digit is 0 for 0 only. */
  lemma {:induction false} LeadingDigit(v: nat, base: nat, upper: bool)
    requires IsBase(base)
    ensures Digits(v, base, upper)[0] == '0' <==> v == 0
    decreases v
  {
    DivMod(v, base);
    if v >= base {
      LeadingDigit(Quotient(v, base), base, upper);
    }
  }

  lemma LastIsFirst(done: string)
    requires done != ""
    ensures Reversed(done)[0] == done[|done| - 1]
  {
  }

  /** What is left of the number fits the cells that are left of 22. */
  ghost predicate Room(rest: nat, base: nat, i: nat) {
    i <= 22 && rest < Power(base, 22 - i)
  }

  lemma RoomLeft(v: nat, base: nat, i: nat)
    requires IsBase(base) && Room(v, base, i) && (i == 0 || v != 0)
    ensures i < 22 && Room(Quotient(v, base), base, i + 1)
  {
    assert Power(base, 0) == 1;
    Shorter(v, base, 22 - i);
  }

  lemma RoomAtFirst(v: nat, base: nat)
    requires v < U64 && IsBase(base)
    ensures Room(Quotient(v, base), base, 1)
  {
    Fits64(v, base);
    RoomLeft(v, base, 0);
  }

  /** The loop that generates the digits in reverse (printf.c:46-49); 22 cells are enough. */
  method GenerateDigits(tmp: array<char>, v: nat, base: nat, upper: bool) returns (i: nat)
    requires tmp.Length == 32 && v < U64 && IsBase(base)
    modifies tmp
    ensures 1 <= i <= 22 && Reversed(tmp[..i]) == Digits(v, base, upper)
  {
    RoomAtFirst(v, base);
    tmp[0] := DigitChar(Rest(v, base), upper);
    var uval: nat := Quotient(v, base);
    i := 1;
    GeneratesFirst(v, base, upper);
    ghost var done := [DigitChar(Rest(v, base), upper)];
    while uval != 0
      invariant 1 <= i && Room(uval, base, i)
      invariant tmp[..i] == done && Generated(v, uval, done, base, upper)
    {
      GeneratesNext(v, uval, done, base, upper);
      RoomLeft(uval, base, i);
      var d := DigitChar(Rest(uval, base), upper);
      tmp[i] := d;
      done := done + [d];
      uval, i := Quotient(uval, base), i + 1;
    }
  }

  method FormatInt(buf: array<char>, val: int, base: nat, signed: bool, flags: Flags, upper: bool) returns (len: nat)
    requires buf.Length == 64 && IsBase(base)
    requires -U64 <= 2 * val && val < U64 && (val >= 0 || signed)
    modifies buf
    ensures len <= 25 && buf[..len] == IntText(val, base, signed, flags, upper)
  {
    var tmp := new char[32];
    var neg := signed && val < 0;
    var i := GenerateDigits(tmp, if neg then -val else val, base, upper);
    LeadingDigit(Magnitude(val), base, upper);
    LastIsFirst(tmp[..i]);
    len := PutHead(buf, val, base, signed, flags, upper, tmp[i - 1]);
    len := CopyReversed(buf, len, tmp, i);
  }

  /** The sign and the prefix (printf.c:51-65); `top` is the most significant digit. */
  method PutHead(buf: array<char>, val: int, base: nat, signed: bool, flags: Flags, upper: bool, top: char)
    returns (len: nat)
    requires buf.Length == 64 && (val >= 0 || signed) && (top == '0' <==> val == 0)
    modifies buf
    ensures len <= 3 && buf[..len] == Sign(val, signed, flags) + Prefix(val, base, flags, upper)
  {
    len := 0;
    if signed && val < 0 {
      buf[len] := '-';
      len := len + 1;
    } else if signed && flags.plus {
      buf[len] := '+';
      len := len + 1;
    } else if signed && flags.space {
      buf[len] := ' ';
      len := len + 1;
    }
    ghost var sign := buf[..len];
    if flags.hash && base == 16 {
      buf[len] := '0';
      buf[len + 1] := if upper then 'X' else 'x';
      assert buf[..len + 2] == sign + [buf[len], buf[len + 1]];
      len := len + 2;
    } else if flags.hash && base == 8 && top != '0' {
      buf[len] := '0';
      assert buf[..len + 1] == sign + [buf[len]];
      len := len + 1;
    }
  }

  /** The final loop (printf.c:67-68). */
  method CopyReversed(buf: array<char>, start: nat, tmp: array<char>, n: nat) returns (len: nat)
    requires buf != tmp && n <= tmp.Length && start + n <= buf.Length
    modifies buf
    ensures len == start + n && buf[..len] == old(buf[..start]) + Reversed(tmp[..n])
  {
    var i := n;
    len := start;
    ghost var out := "";
    while i > 0
      invariant 0 <= i <= n && len == start + n - i
      invariant buf[..len] == old(buf[..start]) + out && out + Reversed(tmp[..i]) == Reversed(tmp[..n])
    {
      i := i - 1;
      assert tmp[..i + 1][..i] == tmp[..i];
      ghost var b := buf[..len];
      buf[len] := tmp[i];
      assert buf[..len + 1] == b + [tmp[i]];
      out := out + [tmp[i]];
      len := len + 1;
    }
  }

  // ---- format_ptr ----

  /** All `n` hexadecimal digits of `x`, leading zeros included. */
  function HexDigits(x: nat, n: nat): string {
    if n == 0 then "" else HexDigits(x / 16, n - 1) + [DigitChar(x % 16, false)]
  }

  function PtrText(x: nat): string {
    "0x" + HexDigits(x, 16)
  }

  lemma {:induction false} HexDigitsRead(x: nat, n: nat)
    ensures |HexDigits(x, n)| == n && Numeral(HexDigits(x, n))
    ensures ValueOf(HexDigits(x, n), 16) == x % Power(16, n)
    decreases n
  {
    if n > 0 {
      HexDigitsRead(x / 16, n - 1);
      LastApart(HexDigits(x / 16, n - 1), DigitChar(x % 16, false), 16);
      DigitCharRead(x % 16, false);
      ModSplit(x, Power(16, n - 1));
    }
  }

  lemma ModSplit(x: nat, p: nat)
    requires p > 0
    ensures (x / 16) % p * 16 + x % 16 == x % (16 * p)
  {
    var q, r := x / 16, x % 16;
    var a, b := q / p, q % p;
    assert q == p * a + b && 16 * (p * a) == (16 * p) * a;
    Remainder(x, 16 * p, a, 16 * b + r);
  }

  lemma Remainder(x: nat, m: nat, a: nat, r: nat)
    requires m > 0 && x == m * a + r && r < m
    ensures x % m == r && x / m == a
  {
    var a', r' := x / m, x % m;
    assert x == m * a' + r';
    assert m * (a' + 1) == m * a' + m && m * (a + 1) == m * a + m;
    if a' < a {
      AtLeast(m, a' + 1, a);
    }
    if a < a' {
      AtLeast(m, a + 1, a');
    }
  }

  const TOP: nat := 0x1000_0000_0000_0000

  /** Taking the top digit of what has been shifted up, `p` being the shift and `q` what remains. */
  lemma TopDigit(x: nat, p: nat, q: nat, y: nat)
    requires q > 0 && p * q == TOP && y == x % (16 * q) * p
    ensures y / TOP == x / q % 16 && y * 16 % U64 == x % q * (16 * p) && y < U64
  {
    var d, r := x / q % 16, x % q;
    SplitTop(x, q);
    Distribute(p, q, d, r);
    BelowTop(p, q, r);
    TopParts(y, d, r * p);
    assert r * (16 * p) == 16 * (r * p);
  }

  lemma BelowTop(p: nat, q: nat, r: nat)
    requires r < q && p * q == TOP
    ensures r * p < TOP
  {
    AtLeast(p, r + 1, q);
    assert p * (r + 1) == r * p + p;
    assert p > 0;
  }

  lemma TopParts(y: nat, d: nat, w: nat)
    requires y == TOP * d + w && w < TOP && d < 16
    ensures y / TOP == d && y * 16 % U64 == 16 * w && y < U64
  {
  }

  lemma Distribute(p: nat, q: nat, d: nat, r: nat)
    ensures (q * d + r) * p == (p * q) * d + r * p && p * (d + r) == d * p + r * p
  {
    assert q * d * p == (p * q) * d;
  }

  lemma TopPower()
    ensures Power(16, 15) == TOP
  {
    assert Power(16, 5) == 0x10_0000;
    assert Power(16, 10) == 0x100_0000_0000;
  }

  lemma SplitTop(x: nat, q: nat)
    requires q > 0
    ensures x % (16 * q) == q * (x / q % 16) + x % q
  {
    var a, r := x / q, x % q;
    assert x == q * a + r && a == 16 * (a / 16) + a % 16;
    assert q * a == (16 * q) * (a / 16) + q * (a % 16) by {
      assert q * (16 * (a / 16) + a % 16) == q * (16 * (a / 16)) + q * (a % 16);
    }
    AtLeast(q, a % 16 + 1, 16);
    assert q * (a % 16 + 1) == q * (a % 16) + q;
    Remainder(x, 16 * q, a / 16, q * (a % 16) + r);
  }

  lemma {:induction false} PowersMultiply(i: nat, j: nat)
    ensures Power(16, i) * Power(16, j) == Power(16, i + j)
    decreases i
  {
    if i > 0 {
      PowersMultiply(i - 1, j);
      assert 16 * Power(16, i - 1) * Power(16, j) == 16 * (Power(16, i - 1) * Power(16, j));
    }
  }

  /** The loop of `format_ptr` (printf.c:79-80): the top digit is taken and the rest shifted up. */
  method FormatPtr(buf: array<char>, x: nat) returns (len: nat)
    requires buf.Length == 64 && x < U64
    modifies buf
    ensures len == 18 && buf[..len] == PtrText(x)
  {
    buf[0] := '0';
    buf[1] := 'x';
    var y: nat, i: nat := x, 0;
    ghost var done := "0x";
    PtrStarts(x);
    while i < 16
      invariant 0 <= i <= 16 && PtrDone(x, i, y, done) && buf[..2 + i] == done
    {
      PtrStep(x, i, y, done);
      var d := DigitChar(y / TOP, false);
      buf[2 + i] := d;
      done := done + [d];
      y, i := y * 16 % U64, i + 1;
    }
    PtrEnds(x, y, done);
    len := 18;
  }

  /** `i` digits are out, and `y` is what is left of `x`, shifted up as far. */
  ghost predicate PtrDone(x: nat, i: nat, y: nat, done: string) {
    i <= 16 && y < U64 && PtrParts(x, i, Power(16, i), Power(16, 16 - i), y, done)
  }

  ghost predicate PtrParts(x: nat, i: nat, p: nat, q: nat, y: nat, done: string) {
    q > 0 && y == (x % q) * p && done == "0x" + HexDigits(x / q, i)
  }

  lemma PtrStarts(x: nat)
    requires x < U64
    ensures PtrDone(x, 0, x, "0x")
  {
    TopPower();
    assert Power(16, 16) == 16 * Power(16, 15) == U64;
    assert "0x" + "" == "0x";
  }

  lemma PtrStep(x: nat, i: nat, y: nat, done: string)
    requires i < 16 && PtrDone(x, i, y, done)
    ensures y / TOP < 16 && PtrDone(x, i + 1, y * 16 % U64, done + [DigitChar(y / TOP, false)])
  {
    TopPower();
    PowersMultiply(i, 15 - i);
    NextPowers(i);
    PtrPartsStep(x, i, Power(16, i), Power(16, 15 - i), y, done);
  }

  lemma PtrPartsStep(x: nat, i: nat, p: nat, q: nat, y: nat, done: string)
    requires q > 0 && p * q == TOP && PtrParts(x, i, p, 16 * q, y, done)
    ensures y < U64 && y / TOP < 16
    ensures PtrParts(x, i + 1, 16 * p, q, y * 16 % U64, done + [DigitChar(y / TOP, false)])
  {
    TopDigit(x, p, q, y);
    var v, w := DivideTwice(x, q);
    NextText(v, w, i, y / TOP, done);
  }

  lemma NextText(v: nat, w: nat, i: nat, d: nat, done: string)
    requires w == v / 16 && d == v % 16 && done == "0x" + HexDigits(w, i)
    ensures done + [DigitChar(d, false)] == "0x" + HexDigits(v, i + 1)
  {
    NextHexDigit(v, i);
    Assoc("0x", HexDigits(w, i), [DigitChar(d, false)]);
  }

  lemma NextPowers(i: nat)
    requires i < 16
    ensures Power(16, 16 - i) == 16 * Power(16, 15 - i) && Power(16, i + 1) == 16 * Power(16, i)
    ensures Power(16, 16 - (i + 1)) == Power(16, 15 - i)
  {
  }

  lemma NextHexDigit(x: nat, i: nat)
    ensures HexDigits(x, i + 1) == HexDigits(x / 16, i) + [DigitChar(x % 16, false)]
  {
  }

  lemma PtrEnds(x: nat, y: nat, done: string)
    requires PtrDone(x, 16, y, done)
    ensures done == PtrText(x) && |done| == 18
  {
    assert Power(16, 0) == 1;
    HexDigitsRead(x, 16);
  }

  lemma DivideTwice(x: nat, q: nat) returns (v: nat, w: nat)
    requires q > 0
    ensures v == x / q && w == x / (16 * q) && w == v / 16
  {
    SplitTop(x, q);
    v := x / q;
    w := v / 16;
    var a, r := v % 16, x % q;
    assert x == q * v + r && v == 16 * w + a;
    Widen(q, w, a);
    Remainder(x, 16 * q, w, q * a + r);
  }

  lemma Widen(q: nat, w: nat, a: nat)
    ensures q * (16 * w + a) == (16 * q) * w + q * a
  {
    assert q * (16 * w + a) == q * (16 * w) + q * a;
  }

  lemma AllDigits(x: nat)
    requires x < U64
    ensures x % Power(16, 16) == x
  {
    TopPower();
    assert Power(16, 16) == 16 * Power(16, 15) == U64;
  }

  /** What `%p` writes is read back. */
  lemma PtrReadsBack(x: nat)
    requires x < U64
    ensures |PtrText(x)| == 18 && ReadNumber(PtrText(x), 16) == x
  {
    var s := HexDigits(x, 16);
    HexDigitsRead(x, 16);
    AllDigits(x);
    ReadShape(0, "", "0x", 0, s, 0, 16, x);
    NothingAround(s);
    NothingAround(PtrText(x));
  }

  // ---- fields ----

  function Repeat(c: char, n: nat): (s: string)
    ensures |s| == n && forall i :: 0 <= i < n ==> s[i] == c
  {
    if n == 0 then "" else Repeat(c, n - 1) + [c]
  }

  function PadLen(width: int, len: nat): nat {
    if width > len then width - len else 0
  }

  function Justified(s: string, left: bool, width: int): string {
    if left then s + Repeat(' ', PadLen(width, |s|)) else Repeat(' ', PadLen(width, |s|)) + s
  }

  function HeadLength(num: string): (h: nat)
    ensures h <= |num|
  {
    if num != "" && (num[0] == '-' || num[0] == '+' || num[0] == ' ') then 1
    else if |num| >= 2 && num[0] == '0' && (num[1] == 'x' || num[1] == 'X') then 2
    else 0
  }

  /** A number in its field: zeros go after the sign or the prefix, spaces around the whole. */
  function NumberField(num: string, flags: Flags, width: int): string {
    if flags.zero && !flags.left && num != "" then
      num[..HeadLength(num)] + Repeat('0', PadLen(width, |num|)) + num[HeadLength(num)..]
    else Justified(num, flags.left, width)
  }

  // ---- reading a field ----

  function TrimStart(s: string): string {
    if s != "" && s[0] == ' ' then TrimStart(s[1..]) else s
  }

  function TrimEnd(s: string): string {
    if s != "" && s[|s| - 1] == ' ' then TrimEnd(s[..|s| - 1]) else s
  }

  function ReadUnsigned(s: string, base: nat): nat {
    if base == 16 && |s| >= 2 && s[0] == '0' && (s[1] == 'x' || s[1] == 'X') then ValueOf(s[2..], base)
    else ValueOf(s, base)
  }

  function ReadSigned(s: string, base: nat): int {
    var whole: int := ReadUnsigned(s, base);
    if s != "" && s[0] == '-' then -(ReadUnsigned(s[1..], base) as int)
    else if s != "" && s[0] == '+' then ReadUnsigned(s[1..], base)
    else whole
  }

  /** What a reader takes a field for: spaces do not matter, then there may be a sign and a prefix. */
  function ReadNumber(s: string, base: nat): int {
    ReadSigned(TrimEnd(TrimStart(s)), base)
  }

  lemma {:induction false} TrimStartPadded(n: nat, t: string)
    ensures TrimStart(Repeat(' ', n) + t) == TrimStart(t)
  {
    var s := Repeat(' ', n) + t;
    if n == 0 {
      assert s == t;
    } else {
      assert s[1..] == Repeat(' ', n - 1) + t;
      TrimStartPadded(n - 1, t);
    }
  }

  lemma {:induction false} TrimEndPadded(t: string, n: nat)
    ensures TrimEnd(t + Repeat(' ', n)) == TrimEnd(t)
  {
    var s := t + Repeat(' ', n);
    if n == 0 {
      assert s == t;
    } else {
      assert s[..|s| - 1] == t + Repeat(' ', n - 1);
      TrimEndPadded(t, n - 1);
    }
  }

  lemma {:induction false} LeadingZeros(n: nat, s: string, base: nat)
    ensures ValueOf(Repeat('0', n) + s, base) == ValueOf(s, base)
    decreases n, |s|
  {
    var t := Repeat('0', n) + s;
    if s != "" {
      assert t[..|t| - 1] == Repeat('0', n) + s[..|s| - 1];
      LeadingZeros(n, s[..|s| - 1], base);
    } else if n > 0 {
      assert t == Repeat('0', n - 1) + "" + ['0'];
      LeadingZeros(n - 1, "", base);
      LastApart(Repeat('0', n - 1) + "", '0', base);
    }
  }

  predicate IsSign(sign: string) {
    sign == "" || sign == "-" || sign == "+" || sign == " "
  }

  predicate IsPrefix(p: string) {
    p == "" || p == "0x" || p == "0X"
  }

  /** Begins and ends with a digit. */
  predicate Solid(t: string) {
    t != "" && IsDigit(t[0]) && IsDigit(t[|t| - 1])
  }

  lemma ZerosBefore(z: nat, digits: string)
    requires digits != "" && Numeral(digits)
    ensures Numeral(Repeat('0', z) + digits)
  {
    var body := Repeat('0', z) + digits;
    forall i | 0 <= i < |body|
      ensures IsDigit(body[i])
    {
      assert i >= z ==> body[i] == digits[i - z];
    }
  }

  lemma ReadPrefixed(p: string, body: string, base: nat)
    requires IsPrefix(p) && (p != "" ==> base == 16) && body != "" && Numeral(body)
    ensures ReadUnsigned(p + body, base) == ValueOf(body, base) && Solid(p + body)
  {
    if p != "" {
      assert (p + body)[2..] == body;
      assert (p + body)[|p + body| - 1] == body[|body| - 1];
    } else {
      assert p + body == body;
      assert |body| >= 2 ==> IsDigit(body[1]);
    }
  }

  lemma ReadSpaced(a: nat, t: string, b: nat, base: nat)
    requires t != "" && t[0] != ' ' && t[|t| - 1] != ' '
    ensures ReadNumber(Repeat(' ', a) + t + Repeat(' ', b), base) == ReadSigned(t, base)
  {
    Assoc(Repeat(' ', a), t, Repeat(' ', b));
    TrimStartPadded(a, t + Repeat(' ', b));
    TrimEndPadded(t, b);
  }

  lemma ReadSign(sign: string, u: string, base: nat)
    requires (sign == "" || sign == "-" || sign == "+") && Solid(u)
    ensures ReadSigned(sign + u, base) == if sign == "-" then -(ReadUnsigned(u, base) as int) else ReadUnsigned(u, base)
  {
    if sign != "" {
      assert (sign + u)[1..] == u;
    } else {
      assert sign + u == u;
    }
  }

  lemma ReadShape(a: nat, sign: string, p: string, z: nat, digits: string, b: nat, base: nat, v: nat)
    requires IsSign(sign) && IsPrefix(p) && (p != "" ==> base == 16)
    requires digits != "" && Numeral(digits) && ValueOf(digits, base) == v
    ensures ReadNumber(Repeat(' ', a) + (sign + (p + (Repeat('0', z) + digits))) + Repeat(' ', b), base) ==
      if sign == "-" then -(v as int) else v
  {
    var body := Repeat('0', z) + digits;
    LeadingZeros(z, digits, base);
    ZerosBefore(z, digits);
    ReadPrefixed(p, body, base);
    ReadPadded(a, sign, p + body, b, base);
  }

  lemma ReadPadded(a: nat, sign: string, u: string, b: nat, base: nat)
    requires IsSign(sign) && Solid(u)
    ensures ReadNumber(Repeat(' ', a) + (sign + u) + Repeat(' ', b), base) ==
      if sign == "-" then -(ReadUnsigned(u, base) as int) else ReadUnsigned(u, base)
  {
    if sign == " " {
      Assoc(Repeat(' ', a), [' '], u);
      ReadSpaced(a + 1, u, b, base);
      ReadSign("", u, base);
      NothingAround(u);
    } else {
      ReadSign(sign, u, base);
      ReadSpaced(a, sign + u, b, base);
    }
  }

  /** The parts `format_int` puts together. */
  lemma TextShape(val: int, base: nat, signed: bool, flags: Flags, upper: bool) returns (p: string, digits: string)
    requires IsBase(base) && (signed ==> base == 10) && (val < 0 ==> signed)
    ensures var num, sign := IntText(val, base, signed, flags, upper), Sign(val, signed, flags);
      && num == sign + (p + digits) && IsSign(sign) && IsPrefix(p) && (p != "" ==> base == 16)
      && digits != "" && Numeral(digits) && ValueOf(digits, base) == Magnitude(val)
      && num[..HeadLength(num)] == sign + p && num[HeadLength(num)..] == digits
  {
    var num, sign := IntText(val, base, signed, flags, upper), Sign(val, signed, flags);
    var d, prefix := Digits(Magnitude(val), base, upper), Prefix(val, base, flags, upper);
    DigitsRead(Magnitude(val), base, upper);
    Assoc(sign, prefix, d);
    if flags.hash && base == 16 {
      p, digits := prefix, d;
    } else {
      p, digits := "", prefix + d;
      assert p + digits == digits;
      var z := |prefix|;
      assert prefix == Repeat('0', z) by {
        assert Repeat('0', 1) == Repeat('0', 0) + "0" == "0";
      }
      LeadingZeros(z, d, base);
      ZerosBefore(z, d);
    }
    HeadOf(sign, p, digits, num);
  }

  lemma HeadOf(sign: string, p: string, digits: string, num: string)
    requires IsSign(sign) && IsPrefix(p) && (sign == "" || p == "") && digits != "" && Numeral(digits)
    requires num == sign + (p + digits)
    ensures num[..HeadLength(num)] == sign + p && num[HeadLength(num)..] == digits
  {
    assert num == sign + p + digits;
    assert IsDigit(digits[0]) && (|digits| >= 2 ==> IsDigit(digits[1]));
    assert sign == "" && p == "" ==> num == digits;
  }

  /** Whatever the flags, the base and the width, reading a formatted number gives it back, and the field
      is as long as the wider of the two. */
  lemma FieldReadsBack(val: int, base: nat, signed: bool, flags: Flags, upper: bool, width: int)
    requires IsBase(base) && (signed ==> base == 10) && (val < 0 ==> signed)
    ensures var num := IntText(val, base, signed, flags, upper);
      var field := NumberField(num, flags, width);
      ReadNumber(field, base) == val && |field| == if width > |num| then width else |num|
  {
    var num, sign := IntText(val, base, signed, flags, upper), Sign(val, signed, flags);
    var p, digits := TextShape(val, base, signed, flags, upper);
    var a, z, b := FieldShape(num, sign, p, digits, flags, width);
    ReadShape(a, sign, p, z, digits, b, base, Magnitude(val));
  }

  /** Where the padding goes. */
  lemma FieldShape(num: string, sign: string, p: string, digits: string, flags: Flags, width: int)
    returns (a: nat, z: nat, b: nat)
    requires digits != "" && num == sign + (p + digits)
    requires num[..HeadLength(num)] == sign + p && num[HeadLength(num)..] == digits
    ensures var field := NumberField(num, flags, width);
      && field == Repeat(' ', a) + (sign + (p + (Repeat('0', z) + digits))) + Repeat(' ', b)
      && |field| == |num| + PadLen(width, |num|)
  {
    var pad := PadLen(width, |num|);
    a, z, b := 0, 0, 0;
    if flags.zero && !flags.left {
      z := pad;
      Assoc(sign + p, Repeat('0', pad), digits);
      Assoc(sign, p, Repeat('0', pad) + digits);
      NothingAround(sign + (p + (Repeat('0', pad) + digits)));
    } else {
      NothingAround(digits);
      if flags.left {
        b := pad;
        NothingAround(num);
      } else {
        a := pad;
        NothingAround(Repeat(' ', pad) + num);
      }
    }
  }
}
