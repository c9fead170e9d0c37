/** What the conversions of a format mean, letter by letter (lib/printf.c:21-82, 140-355, 380-583): how a
    conversion is written, and the text it stands for. */
module Formats {
  import opened Wrappers
  import opened Numbers
  import opened Printf

  // ---- how a conversion is written ----

  /** A width or a precision. */
  datatype Amount = Absent | Given(digits: string) | Star

  datatype Spec = Spec(flags: string, width: Amount, precision: Amount, length: string, letter: char)

  function AmountText(a: Amount): string {
    match a
    case Absent => ""
    case Given(digits) => digits
    case Star => "*"
  }

  function PrecisionText(a: Amount): string {
    if a.Absent? then "" else "." + AmountText(a)
  }

  predicate DecimalDigits(s: string) {
    forall i :: 0 <= i < |s| ==> '0' <= s[i] <= '9'
  }

  /** No character of the parts before the letter. */
  predicate IsLetter(c: char) {
    c != '-' && c != '+' && c != ' ' && c != '#' && !('0' <= c <= '9') && c != '*' && c != '.'
    && c != 'l' && c != 'h' && c != 'z'
  }

  predicate IsLength(s: string) {
    s == "" || s == "l" || s == "ll" || s == "h" || s == "hh" || s == "z"
  }

  predicate AreFlags(s: string) {
    forall i :: 0 <= i < |s| ==> s[i] == '-' || s[i] == '+' || s[i] == ' ' || s[i] == '#' || s[i] == '0'
  }

  /** Flags in any order and number, numbers that are an `int`, a length, a letter. */
  predicate Proper(sp: Spec) {
    && AreFlags(sp.flags) && (sp.width.Given? ==> sp.width.digits != "" && sp.width.digits[0] != '0')
    && AmountOk(sp.width) && AmountOk(sp.precision) && IsLength(sp.length) && IsLetter(sp.letter)
  }

  predicate AmountOk(a: Amount) {
    a.Given? ==> DecimalDigits(a.digits) && ValueOf(a.digits, 10) < 0x8000_0000
  }

  function Uses(a: Amount): nat {
    if a.Star? then 1 else 0
  }

  /** The argument a `*` takes is an `int`. */
  predicate StarOk(a: Amount, args: seq<Arg>, k: nat) {
    a.Star? ==> k < |args| && args[k].Number? && -0x8000_0000 <= args[k].n < 0x8000_0000
  }

  function AmountOf(a: Amount, args: seq<Arg>, k: nat): int {
    match a
    case Absent => 0
    case Given(digits) => ValueOf(digits, 10)
    case Star => NumberAmong(args, k)
  }

  /** The argument `k`, where it is a number. */
  function NumberAmong(args: seq<Arg>, k: nat): int {
    if k < |args| && args[k].Number? then args[k].n else 0
  }

  /** -1 stands for no precision, and a negative argument for 0. */
  function PrecisionOf(a: Amount, args: seq<Arg>, k: nat): int {
    if a.Absent? then -1 else if AmountOf(a, args, k) < 0 then 0 else AmountOf(a, args, k)
  }

  function LongOf(length: string): nat {
    if length == "l" || length == "z" then 1 else if length == "ll" then 2 else 0
  }

  /** The text `t` stands at `i`. */
  ghost predicate Stands(fmt: string, i: nat, t: string) {
    i + |t| <= |fmt| && forall n :: 0 <= n < |t| ==> CharIs(fmt, i, t, n)
  }

  predicate CharIs(fmt: string, i: nat, t: string, n: nat) {
    i + n < |fmt| && n < |t| && fmt[i + n] == t[n]
  }

  function WidthPos(i: nat, sp: Spec): nat { i + 1 + |sp.flags| }

  function PrecisionPos(i: nat, sp: Spec): nat { WidthPos(i, sp) + |AmountText(sp.width)| }

  function LengthPos(i: nat, sp: Spec): nat { PrecisionPos(i, sp) + |PrecisionText(sp.precision)| }

  function LetterPos(i: nat, sp: Spec): nat { LengthPos(i, sp) + |sp.length| }

  /** Where the format goes on behind a conversion at `i`. */
  function Next(i: nat, sp: Spec): nat { LetterPos(i, sp) + 1 }

  /** The conversion stands at `i`: a percent sign, flags, width, precision, length and letter. */
  ghost predicate Written(fmt: string, i: nat, sp: Spec) {
    && Next(i, sp) <= |fmt| && fmt[i] == '%' && Stands(fmt, i + 1, sp.flags)
    && Stands(fmt, WidthPos(i, sp), AmountText(sp.width))
    && Stands(fmt, PrecisionPos(i, sp), PrecisionText(sp.precision))
    && Stands(fmt, LengthPos(i, sp), sp.length) && fmt[LetterPos(i, sp)] == sp.letter
  }

  /** The conversion `sp` stands at `i`, and the arguments its `*`s take are there from `k` on. */
  ghost predicate Occurs(fmt: string, i: nat, sp: Spec, args: seq<Arg>, k: nat) {
    && Proper(sp) && Written(fmt, i, sp)
    && StarOk(sp.width, args, k) && StarOk(sp.precision, args, k + Uses(sp.width))
  }

  /** The argument that is converted. */
  function ArgIndex(sp: Spec, k: nat): nat {
    k + Uses(sp.width) + Uses(sp.precision)
  }

  function FlagSet(flags: string): Flags {
    Flags('-' in flags, '+' in flags, ' ' in flags, '#' in flags, '0' in flags)
  }

  /** What a conversion at `i` means. */
  function Meant(i: nat, sp: Spec, args: seq<Arg>, k: nat): Conversion {
    Conversion(FlagSet(sp.flags), AmountOf(sp.width, args, k), PrecisionOf(sp.precision, args, k + Uses(sp.width)),
               LongOf(sp.length), sp.letter, Next(i, sp), ArgIndex(sp, k))
  }

  /** Every conversion that can be written is parsed as what it was written for. */
  lemma SpecParsed(fmt: string, i: nat, sp: Spec, args: seq<Arg>, k: nat)
    requires Occurs(fmt, i, sp, args, k)
    ensures ConversionAt(fmt, i + 1, args, k) == Some(Meant(i, sp, args, k))
  {
    var w := FrontParsed(fmt, i, sp, args, k);
    var p := BackParsed(fmt, i, sp, args, w.k);
    Assembled(fmt, i + 1, args, k, WidthPos(i, sp), w, p, Meant(i, sp, args, k));
  }

  /** Flags and width. */
  lemma FrontParsed(fmt: string, i: nat, sp: Spec, args: seq<Arg>, k: nat) returns (w: Parsed)
    requires Proper(sp) && Written(fmt, i, sp) && StarOk(sp.width, args, k)
    ensures FlagEnd(fmt, i + 1) == WidthPos(i, sp) && FlagsIn(fmt[i + 1..WidthPos(i, sp)]) == FlagSet(sp.flags)
    ensures w == Parsed(AmountOf(sp.width, args, k), PrecisionPos(i, sp), k + Uses(sp.width))
    ensures NumberAt(fmt, WidthPos(i, sp), args, k) == Some(w)
  {
    Boundaries(fmt, i, sp);
    FlagsParsed(fmt, i + 1, sp.flags);
    AmountParsed(fmt, WidthPos(i, sp), sp.width, args, k);
    w := Parsed(AmountOf(sp.width, args, k), PrecisionPos(i, sp), k + Uses(sp.width));
  }

  /** Precision and length. */
  lemma BackParsed(fmt: string, i: nat, sp: Spec, args: seq<Arg>, k: nat) returns (p: Parsed)
    requires Proper(sp) && Written(fmt, i, sp) && StarOk(sp.precision, args, k)
    ensures p == Parsed(PrecisionOf(sp.precision, args, k), LengthPos(i, sp), k + Uses(sp.precision))
    ensures PrecisionAt(fmt, PrecisionPos(i, sp), args, k) == Some(p)
    ensures LengthAt(fmt, p.at) == (LongOf(sp.length), LetterPos(i, sp))
  {
    Boundaries(fmt, i, sp);
    PrecisionParsed(fmt, PrecisionPos(i, sp), sp.precision, args, k);
    p := Parsed(PrecisionOf(sp.precision, args, k), LengthPos(i, sp), k + Uses(sp.precision));
    LengthParsed(fmt, p.at, sp.length, sp.letter);
  }

  /** The parts of a conversion put together. */
  lemma Assembled(fmt: string, i: nat, args: seq<Arg>, k: nat, j: nat, w: Parsed, p: Parsed, c: Conversion)
    requires i <= |fmt| && FlagEnd(fmt, i) == j && NumberAt(fmt, j, args, k) == Some(w) && w.at <= |fmt|
    requires PrecisionAt(fmt, w.at, args, w.k) == Some(p) && p.at <= |fmt| && LengthAt(fmt, p.at).1 < |fmt|
    requires c.flags == FlagsIn(fmt[i..j]) && c.width == w.value && c.precision == p.value && c.k == p.k
    requires c.long == LengthAt(fmt, p.at).0 && c.next == LengthAt(fmt, p.at).1 + 1 && c.letter == fmt[c.next - 1]
    ensures ConversionAt(fmt, i, args, k) == Some(c)
  {
  }

  /** Each part ends where the next begins. */
  lemma Boundaries(fmt: string, i: nat, sp: Spec)
    requires Proper(sp) && Written(fmt, i, sp)
    ensures Closes(fmt[LengthPos(i, sp)]) && Closes(fmt[PrecisionPos(i, sp)]) && !IsFlag(fmt[WidthPos(i, sp)])
    ensures fmt[PrecisionPos(i, sp)] == '.' <==> !sp.precision.Absent?
  {
    FirstStands(fmt, LengthPos(i, sp), sp.length);
    FirstStands(fmt, PrecisionPos(i, sp), PrecisionText(sp.precision));
    FirstStands(fmt, WidthPos(i, sp), AmountText(sp.width));
  }

  lemma FirstStands(fmt: string, i: nat, t: string)
    requires Stands(fmt, i, t)
    ensures t != "" ==> i < |fmt| && fmt[i] == t[0]
  {
    assert t != "" ==> CharIs(fmt, i, t, 0);
  }

  /** A character that ends a number, and is no `*`. */
  predicate Closes(c: char) {
    !IsFlag(c) && !('0' <= c <= '9') && c != '*'
  }

  lemma FlagsParsed(fmt: string, i: nat, flags: string)
    requires Stands(fmt, i, flags) && AreFlags(flags)
    requires i + |flags| < |fmt| && !IsFlag(fmt[i + |flags|])
    ensures FlagEnd(fmt, i) == i + |flags| && FlagsIn(fmt[i..FlagEnd(fmt, i)]) == FlagSet(flags)
  {
    StandsIsSlice(fmt, i, flags);
    forall n | i <= n < i + |flags|
      ensures IsFlag(fmt[n])
    {
      assert CharIs(fmt, i, flags, n - i);
    }
    FlagsSpan(fmt, i, i + |flags|);
  }

  lemma StandsIsSlice(fmt: string, i: nat, t: string)
    requires Stands(fmt, i, t)
    ensures fmt[i..i + |t|] == t
  {
    forall n | 0 <= n < |t|
      ensures fmt[i..i + |t|][n] == t[n]
    {
      assert CharIs(fmt, i, t, n);
    }
  }

  lemma PrecisionParsed(fmt: string, i: nat, a: Amount, args: seq<Arg>, k: nat)
    requires Stands(fmt, i, PrecisionText(a)) && AmountOk(a) && StarOk(a, args, k)
    requires i + |PrecisionText(a)| < |fmt| && Closes(fmt[i + |PrecisionText(a)|])
    requires fmt[i] == '.' <==> !a.Absent?
    ensures PrecisionAt(fmt, i, args, k) ==
      Some(Parsed(PrecisionOf(a, args, k), i + |PrecisionText(a)|, k + Uses(a)))
  {
    if !a.Absent? {
      var t, u := PrecisionText(a), AmountText(a);
      var i' := i + 1;
      forall n | 0 <= n < |u|
        ensures CharIs(fmt, i', u, n)
      {
        assert CharIs(fmt, i, t, n + 1);
      }
      AmountParsed(fmt, i + 1, a, args, k);
    }
  }

  lemma {:induction false} DigitsSpan(fmt: string, i: nat, j: nat)
    requires i <= j <= |fmt| && (forall n :: i <= n < j ==> '0' <= fmt[n] <= '9')
    requires j < |fmt| ==> !('0' <= fmt[j] <= '9')
    ensures DigitEnd(fmt, i) == j
    decreases j - i
  {
    if i < j {
      DigitsSpan(fmt, i + 1, j);
    }
  }

  lemma AmountParsed(fmt: string, i: nat, a: Amount, args: seq<Arg>, k: nat)
    requires Stands(fmt, i, AmountText(a)) && AmountOk(a) && StarOk(a, args, k)
    requires i + |AmountText(a)| < |fmt| && Closes(fmt[i + |AmountText(a)|])
    ensures NumberAt(fmt, i, args, k) == Some(Parsed(AmountOf(a, args, k), i + |AmountText(a)|, k + Uses(a)))
  {
    var t := AmountText(a);
    if a.Star? {
      assert CharIs(fmt, i, t, 0);
    } else {
      StandsIsSlice(fmt, i, t);
      forall n | i <= n < i + |t|
        ensures '0' <= fmt[n] <= '9'
      {
        assert CharIs(fmt, i, t, n - i);
      }
      DigitsSpan(fmt, i, i + |t|);
      assert ValueOf("", 10) == 0;
      FirstStands(fmt, i, t);
    }
  }

  lemma LengthParsed(fmt: string, i: nat, length: string, letter: char)
    requires Stands(fmt, i, length) && IsLength(length) && IsLetter(letter)
    requires i + |length| < |fmt| && fmt[i + |length|] == letter
    ensures LengthAt(fmt, i) == (LongOf(length), i + |length|)
  {
    assert |length| >= 1 ==> CharIs(fmt, i, length, 0);
    assert |length| >= 2 ==> CharIs(fmt, i, length, 1);
  }

  /** A conversion in a format, whatever comes before and after it: its text is `t`, and then the rest follows. */
  ghost predicate Converts(fmt: string, i: nat, sp: Spec, args: seq<Arg>, k: nat, dropN: bool, t: string, k': nat)
    requires Next(i, sp) <= |fmt|
  {
    Render(fmt, i, args, k, dropN) == Before(t, Render(fmt, Next(i, sp), args, k', dropN))
  }

  /** Text without `%` stands for itself. */
  lemma {:induction false} LiteralText(fmt: string, i: nat, j: nat, args: seq<Arg>, k: nat, dropN: bool)
    requires i <= j <= |fmt| && forall n :: i <= n < j ==> fmt[n] != '%'
    ensures Render(fmt, i, args, k, dropN) == Before(fmt[i..j], Render(fmt, j, args, k, dropN))
    decreases j - i
  {
    var rest := Render(fmt, j, args, k, dropN);
    if i < j {
      LiteralText(fmt, i + 1, j, args, k, dropN);
      assert fmt[i..j] == [fmt[i]] + fmt[i + 1..j];
      if rest.Some? {
        Assoc([fmt[i]], fmt[i + 1..j], rest.value);
      }
    } else if rest.Some? {
      assert fmt[i..j] + rest.value == rest.value;
    }
  }

  // ---- numbers ----

  /** `digits` is how the number `v` is spelt: no leading zero but for 0 itself. */
  ghost predicate Spells(digits: string, v: nat, base: nat, alphabet: string) {
    && digits != "" && (digits[0] == '0' ==> |digits| == 1) && ValueOf(digits, base) == v
    && base <= |alphabet| && MadeOf(digits, alphabet[..base])
  }

  predicate MadeOf(s: string, alphabet: string) {
    forall i :: 0 <= i < |s| ==> s[i] in alphabet
  }

  const LOWER: string := "0123456789abcdef"
  const UPPER: string := "0123456789ABCDEF"

  /** The digits, and what they are worth. */
  lemma DigitTable(d: nat)
    requires d < 16
    ensures DigitChar(d, false) == "0123456789abcdef"[d] && DigitChar(d, true) == "0123456789ABCDEF"[d]
    ensures DigitValue("0123456789abcdef"[d]) == d && DigitValue("0123456789ABCDEF"[d]) == d
  {
  }

  /** The digit at the end counts once, and what is before it `base` times. */
  lemma {:induction false} PlaceValue(s: string, t: string, base: nat)
    ensures ValueOf(s + t, base) == ValueOf(s, base) * Power(base, |t|) + ValueOf(t, base)
    decreases |t|
  {
    if t == "" {
      assert s + t == s;
    } else {
      var m := |t| - 1;
      assert (s + t)[..|s + t| - 1] == s + t[..m];
      PlaceValue(s, t[..m], base);
      Distributes(ValueOf(s, base), Power(base, m), ValueOf(t[..m], base), base);
    }
  }

  lemma Distributes(a: nat, p: nat, b: nat, c: nat)
    ensures (a * p + b) * c == a * (c * p) + b * c
  {
    assert a * p * c == a * (c * p);
  }

  lemma {:induction false} DigitsSpell(v: nat, base: nat, upper: bool)
    requires IsBase(base)
    ensures Spells(Digits(v, base, upper), v, base, if upper then UPPER else LOWER)
  {
    DigitsRead(v, base, upper);
    LeadingDigit(v, base, upper);
    DigitsInAlphabet(v, base, upper);
    DivMod(v, base);
  }

  lemma {:induction false} DigitsInAlphabet(v: nat, base: nat, upper: bool)
    requires IsBase(base)
    ensures MadeOf(Digits(v, base, upper), (if upper then UPPER else LOWER)[..base])
    decreases v
  {
    DivMod(v, base);
    var alphabet := if upper then UPPER else LOWER;
    var d := if v < base then v else Rest(v, base);
    DigitTable(d);
    assert alphabet[..base][d] == alphabet[d];
    if v >= base {
      DigitsInAlphabet(Quotient(v, base), base, upper);
    }
  }

  /** The field of a number, made of sign, prefix and digits: wider fields are filled with spaces behind it, with
      zeros before its digits, or with spaces before it. */
  ghost predicate Fields(t: string, left: bool, zero: bool, width: int, sign: string, prefix: string, digits: string) {
    var num := sign + (prefix + digits);
    var pad := if width > |num| then width - |num| else 0;
    t == if left then num + Repeat(' ', pad)
         else if zero then sign + (prefix + (Repeat('0', pad) + digits))
         else Repeat(' ', pad) + num
  }

  lemma NumberFields(val: int, base: nat, signed: bool, f: Flags, upper: bool, width: int)
    requires IsBase(base) && (signed ==> base == 10) && (val < 0 ==> signed)
    ensures Fields(NumberField(IntText(val, base, signed, f, upper), f, width), f.left, f.zero, width,
                   Sign(val, signed, f), Prefix(val, base, f, upper), Digits(Magnitude(val), base, upper))
  {
    var sign, prefix, d := Sign(val, signed, f), Prefix(val, base, f, upper), Digits(Magnitude(val), base, upper);
    DigitsRead(Magnitude(val), base, upper);
    assert IsDigit(d[0]) && (|d| >= 2 ==> IsDigit(d[1]));
    PartsInField(sign, prefix, d, f, width);
  }

  lemma PartsInField(sign: string, prefix: string, d: string, f: Flags, width: int)
    requires IsSign(sign) && (prefix == "" || prefix == "0" || IsPrefix(prefix)) && (sign == "" || prefix == "")
    requires d != "" && IsDigit(d[0]) && (|d| >= 2 ==> IsDigit(d[1]))
    ensures Fields(NumberField(sign + prefix + d, f, width), f.left, f.zero, width, sign, prefix, d)
  {
    var num := sign + prefix + d;
    Assoc(sign, prefix, d);
    if f.zero && !f.left {
      ZerosInside(sign, prefix, d, num, PadLen(width, |num|));
    }
  }

  lemma ZerosInside(sign: string, prefix: string, d: string, num: string, pad: nat)
    requires IsSign(sign) && (prefix == "" || prefix == "0" || IsPrefix(prefix)) && (sign == "" || prefix == "")
    requires d != "" && IsDigit(d[0]) && (|d| >= 2 ==> IsDigit(d[1])) && num == sign + prefix + d
    ensures num[..HeadLength(num)] + Repeat('0', pad) + num[HeadLength(num)..] ==
      sign + (prefix + (Repeat('0', pad) + d))
  {
    var h := HeadLength(num);
    if prefix == "0" {
      assert num == "0" + d && h == 0;
      MoreZeros(pad);
      assert num[..0] + Repeat('0', pad) + num[0..] == Repeat('0', pad) + "0" + d;
    } else {
      assert num[|sign + prefix|] == d[0];
      assert |d| >= 2 ==> num[|sign + prefix| + 1] == d[1];
      assert h == |sign + prefix|;
      assert num[..h] == sign + prefix && num[h..] == d;
      Assoc3(sign, prefix, Repeat('0', pad), d);
      Assoc(sign + prefix, Repeat('0', pad), d);
    }
  }

  lemma {:induction false} MoreZeros(n: nat)
    ensures Repeat('0', n) + "0" == "0" + Repeat('0', n)
  {
    if n > 0 {
      MoreZeros(n - 1);
      Assoc("0", Repeat('0', n - 1), "0");
    }
  }

  /** `d` and `i` take a signed number, `long` with `l`, `ll` and `z`. */
  predicate InSignedRange(n: int, length: string) {
    if length == "l" || length == "ll" || length == "z" then -0x8000_0000_0000_0000 <= n < 0x8000_0000_0000_0000
    else -0x8000_0000 <= n < 0x8000_0000
  }

  predicate InUnsignedRange(n: int, length: string) {
    0 <= n < if length == "l" || length == "ll" || length == "z" then 0x1_0000_0000_0000_0000 else 0x1_0000_0000
  }

  predicate HasNumber(sp: Spec, args: seq<Arg>, k: nat) {
    ArgIndex(sp, k) < |args| && args[ArgIndex(sp, k)].Number?
  }

  /** A conversion that takes an argument, with what is made of it. */
  lemma ArgConverted(fmt: string, i: nat, sp: Spec, args: seq<Arg>, k: nat, dropN: bool)
    returns (c: Conversion, t: string)
    requires Occurs(fmt, i, sp, args, k) && ArgIndex(sp, k) < |args| && TakesArg(sp.letter)
    requires ArgMatches(Meant(i, sp, args, k), args[ArgIndex(sp, k)])
    ensures c == Meant(i, sp, args, k) && t == ArgText(c, args[ArgIndex(sp, k)])
    ensures Converts(fmt, i, sp, args, k, dropN, t, ArgIndex(sp, k) + 1)
  {
    c := Meant(i, sp, args, k);
    t := ArgText(c, args[c.k]);
    ArgRendered(fmt, i, sp, c, args, k, dropN, t);
  }

  lemma ArgRendered(fmt: string, i: nat, sp: Spec, c: Conversion, args: seq<Arg>, k: nat, dropN: bool, t: string)
    requires Occurs(fmt, i, sp, args, k) && c == Meant(i, sp, args, k) && TakesArg(c.letter)
    requires c.k < |args| && ArgMatches(c, args[c.k]) && t == ArgText(c, args[c.k])
    ensures Converts(fmt, i, sp, args, k, dropN, t, c.k + 1)
  {
    ArgIsText(c, args, dropN, t);
    SpecRendered(fmt, i, sp, c, args, k, dropN, c.k + 1, t);
  }

  lemma ArgIsText(c: Conversion, args: seq<Arg>, dropN: bool, t: string)
    requires TakesArg(c.letter) && c.k < |args| && ArgMatches(c, args[c.k]) && t == ArgText(c, args[c.k])
    ensures ConversionText(c, args, dropN) == Some(t) && ArgsBehind(c) == c.k + 1
  {
  }

  lemma SpecRendered(fmt: string, i: nat, sp: Spec, c: Conversion, args: seq<Arg>, k: nat, dropN: bool, k': nat,
                     t: string)
    requires Occurs(fmt, i, sp, args, k) && c == Meant(i, sp, args, k)
    requires ConversionText(c, args, dropN) == Some(t) && k' == ArgsBehind(c)
    ensures Converts(fmt, i, sp, args, k, dropN, t, k')
  {
    SpecParsed(fmt, i, sp, args, k);
    RenderedOne(fmt, i, c, args, k, dropN, Next(i, sp), k', t);
  }

  lemma RenderedOne(fmt: string, i: nat, c: Conversion, args: seq<Arg>, k: nat, dropN: bool, next: nat, k': nat,
                    t: string)
    requires i + 1 < |fmt| && fmt[i] == '%' && ConversionAt(fmt, i + 1, args, k) == Some(c)
    requires ConversionText(c, args, dropN) == Some(t) && next == c.next && k' == ArgsBehind(c)
    ensures Render(fmt, i, args, k, dropN) == Before(t, Render(fmt, next, args, k', dropN))
  {
  }

  /** `%d` and `%i`: sign, then the decimal digits; and `%u`: the digits. */
  lemma DecimalConversion(fmt: string, i: nat, sp: Spec, args: seq<Arg>, k: nat, dropN: bool)
    returns (t: string, sign: string, digits: string)
    requires Occurs(fmt, i, sp, args, k) && HasNumber(sp, args, k)
    requires sp.letter == 'd' || sp.letter == 'i' || sp.letter == 'u'
    requires var n := NumberAmong(args, ArgIndex(sp, k));
      if sp.letter == 'u' then InUnsignedRange(n, sp.length) else InSignedRange(n, sp.length)
    ensures Converts(fmt, i, sp, args, k, dropN, t, ArgIndex(sp, k) + 1)
    ensures Fields(t, '-' in sp.flags, '0' in sp.flags, AmountOf(sp.width, args, k), sign, "", digits)
    ensures var n := NumberAmong(args, ArgIndex(sp, k));
      && Spells(digits, if n < 0 then -n else n, 10, LOWER)
      && sign == if sp.letter == 'u' then "" else if n < 0 then "-" else if '+' in sp.flags then "+"
                 else if ' ' in sp.flags then " " else ""
  {
    var n, f := NumberAmong(args, ArgIndex(sp, k)), FlagSet(sp.flags);
    var c;
    c, t := ArgConverted(fmt, i, sp, args, k, dropN);
    var signed := sp.letter != 'u';
    sign, digits := Sign(n, signed, f), Digits(Magnitude(n), 10, false);
    NumberFields(n, 10, signed, f, false, AmountOf(sp.width, args, k));
    DigitsSpell(Magnitude(n), 10, false);
  }

  /** `%x` and `%X`: hexadecimal digits in lower or upper case, with `#` behind `0x` or `0X`. */
  lemma HexConversion(fmt: string, i: nat, sp: Spec, args: seq<Arg>, k: nat, dropN: bool)
    returns (t: string, prefix: string, digits: string)
    requires Occurs(fmt, i, sp, args, k) && HasNumber(sp, args, k) && (sp.letter == 'x' || sp.letter == 'X')
    requires InUnsignedRange(NumberAmong(args, ArgIndex(sp, k)), sp.length)
    ensures Converts(fmt, i, sp, args, k, dropN, t, ArgIndex(sp, k) + 1)
    ensures Fields(t, '-' in sp.flags, '0' in sp.flags, AmountOf(sp.width, args, k), "", prefix, digits)
    ensures Spells(digits, NumberAmong(args, ArgIndex(sp, k)), 16, if sp.letter == 'x' then LOWER else UPPER)
    ensures prefix == if '#' !in sp.flags then "" else if sp.letter == 'x' then "0x" else "0X"
  {
    var n, f, upper := NumberAmong(args, ArgIndex(sp, k)), FlagSet(sp.flags), sp.letter == 'X';
    var c;
    c, t := ArgConverted(fmt, i, sp, args, k, dropN);
    prefix, digits := Prefix(n, 16, f, upper), Digits(n, 16, upper);
    NumberFields(n, 16, false, f, upper, AmountOf(sp.width, args, k));
    DigitsSpell(n, 16, upper);
  }

  /** `%o`: octal digits, with `#` behind a 0 unless the number is 0. */
  lemma OctalConversion(fmt: string, i: nat, sp: Spec, args: seq<Arg>, k: nat, dropN: bool)
    returns (t: string, prefix: string, digits: string)
    requires Occurs(fmt, i, sp, args, k) && HasNumber(sp, args, k) && sp.letter == 'o'
    requires InUnsignedRange(NumberAmong(args, ArgIndex(sp, k)), sp.length)
    ensures Converts(fmt, i, sp, args, k, dropN, t, ArgIndex(sp, k) + 1)
    ensures Fields(t, '-' in sp.flags, '0' in sp.flags, AmountOf(sp.width, args, k), "", prefix, digits)
    ensures Spells(digits, NumberAmong(args, ArgIndex(sp, k)), 8, LOWER)
    ensures prefix == if '#' in sp.flags && NumberAmong(args, ArgIndex(sp, k)) != 0 then "0" else ""
  {
    var n, f := NumberAmong(args, ArgIndex(sp, k)), FlagSet(sp.flags);
    var c;
    c, t := ArgConverted(fmt, i, sp, args, k, dropN);
    prefix, digits := Prefix(n, 8, f, false), Digits(n, 8, false);
    NumberFields(n, 8, false, f, false, AmountOf(sp.width, args, k));
    DigitsSpell(n, 8, false);
  }

  // ---- text ----

  /** Spaces before `s`, or if `left` behind it, up to the width. */
  ghost predicate FillsWith(t: string, left: bool, width: int, s: string) {
    var pad := if width > |s| then width - |s| else 0;
    t == if left then s + Repeat(' ', pad) else Repeat(' ', pad) + s
  }

  /** `%p`: `0x` and sixteen hexadecimal digits. */
  lemma PointerConversion(fmt: string, i: nat, sp: Spec, args: seq<Arg>, k: nat, dropN: bool)
    returns (t: string, digits: string)
    requires Occurs(fmt, i, sp, args, k) && HasNumber(sp, args, k) && sp.letter == 'p'
    requires 0 <= NumberAmong(args, ArgIndex(sp, k)) < 0x1_0000_0000_0000_0000
    ensures Converts(fmt, i, sp, args, k, dropN, t, ArgIndex(sp, k) + 1)
    ensures FillsWith(t, '-' in sp.flags, AmountOf(sp.width, args, k), "0x" + digits)
    ensures |digits| == 16 && ValueOf(digits, 16) == NumberAmong(args, ArgIndex(sp, k))
    ensures MadeOf(digits, LOWER)
  {
    var n := NumberAmong(args, ArgIndex(sp, k));
    var c;
    c, t := ArgConverted(fmt, i, sp, args, k, dropN);
    digits := HexDigits(n, 16);
    HexDigitsRead(n, 16);
    AllDigits(n);
    HexDigitsInAlphabet(n, 16);
  }

  lemma {:induction false} HexDigitsInAlphabet(x: nat, n: nat)
    ensures MadeOf(HexDigits(x, n), LOWER)
    decreases n
  {
    if n > 0 {
      HexDigitsInAlphabet(x / 16, n - 1);
      DigitTable(x % 16);
    }
  }

  /** `%s`: the text, or as much of it as the precision says; `(null)` for the null pointer. */
  lemma StringConversion(fmt: string, i: nat, sp: Spec, args: seq<Arg>, k: nat, dropN: bool) returns (t: string)
    requires Occurs(fmt, i, sp, args, k) && sp.letter == 's'
    requires ArgIndex(sp, k) < |args| && !args[ArgIndex(sp, k)].Number?
    ensures Converts(fmt, i, sp, args, k, dropN, t, ArgIndex(sp, k) + 1)
    ensures FillsWith(t, '-' in sp.flags, AmountOf(sp.width, args, k),
                      Beginning(TextOf(args[ArgIndex(sp, k)]), PrecisionOf(sp.precision, args, k + Uses(sp.width))))
  {
    var c;
    c, t := ArgConverted(fmt, i, sp, args, k, dropN);
    StringText(c, args[ArgIndex(sp, k)]);
  }

  lemma StringText(c: Conversion, arg: Arg)
    requires c.letter == 's' && !arg.Number?
    ensures FillsWith(ArgText(c, arg), c.flags.left, c.width, Beginning(TextOf(arg), c.precision))
  {
  }

  function TextOf(arg: Arg): string {
    if arg.Text? then arg.s else "(null)"
  }

  /** The first `n` characters, or all if there are not as many or `n` is negative. */
  function Beginning(s: string, n: int): string {
    if 0 <= n < |s| then s[..n] else s
  }

  /** `%c`: the character with the code, taken modulo 256. */
  lemma CharConversion(fmt: string, i: nat, sp: Spec, args: seq<Arg>, k: nat, dropN: bool) returns (t: string)
    requires Occurs(fmt, i, sp, args, k) && HasNumber(sp, args, k) && sp.letter == 'c'
    requires -0x8000_0000 <= NumberAmong(args, ArgIndex(sp, k)) < 0x8000_0000
    ensures Converts(fmt, i, sp, args, k, dropN, t, ArgIndex(sp, k) + 1)
    ensures var c := (NumberAmong(args, ArgIndex(sp, k)) % 256) as char;
      FillsWith(t, '-' in sp.flags, AmountOf(sp.width, args, k), [c])
  {
    var c;
    c, t := ArgConverted(fmt, i, sp, args, k, dropN);
  }

  predicate HasMeaning(c: char) {
    c == 'd' || c == 'i' || c == 'u' || c == 'x' || c == 'X' || c == 'o' || c == 'p' || c == 's' || c == 'c'
  }

  /** `%%` is a percent sign whatever stands between; `%n` and unknown letters are described exactly too.  None of
      them takes an argument. */
  lemma OtherConversion(fmt: string, i: nat, sp: Spec, args: seq<Arg>, k: nat, dropN: bool)
    requires Occurs(fmt, i, sp, args, k) && !HasMeaning(sp.letter)
    ensures var t := if sp.letter == '%' then "%" else if sp.letter == 'n' && dropN then "" else ['%', sp.letter];
      Converts(fmt, i, sp, args, k, dropN, t, ArgIndex(sp, k))
  {
    var t := if sp.letter == '%' then "%" else if sp.letter == 'n' && dropN then "" else ['%', sp.letter];
    SpecRendered(fmt, i, sp, Meant(i, sp, args, k), args, k, dropN, ArgIndex(sp, k), t);
  }

  // ---- spelling is unique ----

  /** A number has one spelling. */
  lemma {:induction false} SpelledOnce(a: string, b: string, v: nat, base: nat, upper: bool)
    requires IsBase(base)
    requires var alphabet := if upper then UPPER else LOWER;
      Spells(a, v, base, alphabet) && Spells(b, v, base, alphabet)
    ensures a == b
    decreases |a|
  {
    var alphabet := if upper then UPPER else LOWER;
    var m, n := |a| - 1, |b| - 1;
    var d := DigitOf(a[m], base, upper);
    var e := DigitOf(b[n], base, upper);
    LastParts(ValueOf(a[..m], base), d, ValueOf(b[..n], base), e, base);
    assert a == a[..m] + [a[m]] && b == b[..n] + [b[n]];
    if m > 0 {
      NotZero(a[..m], base, upper);
    }
    if n > 0 {
      NotZero(b[..n], base, upper);
    }
    if m > 0 && n > 0 {
      SpelledOnce(a[..m], b[..n], ValueOf(a[..m], base), base, upper);
    } else {
      assert ValueOf("", base) == 0;
      assert m == 0 ==> a[..m] == "";
      assert n == 0 ==> b[..n] == "";
    }
  }

  /** The digit a character of the alphabet stands for. */
  lemma DigitOf(c: char, base: nat, upper: bool) returns (d: nat)
    requires base <= 16 && c in (if upper then UPPER else LOWER)[..base]
    ensures d < base && c == (if upper then UPPER else LOWER)[d] && DigitValue(c) == d
  {
    var alphabet := if upper then UPPER else LOWER;
    d :| 0 <= d < base && alphabet[..base][d] == c;
    DigitTable(d);
  }

  lemma LastParts(x: nat, d: nat, y: nat, e: nat, base: nat)
    requires IsBase(base) && x * base + d == y * base + e && d < base && e < base
    ensures x == y && d == e
  {
    if base == 8 {
      assert x == y;
    } else if base == 10 {
      assert x == y;
    } else {
      assert x == y;
    }
  }

  lemma {:induction false} NotZero(s: string, base: nat, upper: bool)
    requires IsBase(base) && s != "" && s[0] != '0'
    requires MadeOf(s, (if upper then UPPER else LOWER)[..base])
    ensures ValueOf(s, base) > 0
    decreases |s|
  {
    var m := |s| - 1;
    var d := DigitOf(s[m], base, upper);
    if m > 0 {
      NotZero(s[..m], base, upper);
      AtLeast(base, 1, ValueOf(s[..m], base));
    }
  }

  /** A conversion with nothing but its letter. */
  lemma BareConversion(fmt: string, c: char, args: seq<Arg>)
    requires |fmt| == 2 && fmt[0] == '%' && fmt[1] == c && IsLetter(c)
    ensures Occurs(fmt, 0, Spec("", Absent, Absent, "", c), args, 0)
    ensures Next(0, Spec("", Absent, Absent, "", c)) == 2
  {
  }

  /** With `%x` alone exactly the hexadecimal number is written. */
  lemma HexAlone(fmt: string, n: nat, dropN: bool, digits: string)
    requires fmt == "%x" && n < 0x1_0000_0000 && Spells(digits, n, 16, LOWER)
    ensures Render(fmt, 0, [Number(n)], 0, dropN) == Some(digits)
  {
    var sp, args := Spec("", Absent, Absent, "", 'x'), [Number(n)];
    BareConversion(fmt, 'x', args);
    var t, prefix, d := HexConversion(fmt, 0, sp, args, 0, dropN);
    SpelledOnce(d, digits, n, 16, false);
    assert t == digits;
    assert t + "" == t;
  }

  /** 255 is written as ff. */
  lemma HexExample(fmt: string)
    requires fmt == "%x"
    ensures Render(fmt, 0, [Number(255)], 0, true) == Some("ff")
  {
    var f := "f";
    assert f + f == "ff" && LOWER[..16][15] == 'f';
    PlaceValue(f, f, 16);
    OneDigit('f', 16);
    assert Power(16, 1) == 16 * Power(16, 0) == 16;
    HexAlone(fmt, 255, true, "ff");
  }
}
