/** `vprintf` and `vsnprintf` (lib/printf.c:10-19, 84-355, 372-588): a writer that stages literal text in a
    buffer and a writer that stops at the end of a buffer, against one meaning of formats. */
module Printf {
  import opened Wrappers
  import opened Numbers

  /** The arguments, in the order in which they are taken.  `NoText` is the null pointer. */
  datatype Arg = Number(n: int) | Text(s: string) | NoText

  // ---- the parts of a conversion ----

  predicate IsFlag(c: char) {
    c == '-' || c == '+' || c == ' ' || c == '#' || c == '0'
  }

  function FlagEnd(fmt: string, i: nat): (j: nat)
    requires i <= |fmt|
    ensures i <= j <= |fmt|
    decreases |fmt| - i
  {
    if i < |fmt| && IsFlag(fmt[i]) then FlagEnd(fmt, i + 1) else i
  }

  /** All flags and nothing else lies before the end of the flags. */
  lemma {:induction false} FlagsSpan(fmt: string, i: nat, j: nat)
    requires i <= j <= |fmt|
    ensures j == FlagEnd(fmt, i) <==> (forall k :: i <= k < j ==> IsFlag(fmt[k])) && (j < |fmt| ==> !IsFlag(fmt[j]))
    decreases |fmt| - i
  {
    if i < |fmt| && IsFlag(fmt[i]) && i < j {
      FlagsSpan(fmt, i + 1, j);
    }
  }

  function FlagsIn(s: string): Flags {
    Flags('-' in s, '+' in s, ' ' in s, '#' in s, '0' in s)
  }

  function DigitEnd(fmt: string, i: nat): (j: nat)
    requires i <= |fmt|
    ensures i <= j <= |fmt|
    decreases |fmt| - i
  {
    if i < |fmt| && '0' <= fmt[i] <= '9' then DigitEnd(fmt, i + 1) else i
  }

  datatype Parsed = Parsed(value: int, at: nat, k: nat)

  newtype int32 = n: int | IsInt32(n)

  predicate IsInt32(n: int) {
    -0x8000_0000 <= n < 0x8000_0000
  }

  /** A width or precision: digits that stand for an `int`, or `*` and the next argument. */
  function NumberAt(fmt: string, i: nat, args: seq<Arg>, k: nat): (r: Option<Parsed>)
    requires i <= |fmt|
    ensures r.Some? ==> i <= r.value.at <= |fmt|
  {
    if i < |fmt| && fmt[i] == '*' then
      if k < |args| && args[k].Number? && IsInt32(args[k].n) then Some(Parsed(args[k].n, i + 1, k + 1)) else None
    else
      var value := ValueOf(fmt[i..DigitEnd(fmt, i)], 10);
      if IsInt32(value) then Some(Parsed(value, DigitEnd(fmt, i), k)) else None
  }

  function PrecisionAt(fmt: string, i: nat, args: seq<Arg>, k: nat): (r: Option<Parsed>)
    requires i <= |fmt|
    ensures r.Some? ==> i <= r.value.at <= |fmt|
  {
    if i < |fmt| && fmt[i] == '.' then
      match NumberAt(fmt, i + 1, args, k)
      case None => None
      case Some(p) => Some(p.(value := if p.value < 0 then 0 else p.value))
    else Some(Parsed(-1, i, k))
  }

  predicate CharAt(fmt: string, i: nat, c: char) {
    i < |fmt| && fmt[i] == c
  }

  /** The length modifier: how long the argument is, and where the conversion letter stands. */
  function LengthAt(fmt: string, i: nat): (r: (nat, nat))
    requires i <= |fmt|
    ensures i <= r.1 <= |fmt|
  {
    if CharAt(fmt, i, 'l') then (if CharAt(fmt, i + 1, 'l') then (2, i + 2) else (1, i + 1))
    else if CharAt(fmt, i, 'h') then (0, if CharAt(fmt, i + 1, 'h') then i + 2 else i + 1)
    else if CharAt(fmt, i, 'z') then (1, i + 1)
    else (0, i)
  }

  /** `next` and `k` are the positions behind it in the format and in the arguments. */
  datatype Conversion = Conversion(flags: Flags, width: int, precision: int, long: nat, letter: char, next: nat, k: nat)

  /** The conversion whose `%` stands before `i`; none if the format ends in it or `*` has no number. */
  function ConversionAt(fmt: string, i: nat, args: seq<Arg>, k: nat): (r: Option<Conversion>)
    requires i <= |fmt|
    ensures r.Some? ==> i < r.value.next <= |fmt|
  {
    var j := FlagEnd(fmt, i);
    match NumberAt(fmt, j, args, k)
    case None => None
    case Some(w) =>
      match PrecisionAt(fmt, w.at, args, w.k)
      case None => None
      case Some(p) =>
        var (long, at) := LengthAt(fmt, p.at);
        if at == |fmt| then None
        else Some(Conversion(FlagsIn(fmt[i..j]), w.value, p.value, long, fmt[at], at + 1, p.k))
  }

  // ---- what a conversion writes ----

  predicate TakesArg(c: char) {
    c == 'd' || c == 'i' || c == 'u' || c == 'x' || c == 'X' || c == 'o' || c == 'p' || c == 's' || c == 'c'
  }

  predicate SignedFits(n: int, long: nat) {
    if long == 0 then IsInt32(n) else -U64 <= 2 * n < U64
  }

  predicate UnsignedFits(n: int, long: nat) {
    0 <= n < if long == 0 then 0x1_0000_0000 else U64
  }

  /** The argument is of the type the conversion takes. */
  predicate ArgMatches(c: Conversion, arg: Arg) {
    if c.letter == 's' then !arg.Number?
    else
      && arg.Number?
      && (if c.letter == 'd' || c.letter == 'i' then SignedFits(arg.n, c.long)
          else if c.letter == 'p' then UnsignedFits(arg.n, 1)
          else if c.letter == 'c' then IsInt32(arg.n)
          else UnsignedFits(arg.n, c.long))
  }

  function Base(letter: char): nat {
    if letter == 'o' then 8 else if letter == 'x' || letter == 'X' then 16 else 10
  }

  function CharOf(n: int): char {
    (n % 256) as char
  }

  function Cut(s: string, precision: int): string {
    if 0 <= precision < |s| then s[..precision] else s
  }

  function ArgText(c: Conversion, arg: Arg): string
    requires ArgMatches(c, arg)
  {
    match arg
    case NoText => Justified(Cut("(null)", c.precision), c.flags.left, c.width)
    case Text(s) => Justified(Cut(s, c.precision), c.flags.left, c.width)
    case Number(n) =>
      if c.letter == 'p' then Justified(PtrText(n), c.flags.left, c.width)
      else if c.letter == 'c' then Justified([CharOf(n)], c.flags.left, c.width)
      else
        var signed := c.letter == 'd' || c.letter == 'i';
        NumberField(IntText(n, Base(c.letter), signed, c.flags, c.letter == 'X'), c.flags, c.width)
  }

  /** `%n` writes nothing where `dropN` holds; elsewhere it is a letter like any other. */
  function ConversionText(c: Conversion, args: seq<Arg>, dropN: bool): Option<string> {
    if c.letter == '%' then Some("%")
    else if c.letter == 'n' && dropN then Some("")
    else if TakesArg(c.letter) then
      if c.k < |args| && ArgMatches(c, args[c.k]) then Some(ArgText(c, args[c.k])) else None
    else Some(['%', c.letter])
  }

  function ArgsBehind(c: Conversion): nat {
    if TakesArg(c.letter) then c.k + 1 else c.k
  }

  function Before(s: string, t: Option<string>): Option<string> {
    if t.Some? then Some(s + t.value) else None
  }

  /** The text a format stands for from `i` and argument `k` on; none if it ends inside a conversion or an
      argument is missing or of another type. */
  function Render(fmt: string, i: nat, args: seq<Arg>, k: nat, dropN: bool): Option<string>
    requires i <= |fmt|
    decreases |fmt| - i
  {
    if i == |fmt| then Some("")
    else if fmt[i] != '%' then Before([fmt[i]], Render(fmt, i + 1, args, k, dropN))
    else if i + 1 == |fmt| then Some("")
    else match ConversionAt(fmt, i + 1, args, k)
      case None => None
      case Some(c) =>
        match ConversionText(c, args, dropN)
        case None => None
        case Some(t) => Before(t, Render(fmt, c.next, args, ArgsBehind(c), dropN))
  }

  // ---- parsing ----

  method ParseFlags(fmt: string, i: nat) returns (flags: Flags, j: nat)
    requires i <= |fmt|
    ensures j == FlagEnd(fmt, i) && flags == FlagsIn(fmt[i..j])
  {
    flags, j := Flags(false, false, false, false, false), i;
    while j < |fmt| && IsFlag(fmt[j])
      invariant i <= j <= |fmt| && FlagEnd(fmt, j) == FlagEnd(fmt, i)
      invariant flags == FlagsIn(fmt[i..j])
    {
      assert fmt[i..j + 1] == fmt[i..j] + [fmt[j]];
      match fmt[j] {
        case '-' => flags := flags.(left := true);
        case '+' => flags := flags.(plus := true);
        case ' ' => flags := flags.(space := true);
        case '#' => flags := flags.(hash := true);
        case _ => flags := flags.(zero := true);
      }
      j := j + 1;
    }
  }

  method ParseNumber(fmt: string, i: nat, args: seq<Arg>, k: nat) returns (p: Parsed)
    requires i <= |fmt| && NumberAt(fmt, i, args, k).Some?
    ensures NumberAt(fmt, i, args, k) == Some(p)
  {
    if i < |fmt| && fmt[i] == '*' {
      return Parsed(args[k].n, i + 1, k + 1);
    }
    var num: int32, j := 0, i;
    ghost var digits := fmt[i..DigitEnd(fmt, i)];
    while j < |fmt| && '0' <= fmt[j] <= '9'
      invariant i <= j <= |fmt| && DigitEnd(fmt, j) == DigitEnd(fmt, i)
      invariant num as int == ValueOf(digits[..j - i], 10)
    {
      NextDigit(digits, j - i);
      num := num * 10 + (fmt[j] - '0') as int32;
      j := j + 1;
    }
    assert digits[..j - i] == digits;
    return Parsed(num as int, j, k);
  }

  /** Every beginning of the digits stands for a smaller number. */
  lemma NextDigit(digits: string, n: nat)
    requires n < |digits|
    ensures ValueOf(digits[..n + 1], 10) == ValueOf(digits[..n], 10) * 10 + DigitValue(digits[n])
    ensures ValueOf(digits[..n + 1], 10) <= ValueOf(digits, 10)
  {
    assert digits[..n + 1] == digits[..n] + [digits[n]];
    LastApart(digits[..n], digits[n], 10);
    BeginningIsSmaller(digits, n + 1);
  }

  lemma {:induction false} BeginningIsSmaller(digits: string, n: nat)
    requires n <= |digits|
    ensures ValueOf(digits[..n], 10) <= ValueOf(digits, 10)
  {
    if n == |digits| {
      assert digits[..n] == digits;
    } else {
      var m := |digits| - 1;
      BeginningIsSmaller(digits[..m], n);
      assert digits[..m][..n] == digits[..n];
    }
  }

  /** The part the two formatters share (printf.c:152-185, 390-423). */
  method ParseConversion(fmt: string, i: nat, args: seq<Arg>, k: nat) returns (c: Conversion)
    requires i <= |fmt| && ConversionAt(fmt, i, args, k).Some?
    ensures ConversionAt(fmt, i, args, k) == Some(c)
  {
    var flags, j := ParseFlags(fmt, i);
    var w := ParseNumber(fmt, j, args, k);
    var p := Parsed(-1, w.at, w.k);
    if w.at < |fmt| && fmt[w.at] == '.' {
      p := ParseNumber(fmt, w.at + 1, args, w.k);
      if p.value < 0 {
        p := p.(value := 0);
      }
    }
    var long, at := 0, p.at;
    if CharAt(fmt, at, 'l') {
      long, at := 1, at + 1;
      if CharAt(fmt, at, 'l') {
        long, at := 2, at + 1;
      }
    } else if CharAt(fmt, at, 'h') {
      at := at + 1;
      if CharAt(fmt, at, 'h') {
        at := at + 1;
      }
    } else if CharAt(fmt, at, 'z') {
      long, at := 1, at + 1;
    }
    c := Conversion(flags, w.value, p.value, long, fmt[at], at + 1, p.k);
  }

  // ---- the file ----

  /** A file open for writing; `failures` counts the writes that wrote nothing. */
  class File {
    var written: string
    var failures: nat

    /** Since `failures` was `f0` and `written` was `w0`, `text` was to be written: no failure means it was. */
    ghost predicate Sent(w0: string, f0: nat, text: string)
      reads this
    {
      failures >= f0 && w0 <= written && (failures == f0 ==> written == w0 + text)
    }

    method Write(s: string) returns (ret: int)
      requires s != ""
      modifies this
      ensures ret <= |s| && failures >= old(failures) && (ret <= 0 ==> failures > old(failures))
      ensures written == old(written) + s[..if ret > 0 then ret else 0]
    {
      ret := *;
      if ret > |s| {
        ret := |s|;
      }
      if ret > 0 {
        written := written + s[..ret];
      } else {
        failures := failures + 1;
      }
    }
  }

  /** `puts_n` (printf.c:10-19). */
  method PutsN(fd: File, s: string, ghost w0: string, ghost f0: nat, ghost text: string)
    requires fd.Sent(w0, f0, text)
    modifies fd
    ensures fd.Sent(w0, f0, text + s)
  {
    var idx := 0;
    assert text + s[..0] == text;
    while idx < |s|
      invariant 0 <= idx <= |s| && fd.Sent(w0, f0, text + s[..idx])
    {
      ghost var before := fd.written;
      var ret := fd.Write(s[idx..]);
      if ret <= 0 {
        assert fd.written == before;
        break;
      }
      PartAdded(w0, text, s, idx, ret);
      idx := idx + ret;
    }
    assert idx == |s| ==> s[..idx] == s;
  }

  lemma PartAdded(w0: string, text: string, s: string, idx: nat, n: nat)
    requires idx + n <= |s|
    ensures w0 + (text + s[..idx]) + s[idx..][..n] == w0 + (text + s[..idx + n])
  {
    assert s[..idx + n] == s[..idx] + s[idx..][..n];
  }

  method PutsPadding(fd: File, c: char, n: nat, ghost w0: string, ghost f0: nat, ghost text: string)
    requires fd.Sent(w0, f0, text)
    modifies fd
    ensures fd.Sent(w0, f0, text + Repeat(c, n))
  {
    assert text + Repeat(c, 0) == text;
    for p := 0 to n
      invariant fd.Sent(w0, f0, text + Repeat(c, p))
    {
      PutsN(fd, [c], w0, f0, text + Repeat(c, p));
      Assoc(text, Repeat(c, p), [c]);
    }
  }

  /** Text in its field (printf.c:290-300, 309-319, 323-333). */
  method PutsJustified(fd: File, s: string, left: bool, width: int, ghost w0: string, ghost f0: nat, ghost text: string)
    requires fd.Sent(w0, f0, text)
    modifies fd
    ensures fd.Sent(w0, f0, text + Justified(s, left, width))
  {
    var padlen := if width > |s| then width - |s| else 0;
    if left {
      PutsN(fd, s, w0, f0, text);
      PutsPadding(fd, ' ', padlen, w0, f0, text + s);
      Assoc(text, s, Repeat(' ', padlen));
    } else {
      PutsPadding(fd, ' ', padlen, w0, f0, text);
      PutsN(fd, s, w0, f0, text + Repeat(' ', padlen));
      Assoc(text, Repeat(' ', padlen), s);
    }
  }

  /** A number in its field (printf.c:256-286). */
  method PutsNumber(fd: File, num: string, flags: Flags, width: int, ghost w0: string, ghost f0: nat,
                    ghost text: string)
    requires fd.Sent(w0, f0, text)
    modifies fd
    ensures fd.Sent(w0, f0, text + NumberField(num, flags, width))
  {
    if flags.zero && !flags.left && |num| > 0 {
      var padlen := if width > |num| then width - |num| else 0;
      var prefixlen := 0;
      assert text + num[..0] == text;
      if num[0] == '-' || num[0] == '+' || num[0] == ' ' {
        PutsN(fd, num[..1], w0, f0, text);
        prefixlen := 1;
      } else if |num| >= 2 && num[0] == '0' && (num[1] == 'x' || num[1] == 'X') {
        PutsN(fd, num[..2], w0, f0, text);
        prefixlen := 2;
      }
      PutsPadding(fd, '0', padlen, w0, f0, text + num[..prefixlen]);
      PutsN(fd, num[prefixlen..], w0, f0, text + num[..prefixlen] + Repeat('0', padlen));
      Assoc3(text, num[..prefixlen], Repeat('0', padlen), num[prefixlen..]);
    } else {
      PutsJustified(fd, num, flags.left, width, w0, f0, text);
    }
  }

  lemma Assoc3(a: string, b: string, c: string, d: string)
    ensures a + b + c + d == a + (b + c + d)
  {
  }

  /** The conversions that take an argument. */
  method PutsArg(fd: File, c: Conversion, arg: Arg, ghost w0: string, ghost f0: nat, ghost text: string)
    requires TakesArg(c.letter) && ArgMatches(c, arg) && fd.Sent(w0, f0, text)
    modifies fd
    ensures fd.Sent(w0, f0, text + ArgText(c, arg))
  {
    var numbuf := new char[64];
    match arg
    case NoText =>
      PutsJustified(fd, Cut("(null)", c.precision), c.flags.left, c.width, w0, f0, text);
    case Text(s) =>
      PutsJustified(fd, Cut(s, c.precision), c.flags.left, c.width, w0, f0, text);
    case Number(n) =>
      if c.letter == 'p' {
        var numlen := FormatPtr(numbuf, n);
        PutsJustified(fd, numbuf[..numlen], c.flags.left, c.width, w0, f0, text);
      } else if c.letter == 'c' {
        PutsJustified(fd, [CharOf(n)], c.flags.left, c.width, w0, f0, text);
      } else {
        var numlen := FormatNumber(numbuf, c, n);
        PutsNumber(fd, numbuf[..numlen], c.flags, c.width, w0, f0, text);
      }
  }

  method FormatNumber(numbuf: array<char>, c: Conversion, n: int) returns (numlen: nat)
    requires numbuf.Length == 64 && ArgMatches(c, Number(n)) && c.letter != 'p' && c.letter != 'c'
    modifies numbuf
    ensures numlen <= 25
    ensures numbuf[..numlen] == IntText(n, Base(c.letter), c.letter == 'd' || c.letter == 'i', c.flags, c.letter == 'X')
  {
    match c.letter
    case 'd' => numlen := FormatInt(numbuf, n, 10, true, c.flags, false);
    case 'i' => numlen := FormatInt(numbuf, n, 10, true, c.flags, false);
    case 'x' => numlen := FormatInt(numbuf, n, 16, false, c.flags, false);
    case 'X' => numlen := FormatInt(numbuf, n, 16, false, c.flags, true);
    case 'o' => numlen := FormatInt(numbuf, n, 8, false, c.flags, false);
    case _ => numlen := FormatInt(numbuf, n, 10, false, c.flags, false);
  }

  /** One conversion (printf.c:187-348): the staging buffer is emptied first. */
  method PutsConversion(fd: File, buf: array<char>, staged: nat, c: Conversion, args: seq<Arg>,
                        ghost w0: string, ghost f0: nat, ghost sent: string, ghost done: string)
    returns (idx: nat, ghost sent': string)
    requires buf.Length == 256 && ConversionText(c, args, true).Some?
    requires staged <= 256 && fd.Sent(w0, f0, sent) && done == sent + buf[..staged]
    modifies fd, buf
    ensures idx <= 2 && fd.Sent(w0, f0, sent') && done + ConversionText(c, args, true).value == sent' + buf[..idx]
  {
    if staged > 0 {
      Flush(fd, buf, staged, w0, f0, sent, done);
    }
    assert staged == 0 ==> sent == done;
    idx, sent' := 0, done;
    if TakesArg(c.letter) {
      PutsArg(fd, c, args[c.k], w0, f0, done);
      sent' := done + ArgText(c, args[c.k]);
    } else if c.letter == '%' {
      buf[0] := '%';
      idx := 1;
      assert buf[..idx] == "%";
    } else if c.letter != 'n' {
      buf[0], buf[1] := '%', c.letter;
      idx := 2;
      assert buf[..idx] == ['%', c.letter];
    }
  }

  /** Where no write fails, exactly the text of the format is written; the staging buffer of 256 is never
      overrun. */
  method Vprintf(fd: File, fmt: string, args: seq<Arg>)
    requires Render(fmt, 0, args, 0, true).Some?
    modifies fd
    ensures old(fd.written) <= fd.written && fd.failures >= old(fd.failures)
    ensures fd.failures == old(fd.failures) ==> fd.written == old(fd.written) + Render(fmt, 0, args, 0, true).value
  {
    var buf := new char[256];
    var idx, i, k := 0, 0, 0;
    ghost var w0, f0, sent := fd.written, fd.failures, "";
    ghost var full := Render(fmt, 0, args, 0, true).value;
    assert w0 + sent == w0 && "" + full == full;
    ghost var done := "";
    while i < |fmt|
      invariant 0 <= idx <= 241 && i <= |fmt| && fd.Sent(w0, f0, sent) && done == sent + buf[..idx]
      invariant Yields(fmt, i, args, k, true, done, full)
    {
      if idx >= 240 {
        Flush(fd, buf, idx, w0, f0, sent, done);
        sent, idx := done, 0;
      }
      if fmt[i] != '%' {
        YieldsAfterChar(fmt, i, args, k, true, done, full);
        StageChar(buf, idx, fmt[i], sent, done);
        done := done + [fmt[i]];
        idx, i := idx + 1, i + 1;
      } else if i + 1 == |fmt| {
        break;
      } else {
        idx, i, k, sent, done := OneConversion(fd, buf, idx, fmt, i, args, k, w0, f0, sent, done, full);
      }
    }
    assert done == full;
    if idx > 0 {
      Flush(fd, buf, idx, w0, f0, sent, done);
    }
  }

  /** The turn of the loop for a conversion. */
  method OneConversion(fd: File, buf: array<char>, staged: nat, fmt: string, at: nat, args: seq<Arg>, taken: nat,
                       ghost w0: string, ghost f0: nat, ghost before: string, ghost text: string, ghost full: string)
    returns (idx: nat, i: nat, k: nat, ghost sent: string, ghost done: string)
    requires buf.Length == 256 && staged <= 256 && fd.Sent(w0, f0, before) && text == before + buf[..staged]
    requires at + 1 < |fmt| && fmt[at] == '%' && Yields(fmt, at, args, taken, true, text, full)
    modifies fd, buf
    ensures idx <= 2 && at < i <= |fmt| && fd.Sent(w0, f0, sent) && done == sent + buf[..idx]
    ensures Yields(fmt, i, args, k, true, done, full)
  {
    var c := ParseConversion(fmt, at + 1, args, taken);
    YieldsAfterConversion(fmt, at, args, taken, true, text, full, c);
    idx, sent := PutsConversion(fd, buf, staged, c, args, w0, f0, before, text);
    done := text + ConversionText(c, args, true).value;
    i, k := c.next, ArgsBehind(c);
  }

  method Flush(fd: File, buf: array<char>, idx: nat, ghost w0: string, ghost f0: nat, ghost sent: string,
               ghost done: string)
    requires fd.Sent(w0, f0, sent) && idx <= buf.Length && done == sent + buf[..idx]
    modifies fd
    ensures fd.Sent(w0, f0, done)
  {
    PutsN(fd, buf[..idx], w0, f0, sent);
  }

  method StageChar(buf: array<char>, idx: nat, c: char, ghost sent: string, ghost done: string)
    requires idx < buf.Length && done == sent + buf[..idx]
    modifies buf
    ensures done + [c] == sent + buf[..idx + 1]
  {
    ghost var staged := buf[..idx];
    buf[idx] := c;
    assert buf[..idx + 1] == staged + [c];
  }

  /** `done` is what came before `i`, and the whole is `full`. */
  ghost predicate Yields(fmt: string, i: nat, args: seq<Arg>, k: nat, dropN: bool, done: string, full: string)
    requires i <= |fmt|
  {
    Before(done, Render(fmt, i, args, k, dropN)) == Some(full)
  }

  lemma YieldsAfterChar(fmt: string, i: nat, args: seq<Arg>, k: nat, dropN: bool, done: string, full: string)
    requires i < |fmt| && fmt[i] != '%' && Yields(fmt, i, args, k, dropN, done, full)
    ensures Yields(fmt, i + 1, args, k, dropN, done + [fmt[i]], full)
  {
    Assoc(done, [fmt[i]], Render(fmt, i + 1, args, k, dropN).value);
  }

  lemma YieldsAfterConversion(fmt: string, i: nat, args: seq<Arg>, k: nat, dropN: bool, done: string, full: string,
                              c: Conversion)
    requires i + 1 < |fmt| && fmt[i] == '%' && Yields(fmt, i, args, k, dropN, done, full)
    requires ConversionAt(fmt, i + 1, args, k) == Some(c)
    ensures c.next <= |fmt| && ConversionText(c, args, dropN).Some?
    ensures Yields(fmt, c.next, args, ArgsBehind(c), dropN, done + ConversionText(c, args, dropN).value, full)
  {
    Assoc(done, ConversionText(c, args, dropN).value, Render(fmt, c.next, args, ArgsBehind(c), dropN).value);
  }

  lemma YieldsNothingMore(fmt: string, i: nat, args: seq<Arg>, k: nat, dropN: bool, done: string, full: string)
    requires i == |fmt| && Yields(fmt, i, args, k, dropN, done, full)
    ensures done == full
  {
  }

  // ---- vsnprintf ----

  /** The output so far is `text`, of which `buf` holds what there is room for below `end`. */
  ghost predicate Stored(b: seq<char>, out: nat, end: nat, text: string) {
    out <= end <= |b| && out == (if |text| < end then |text| else end) && b[..out] == text[..out]
  }

  lemma StoredChar(b: seq<char>, out: nat, end: nat, text: string, c: char)
    requires Stored(b, out, end, text) && out < end
    ensures Stored(b[out := c], out + 1, end, text + [c])
  {
    assert text[..out] == text;
    assert b[out := c][..out + 1] == b[..out] + [c];
  }

  /** A full buffer holds the beginning of whatever is longer. */
  lemma StoredMore(b: seq<char>, end: nat, text: string, more: string)
    requires Stored(b, end, end, text)
    ensures Stored(b, end, end, text + more)
  {
    assert (text + more)[..end] == text[..end];
  }

  method StoreText(buf: array<char>, out: nat, end: nat, s: string, ghost text: string) returns (out': nat)
    requires end < buf.Length && Stored(buf[..], out, end, text)
    modifies buf
    ensures Stored(buf[..], out', end, text + s) && buf[end..] == old(buf[end..])
  {
    out' := out;
    var p := 0;
    assert text + s[..0] == text;
    while p < |s| && out' < end
      invariant 0 <= p <= |s| && Stored(buf[..], out', end, text + s[..p]) && buf[end..] == old(buf[end..])
    {
      StoredChar(buf[..], out', end, text + s[..p], s[p]);
      Assoc(text, s[..p], [s[p]]);
      assert s[..p + 1] == s[..p] + [s[p]];
      ghost var b := buf[..];
      buf[out'] := s[p];
      assert buf[..] == b[out' := s[p]] && buf[end..] == b[end..];
      out', p := out' + 1, p + 1;
    }
    assert s == s[..p] + s[p..];
    Assoc(text, s[..p], s[p..]);
    if p < |s| {
      StoredMore(buf[..], end, text + s[..p], s[p..]);
    } else {
      assert s[..p] == s;
    }
  }

  method StorePadding(buf: array<char>, out: nat, end: nat, c: char, n: nat, ghost text: string) returns (out': nat)
    requires end < buf.Length && Stored(buf[..], out, end, text)
    modifies buf
    ensures Stored(buf[..], out', end, text + Repeat(c, n)) && buf[end..] == old(buf[end..])
  {
    out' := out;
    var p := 0;
    assert text + Repeat(c, 0) == text;
    while p < n && out' < end
      invariant 0 <= p <= n && Stored(buf[..], out', end, text + Repeat(c, p)) && buf[end..] == old(buf[end..])
    {
      StoredChar(buf[..], out', end, text + Repeat(c, p), c);
      Assoc(text, Repeat(c, p), [c]);
      ghost var b := buf[..];
      buf[out'] := c;
      assert buf[..] == b[out' := c] && buf[end..] == b[end..];
      out', p := out' + 1, p + 1;
    }
    if p < n {
      StoredMore(buf[..], end, text + Repeat(c, p), Repeat(c, n - p));
      Assoc(text, Repeat(c, p), Repeat(c, n - p));
      assert Repeat(c, p) + Repeat(c, n - p) == Repeat(c, n);
    }
  }

  method StoreJustified(buf: array<char>, start: nat, end: nat, s: string, left: bool, width: int, ghost text: string)
    returns (out: nat)
    requires end < buf.Length && Stored(buf[..], start, end, text)
    modifies buf
    ensures Stored(buf[..], out, end, text + Justified(s, left, width)) && buf[end..] == old(buf[end..])
  {
    var padlen := if width > |s| then width - |s| else 0;
    if left {
      out := StoreText(buf, start, end, s, text);
      out := StorePadding(buf, out, end, ' ', padlen, text + s);
      Assoc(text, s, Repeat(' ', padlen));
    } else {
      out := StorePadding(buf, start, end, ' ', padlen, text);
      out := StoreText(buf, out, end, s, text + Repeat(' ', padlen));
      Assoc(text, Repeat(' ', padlen), s);
    }
  }

  /** A number in its field (printf.c:487-521). */
  method StoreNumber(buf: array<char>, start: nat, end: nat, num: string, flags: Flags, width: int, ghost text: string)
    returns (out: nat)
    requires end < buf.Length && Stored(buf[..], start, end, text)
    modifies buf
    ensures Stored(buf[..], out, end, text + NumberField(num, flags, width)) && buf[end..] == old(buf[end..])
  {
    if flags.zero && !flags.left && |num| > 0 {
      var padlen := if width > |num| then width - |num| else 0;
      var prefixlen := 0;
      out := start;
      assert text + num[..0] == text;
      if num[0] == '-' || num[0] == '+' || num[0] == ' ' {
        out := StoreText(buf, out, end, num[..1], text);
        prefixlen := 1;
      } else if |num| >= 2 && num[0] == '0' && (num[1] == 'x' || num[1] == 'X') {
        out := StoreText(buf, out, end, num[..2], text);
        prefixlen := 2;
      }
      out := StorePadding(buf, out, end, '0', padlen, text + num[..prefixlen]);
      out := StoreText(buf, out, end, num[prefixlen..], text + num[..prefixlen] + Repeat('0', padlen));
      Assoc3(text, num[..prefixlen], Repeat('0', padlen), num[prefixlen..]);
    } else {
      out := StoreJustified(buf, start, end, num, flags.left, width, text);
    }
  }

  method StoreArg(buf: array<char>, start: nat, end: nat, c: Conversion, arg: Arg, ghost text: string)
    returns (out: nat)
    requires TakesArg(c.letter) && ArgMatches(c, arg) && end < buf.Length && Stored(buf[..], start, end, text)
    modifies buf
    ensures Stored(buf[..], out, end, text + ArgText(c, arg)) && buf[end..] == old(buf[end..])
  {
    var numbuf := new char[64];
    match arg
    case NoText =>
      out := StoreJustified(buf, start, end, Cut("(null)", c.precision), c.flags.left, c.width, text);
    case Text(s) =>
      out := StoreJustified(buf, start, end, Cut(s, c.precision), c.flags.left, c.width, text);
    case Number(n) =>
      if c.letter == 'p' {
        var numlen := FormatPtr(numbuf, n);
        out := StoreJustified(buf, start, end, numbuf[..numlen], c.flags.left, c.width, text);
      } else if c.letter == 'c' {
        out := StoreJustified(buf, start, end, [CharOf(n)], c.flags.left, c.width, text);
      } else {
        var numlen := FormatNumber(numbuf, c, n);
        out := StoreNumber(buf, start, end, numbuf[..numlen], c.flags, c.width, text);
      }
  }

  /** One conversion (printf.c:425-583). */
  method StoreConversion(buf: array<char>, start: nat, end: nat, c: Conversion, args: seq<Arg>, ghost text: string)
    returns (out: nat)
    requires ConversionText(c, args, false).Some? && end < buf.Length && Stored(buf[..], start, end, text)
    modifies buf
    ensures Stored(buf[..], out, end, text + ConversionText(c, args, false).value) && buf[end..] == old(buf[end..])
  {
    if TakesArg(c.letter) {
      out := StoreArg(buf, start, end, c, args[c.k], text);
    } else if c.letter == '%' {
      out := StoreText(buf, start, end, "%", text);
    } else {
      out := StoreText(buf, start, end, ['%', c.letter], text);
    }
  }

  /** What is stored and returned is the text of the format as far as it fits, then a terminator; nothing
      beyond `size` is touched. */
  method Vsnprintf(buf: array<char>, size: nat, fmt: string, args: seq<Arg>) returns (ret: nat)
    requires size <= buf.Length && Render(fmt, 0, args, 0, false).Some?
    modifies buf
    ensures buf[size..] == old(buf[size..])
    ensures size == 0 ==> ret == 0
    ensures size > 0 ==> var full := Render(fmt, 0, args, 0, false).value;
      ret == (if |full| < size - 1 then |full| else size - 1) && buf[..ret] == full[..ret] && buf[ret] == '\0'
  {
    if size == 0 {
      return 0;
    }
    var out: nat, end: nat, i: nat, k: nat := 0, size - 1, 0, 0;
    ghost var full, done := Render(fmt, 0, args, 0, false).value, "";
    assert "" + full == full;
    ghost var beyond := buf[end..];
    assert beyond[1..] == buf[size..];
    while i < |fmt| && out < end
      invariant i <= |fmt| && Stored(buf[..], out, end, done) && buf[end..] == beyond
      invariant Yields(fmt, i, args, k, false, done, full)
    {
      if fmt[i] != '%' {
        YieldsAfterChar(fmt, i, args, k, false, done, full);
        out := StoreText(buf, out, end, [fmt[i]], done);
        done := done + [fmt[i]];
        i := i + 1;
        continue;
      }
      i := i + 1;
      if i == |fmt| {
        break;
      }
      var c := ParseConversion(fmt, i, args, k);
      YieldsAfterConversion(fmt, i - 1, args, k, false, done, full, c);
      out := StoreConversion(buf, out, end, c, args, done);
      done := done + ConversionText(c, args, false).value;
      i, k := c.next, ArgsBehind(c);
    }
    StoredEnd(fmt, i, args, k, buf[..], out, end, done, full);
    Terminate(buf, out, end);
    return out;
  }

  method Terminate(buf: array<char>, out: nat, end: nat)
    requires out <= end < buf.Length
    modifies buf
    ensures buf[out] == '\0' && buf[..out] == old(buf[..out]) && buf[end + 1..] == old(buf[end..])[1..]
  {
    ghost var b := buf[..];
    buf[out] := '\0';
    assert buf[..out] == b[..out] && buf[end + 1..] == b[end + 1..] == b[end..][1..];
  }

  lemma StoredEnd(fmt: string, i: nat, args: seq<Arg>, k: nat, b: seq<char>, out: nat, end: nat, done: string,
                  full: string)
    requires i <= |fmt| && Yields(fmt, i, args, k, false, done, full) && Stored(b, out, end, done)
    requires i == |fmt| || out == end
    ensures Stored(b, out, end, full)
  {
    var rest := Render(fmt, i, args, k, false).value;
    if i == |fmt| {
      YieldsNothingMore(fmt, i, args, k, false, done, full);
    } else {
      StoredMore(b, end, done, rest);
    }
  }

  // ---- where the two agree ----

  /** How many `%n` the format has from `i` on. */
  function CountN(fmt: string, i: nat, args: seq<Arg>, k: nat): nat
    requires i <= |fmt|
    decreases |fmt| - i
  {
    if i == |fmt| then 0
    else if fmt[i] != '%' then CountN(fmt, i + 1, args, k)
    else if i + 1 == |fmt| then 0
    else match ConversionAt(fmt, i + 1, args, k)
      case None => 0
      case Some(c) => (if c.letter == 'n' then 1 else 0) + CountN(fmt, c.next, args, ArgsBehind(c))
  }

  /** The two formatters mean the same text exactly if the format has no `%n`, of which `vsnprintf` keeps
      both characters and `vprintf` none. */
  lemma AgreeIffNoN(fmt: string, args: seq<Arg>)
    requires Render(fmt, 0, args, 0, true).Some?
    ensures Render(fmt, 0, args, 0, false).Some?
    ensures Render(fmt, 0, args, 0, true) == Render(fmt, 0, args, 0, false) <==> CountN(fmt, 0, args, 0) == 0
  {
    Difference(fmt, 0, args, 0);
  }

  lemma {:induction false} Difference(fmt: string, i: nat, args: seq<Arg>, k: nat)
    requires i <= |fmt|
    ensures var a, b := Render(fmt, i, args, k, true), Render(fmt, i, args, k, false);
      && (a.Some? <==> b.Some?) && (a.Some? ==> |b.value| == |a.value| + 2 * CountN(fmt, i, args, k))
      && (CountN(fmt, i, args, k) == 0 ==> a == b)
    decreases |fmt| - i
  {
    if i == |fmt| {
    } else if fmt[i] != '%' {
      Difference(fmt, i + 1, args, k);
    } else if i + 1 < |fmt| {
      match ConversionAt(fmt, i + 1, args, k)
      case None =>
      case Some(c) => Difference(fmt, c.next, args, ArgsBehind(c));
    }
  }

  /** A format without `%` stands for itself. */
  lemma {:induction false} PlainFormat(fmt: string, i: nat, args: seq<Arg>, k: nat, dropN: bool)
    requires i <= |fmt| && forall j :: i <= j < |fmt| ==> fmt[j] != '%'
    ensures Render(fmt, i, args, k, dropN) == Some(fmt[i..])
    decreases |fmt| - i
  {
    if i < |fmt| {
      PlainFormat(fmt, i + 1, args, k, dropN);
      assert fmt[i..] == [fmt[i]] + fmt[i + 1..];
    } else {
      assert fmt[i..] == "";
    }
  }
}
