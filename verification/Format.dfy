/** The bounded formatter. */
module Format {
  import opened Numerals
  import opened Sequences
  import opened Wrappers

  const NO_LENGTH := 0xffff_ffff_ffff_ffff

  /** An argument: a number of any integer type, or a text. */
  datatype Arg = Number(n: int) | Text(s: string)

  // ---------- what a format and its arguments mean, without any bound ----------

  /** The flags of a conversion: the padding, the width, whether the number is signed, in which
      base and case it is printed, whether the width is the widest, and the length of a text. */
  datatype Flags = Flags(zero: char, width: nat, sign: bool, hex: nat, maxWidth: bool, slen: nat)

  function SkipDigits(s: string): (t: string)
    ensures |t| <= |s|
  {
    if s != [] && IsDigit(s[0]) then SkipDigits(s[1..]) else s
  }

  /** The width is kept in 32 bits. */
  function ReadWidth(s: string, width: nat): nat {
    if s != [] && IsDigit(s[0]) then ReadWidth(s[1..], (width * 10 + DigitValue(s[0])) % 0x1_0000_0000) else width
  }

  /** Reads the flags; `None` when an argument for a length is missing. */
  function ReadFlags(s: string, g: Flags, args: seq<Arg>): (r: Option<(Flags, string, seq<Arg>)>)
    ensures r.Some? ==> |r.value.1| <= |s| && |r.value.2| <= |args|
  {
    if s == [] then Some((g, s, args))
    else
      match s[0]
      case 'u' => ReadFlags(s[1..], g.(sign := false), args)
      case 'm' => ReadFlags(s[1..], g.(maxWidth := true), args)
      case 'X' => ReadFlags(s[1..], g.(hex := 2, sign := false), args)
      case 'x' => ReadFlags(s[1..], g.(hex := 1, sign := false), args)
      case '*' =>
        if args != [] && args[0].Number? && 0 <= args[0].n <= NO_LENGTH
        then ReadFlags(s[1..], g.(slen := args[0].n), args[1..])
        else None
      case '.' => Some((g, SkipDigits(s[1..]), args))
      case _ => Some((g, s, args))
  }

  function Repeat(c: char, n: nat): (s: string)
    ensures |s| == n && forall i | 0 <= i < n :: s[i] == c
  {
    seq(n, _ => c)
  }

  /** A number in a field of the width. */
  function Padded(n: nat, g: Flags): string {
    var digits := Digits(n, if g.hex == 0 then 10 else 16, g.hex == 2);
    Repeat(g.zero, if g.width > |digits| then g.width - |digits| else 0) + digits
  }

  function Signed(n: int, g: Flags): string {
    if n < 0 then "-" + Padded(-n, g) else Padded(n, g)
  }

  /** The bits of the type of a number, and whether it is signed. */
  function TypeOf(c: char, sign: bool): Option<(nat, bool)> {
    match c
    case 'O' => Some((64, true))
    case 'T' => Some((64, true))
    case 'P' => Some((32, true))
    case 'M' => Some((32, false))
    case 'z' => Some((64, sign))
    case 'l' => Some((64, sign))
    case 'L' => Some((64, sign))
    case 'i' => Some((32, sign))
    case 'd' => Some((32, sign))
    case 'D' => Some((32, sign))
    case 'p' => Some((64, false))
    case _ => None
  }

  predicate InRange(n: int, bits: nat, sign: bool)
    requires bits == 32 || bits == 64
  {
    var top := if bits == 32 then 0x8000_0000 else 0x8000_0000_0000_0000;
    if sign then -top <= n < top else 0 <= n < 2 * top
  }

  /** A number as the conversion `c` prints it. */
  function Shown(c: char, g: Flags, n: int): string {
    if c == 'M' && n == 0xffff_ffff then Signed(-1, g)
    else if c == 'p' then Signed(n, g.(hex := 2, zero := '0', width := 16))
    else if c == 'i' && g.maxWidth then Signed(n, g.(width := 11))
    else Signed(n, g)
  }

  /** The output of the conversion `c` and the arguments it leaves; `None` when the argument is
      missing or not of its type, and for the floating-point conversion. */
  function Convert(c: char, g: Flags, args: seq<Arg>): (r: Option<(string, seq<Arg>)>) {
    if TypeOf(c, g.sign).Some? then
      var (bits, sign) := TypeOf(c, g.sign).value;
      if args != [] && args[0].Number? && InRange(args[0].n, bits, sign)
      then Some((Shown(c, g, args[0].n), args[1..]))
      else None
    else
      match c
      case 'V' => if args != [] && args[0].Text? then Some((args[0].s, args[1..])) else None
      case 's' =>
        if args == [] || !args[0].Text? then None
        else if g.slen == NO_LENGTH then Some((UntilNul(args[0].s, '\0'), args[1..]))
        else if g.slen <= |args[0].s| then Some((args[0].s[..g.slen], args[1..]))
        else None
      case 'c' => if args != [] && args[0].Number? then Some(([(args[0].n % 256) as char], args[1..])) else None
      case 'Z' => Some((['\0'], args))
      case 'N' => Some((['\n'], args))
      case 'f' => None
      case _ => Some(([c], args))
  }

  /** The directive behind a percent sign: its output, the rest of the format and the arguments left. */
  function Directive(s: string, args: seq<Arg>): (r: Option<(string, string, seq<Arg>)>)
    ensures r.Some? ==> |r.value.1| < |s|
  {
    var g := Flags(if s != [] && s[0] == '0' then '0' else ' ', ReadWidth(s, 0), true, 0, false, NO_LENGTH);
    match ReadFlags(SkipDigits(s), g, args)
    case None => None
    case Some((g', t, args')) =>
      if t == [] then None
      else
        match Convert(t[0], g', args')
        case None => None
        case Some((out, args'')) => Some((out, t[1..], args''))
  }

  /** The whole output, or `None` when the format and the arguments do not fit together. */
  function Output(fmt: string, args: seq<Arg>): Option<string>
    decreases |fmt|
  {
    if fmt == [] then Some([])
    else if fmt[0] != '%' then Behind([fmt[0]], Output(fmt[1..], args))
    else
      match Directive(fmt[1..], args)
      case None => None
      case Some((out, rest, args')) => Behind(out, Output(rest, args'))
  }

  function Behind(out: string, rest: Option<string>): Option<string> {
    match rest
    case None => None
    case Some(s) => Some(out + s)
  }

  // ---------- the bounded formatter ----------

  /** The text `out` has been put at `b`, as far as there is room before `last`. */
  ghost predicate Put(was: seq<char>, now: seq<char>, b: nat, last: nat, out: string, end: nat) {
    && b <= last <= |was|
    && end == (if |out| <= last - b then b + |out| else last)
    && now == was[..b] + out[..end - b] + was[end..]
  }

  /** Putting one text behind the other. */
  lemma PutTwice(s0: seq<char>, s1: seq<char>, s2: seq<char>, b: nat, m: nat, last: nat, x: string, y: string, end: nat)
    requires Put(s0, s1, b, last, x, m) && Put(s1, s2, m, last, y, end)
    ensures Put(s0, s2, b, last, x + y, end)
  {
    var x', y' := x[..m - b], y[..end - m];
    Parts(s0[..b] + x', s0[m..], end - m);
    assert s0[m..][end - m..] == s0[end..];
    assert (x + y)[..end - b] == x' + y' by {
      if m < last { assert x' == x; } else { assert y' == []; }
    }
    Grouped(s0[..b], x', y');
  }

  /** One more character behind the first `p` of a text. */
  lemma PutOneMore(was: seq<char>, b: nat, t: string, p: nat)
    requires p < |t| && b + p < |was|
    ensures (was[..b] + t[..p] + was[b + p..])[b + p := t[p]] == was[..b] + t[..p + 1] + was[b + p + 1..]
  {
  }

  method PutText(buf: array<char>, b: nat, last: nat, s: string) returns (end: nat)
    requires b <= last <= buf.Length
    modifies buf
    ensures b <= end <= last && Put(old(buf[..]), buf[..], b, last, s, end)
  {
    var len := if last - b > |s| then |s| else last - b;
    for i := 0 to len
      invariant buf[..] == old(buf[..])[..b] + s[..i] + old(buf[..])[b + i..]
    {
      PutOneMore(old(buf[..]), b, s, i);
      ghost var now := buf[..];
      buf[b + i] := s[i];
      assert buf[..] == now[b + i := s[i]];
    }
    end := b + len;
  }

  /** The loop for a text that ends with a NUL character. */
  method PutTextUntilNul(buf: array<char>, b: nat, last: nat, s: string) returns (end: nat)
    requires b <= last <= buf.Length
    modifies buf
    ensures b <= end <= last && Put(old(buf[..]), buf[..], b, last, UntilNul(s, '\0'), end)
  {
    ghost var t := UntilNul(s, '\0');
    assert t == s[..|t|] && '\0' !in t && (|t| < |s| ==> s[|t|] == '\0');
    hide UntilNul;
    end := b;
    var p := 0;
    while p < |s| && s[p] != '\0' && end < last
      invariant p <= |t| && end == b + p <= last
      invariant buf[..] == old(buf[..])[..b] + t[..p] + old(buf[..])[end..]
      decreases |s| - p
    {
      assert p < |t| && t[p] == s[p];
      PutOneMore(old(buf[..]), b, t, p);
      ghost var now := buf[..];
      buf[end] := s[p];
      assert buf[..] == now[end := s[p]];
      end := end + 1;
      p := p + 1;
    }
  }

  /** The digits of a number, from the last one backwards, in a buffer of 20 characters. */
  method DigitsOf(n: nat, base: nat, upper: bool) returns (temp: array<char>, p: nat)
    requires n < UINT64_MODULUS && (base == 10 || base == 16)
    ensures fresh(temp) && temp.Length == 20 && p <= 20 && temp[p..] == Digits(n, base, upper)
  {
    LengthOfDigits(n, base, upper);
    hide DigitChar, Quotient, Remainder;
    temp := new char[20](_ => ' ');
    p := 20;
    var ui: nat := n;
    var more := true;
    while more
      invariant p <= 20
      invariant more ==> Digits(n, base, upper) == Digits(ui, base, upper) + temp[p..]
      invariant !more ==> Digits(n, base, upper) == temp[p..]
      decreases if more then 1 + ui else 0
    {
      LastDigit(ui, base, upper);
      ghost var rest := temp[p..];
      p := p - 1;
      temp[p] := DigitChar(Remainder(ui, base), upper);
      assert temp[p..] == [temp[p]] + rest;
      ghost var front := if ui < base then [] else Digits(Quotient(ui, base), base, upper);
      Grouped(front, [temp[p]], rest);
      ui := Quotient(ui, base);
      more := ui != 0;
    }
  }

  lemma LastDigit(n: nat, base: nat, upper: bool)
    requires 2 <= base <= 16
    ensures var q, r := Quotient(n, base), Remainder(n, base);
      && r < 16 && (q != 0 <==> n >= base) && (q != 0 ==> q < n)
      && Digits(n, base, upper) == (if n < base then [] else Digits(q, base, upper)) + [DigitChar(r, upper)]
  {
    Recompose(n, base);
    if n < base { SmallQuotient(n, base); }
  }

  lemma SmallQuotient(n: nat, base: nat)
    requires n < base
    ensures Quotient(n, base) == 0 && Remainder(n, base) == n
  {
  }

  /** No 64-bit number has more than 20 digits. */
  lemma LengthOfDigits(n: nat, base: nat, upper: bool)
    requires n < UINT64_MODULUS && (base == 10 || base == 16)
    ensures |Digits(n, base, upper)| <= 20
  {
    Powers();
    DigitsShort(n, base, upper, 20);
  }

  lemma Powers()
    ensures Power(10, 20) == 100000000000000000000 && Power(16, 20) >= UINT64_MODULUS
  {
    assert Power(10, 5) == 100000 && Power(10, 10) == 10000000000 && Power(10, 15) == 1000000000000000;
    assert Power(16, 5) == 0x10_0000 && Power(16, 10) == 0x100_0000_0000 && Power(16, 15) == 0x1000_0000_0000_0000;
  }

  /** A padded number. */
  method PutNumber(buf: array<char>, b: nat, last: nat, n: nat, g: Flags) returns (end: nat)
    requires b <= last <= buf.Length && n < UINT64_MODULUS
    modifies buf
    ensures b <= end <= last && Put(old(buf[..]), buf[..], b, last, Padded(n, g), end)
  {
    hide Put, Digits, Repeat;
    var temp, p := DigitsOf(n, if g.hex == 0 then 10 else 16, g.hex == 2);
    var len := 20 - p;
    ghost var pad := Repeat(g.zero, if g.width > len then g.width - len else 0);
    end := PutPadding(buf, b, last, g, len);
    ghost var padded, m := buf[..], end;
    end := PutText(buf, end, last, temp[p..]);
    PutTwice(old(buf[..]), padded, buf[..], b, m, last, pad, temp[p..], end);
  }

  method PutPadding(buf: array<char>, b: nat, last: nat, g: Flags, length: nat) returns (end: nat)
    requires b <= last <= buf.Length
    modifies buf
    ensures b <= end <= last
      && Put(old(buf[..]), buf[..], b, last, Repeat(g.zero, if g.width > length then g.width - length else 0), end)
  {
    var len := length;
    ghost var pad := Repeat(g.zero, if g.width > length then g.width - length else 0);
    end := b;
    while len < g.width && end < last
      invariant end <= last && len == length + (end - b) && (end > b ==> len <= g.width)
      invariant end - b <= |pad| && buf[..] == old(buf[..b]) + pad[..end - b] + old(buf[end..])
    {
      buf[end] := g.zero;
      end := end + 1;
      len := len + 1;
    }
  }

  method PutChar(buf: array<char>, b: nat, last: nat, c: char) returns (end: nat)
    requires b < last <= buf.Length
    modifies buf
    ensures end == b + 1 && Put(old(buf[..]), buf[..], b, last, [c], end)
  {
    buf[b] := c;
    end := b + 1;
  }

  /** A number with its sign; there is room for the sign. */
  method PutSigned(buf: array<char>, b: nat, last: nat, n: int, g: Flags) returns (end: nat)
    requires b < last <= buf.Length && -UINT64_MODULUS < n < UINT64_MODULUS
    modifies buf
    ensures b <= end <= last && Put(old(buf[..]), buf[..], b, last, Signed(n, g), end)
  {
    hide Put, Padded;
    if n < 0 {
      end := PutChar(buf, b, last, '-');
      ghost var signed := buf[..];
      end := PutNumber(buf, end, last, -n, g);
      PutTwice(old(buf[..]), signed, buf[..], b, b + 1, last, "-", Padded(-n, g), end);
    } else {
      end := PutNumber(buf, b, last, n, g);
    }
  }

  /** The width and the flags behind a percent sign. */
  method ReadSpec(fmt: string, args: seq<Arg>) returns (g: Flags, s: string, rest: seq<Arg>)
    requires ReadFlags(SkipDigits(fmt),
      Flags(if fmt != [] && fmt[0] == '0' then '0' else ' ', ReadWidth(fmt, 0), true, 0, false, NO_LENGTH), args).Some?
    ensures ReadFlags(SkipDigits(fmt),
      Flags(if fmt != [] && fmt[0] == '0' then '0' else ' ', ReadWidth(fmt, 0), true, 0, false, NO_LENGTH), args)
      == Some((g, s, rest))
  {
    var zero := if fmt != [] && fmt[0] == '0' then '0' else ' ';
    var width: nat := 0;
    s, rest := fmt, args;
    while s != [] && '0' <= s[0] <= '9'
      invariant SkipDigits(s) == SkipDigits(fmt) && ReadWidth(s, width) == ReadWidth(fmt, 0)
      decreases |s|
    {
      width := (width * 10 + (s[0] as int - '0' as int)) % 0x1_0000_0000;
      s := s[1..];
    }
    g := Flags(zero, width, true, 0, false, NO_LENGTH);
    ghost var all := ReadFlags(s, g, args);
    while s != []
      invariant ReadFlags(s, g, rest) == all && all.Some?
      decreases |s|
    {
      match s[0] {
        case 'u' => g := g.(sign := false);
        case 'm' => g := g.(maxWidth := true);
        case 'X' => g := g.(hex := 2, sign := false);
        case 'x' => g := g.(hex := 1, sign := false);
        case '*' => g, rest := g.(slen := rest[0].n), rest[1..];
        case '.' =>
          s := s[1..];
          ghost var frac := s;
          while s != [] && '0' <= s[0] <= '9'
            invariant SkipDigits(s) == SkipDigits(frac)
            decreases |s|
          {
            s := s[1..];
          }
          return;
        case _ =>
          return;
      }
      s := s[1..];
    }
  }

  method PutNumeric(buf: array<char>, b: nat, last: nat, c: char, g: Flags, n: int) returns (end: nat)
    requires b < last <= buf.Length && -UINT64_MODULUS < n < UINT64_MODULUS
    modifies buf
    ensures b <= end <= last && Put(old(buf[..]), buf[..], b, last, Shown(c, g, n), end)
  {
    hide Put, Signed;
    var h, i := g, n;
    match c {
      case 'M' =>
        if n == 0xffff_ffff {
          i := -1;
        }
      case 'p' =>
        h := g.(hex := 2, zero := '0', width := 16);
      case 'i' =>
        if g.maxWidth {
          h := g.(width := 11);
        }
      case _ =>
    }
    end := PutSigned(buf, b, last, i, h);
  }

  /** A conversion other than of a number. */
  method PutOther(buf: array<char>, b: nat, last: nat, c: char, g: Flags, args: seq<Arg>)
    returns (end: nat, rest: seq<Arg>)
    requires b < last <= buf.Length && TypeOf(c, g.sign).None? && Convert(c, g, args).Some?
    modifies buf
    ensures b <= end <= last && Put(old(buf[..]), buf[..], b, last, Convert(c, g, args).value.0, end)
      && rest == Convert(c, g, args).value.1
  {
    hide Put, UntilNul;
    rest := args;
    match c {
      case 'V' =>
        end := PutText(buf, b, last, args[0].s);
        rest := args[1..];
      case 's' =>
        if g.slen == NO_LENGTH {
          end := PutTextUntilNul(buf, b, last, args[0].s);
        } else {
          end := PutText(buf, b, last, args[0].s[..g.slen]);
        }
        rest := args[1..];
      case 'c' =>
        end := PutChar(buf, b, last, (args[0].n % 256) as char);
        rest := args[1..];
      case 'Z' =>
        end := PutChar(buf, b, last, '\0');
      case 'N' =>
        end := PutChar(buf, b, last, '\n');
      case _ =>
        end := PutChar(buf, b, last, c);
    }
  }

  /** A directive behind its percent sign. */
  method PutDirective(buf: array<char>, b: nat, last: nat, fmt: string, args: seq<Arg>)
    returns (end: nat, s: string, rest: seq<Arg>)
    requires b < last <= buf.Length && Directive(fmt, args).Some?
    modifies buf
    ensures b <= end <= last && Put(old(buf[..]), buf[..], b, last, Directive(fmt, args).value.0, end)
    ensures s == Directive(fmt, args).value.1 && rest == Directive(fmt, args).value.2
  {
    hide Put, ReadFlags, ReadWidth, SkipDigits, Shown;
    var g;
    g, s, rest := ReadSpec(fmt, args);
    var c := s[0];
    s := s[1..];
    if TypeOf(c, g.sign).Some? {
      end := PutNumeric(buf, b, last, c, g, rest[0].n);
      rest := rest[1..];
    } else {
      end, rest := PutOther(buf, b, last, c, g, rest);
    }
  }

  /** Prints into the room between `start` and `last`: as much of the whole output as fits. */
  method Vslprintf(buf: array<char>, start: nat, last: nat, format: string, arguments: seq<Arg>) returns (b: nat)
    requires start <= last <= buf.Length && Output(format, arguments).Some?
    modifies buf
    ensures start <= b <= last && Put(old(buf[..]), buf[..], start, last, Output(format, arguments).value, b)
  {
    var fmt, args := format, arguments;
    b := start;
    ghost var done: string := [];
    while fmt != [] && b < last
      invariant start <= b <= last && Output(fmt, args).Some?
      invariant Output(format, arguments).value == done + Output(fmt, args).value
      invariant Put(old(buf[..]), buf[..], start, last, done, b)
      decreases |fmt|
    {
      ghost var before, m, tail := buf[..], b, Output(fmt, args).value;
      ghost var out;
      if fmt[0] == '%' {
        out := Directive(fmt[1..], args).value.0;
        b, fmt, args := PutDirective(buf, b, last, fmt[1..], args);
      } else {
        out := [fmt[0]];
        b := PutChar(buf, b, last, fmt[0]);
        fmt := fmt[1..];
      }
      PutTwice(old(buf[..]), before, buf[..], start, m, last, done, out, b);
      Grouped(done, out, Output(fmt, args).value);
      done := done + out;
    }
    CutOff(old(buf[..]), buf[..], start, last, done, Output(fmt, args).value, b);
  }

  /** What comes behind a text that fills the room does not show. */
  lemma CutOff(was: seq<char>, now: seq<char>, b: nat, last: nat, out: string, more: string, end: nat)
    requires Put(was, now, b, last, out, end) && (more == [] || end == last)
    ensures Put(was, now, b, last, out + more, end)
  {
    assert (out + more)[..end - b] == out[..end - b];
  }
}
