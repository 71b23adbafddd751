/** What the formatter prints, read back: numbers in their fields, and texts. */
module FormatNumbers {
  import opened Format
  import opened Numerals
  import opened Sequences
  import opened Wrappers

  // ---------- fields ----------

  /** `out` is the number in a field: a minus sign if it is negative, and then its absolute value. */
  ghost predicate IsField(out: string, k: nat, n: int, width: nat, pad: char, base: nat, upper: bool) {
    && (n < 0 <==> out != [] && out[0] == '-')
    && if n < 0 then IsFilled(out[1..], k, -n, width, pad, base, upper)
      else IsFilled(out, k, n, width, pad, base, upper)
  }

  /** Filling the width, if the numeral does not, `k` characters of padding; then a numeral of the base
      without leading zeros, in one case, that is read as the number. */
  ghost predicate IsFilled(field: string, k: nat, n: nat, width: nat, pad: char, base: nat, upper: bool) {
    && k < |field| && |field| == (if width > |field| - k then width else |field| - k)
    && (forall i | 0 <= i < k :: field[i] == pad)
    && IsNumeral(field[k..], base) && Value(field[k..], base) == n
    && (|field| > k + 1 ==> field[k] != '0')
    && forall i | k <= i < |field| :: InCase(field[i], upper)
  }

  /** No digit of the other case. */
  predicate InCase(c: char, upper: bool) { if upper then !('a' <= c <= 'f') else !('A' <= c <= 'F') }

  lemma {:induction false} DigitsInCase(n: nat, base: nat, upper: bool)
    requires 2 <= base <= 16
    ensures forall i | 0 <= i < |Digits(n, base, upper)| :: InCase(Digits(n, base, upper)[i], upper)
  {
    Recompose(n, base);
    hide Quotient, Remainder;
    if n >= base { DigitsInCase(Quotient(n, base), base, upper); }
  }

  lemma {:induction false} NoLeadingZero(n: nat, base: nat, upper: bool)
    requires 2 <= base <= 16
    ensures var d := Digits(n, base, upper); d[0] == '0' <==> n == 0
    ensures n == 0 ==> |Digits(n, base, upper)| == 1
  {
    Recompose(n, base);
    hide Quotient, Remainder;
    if n >= base { NoLeadingZero(Quotient(n, base), base, upper); }
  }

  /** A numeral without leading zeros and in one case. */
  ghost predicate IsProper(d: string, n: nat, base: nat, upper: bool) {
    IsNumeral(d, base) && Value(d, base) == n && (|d| > 1 ==> d[0] != '0')
      && forall i | 0 <= i < |d| :: InCase(d[i], upper)
  }

  lemma DigitsAreProper(n: nat, base: nat, upper: bool)
    requires 2 <= base <= 16
    ensures IsProper(Digits(n, base, upper), n, base, upper)
  {
    hide Digits, Value, InCase, IsNumeral;
    DigitsInCase(n, base, upper);
    NoLeadingZero(n, base, upper);
    DigitsRoundTrip(n, base, upper);
  }

  lemma Filled(d: string, k: nat, n: nat, width: nat, pad: char, base: nat, upper: bool)
    requires IsProper(d, n, base, upper) && k == if width > |d| then width - |d| else 0
    ensures IsFilled(Repeat(pad, k) + d, k, n, width, pad, base, upper)
  {
    hide InCase, Value, DigitValue;
    var field := Repeat(pad, k) + d;
    assert field[k..] == d;
    assert forall i | k <= i < |field| :: field[i] == d[i - k];
  }

  lemma {:induction false} FilledPadded(n: nat, g: Flags) returns (k: nat)
    ensures IsFilled(Padded(n, g), k, n, g.width, g.zero, if g.hex == 0 then 10 else 16, g.hex == 2)
  {
    var base := if g.hex == 0 then 10 else 16;
    var d := Digits(n, base, g.hex == 2);
    k := if g.width > |d| then g.width - |d| else 0;
    assert Padded(n, g) == Repeat(g.zero, k) + d;
    hide *;
    DigitsAreProper(n, base, g.hex == 2);
    Filled(d, k, n, g.width, g.zero, base, g.hex == 2);
  }

  lemma NotMinus(field: string, k: nat, n: nat, width: nat, pad: char, base: nat, upper: bool)
    requires IsFilled(field, k, n, width, pad, base, upper) && pad != '-' && base <= 16
    ensures field != [] && field[0] != '-'
  {
    assert k == 0 ==> DigitValue(field[k..][0]) < 16;
  }

  lemma {:induction false} FieldOfSigned(n: int, g: Flags) returns (k: nat)
    requires g.zero != '-'
    ensures IsField(Signed(n, g), k, n, g.width, g.zero, if g.hex == 0 then 10 else 16, g.hex == 2)
  {
    hide Padded, IsFilled;
    var m := if n < 0 then -n else n;
    k := FilledPadded(m, g);
    NotMinus(Padded(m, g), k, m, g.width, g.zero, if g.hex == 0 then 10 else 16, g.hex == 2);
    if n < 0 { Cons('-', Padded(m, g)); }
  }

  // ---------- directives, written out ----------

  /** The letters that may stand between the width and the conversion of a number. */
  predicate IsLetter(c: char) { c == 'u' || c == 'm' || c == 'x' || c == 'X' || c == '*' }

  ghost predicate AreLetters(letters: string) { forall i | 0 <= i < |letters| :: IsLetter(letters[i]) }

  /** The padding and the width of a directive, 0 meaning none. */
  function Field(zero: bool, width: nat): string {
    (if zero then "0" else "") + if width > 0 then Digits(width, 10, false) else ""
  }

  /** The arguments that the letters take for lengths, one for each star. */
  ghost predicate AreLengths(letters: string, lens: seq<Arg>) {
    if letters == [] then lens == []
    else if letters[0] == '*' then
      lens != [] && lens[0].Number? && 0 <= lens[0].n <= NO_LENGTH && AreLengths(letters[1..], lens[1..])
    else AreLengths(letters[1..], lens)
  }

  /** The digits behind a point, which numbers pass over. */
  function Fraction(n: Option<nat>): string { if n.Some? then ['.'] + Digits(n.value, 10, false) else "" }

  /** What is neither a digit nor a letter comes next. */
  predicate Ends(tail: string) {
    tail != [] && !IsDigit(tail[0]) && !IsLetter(tail[0]) && tail[0] != '.'
  }

  lemma WidthDigit(c: char, t: string, width: nat)
    requires DigitValue(c) < 10 && 10 * width + DigitValue(c) < 0x1_0000_0000
    ensures ReadWidth([c] + t, width) == ReadWidth(t, 10 * width + DigitValue(c))
      && SkipDigits([c] + t) == SkipDigits(t)
  {
    Cons(c, t);
  }

  lemma {:induction false} WidthIsRead(d: string, rest: string, i: nat)
    requires IsNumeral(d, 10) && Value(d, 10) < 0x1_0000_0000 && i <= |d|
    ensures ReadWidth(d + rest, 0) == ReadWidth(d[i..] + rest, Value(d[..i], 10))
    ensures SkipDigits(d + rest) == SkipDigits(d[i..] + rest)
  {
    if i == 0 {
      assert d[0..] == d && d[..0] == [];
    } else {
      var c := d[i - 1];
      assert DigitValue(c) < 10;
      hide Value, DigitValue, IsNumeral, ReadWidth, SkipDigits;
      WidthIsRead(d, rest, i - 1);
      assert d[i - 1..] == [c] + d[i..] && d[..i] == d[..i - 1] + [c];
      Grouped([c], d[i..], rest);
      ValueAppend(d[..i - 1], c, 10);
      ValuePrefix(d, i, 10);
      WidthDigit(c, d[i..] + rest, Value(d[..i - 1], 10));
    }
  }

  lemma {:induction false} NumeralIsRead(d: string, rest: string)
    requires IsNumeral(d, 10) && Value(d, 10) < 0x1_0000_0000 && rest != [] && !IsDigit(rest[0])
    ensures ReadWidth(d + rest, 0) == Value(d, 10) && SkipDigits(d + rest) == rest
  {
    WidthIsRead(d, rest, |d|);
    assert d[|d|..] + rest == rest && d[..|d|] == d;
  }

  lemma {:induction false} FieldIsRead(zero: bool, width: nat, rest: string)
    requires width < 0x1_0000_0000 && rest != [] && !IsDigit(rest[0])
    ensures var s := Field(zero, width) + rest;
      ReadWidth(s, 0) == width && SkipDigits(s) == rest && (s[0] == '0' <==> zero)
  {
    var t := Field(false, width) + rest;
    WidthPart(width, rest);
    if zero {
      assert Field(zero, width) + rest == ['0'] + t;
      hide Field, ReadWidth, SkipDigits;
      WidthDigit('0', t, 0);
    }
  }

  lemma {:induction false} WidthPart(width: nat, rest: string)
    requires width < 0x1_0000_0000 && rest != [] && !IsDigit(rest[0])
    ensures var s := Field(false, width) + rest; ReadWidth(s, 0) == width && SkipDigits(s) == rest && s[0] != '0'
  {
    var d := if width > 0 then Digits(width, 10, false) else "";
    assert Field(false, width) == d;
    if width > 0 {
      DigitsRoundTrip(width, 10, false);
      NoLeadingZero(width, 10, false);
      hide Digits, Value, IsNumeral;
      NumeralIsRead(d, rest);
    } else {
      assert d + rest == rest;
    }
  }

  /** The flags that letters set. */
  ghost predicate SetBy(g: Flags, before: Flags, letters: string) {
    && g.zero == before.zero && g.width == before.width
    && g.maxWidth == (before.maxWidth || 'm' in letters)
    && g.sign == (before.sign && KeepSign(letters))
    && (g.hex == 0 <==> before.hex == 0 && 'x' !in letters && 'X' !in letters)
    && (g.hex == 2 <==> if 'x' in letters || 'X' in letters then LastIsUpper(letters) else before.hex == 2)
  }

  /** No letter asks for a number without a sign. */
  ghost predicate KeepSign(letters: string) {
    forall i | 0 <= i < |letters| :: letters[i] == 'm' || letters[i] == '*'
  }

  /** The last letter that asks for hexadecimal digits asks for upper-case ones. */
  ghost predicate LastIsUpper(letters: string) {
    exists i :: 0 <= i < |letters| && letters[i] == 'X' && 'x' !in letters[i + 1..]
  }

  lemma {:induction false} LastOfMore(c: char, letters: string)
    ensures var all := [c] + letters;
      LastIsUpper(all) <==> LastIsUpper(letters) || (c == 'X' && 'x' !in letters)
  {
    var all := [c] + letters;
    if i :| 0 <= i < |letters| && letters[i] == 'X' && 'x' !in letters[i + 1..] {
      assert all[i + 1] == 'X' && all[i + 1 + 1..] == letters[i + 1..];
    }
    if c == 'X' && 'x' !in letters {
      assert all[0] == 'X' && all[0 + 1..] == letters;
    }
    if i :| 0 <= i < |all| && all[i] == 'X' && 'x' !in all[i + 1..] {
      if i > 0 { assert letters[i - 1] == 'X' && letters[i - 1 + 1..] == all[i + 1..]; }
    }
  }

  /** One letter. */
  function Set(c: char, g: Flags, slen: nat): Flags {
    match c
    case 'u' => g.(sign := false)
    case 'm' => g.(maxWidth := true)
    case 'X' => g.(hex := 2, sign := false)
    case 'x' => g.(hex := 1, sign := false)
    case _ => g.(slen := slen)
  }

  lemma LetterIsRead(c: char, more: string, g: Flags, args: seq<Arg>)
    requires IsLetter(c) && (c == '*' ==> args != [] && args[0].Number? && 0 <= args[0].n <= NO_LENGTH)
    ensures ReadFlags([c] + more, g, args) ==
      if c == '*' then ReadFlags(more, Set(c, g, args[0].n), args[1..]) else ReadFlags(more, Set(c, g, 0), args)
  {
    Cons(c, more);
  }

  lemma InMore(x: char, c: char, more: string)
    ensures x in [c] + more <==> x == c || x in more
  {
  }

  lemma KeepSignMore(c: char, more: string)
    ensures KeepSign([c] + more) <==> (c == 'm' || c == '*') && KeepSign(more)
  {
    var all := [c] + more;
    Cons(c, more);
    assert forall i | 0 <= i < |more| :: all[i + 1] == more[i];
  }

  lemma UpperIsLetter(letters: string)
    ensures LastIsUpper(letters) ==> 'X' in letters
    ensures 'X' in letters && 'x' !in letters ==> LastIsUpper(letters)
  {
    if 'X' in letters && 'x' !in letters {
      var i :| 0 <= i < |letters| && letters[i] == 'X';
      assert 'x' !in letters[i + 1..];
    }
  }

  lemma SetMore(h: Flags, g: Flags, c: char, slen: nat, more: string)
    requires IsLetter(c) && SetBy(h, Set(c, g, slen), more)
    ensures SetBy(h, g, [c] + more)
  {
    hide LastIsUpper, KeepSign;
    LastOfMore(c, more);
    UpperIsLetter(more);
    KeepSignMore(c, more);
    InMore('m', c, more);
    InMore('x', c, more);
    InMore('X', c, more);
  }

  lemma {:induction false} LettersAreRead(letters: string, tail: string, g: Flags, lens: seq<Arg>, args: seq<Arg>)
    returns (h: Flags)
    requires AreLetters(letters) && AreLengths(letters, lens)
    ensures ReadFlags(letters + tail, g, lens + args) == ReadFlags(tail, h, args) && SetBy(h, g, letters)
    decreases |letters|
  {
    if letters == [] {
      assert letters + tail == tail && lens + args == args;
      h := g;
    } else {
      var c, more := letters[0], letters[1..];
      assert IsLetter(c);
      assert letters + tail == [c] + (more + tail) && letters == [c] + more;
      assert lens != [] ==> (lens + args)[0] == lens[0] && (lens + args)[1..] == lens[1..] + args;
      hide ReadFlags, SetBy, Set;
      LetterIsRead(c, more + tail, g, lens + args);
      var slen := if c == '*' then lens[0].n else 0;
      h := LettersAreRead(more, tail, Set(c, g, slen), if c == '*' then lens[1..] else lens, args);
      SetMore(h, g, c, slen, more);
    }
  }

  lemma {:induction false} SkipNumeral(d: string, rest: string)
    requires (d == [] || IsNumeral(d, 10)) && rest != [] && !IsDigit(rest[0])
    ensures SkipDigits(d + rest) == rest
  {
    if d == [] {
      assert d + rest == rest;
    } else {
      assert DigitValue(d[0]) < 10;
      RestOfSum(d, rest);
      SkipNumeral(d[1..], rest);
    }
  }

  lemma PointIsRead(t: string, g: Flags, args: seq<Arg>)
    ensures ReadFlags(['.'] + t, g, args) == Some((g, SkipDigits(t), args))
  {
    Cons('.', t);
    hide SkipDigits;
  }

  lemma EndIsRead(tail: string, g: Flags, args: seq<Arg>)
    requires Ends(tail)
    ensures ReadFlags(tail, g, args) == Some((g, tail, args))
  {
  }

  lemma {:induction false} FractionIsRead(frac: Option<nat>, tail: string, g: Flags, args: seq<Arg>)
    requires Ends(tail)
    ensures ReadFlags(Fraction(frac) + tail, g, args) == Some((g, tail, args))
    ensures var t := Fraction(frac) + tail; t != [] && !IsDigit(t[0])
  {
    hide ReadFlags, Digits, IsNumeral, Value, SkipDigits;
    if frac.Some? {
      var d := Digits(frac.value, 10, false);
      DigitsRoundTrip(frac.value, 10, false);
      SkipNumeral(d, tail);
      assert Fraction(frac) + tail == ['.'] + (d + tail);
      PointIsRead(d + tail, g, args);
    } else {
      assert Fraction(frac) + tail == tail;
      EndIsRead(tail, g, args);
    }
  }

  // ---------- numbers ----------

  /** Without a sign: all but these, once a letter asks for it. */
  ghost predicate IsSigned(c: char, letters: string) {
    c == 'O' || c == 'T' || c == 'P'
      || (c != 'M' && c != 'p' && KeepSign(letters))
  }

  /** A number of the type that the conversion takes: of 64 or 32 bits, with or without a sign. */
  ghost predicate IsArgument(c: char, letters: string, n: int) {
    var wide := c == 'O' || c == 'T' || c == 'z' || c == 'l' || c == 'L' || c == 'p';
    var top := if wide then 0x8000_0000_0000_0000 else 0x8000_0000;
    && (wide || c == 'P' || c == 'M' || c == 'i' || c == 'd' || c == 'D')
    && if IsSigned(c, letters) then -top <= n < top else 0 <= n < 2 * top
  }

  /** Where the conversion does not prescribe them, width and padding are those in front of the letters. */
  function WidthOf(c: char, letters: string, width: nat): nat {
    if c == 'p' then 16 else if c == 'i' && 'm' in letters then 11 else width
  }

  function BaseOf(c: char, letters: string): nat { if c == 'p' || 'x' in letters || 'X' in letters then 16 else 10 }

  lemma {:induction false} ShownIsField(c: char, g: Flags, n: int) returns (k: nat)
    requires g.zero != '-'
    ensures IsField(Shown(c, g, n), k, if c == 'M' && n == 0xffff_ffff then -1 else n,
      if c == 'p' then 16 else if c == 'i' && g.maxWidth then 11 else g.width, if c == 'p' then '0' else g.zero,
      if c == 'p' || g.hex != 0 then 16 else 10, c == 'p' || g.hex == 2)
  {
    hide Signed, IsField;
    if c == 'M' && n == 0xffff_ffff {
      k := FieldOfSigned(-1, g);
    } else if c == 'p' {
      k := FieldOfSigned(n, g.(hex := 2, zero := '0', width := 16));
    } else if c == 'i' && g.maxWidth {
      k := FieldOfSigned(n, g.(width := 11));
    } else {
      k := FieldOfSigned(n, g);
    }
  }

  /** The flags behind a percent sign, before any letter. */
  function Plain(s: string): Flags {
    Flags(if s != [] && s[0] == '0' then '0' else ' ', ReadWidth(s, 0), true, 0, false, NO_LENGTH)
  }

  lemma {:induction false} SpecIsRead(zero: bool, width: nat, letters: string, frac: Option<nat>, tail: string,
          lens: seq<Arg>, args: seq<Arg>)
    returns (g: Flags)
    requires width < 0x1_0000_0000 && AreLetters(letters) && AreLengths(letters, lens) && Ends(tail)
    ensures var s := Field(zero, width) + letters + Fraction(frac) + tail;
      ReadFlags(SkipDigits(s), Plain(s), lens + args) == Some((g, tail, args))
    ensures SetBy(g, Flags(if zero then '0' else ' ', width, true, 0, false, NO_LENGTH), letters)
  {
    hide SetBy, Field, ReadWidth, SkipDigits, ReadFlags, LastIsUpper, Fraction;
    var end := Fraction(frac) + tail;
    FractionIsRead(frac, tail, Plain([]), args);
    Grouped(Field(zero, width) + letters, Fraction(frac), tail);
    Grouped(Field(zero, width), letters, end);
    NoDigitNext(letters, end);
    FieldIsRead(zero, width, letters + end);
    g := LettersAreRead(letters, end, Plain(Field(zero, width) + (letters + end)), lens, args);
    FractionIsRead(frac, tail, g, args);
  }

  lemma NoDigitNext(letters: string, end: string)
    requires AreLetters(letters) && end != [] && !IsDigit(end[0])
    ensures letters + end != [] && !IsDigit((letters + end)[0])
  {
    assert (letters + end)[0] == if letters == [] then end[0] else letters[0];
  }

  /** A directive whose flags are known. */
  lemma {:induction false} DirectiveOf(spec: string, c: char, g: Flags, n: int, rest: string,
          lens: seq<Arg>, args: seq<Arg>)
    requires var s := spec + ([c] + rest); var more := [Number(n)] + args;
      ReadFlags(SkipDigits(s), Plain(s), lens + more) == Some((g, [c] + rest, more))
    requires TypeOf(c, g.sign).Some? && InRange(n, TypeOf(c, g.sign).value.0, TypeOf(c, g.sign).value.1)
    ensures Output("%" + (spec + ([c] + rest)), lens + ([Number(n)] + args))
      == Behind(Shown(c, g, n), Output(rest, args))
  {
    var s, more := spec + ([c] + rest), [Number(n)] + args;
    Cons(c, rest);
    Cons(Number(n), args);
    hide Shown, ReadFlags, ReadWidth, SkipDigits, TypeOf, InRange, Output;
    assert Convert(c, g, more) == Some((Shown(c, g, n), args));
    assert Directive(s, lens + more) == Some((Shown(c, g, n), rest, args));
    OutputOf(s, lens + more);
  }

  lemma OutputOf(s: string, args: seq<Arg>)
    ensures Output("%" + s, args) == match Directive(s, args)
      case None => None
      case Some((out, rest, args')) => Behind(out, Output(rest, args'))
  {
    Cons('%', s);
  }

  /** Whatever the flags and the conversion of a number in range, its field holds the number. */
  lemma {:induction false} NumberIsReadBack(zero: bool, width: nat, letters: string, frac: Option<nat>, c: char, n: int,
          rest: string, lens: seq<Arg>, args: seq<Arg>)
    returns (out: string, k: nat)
    requires width < 0x1_0000_0000 && AreLetters(letters) && AreLengths(letters, lens) && IsArgument(c, letters, n)
    ensures Output("%" + (Field(zero, width) + letters + Fraction(frac) + ([c] + rest)), lens + ([Number(n)] + args))
      == Behind(out, Output(rest, args))
    ensures IsField(out, k, if c == 'M' && n == 0xffff_ffff then -1 else n, WidthOf(c, letters, width),
      if c == 'p' || zero then '0' else ' ', BaseOf(c, letters), c == 'p' || LastIsUpper(letters))
  {
    Cons(c, rest);
    var g := SpecIsRead(zero, width, letters, frac, [c] + rest, lens, [Number(n)] + args);
    assert LastIsUpper(letters) ==> 'X' in letters;
    var t := TypeOf(c, g.sign);
    assert t.Some? && InRange(n, t.value.0, t.value.1);
    hide ReadFlags, SkipDigits, Plain, Field, Output, Shown, IsField, LastIsUpper, Fraction, AreLengths;
    DirectiveOf(Field(zero, width) + letters + Fraction(frac), c, g, n, rest, lens, args);
    out := Shown(c, g, n);
    k := ShownIsField(c, g, n);
  }

  // ---------- texts and characters ----------

  /** A directive without flags. */
  lemma {:induction false} PlainDirective(c: char, rest: string, args: seq<Arg>)
    requires Ends([c])
    ensures Output("%" + ([c] + rest), args) ==
      match Convert(c, Flags(' ', 0, true, 0, false, NO_LENGTH), args)
      case None => None
      case Some((out, args')) => Behind(out, Output(rest, args'))
  {
    var s := [c] + rest;
    Cons(c, rest);
    assert SkipDigits(s) == s && ReadWidth(s, 0) == 0;
    assert ReadFlags(s, Plain(s), args) == Some((Plain(s), s, args));
    hide Output, Convert, ReadFlags, ReadWidth, SkipDigits;
    OutputOf(s, args);
  }

  /** A text is printed as it is, or up to its first NUL character. */
  lemma {:induction false} TextIsPrinted(t: string, rest: string, args: seq<Arg>) returns (n: nat)
    ensures Output("%V" + rest, [Text(t)] + args) == Behind(t, Output(rest, args))
    ensures n <= |t| && '\0' !in t[..n] && (n < |t| ==> t[n] == '\0')
    ensures Output("%s" + rest, [Text(t)] + args) == Behind(t[..n], Output(rest, args))
  {
    Cons(Text(t), args);
    assert "%V" + rest == "%" + (['V'] + rest) && "%s" + rest == "%" + (['s'] + rest);
    n := |UntilNul(t, '\0')|;
    hide Output;
    PlainDirective('V', rest, [Text(t)] + args);
    PlainDirective('s', rest, [Text(t)] + args);
  }

  /** With a length, just that many characters of it are. */
  lemma {:induction false} FrontIsPrinted(t: string, n: nat, rest: string, args: seq<Arg>)
    requires n <= |t| && n < NO_LENGTH
    ensures Output("%*s" + rest, [Number(n), Text(t)] + args) == Behind(t[..n], Output(rest, args))
  {
    var s, more, all := "*s" + rest, ['s'] + rest, [Number(n), Text(t)] + args;
    Cons('s', rest);
    Cons('*', more);
    assert s == ['*'] + more && "%*s" + rest == "%" + s && all[1..] == [Text(t)] + args && all[1..][1..] == args;
    var g := Plain(s).(slen := n);
    assert ReadWidth(s, 0) == 0 && SkipDigits(s) == s;
    assert ReadFlags(more, g, all[1..]) == Some((g, more, all[1..]));
    assert ReadFlags(s, Plain(s), all) == Some((g, more, all[1..]));
    hide Output, ReadFlags, ReadWidth, SkipDigits;
    assert Directive(s, all) == Some((t[..n], rest, args));
    OutputOf(s, all);
  }

  /** Single characters: the low byte of a number, a NUL, a line feed and the percent sign. */
  lemma {:induction false} CharacterIsPrinted(n: int, rest: string, args: seq<Arg>)
    ensures 0 <= n < 256 ==> Output("%c" + rest, [Number(n)] + args) == Behind([n as char], Output(rest, args))
    ensures Output("%Z" + rest, args) == Behind(['\0'], Output(rest, args))
    ensures Output("%N" + rest, args) == Behind(['\n'], Output(rest, args))
    ensures Output("%%" + rest, args) == Behind(['%'], Output(rest, args))
  {
    hide Output;
    Cons(Number(n), args);
    PlainDirective('c', rest, [Number(n)] + args);
    PlainDirective('Z', rest, args);
    PlainDirective('N', rest, args);
    PlainDirective('%', rest, args);
    assert "%c" + rest == "%" + (['c'] + rest) && "%Z" + rest == "%" + (['Z'] + rest);
    assert "%N" + rest == "%" + (['N'] + rest) && "%%" + rest == "%" + (['%'] + rest);
  }

  /** Outside of directives a format prints itself. */
  lemma {:induction false} PlainText(t: string, rest: string, args: seq<Arg>)
    requires '%' !in t
    ensures Output(t + rest, args) == Behind(t, Output(rest, args))
  {
    if t == [] {
      assert t + rest == rest;
      EmptyText(Output(rest, args));
    } else {
      PlainText(t[1..], rest, args);
      RestOfSum(t, rest);
      assert t == [t[0]] + t[1..];
      hide Output;
      if Output(rest, args).Some? { Grouped([t[0]], t[1..], Output(rest, args).value); }
    }
  }

  lemma EmptyText(r: Option<string>)
    ensures Behind([], r) == r
  {
    if r.Some? { assert [] + r.value == r.value; }
  }
}
