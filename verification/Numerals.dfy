/** Numerals: printing numbers digit by digit, and the overflow-exact parsers. */
module Numerals {

  const INT_MAX := 0x7fff_ffff
  const SSIZE_MAX := 0x7fff_ffff_ffff_ffff
  const UINT64_MODULUS := 0x1_0000_0000_0000_0000

  predicate IsDigit(c: char) { '0' <= c <= '9' }

  /** The digit `d`, as an entry of the table of digits. */
  function DigitChar(d: nat, upper: bool): char
    requires d < 16
  {
    if upper then "0123456789ABCDEF"[d] else "0123456789abcdef"[d]
  }

  function Quotient(n: nat, base: nat): nat
    requires base > 0
  {
    n / base
  }

  function Remainder(n: nat, base: nat): nat
    requires base > 0
  {
    n % base
  }

  /** The numeral of a number, without leading zeros. */
  function Digits(n: nat, base: nat, upper: bool): (s: string)
    requires 2 <= base <= 16
    ensures |s| > 0
  {
    if n < base then [DigitChar(n, upper)]
    else
      Recompose(n, base);
      Digits(Quotient(n, base), base, upper) + [DigitChar(Remainder(n, base), upper)]
  }

  /** The value of a character as a digit: 16 and more are no digits. */
  function DigitValue(c: char): nat {
    if '0' <= c <= '9' then c as int - '0' as int
    else if 'a' <= c <= 'f' then c as int - 'a' as int + 10
    else if 'A' <= c <= 'F' then c as int - 'A' as int + 10
    else 16
  }

  ghost predicate IsNumeral(s: string, base: nat) {
    s != [] && forall i | 0 <= i < |s| :: DigitValue(s[i]) < base
  }

  ghost function Value(s: string, base: nat): nat {
    if s == [] then 0 else base * Value(s[..|s| - 1], base) + DigitValue(s[|s| - 1])
  }

  lemma DigitOfChar(d: nat, upper: bool)
    requires d < 16
    ensures DigitValue(DigitChar(d, upper)) == d
  {
  }

  lemma Recompose(n: nat, base: nat)
    requires base > 0
    ensures base * Quotient(n, base) + Remainder(n, base) == n && Remainder(n, base) < base
    ensures 2 <= base <= n ==> 0 < Quotient(n, base) < n
  {
    if 2 <= base <= n { QuotientBetween(n, base); }
  }

  lemma QuotientBetween(n: nat, base: nat)
    requires 2 <= base <= n
    ensures 0 < n / base < n
  {
    assert n == base * (n / base) + n % base;
    if n / base >= n { Scaled(2, base, n); }
  }

  lemma ValueAppend(s: string, c: char, base: nat)
    ensures Value(s + [c], base) == base * Value(s, base) + DigitValue(c)
  {
    assert (s + [c])[..|s|] == s;
  }

  lemma NumeralAppend(s: string, c: char, base: nat, n: nat)
    requires (s == [] || IsNumeral(s, base)) && DigitValue(c) < base && base * Value(s, base) + DigitValue(c) == n
    ensures IsNumeral(s + [c], base) && Value(s + [c], base) == n
  {
    hide DigitValue, Value;
    ValueAppend(s, c, base);
  }

  /** Reading a numeral undoes printing it. */
  lemma {:induction false} DigitsRoundTrip(n: nat, base: nat, upper: bool)
    requires 2 <= base <= 16
    ensures IsNumeral(Digits(n, base, upper), base) && Value(Digits(n, base, upper), base) == n
  {
    Recompose(n, base);
    hide DigitChar, DigitValue, IsNumeral, Quotient, Remainder;
    if n < base {
      DigitOfChar(n, upper);
      assert [] + [DigitChar(n, upper)] == [DigitChar(n, upper)];
      NumeralAppend([], DigitChar(n, upper), base, n);
    } else {
      var q, r := Quotient(n, base), Remainder(n, base);
      DigitOfChar(r, upper);
      DigitsRoundTrip(q, base, upper);
      NumeralAppend(Digits(q, base, upper), DigitChar(r, upper), base, n);
    }
  }

  ghost function Power(base: nat, k: nat): nat {
    if k == 0 then 1 else base * Power(base, k - 1)
  }

  lemma Scaled(a: nat, b: nat, c: nat)
    requires a <= b
    ensures c * a <= c * b && a * c <= b * c
  {
  }

  lemma QuotientBelow(n: nat, base: nat, p: nat)
    requires base > 0 && n < base * p
    ensures Quotient(n, base) < p
  {
    Recompose(n, base);
    if Quotient(n, base) >= p { Scaled(p, Quotient(n, base), base); }
  }

  lemma {:induction false} DigitsShort(n: nat, base: nat, upper: bool, k: nat)
    requires 2 <= base <= 16 && 0 < k && n < Power(base, k)
    ensures |Digits(n, base, upper)| <= k
    decreases k
  {
    Recompose(n, base);
    hide DigitChar, Quotient, Remainder;
    if n >= base {
      QuotientBelow(n, base, Power(base, k - 1));
      DigitsShort(Quotient(n, base), base, upper, k - 1);
    }
  }

  lemma {:induction false} ValuePrefix(s: string, i: nat, base: nat)
    requires i <= |s| && base > 0
    ensures Value(s[..i], base) <= Value(s, base)
    decreases |s|
  {
    hide DigitValue;
    if i < |s| {
      ValuePrefix(s[..|s| - 1], i, base);
      assert s[..|s| - 1][..i] == s[..i];
      Scaled(1, base, Value(s[..|s| - 1], base));
    } else {
      assert s[..i] == s;
    }
  }

  /** What the parsers return: the value, or -1. */
  ghost function Parsed(s: string, base: nat, max: nat): int {
    if IsNumeral(s, base) && Value(s, base) <= max then Value(s, base) else -1
  }

  // ---------- which texts are read ----------

  /** A digit in lower case. */
  function Small(c: char): char { if 'A' <= c <= 'F' then (c as int + 32) as char else c }

  function AllSmall(s: string): (t: string)
    ensures |t| == |s|
  {
    seq(|s|, i requires 0 <= i < |s| => Small(s[i]))
  }

  function Zeros(k: nat): (s: string)
    ensures |s| == k
  {
    seq(k, _ => '0')
  }

  lemma SmallDigit(c: char)
    ensures DigitValue(Small(c)) == DigitValue(c)
    ensures DigitValue(c) < 16 ==> Small(c) == DigitChar(DigitValue(c), false)
  {
  }

  lemma {:induction false} SmallValue(s: string, base: nat)
    ensures Value(AllSmall(s), base) == Value(s, base)
    ensures IsNumeral(AllSmall(s), base) <==> IsNumeral(s, base)
  {
    var t := AllSmall(s);
    forall i | 0 <= i < |s|
      ensures DigitValue(t[i]) == DigitValue(s[i])
    {
      SmallDigit(s[i]);
    }
    hide DigitValue;
    if s != [] {
      SmallValue(s[..|s| - 1], base);
      assert t[..|s| - 1] == AllSmall(s[..|s| - 1]);
    }
  }

  lemma {:induction false} ZerosInFront(k: nat, d: string, base: nat)
    requires base > 0
    ensures Value(Zeros(k) + d, base) == Value(d, base)
    decreases |d| + k
  {
    hide DigitValue;
    if d != [] {
      assert Zeros(k) + d == (Zeros(k) + d[..|d| - 1]) + [d[|d| - 1]];
      ValueAppend(Zeros(k) + d[..|d| - 1], d[|d| - 1], base);
      ZerosInFront(k, d[..|d| - 1], base);
    } else if k > 0 {
      assert Zeros(k) + d == (Zeros(k - 1) + []) + ['0'];
      ValueAppend(Zeros(k - 1) + [], '0', base);
      ZerosInFront(k - 1, [], base);
      assert DigitValue('0') == 0 by { ZeroDigit(); }
    } else {
      assert Zeros(k) + d == d;
    }
  }

  lemma ZeroDigit()
    ensures DigitValue('0') == 0 && Small('0') == '0'
  {
  }

  lemma QuotientOf(n: nat, base: nat, q: nat, r: nat)
    requires r < base && n == base * q + r
    ensures Quotient(n, base) == q && Remainder(n, base) == r
  {
    Recompose(n, base);
    var q', r' := Quotient(n, base), Remainder(n, base);
    if q < q' { Scaled(q + 1, q', base); } else if q' < q { Scaled(q' + 1, q, base); }
  }

  /** One more digit behind a numeral without leading zeros. */
  lemma DigitsAppend(q: nat, base: nat, c: char)
    requires 2 <= base <= 16 && DigitValue(c) < base
    ensures var n := base * q + DigitValue(c);
      Digits(n, base, false) == (if q == 0 then [] else Digits(q, base, false)) + [Small(c)]
  {
    SmallDigit(c);
    var n := base * q + DigitValue(c);
    hide Small, DigitChar, DigitValue;
    QuotientOf(n, base, q, DigitValue(c));
    if q > 0 { Scaled(1, q, base); }
    hide Quotient, Remainder;
  }

  /** Every numeral is the printed form of its value, with zeros in front. */
  lemma {:induction false} NumeralIsPrinted(s: string, base: nat) returns (k: nat)
    requires IsNumeral(s, base) && 2 <= base <= 16
    ensures AllSmall(s) == Zeros(k) + Digits(Value(s, base), base, false)
  {
    var t, c := s[..|s| - 1], s[|s| - 1];
    var q := Value(t, base);
    DigitsAppend(q, base, c);
    assert AllSmall(s) == AllSmall(t) + [Small(c)];
    hide DigitValue, Small;
    k := 0;
    if t != [] {
      k := NumeralIsPrinted(t, base);
      if q == 0 {
        assert Digits(0, base, false) == ['0'];
        assert Zeros(k) + ['0'] == Zeros(k + 1);
        k := k + 1;
      }
    }
  }

  lemma ZerosAreNumeral(k: nat, d: string, base: nat)
    requires IsNumeral(d, base)
    ensures IsNumeral(Zeros(k) + d, base)
  {
    ZeroDigit();
    assert DigitValue(d[0]) < base;
    hide DigitValue;
  }

  /** And every such form is a numeral with that value. */
  lemma PrintedIsNumeral(s: string, base: nat, n: nat, k: nat)
    requires 2 <= base <= 16 && AllSmall(s) == Zeros(k) + Digits(n, base, false)
    ensures IsNumeral(s, base) && Value(s, base) == n
  {
    hide Digits, Value, IsNumeral, AllSmall, Zeros;
    DigitsRoundTrip(n, base, false);
    ZerosInFront(k, Digits(n, base, false), base);
    ZerosAreNumeral(k, Digits(n, base, false), base);
    SmallValue(s, base);
  }

  /** A text is read as a number if and only if it is the number's printed form, with any zeros in front
      and in any case, and the number is not too large. */
  lemma {:induction false} ReadIffPrinted(s: string, base: nat, max: nat, n: nat)
    requires 2 <= base <= 16
    ensures Parsed(s, base, max) == n <==>
      n <= max && exists k: nat :: AllSmall(s) == Zeros(k) + Digits(n, base, false)
  {
    hide Digits, Value, IsNumeral, AllSmall, Zeros;
    if Parsed(s, base, max) == n {
      var k := NumeralIsPrinted(s, base);
    }
    if k: nat :| AllSmall(s) == Zeros(k) + Digits(n, base, false) {
      PrintedIsNumeral(s, base, n, k);
    }
  }

  // ---------- the parsers ----------

  /** Reads a decimal numeral of at most `max`. */
  method ParseDecimal(line: string, max: nat) returns (value: int)
    ensures value == Parsed(line, 10, max)
  {
    if |line| == 0 {
      return -1;
    }
    var cutoff, cutlim := max / 10, max % 10;
    value := 0;
    for i := 0 to |line|
      invariant 0 <= value == Value(line[..i], 10) <= max
      invariant forall j | 0 <= j < i :: DigitValue(line[j]) < 10
    {
      assert line[..i + 1][..i] == line[..i];
      ValuePrefix(line, i + 1, 10);
      if line[i] < '0' || line[i] > '9' {
        return -1;
      }
      var d := line[i] as int - '0' as int;
      if value >= cutoff && (value > cutoff || d > cutlim) {
        return -1;
      }
      value := value * 10 + d;
    }
    assert line[..|line|] == line;
  }

  method Atoi(line: string) returns (value: int)
    ensures value == Parsed(line, 10, INT_MAX)
  {
    value := ParseDecimal(line, INT_MAX);
  }

  method Atosz(line: string) returns (value: int)
    ensures value == Parsed(line, 10, SSIZE_MAX)
  {
    value := ParseDecimal(line, SSIZE_MAX);
  }

  /** `ch | 0x20` of an 8-bit character. */
  function Lowered(c: char): char
    requires c as int < 256
  {
    if c as int / 32 % 2 == 0 then (c as int + 32) as char else c
  }

  method HexDigit(ch: char) returns (ok: bool, d: nat)
    requires ch as int < 256
    ensures ok <==> DigitValue(ch) < 16
    ensures ok ==> d == DigitValue(ch)
  {
    var c := Lowered(ch);
    if '0' <= ch <= '9' {
      ok, d := true, ch as int - '0' as int;
    } else if 'a' <= c <= 'f' {
      ok, d := true, c as int - 'a' as int + 10;
    } else {
      ok, d := false, 0;
    }
  }

  method Hextoi(line: string) returns (value: int)
    requires forall i | 0 <= i < |line| :: line[i] as int < 256
    ensures value == Parsed(line, 16, INT_MAX)
  {
    if |line| == 0 {
      return -1;
    }
    hide DigitValue;
    var cutoff := INT_MAX / 16;
    value := 0;
    for i := 0 to |line|
      invariant 0 <= value == Value(line[..i], 16) <= INT_MAX
      invariant forall j | 0 <= j < i :: DigitValue(line[j]) < 16
    {
      assert line[..i + 1][..i] == line[..i];
      ValuePrefix(line, i + 1, 16);
      if value > cutoff {
        return -1;
      }
      var ok, d := HexDigit(line[i]);
      if !ok {
        return -1;
      }
      value := value * 16 + d;
    }
    assert line[..|line|] == line;
  }

  /** The factor of a size with a suffix. */
  function Unit(c: char): nat {
    if c == 'K' || c == 'k' then 1024
    else if c == 'M' || c == 'm' then 1024 * 1024
    else if c == 'G' || c == 'g' then 1024 * 1024 * 1024
    else 1
  }

  /** What a size such as `16k` stands for: the exact product, or -1 when it does not fit. */
  ghost function SizeOf(line: string): int {
    if line == [] then -1
    else
      var unit := Unit(line[|line| - 1]);
      var number := Parsed(if unit == 1 then line else line[..|line| - 1], 10, SSIZE_MAX);
      if number >= 0 && number * unit <= SSIZE_MAX then number * unit else -1
  }

  /** A number with or without a letter behind it. */
  lemma {:induction false} SizeOfDigits(n: nat, suffix: string, unit: nat)
    requires (suffix == [] && unit == 1) || (|suffix| == 1 && unit == Unit(suffix[0]) > 1)
    ensures SizeOf(Digits(n, 10, false) + suffix) == if n * unit <= SSIZE_MAX then n * unit else -1
  {
    var d := Digits(n, 10, false);
    var s := d + suffix;
    DigitsRoundTrip(n, 10, false);
    assert DigitValue(d[|d| - 1]) < 10;
    assert s[..|d|] == d && (suffix == [] ==> s == d);
    Scaled(1, unit, n);
    hide Digits, Value, IsNumeral;
  }

  /** The letters of the kibi-, mebi- and gibibyte in either case count 1024, `i` times over. */
  lemma SizeIsRead(n: nat, i: nat, upper: bool)
    requires i <= 3
    ensures var suffix := if i == 0 then "" else [(if upper then "KMG" else "kmg")[i - 1]];
      var size := n * Power(1024, i);
      SizeOf(Digits(n, 10, false) + suffix) == if size <= SSIZE_MAX then size else -1
  {
    var suffix := if i == 0 then "" else [(if upper then "KMG" else "kmg")[i - 1]];
    Thousands();
    hide SizeOf, Digits, Power;
    SizeOfDigits(n, suffix, Power(1024, i));
  }

  lemma Thousands()
    ensures Power(1024, 0) == 1 && Power(1024, 1) == 1024
    ensures Power(1024, 2) == 1024 * 1024 && Power(1024, 3) == 1024 * 1024 * 1024
  {
  }

  method ParseSize(line: string) returns (size: int)
    ensures size == SizeOf(line)
  {
    hide Value, IsNumeral;
    var len := |line|;
    if len == 0 {
      return -1;
    }
    var unit := line[len - 1];
    var max, scale;
    match unit {
      case 'K' => len, max, scale := len - 1, SSIZE_MAX / 1024, 1024;
      case 'k' => len, max, scale := len - 1, SSIZE_MAX / 1024, 1024;
      case 'M' => len, max, scale := len - 1, SSIZE_MAX / (1024 * 1024), 1024 * 1024;
      case 'm' => len, max, scale := len - 1, SSIZE_MAX / (1024 * 1024), 1024 * 1024;
      case 'G' => len, max, scale := len - 1, SSIZE_MAX / (1024 * 1024 * 1024), 1024 * 1024 * 1024;
      case 'g' => len, max, scale := len - 1, SSIZE_MAX / (1024 * 1024 * 1024), 1024 * 1024 * 1024;
      case _ => max, scale := SSIZE_MAX, 1;
    }
    assert scale == 1 ==> line[..len] == line;
    size := Atosz(line[..len]);
    if size == -1 || size > max {
      return -1;
    }
    size := size * scale;
  }
}
