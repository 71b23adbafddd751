/** The parser of time spans such as "1h 30m". */
module Duration {
  import opened Numerals
  import opened Sequences
  import opened Wrappers

  const MAX := 0x7fff_ffff

  newtype Int = i: int | -0x8000_0000 <= i < 0x8000_0000

  // ---------- what a text means, in unbounded arithmetic ----------

  datatype TimeUnit = Year | Month | Week | Day | Hour | Minute | Second | Millisecond | Blank

  /** A number and the unit behind it. */
  datatype Term = Term(value: nat, unit: TimeUnit)

  /** A text cut into terms and a number without a unit; `digits` says whether there is any digit. */
  datatype Span = Span(terms: seq<Term>, rest: nat, digits: bool)

  /** The unit at the start of a text, and the length of its name. */
  function UnitAt(s: string): (r: Option<(TimeUnit, nat)>)
    requires s != []
    ensures r.Some? ==> 0 < r.value.1 <= |s|
  {
    match s[0]
    case 'y' => Some((Year, 1))
    case 'M' => Some((Month, 1))
    case 'w' => Some((Week, 1))
    case 'd' => Some((Day, 1))
    case 'h' => Some((Hour, 1))
    case 'm' => if |s| > 1 && s[1] == 's' then Some((Millisecond, 2)) else Some((Minute, 1))
    case 's' => Some((Second, 1))
    case ' ' => Some((Blank, 1))
    case _ => None
  }

  function SkipBlanks(s: string): (t: string)
    ensures |t| <= |s|
  {
    if s != [] && s[0] == ' ' then SkipBlanks(s[1..]) else s
  }

  /** Cuts up a text behind the number `value`. */
  ghost function Scan(s: string, value: nat, digits: bool): Option<Span>
    decreases |s|
  {
    if s == [] then Some(Span([], value, digits))
    else if IsDigit(s[0]) then Scan(s[1..], 10 * value + DigitValue(s[0]), true)
    else
      match UnitAt(s)
      case None => None
      case Some((unit, n)) =>
        match Scan(SkipBlanks(s[n..]), 0, digits)
        case None => None
        case Some(span) => Some(span.(terms := [Term(value, unit)] + span.terms))
  }

  function Seconds(u: TimeUnit): nat {
    match u
    case Year => 31536000
    case Month => 2592000
    case Week => 604800
    case Day => 86400
    case Hour => 3600
    case Minute => 60
    case _ => 1
  }

  /** The worth of a unit in seconds or in milliseconds. */
  function Scale(u: TimeUnit, inSeconds: bool): nat {
    if inSeconds || u == Millisecond then Seconds(u) else 1000 * Seconds(u)
  }

  function Rank(u: TimeUnit): nat {
    match u
    case Year => 1
    case Month => 2
    case Week => 3
    case Day => 4
    case Hour => 5
    case Minute => 6
    case Second => 7
    case Millisecond => 8
    case Blank => 9
  }

  /** A unit may follow the larger ones.  A blank ends a number of seconds, so it may follow
      whatever seconds may, and milliseconds may not be asked for in seconds. */
  predicate Follows(step: nat, u: TimeUnit, inSeconds: bool) {
    && step < (if u == Blank then Rank(Second) else Rank(u))
    && (u == Millisecond ==> !inSeconds)
  }

  function Start(inSeconds: bool): nat { if inSeconds then 0 else Rank(Month) }

  /** The units of the terms may follow each other behind `step`. */
  ghost predicate Legal(step: nat, terms: seq<Term>, inSeconds: bool)
    decreases |terms|
  {
    terms != [] ==> Follows(step, terms[0].unit, inSeconds) && Legal(Rank(terms[0].unit), terms[1..], inSeconds)
  }

  function Product(value: nat, scale: nat): nat { value * scale }

  ghost function Total(terms: seq<Term>, inSeconds: bool): nat {
    if terms == [] then 0 else Product(terms[0].value, Scale(terms[0].unit, inSeconds)) + Total(terms[1..], inSeconds)
  }

  ghost function Length(span: Span, inSeconds: bool): nat {
    Total(span.terms, inSeconds) + span.rest * if inSeconds then 1 else 1000
  }

  /** What a text is worth behind a unit of the rank `step` and the number `value`; there is no
      such thing when units do not follow each other, or there is no digit. */
  ghost function Worth(s: string, step: nat, value: nat, digits: bool, inSeconds: bool): Option<nat> {
    match Scan(s, value, digits)
    case None => None
    case Some(span) => if span.digits && Legal(step, span.terms, inSeconds) then Some(Length(span, inSeconds)) else None
  }

  /** The length of the span that a text describes. */
  ghost function Meaning(line: string, inSeconds: bool): Option<nat> {
    Worth(line, Start(inSeconds), 0, false, inSeconds)
  }

  lemma Times(value: nat, scale: nat)
    requires scale > 0
    ensures value <= value * scale
  {
  }

  /** A number that has been read counts at least for itself. */
  lemma {:induction false} WorthAtLeast(s: string, step: nat, value: nat, digits: bool, inSeconds: bool)
    ensures var w := Worth(s, step, value, digits, inSeconds); w.Some? ==> w.value >= value
    decreases |s|
  {
    if s == [] {
    } else if IsDigit(s[0]) {
      WorthAtLeast(s[1..], step, 10 * value + DigitValue(s[0]), true, inSeconds);
    } else if UnitAt(s).Some? {
      Times(value, Scale(UnitAt(s).value.0, inSeconds));
    }
  }

  /** A digit makes the number longer, and what the text is worth is not less than it. */
  lemma {:induction false} WorthOfDigit(s: string, step: nat, value: nat, digits: bool, inSeconds: bool)
    requires s != [] && IsDigit(s[0])
    ensures var v := 10 * value + DigitValue(s[0]); var w := Worth(s[1..], step, v, true, inSeconds);
      Worth(s, step, value, digits, inSeconds) == w && (w.Some? ==> w.value >= v)
  {
    WorthAtLeast(s[1..], step, 10 * value + DigitValue(s[0]), true, inSeconds);
  }

  lemma {:induction false} WorthOfUnit(s: string, step: nat, value: nat, digits: bool, inSeconds: bool)
    requires s != [] && !IsDigit(s[0])
    ensures UnitAt(s).None? ==> Worth(s, step, value, digits, inSeconds) == None
    ensures UnitAt(s).Some? ==>
      var (u, n) := UnitAt(s).value;
      var w := Worth(SkipBlanks(s[n..]), Rank(u), 0, digits, inSeconds);
      Worth(s, step, value, digits, inSeconds) ==
        if !Follows(step, u, inSeconds) || w.None? then None else Some(Product(value, Scale(u, inSeconds)) + w.value)
  {
    hide DigitValue, SkipBlanks, UnitAt, Rank, Follows, Scale;
  }

  lemma {:induction false} WorthOfNothing(s: string, step: nat, value: nat, digits: bool, inSeconds: bool)
    requires s == []
    ensures Worth(s, step, value, digits, inSeconds) ==
      if digits then Some(value * if inSeconds then 1 else 1000) else None
  {
  }

  // ---------- writing a span out ----------

  function Name(u: TimeUnit): string {
    match u
    case Year => "y"
    case Month => "M"
    case Week => "w"
    case Day => "d"
    case Hour => "h"
    case Minute => "m"
    case Second => "s"
    case Millisecond => "ms"
    case Blank => " "
  }

  function Blanks(n: nat): string { if n == 0 then [] else [' '] + Blanks(n - 1) }

  /** The terms, with some more blanks behind each, and a number without a unit, if there is one. */
  function Show(terms: seq<Term>, gaps: seq<nat>, rest: Option<nat>): string
    requires |gaps| == |terms|
  {
    if terms != [] then
      Digits(terms[0].value, 10, false) + (Name(terms[0].unit) + (Blanks(gaps[0]) + Show(terms[1..], gaps[1..], rest)))
    else if rest.Some? then Digits(rest.value, 10, false)
    else []
  }

  lemma ScanDigit(c: char, t: string, value: nat, digits: bool)
    requires IsDigit(c)
    ensures Scan([c] + t, value, digits) == Scan(t, 10 * value + DigitValue(c), true)
  {
    assert ([c] + t)[0] == c && ([c] + t)[1..] == t;
  }

  lemma {:induction false} ScanNumeral(s: string, rest: string, digits: bool, i: nat)
    requires IsNumeral(s, 10) && i <= |s| && 0 < |s|
    ensures Scan(s + rest, 0, digits) == Scan(s[i..] + rest, Value(s[..i], 10), digits || i > 0)
  {
    if i > 0 {
      var c := s[i - 1];
      assert DigitValue(c) < 10;
      DigitBelowTen(c);
      hide Scan, Value, DigitValue, IsNumeral;
      ScanNumeral(s, rest, digits, i - 1);
      assert s[i - 1..] + rest == [c] + (s[i..] + rest) && s[..i] == s[..i - 1] + [c];
      ScanDigit(c, s[i..] + rest, Value(s[..i - 1], 10), digits || i > 1);
      ValueAppend(s[..i - 1], c, 10);
    } else {
      assert s[0..] + rest == s + rest && s[..0] == [];
    }
  }

  lemma {:induction false} ShowStarts(terms: seq<Term>, gaps: seq<nat>, rest: Option<nat>)
    requires |gaps| == |terms|
    ensures SkipBlanks(Show(terms, gaps, rest)) == Show(terms, gaps, rest)
    ensures terms != [] || rest.Some? ==> Show(terms, gaps, rest) != [] && IsDigit(Show(terms, gaps, rest)[0])
  {
    if terms != [] || rest.Some? {
      var n := if terms != [] then terms[0].value else rest.value;
      DigitsRoundTrip(n, 10, false);
      assert DigitValue(Digits(n, 10, false)[0]) < 10;
      assert Show(terms, gaps, rest)[0] == Digits(n, 10, false)[0];
    }
  }

  lemma {:induction false} BlanksSkipped(n: nat, t: string)
    requires SkipBlanks(t) == t
    ensures SkipBlanks(Blanks(n) + t) == t
  {
    if n == 0 {
      assert Blanks(n) + t == t;
    } else {
      BlanksSkipped(n - 1, t);
      Cons(' ', Blanks(n - 1) + t);
      assert Blanks(n) + t == [' '] + (Blanks(n - 1) + t);
    }
  }

  lemma UnitShown(u: TimeUnit, b: string)
    requires b == [] || IsDigit(b[0]) || b[0] == ' '
    ensures var s := Name(u) + b; UnitAt(s) == Some((u, |Name(u)|)) && !IsDigit(s[0]) && s[|Name(u)|..] == b
  {
    var s, n := Name(u) + b, |Name(u)|;
    assert s[0] == Name(u)[0] && (|s| > 1 ==> s[1] == if n > 1 then 's' else b[0]);
  }

  /** A unit, and behind it blanks and what does not begin with another blank or letter. */
  lemma {:induction false} ScanUnit(u: TimeUnit, value: nat, gap: nat, t: string)
    requires SkipBlanks(t) == t && (t == [] || IsDigit(t[0]))
    ensures Scan(Name(u) + (Blanks(gap) + t), value, true) == match Scan(t, 0, true)
      case None => None
      case Some(span) => Some(span.(terms := [Term(value, u)] + span.terms))
  {
    BlanksSkipped(gap, t);
    assert gap > 0 ==> (Blanks(gap) + t)[0] == ' ';
    UnitShown(u, Blanks(gap) + t);
    hide UnitAt, Name, Blanks, SkipBlanks;
  }

  lemma {:induction false} ScanTerm(terms: seq<Term>, gaps: seq<nat>, rest: Option<nat>, digits: bool)
    requires terms != [] && |gaps| == |terms|
    ensures Scan(Show(terms, gaps, rest), 0, digits) == match Scan(Show(terms[1..], gaps[1..], rest), 0, true)
      case None => None
      case Some(span) => Some(span.(terms := [terms[0]] + span.terms))
  {
    var value, tail := terms[0].value, Name(terms[0].unit) + (Blanks(gaps[0]) + Show(terms[1..], gaps[1..], rest));
    var d := Digits(value, 10, false);
    DigitsRoundTrip(value, 10, false);
    assert Show(terms, gaps, rest) == d + tail && d[|d|..] + tail == tail && d[..|d|] == d;
    hide Scan, Digits, IsNumeral, Value, Name, Show, Blanks;
    ScanNumeral(d, tail, digits, |d|);
    ShowStarts(terms[1..], gaps[1..], rest);
    ScanUnit(terms[0].unit, value, gaps[0], Show(terms[1..], gaps[1..], rest));
  }

  lemma {:induction false} ScanRest(rest: Option<nat>, digits: bool)
    ensures Scan(Show([], [], rest), 0, digits)
      == Some(Span([], if rest.Some? then rest.value else 0, digits || rest.Some?))
  {
    if rest.Some? {
      var d := Digits(rest.value, 10, false);
      DigitsRoundTrip(rest.value, 10, false);
      ScanNumeral(d, [], digits, |d|);
      assert d + [] == d && d[..|d|] == d && d[|d|..] + [] == [];
    }
  }

  lemma {:induction false} ScanShown(terms: seq<Term>, gaps: seq<nat>, rest: Option<nat>, digits: bool)
    requires |gaps| == |terms|
    ensures Scan(Show(terms, gaps, rest), 0, digits)
      == Some(Span(terms, if rest.Some? then rest.value else 0, digits || terms != [] || rest.Some?))
    decreases |terms|
  {
    hide Show, Scan;
    if terms == [] {
      assert gaps == [];
      ScanRest(rest, digits);
    } else {
      ScanTerm(terms, gaps, rest, digits);
      ScanShown(terms[1..], gaps[1..], rest, true);
      assert terms == [terms[0]] + terms[1..];
    }
  }

  /** A list of terms in a legal order that is written out means their total. */
  lemma {:induction false} ShownMeansTotal(terms: seq<Term>, gaps: seq<nat>, inSeconds: bool)
    requires |gaps| == |terms| && terms != [] && Legal(Start(inSeconds), terms, inSeconds)
    ensures Meaning(Show(terms, gaps, None), inSeconds) == Some(Total(terms, inSeconds))
  {
    ScanShown(terms, gaps, None, false);
  }

  // ---------- which spans are read ----------

  /** The length of a unit in milliseconds; a blank ends a number of seconds. */
  function Millis(u: TimeUnit): nat {
    match u
    case Year => 31_536_000_000
    case Month => 2_592_000_000
    case Week => 604_800_000
    case Day => 86_400_000
    case Hour => 3_600_000
    case Minute => 60_000
    case Second => 1_000
    case Millisecond => 1
    case Blank => 1_000
  }

  /** Each unit is shorter than the one in front of it, nothing follows a blank, milliseconds are not
      asked for in seconds, and years and months only in seconds. */
  ghost predicate Descending(terms: seq<Term>, inSeconds: bool) {
    forall i | 0 <= i < |terms| :: Admitted(terms, i, inSeconds)
  }

  predicate Admitted(terms: seq<Term>, i: nat, inSeconds: bool)
    requires i < |terms|
  {
    && (terms[i].unit == Millisecond ==> !inSeconds)
    && (terms[i].unit == Year || terms[i].unit == Month ==> inSeconds)
    && (i + 1 < |terms| ==> Shorter(terms[i].unit, terms[i + 1].unit))
  }

  predicate Shorter(before: TimeUnit, u: TimeUnit) { before != Blank && Millis(u) < Millis(before) }

  ghost function InMillis(terms: seq<Term>): nat {
    if terms == [] then 0 else Product(terms[0].value, Millis(terms[0].unit)) + InMillis(terms[1..])
  }

  lemma {:induction false} FirstDescends(terms: seq<Term>, inSeconds: bool)
    requires terms != []
    ensures Descending(terms, inSeconds) <==> Admitted(terms, 0, inSeconds) && Descending(terms[1..], inSeconds)
  {
    var r := terms[1..];
    forall i | 0 <= i < |r|
      ensures Admitted(r, i, inSeconds) == Admitted(terms, i + 1, inSeconds)
    {
    }
    hide Admitted;
    if Descending(r, inSeconds) && Admitted(terms, 0, inSeconds) {
      forall i | 0 <= i < |terms|
        ensures Admitted(terms, i, inSeconds)
      {
        if i > 0 { assert Admitted(r, i - 1, inSeconds); }
      }
    }
  }

  lemma {:induction false} LegalBehind(u: TimeUnit, terms: seq<Term>, inSeconds: bool)
    requires inSeconds || Rank(u) >= Rank(Month)
    ensures Legal(Rank(u), terms, inSeconds) <==>
      (terms != [] ==> Shorter(u, terms[0].unit)) && Descending(terms, inSeconds)
    decreases |terms|
  {
    if terms != [] {
      var v := terms[0].unit;
      assert Follows(Rank(u), v, inSeconds) <==> Shorter(u, v) && (v == Millisecond ==> !inSeconds);
      FirstDescends(terms, inSeconds);
      hide Descending, Shorter;
      if Follows(Rank(u), v, inSeconds) { LegalBehind(v, terms[1..], inSeconds); }
    }
  }

  lemma {:induction false} LegalIsDescending(terms: seq<Term>, inSeconds: bool)
    ensures Legal(Start(inSeconds), terms, inSeconds) <==> Descending(terms, inSeconds)
  {
    if terms != [] {
      FirstDescends(terms, inSeconds);
      hide Descending;
      if inSeconds {
        LegalBehind(terms[0].unit, terms[1..], inSeconds);
      } else {
        LegalBehind(Month, terms, inSeconds);
      }
    }
  }

  lemma Thousand(value: nat, scale: nat)
    ensures Product(value, 1000 * scale) == 1000 * Product(value, scale)
  {
  }

  lemma {:induction false} TotalInMillis(terms: seq<Term>, inSeconds: bool)
    requires Descending(terms, inSeconds)
    ensures InMillis(terms) == Total(terms, inSeconds) * if inSeconds then 1000 else 1
    decreases |terms|
  {
    if terms != [] {
      FirstDescends(terms, inSeconds);
      TotalInMillis(terms[1..], inSeconds);
      Thousand(terms[0].value, Seconds(terms[0].unit));
      var u := terms[0].unit;
      assert Millis(u) == if inSeconds then 1000 * Seconds(u) else Scale(u, inSeconds);
      hide Product;
    }
  }

  /** A span that is written out is read if and only if there is a number in it and its units descend,
      and then as its length, in which a number without a unit counts seconds. */
  lemma {:induction false} ReadIffDescending(terms: seq<Term>, gaps: seq<nat>, rest: Option<nat>, inSeconds: bool)
    requires |gaps| == |terms|
    ensures var w := Meaning(Show(terms, gaps, rest), inSeconds);
      && (w.Some? <==> (terms != [] || rest.Some?) && Descending(terms, inSeconds))
      && var length := InMillis(terms) + if rest.Some? then 1000 * rest.value else 0;
         w.Some? ==> w.value * (if inSeconds then 1000 else 1) == length
  {
    ScanShown(terms, gaps, rest, false);
    LegalIsDescending(terms, inSeconds);
    if Descending(terms, inSeconds) { TotalInMillis(terms, inSeconds); }
  }

  // ---------- the parser ----------

  /** A length that fits, or the error code. */
  ghost function Result(n: Option<nat>): int {
    if n.Some? && n.value <= MAX then n.value else -1
  }

  /** Behind the total so far. */
  ghost function Plus(total: int, n: Option<nat>): Option<nat>
    requires total >= 0
  {
    if n.Some? then Some(total + n.value) else None
  }

  method ParseTime(line: string, isSec: bool) returns (r: Int)
    ensures r as int == Result(Meaning(line, isSec))
  {
    hide Worth, DigitValue;
    var ok: bool;
    var valid, value: Int, total: Int := false, 0, 0;
    var step := if isSec then 0 else 2;
    var p: nat := 0;
    assert line[0..] == line;
    while p < |line|
      invariant p <= |line| && value >= 0 && total >= 0 && step >= Start(isSec)
      invariant Meaning(line, isSec) == Plus(total as int, Worth(line[p..], step, value as int, valid, isSec))
    {
      ghost var s := line[p..];
      if IsDigit(line[p]) {
        DigitBelowTen(line[p]);
        var d := DigitValue(line[p]);
        WorthOfDigit(s, step, value as int, valid, isSec);
        assert s[1..] == line[p + 1..];
        ok, value := PushDigit(value, d as Int);
        if !ok {
          return -1;
        }
        p := p + 1;
        valid := true;
      } else {
        ok, p, step, total := ReadTerm(line, p, step, total, value, valid, isSec);
        if !ok {
          return -1;
        }
        value := 0;
      }
    }
    WorthOfNothing(line[p..], step, value as int, valid, isSec);
    if !valid {
      return -1;
    }
    ok, total := AddTerm(total, value, if isSec then 0x7fff_ffff else 0x7fff_ffff / 1000, if isSec then 1 else 1000);
    r := if ok then total else -1;
  }

  /** The unit behind the number `value`, and the blanks behind it. */
  method ReadTerm(line: string, start: nat, before: nat, total: Int, value: Int, ghost valid: bool, isSec: bool)
    returns (ok: bool, p: nat, step: nat, sum: Int)
    requires start < |line| && !IsDigit(line[start]) && before >= Start(isSec) && total >= 0 && value >= 0
    ensures !ok ==> Result(Plus(total as int, Worth(line[start..], before, value as int, valid, isSec))) == -1
    ensures ok ==> start < p <= |line| && step >= Start(isSec) && sum >= 0
    ensures ok ==>
      var w := Worth(line[start..], before, value as int, valid, isSec);
      Plus(total as int, w) == Plus(sum as int, Worth(line[p..], step, 0, valid, isSec))
  {
    hide Worth, Follows, SkipBlanks, UnitAt, Scale, Product;
    var max, scale;
    sum := 0;
    ok, p, step, max, scale := ReadUnit(line, start, before, isSec);
    WorthOfUnit(line[start..], before, value as int, valid, isSec);
    if !ok {
      return;
    }
    ok, sum := AddTerm(total, value, max, scale);
    p := SkipSpaces(line, p);
  }

  lemma DigitBelowTen(c: char)
    ensures IsDigit(c) <==> DigitValue(c) < 10
  {
  }

  method PushDigit(value: Int, d: Int) returns (ok: bool, r: Int)
    requires 0 <= value && 0 <= d <= 9
    ensures ok <==> 10 * value as int + d as int <= MAX
    ensures ok ==> r as int == 10 * value as int + d as int
  {
    var cutoff, cutlim := 0x7fff_ffff / 10, 0x7fff_ffff % 10;
    if value >= cutoff && (value > cutoff || d > cutlim) {
      return false, 0;
    }
    ok, r := true, value * 10 + d;
  }

  /** The total grows by a number of units, of which at most `max` fit. */
  method AddTerm(total: Int, value: Int, max: Int, scale: Int) returns (ok: bool, r: Int)
    requires 0 <= total && 0 <= value && 0 < scale && max as int == MAX / (scale as int)
    ensures ok <==> total as int + Product(value as int, scale as int) <= MAX
    ensures ok ==> r as int == total as int + Product(value as int, scale as int)
  {
    AtMostQuotient(value as int, scale as int);
    if value > max {
      return false, 0;
    }
    var v := value * scale;
    if total > 0x7fff_ffff - v {
      return false, 0;
    }
    ok, r := true, total + v;
  }

  method SkipSpaces(line: string, start: nat) returns (p: nat)
    requires start <= |line|
    ensures start <= p <= |line| && line[p..] == SkipBlanks(line[start..])
  {
    p := start;
    while p < |line| && line[p] == ' '
      invariant start <= p <= |line| && SkipBlanks(line[p..]) == SkipBlanks(line[start..])
    {
      assert line[p..][1..] == line[p + 1..];
      p := p + 1;
    }
  }

  lemma AtMostQuotient(value: nat, scale: nat)
    requires scale > 0
    ensures value <= MAX / scale <==> value * scale <= MAX
  {
    var q := MAX / scale;
    assert MAX == scale * q + MAX % scale;
    if value <= q { Monotone(value, q, scale); } else { Monotone(q + 1, value, scale); }
  }

  lemma Monotone(a: nat, b: nat, c: nat)
    requires a <= b
    ensures a * c <= b * c
  {
  }

  /** The unit at `start`, and the largest number of it that fits. */
  method ReadUnit(line: string, start: nat, before: nat, isSec: bool)
    returns (ok: bool, p: nat, step: nat, max: Int, scale: Int)
    requires start < |line| && before >= Start(isSec)
    ensures match UnitAt(line[start..])
      case None => !ok
      case Some((u, n)) =>
        && (ok <==> Follows(before, u, isSec))
        && (ok ==>
              && p == start + n && step == Rank(u) && scale as int == Scale(u, isSec)
              && max as int == MAX / Scale(u, isSec))
    ensures ok ==> start < p <= |line| && step >= Start(isSec) && scale > 0
  {
    ok, p, step, max, scale := ReadName(line, start, before, isSec);
    if !ok {
      return;
    }
    if step != 8 && !isSec {
      scale := scale * 1000;
      max := max / 1000;
    }
  }

  /** The unit in seconds, milliseconds excepted. */
  method ReadName(line: string, start: nat, before: nat, isSec: bool)
    returns (ok: bool, p: nat, step: nat, max: Int, scale: Int)
    requires start < |line| && before >= Start(isSec)
    ensures match UnitAt(line[start..])
      case None => !ok
      case Some((u, n)) =>
        && (ok <==> Follows(before, u, isSec))
        && (ok ==>
              && p == start + n <= |line| && step == Rank(u)
              && scale as int == Seconds(u) && max as int == MAX / Seconds(u))
  {
    ok, p, step, max, scale := false, start + 1, before, 0, 0;
    match line[start] {
      case 'y' =>
        if step > 0 {
          return;
        }
        step, max, scale := 1, 0x7fff_ffff / (60 * 60 * 24 * 365), 60 * 60 * 24 * 365;
      case 'M' =>
        if step >= 2 {
          return;
        }
        step, max, scale := 2, 0x7fff_ffff / (60 * 60 * 24 * 30), 60 * 60 * 24 * 30;
      case 'w' =>
        if step >= 3 {
          return;
        }
        step, max, scale := 3, 0x7fff_ffff / (60 * 60 * 24 * 7), 60 * 60 * 24 * 7;
      case 'd' =>
        if step >= 4 {
          return;
        }
        step, max, scale := 4, 0x7fff_ffff / (60 * 60 * 24), 60 * 60 * 24;
      case 'h' =>
        if step >= 5 {
          return;
        }
        step, max, scale := 5, 0x7fff_ffff / (60 * 60), 60 * 60;
      case 'm' =>
        if p < |line| && line[p] == 's' {
          if isSec || step >= 8 {
            return;
          }
          p, step, max, scale := p + 1, 8, 0x7fff_ffff, 1;
        } else {
          if step >= 6 {
            return;
          }
          step, max, scale := 6, 0x7fff_ffff / 60, 60;
        }
      case 's' =>
        if step >= 7 {
          return;
        }
        step, max, scale := 7, 0x7fff_ffff, 1;
      case ' ' =>
        if step >= 7 {
          return;
        }
        step, max, scale := 9, 0x7fff_ffff, 1;
      case _ =>
        return;
    }
    ok := true;
  }
}
