/** CRC-32: the bitwise definition, and the two table-driven forms of it. */
module Crc32 {
  import opened Crc32Tables
  import opened Sequences

  // ---------- the definition ----------

  /** Shifts the low bit of `d` into the register (section 3.4 of RFC 2083, bits in reflected
      order): when it differs from the bit that falls out, the polynomial is subtracted. */
  function ShiftBit(c: bv32, d: bv32): bv32 {
    if c & 1 != d & 1 then 0xEDB88320 ^ (c >> 1) else c >> 1
  }

  function Half(d: bv32): bv32 { d >> 1 }

  /** Shifts the four low bits of `d` in, the lowest first. */
  function ShiftFour(c: bv32, d: bv32): bv32 {
    ShiftBit(ShiftBit(ShiftBit(ShiftBit(c, d), Half(d)), Half(Half(d))), Half(Half(Half(d))))
  }

  function ShiftByte(c: bv32, b: bv8): bv32 {
    ShiftFour(ShiftFour(c, Word(b)), Shr4(Word(b)))
  }

  function Shift(c: bv32, s: seq<bv8>): bv32
    decreases |s|
  {
    if s == [] then c else Shift(ShiftByte(c, s[0]), s[1..])
  }

  /** The CRC of a message: all ones are the initial value, and the result is complemented. */
  function Crc(s: seq<bv8>): bv32 { Shift(0xffffffff, s) ^ 0xffffffff }

  // ---------- the register is linear ----------

  // The operations on registers by name, so that a proof can use their laws without their bits.

  function Plus(a: bv32, b: bv32): bv32 { a ^ b }

  function Shr4(c: bv32): bv32 { c >> 4 }

  function Word(b: bv8): bv32 { b as bv32 }

  function LowByte(c: bv32): bv8 { (c & 0xff) as bv8 }

  function LowNibble(c: bv32): bv4 { (c & 0xf) as bv4 }

  function Low4(c: bv32): bv32 { c & 0xf }

  function High4(c: bv32): bv32 { c & 0xfffffff0 }

  lemma StepEven(a: bv32, b: bv32)
    requires a & 1 == 0 && b & 1 == 0
    ensures Step(a ^ b) == Step(a) ^ Step(b)
  {
  }

  lemma StepOdd(a: bv32, b: bv32)
    requires a & 1 == 1 && b & 1 == 1
    ensures Step(a ^ b) == Step(a) ^ Step(b)
  {
  }

  lemma StepMixed(a: bv32, b: bv32)
    requires a & 1 == 1 && b & 1 == 0
    ensures Step(a ^ b) == Step(a) ^ Step(b)
  {
  }

  lemma Swap(a: bv32, b: bv32)
    ensures a ^ b == b ^ a
  {
  }

  lemma LowBit(a: bv32)
    ensures a & 1 == 0 || a & 1 == 1
  {
  }

  lemma StepLinear(a: bv32, b: bv32)
    ensures Step(Plus(a, b)) == Plus(Step(a), Step(b))
  {
    hide Step;
    LowBit(a);
    LowBit(b);
    if a & 1 == b & 1 == 0 {
      StepEven(a, b);
    } else if a & 1 == b & 1 {
      StepOdd(a, b);
    } else if a & 1 == 1 {
      StepMixed(a, b);
    } else {
      StepMixed(b, a);
      Swap(a, b);
      Swap(Step(a), Step(b));
    }
  }

  lemma FourLinear(a: bv32, b: bv32)
    ensures Four(Plus(a, b)) == Plus(Four(a), Four(b))
  {
    hide Step, Plus;
    StepLinear(a, b);
    StepLinear(Step(a), Step(b));
    StepLinear(Step(Step(a)), Step(Step(b)));
    StepLinear(Step(Step(Step(a))), Step(Step(Step(b))));
  }

  /** Steps only move the upper bits down. */
  lemma FourUpper(c: bv32)
    requires c & 0xf == 0
    ensures Four(c) == Shr4(c)
  {
    assert Step(c) == c >> 1;
    assert Step(c >> 1) == c >> 2;
    assert Step(c >> 2) == c >> 3;
  }

  lemma LowAndHigh(c: bv32)
    ensures Plus(Low4(c), High4(c)) == c && High4(c) & 0xf == 0 && Shr4(High4(c)) == Shr4(c)
  {
  }

  lemma FourSplit(c: bv32)
    ensures Four(c) == Plus(Four(Low4(c)), Shr4(c))
  {
    hide Plus, Four, Shr4, Low4, High4;
    LowAndHigh(c);
    FourLinear(Low4(c), High4(c));
    FourUpper(High4(c));
  }

  // ---------- bytes ----------

  lemma BitIsStep(c: bv32, d: bv32)
    ensures Plus(ShiftBit(c, d), Half(d)) == Step(Plus(c, d))
  {
    LowBit(c);
    LowBit(d);
    if c & 1 == d & 1 == 0 {
      StepEven(c, d);
    } else if c & 1 == d & 1 {
      StepOdd(c, d);
    } else if c & 1 == 1 {
      StepMixed(c, d);
    } else {
      StepMixed(d, c);
    }
  }

  lemma FourHalves(d: bv32)
    ensures Half(Half(Half(Half(d)))) == Shr4(d)
  {
  }

  /** Shifting four bits in is four steps from the register with the bits added. */
  lemma FourBits(c: bv32, d: bv32)
    ensures Plus(ShiftFour(c, d), Shr4(d)) == Four(Plus(c, d))
  {
    hide Step, ShiftBit, Plus, Shr4, Half;
    var d1, d2, d3 := Half(d), Half(Half(d)), Half(Half(Half(d)));
    var c1 := ShiftBit(c, d);
    var c2 := ShiftBit(c1, d1);
    var c3 := ShiftBit(c2, d2);
    BitIsStep(c, d);
    BitIsStep(c1, d1);
    BitIsStep(c2, d2);
    BitIsStep(c3, d3);
    FourHalves(d);
  }

  lemma ByteEnds(b: bv8, c: bv32)
    ensures Plus(c, Shr4(Shr4(Word(b)))) == c
  {
  }

  /** Shifting a byte in is eight steps from the register with the byte added. */
  lemma ByteIsEight(c: bv32, b: bv8)
    ensures ShiftByte(c, b) == Eight(Plus(c, Word(b)))
  {
    hide Plus, Shr4, Four, ShiftFour, Word;
    var d := Word(b);
    var c4 := ShiftFour(c, d);
    ByteEnds(b, ShiftFour(c4, Shr4(d)));
    FourBits(c, d);
    FourBits(c4, Shr4(d));
  }

  lemma BytesApart(c: bv32)
    ensures Plus(Word(LowByte(c)), c & 0xffffff00) == c
  {
    assert Word(LowByte(c)) == c & 0xff;
  }

  lemma UpperClear(c: bv32)
    ensures (c & 0xffffff00) & 0xf == 0 && Shr4(c & 0xffffff00) & 0xf == 0
  {
  }

  lemma UpperNibbles(c: bv32)
    ensures Shr4(c & 0xffffff00) == High4(Shr4(c))
  {
  }

  lemma UpperShifted(c: bv32)
    ensures Shr4(Shr4(c & 0xffffff00)) == Shr4(Shr4(c))
  {
    UpperNibbles(c);
    LowAndHigh(Shr4(c));
    hide Shr4, High4;
  }

  lemma EightSplit(c: bv32)
    ensures Eight(c) == Plus(Eight(Word(LowByte(c))), Shr4(Shr4(c)))
  {
    BytesApart(c);
    UpperClear(c);
    UpperShifted(c);
    hide Plus, Shr4, Four, Word, LowByte;
    var l, h := Word(LowByte(c)), c & 0xffffff00;
    FourLinear(l, h);
    FourUpper(h);
    FourLinear(Four(l), Shr4(h));
    FourUpper(Shr4(h));
  }

  // ---------- the table-driven steps ----------

  /** One lookup in the large table. */
  function LongStep(c: bv32, b: bv8): bv32 {
    Table256(((c ^ (b as bv32)) & 0xff) as bv8) ^ (c >> 8)
  }

  /** One lookup in the small table. */
  function Lookup(c: bv32, n: bv8): bv32 {
    Table16(((c ^ (n as bv32)) & 0xf) as bv4) ^ (c >> 4)
  }

  function ShortStep(c: bv32, b: bv8): bv32 { Lookup(Lookup(c, b & 0xf), b >> 4) }

  lemma LongStepParts(c: bv32, b: bv8, t: bv32)
    ensures var x := Plus(c, Word(b));
      && ((c ^ (b as bv32)) & 0xff) as bv8 == LowByte(x)
      && t ^ (c >> 8) == Plus(t, Shr4(Shr4(x)))
  {
  }

  lemma LongStepIsByte(c: bv32, b: bv8)
    ensures LongStep(c, b) == ShiftByte(c, b)
  {
    hide Eight, Table256, ShiftByte, Plus, Word, LowByte, Shr4;
    var x := Plus(c, Word(b));
    ByteIsEight(c, b);
    EightSplit(x);
    Table256IsEight(LowByte(x));
    LongStepParts(c, b, Table256(LowByte(x)));
    WordOf(LowByte(x));
  }

  lemma WordOf(b: bv8)
    ensures b as bv32 == Word(b)
  {
  }

  /** One lookup in the small table is four steps. */
  lemma NibbleStep(x: bv32)
    ensures Plus(Table16(LowNibble(x)), Shr4(x)) == Four(x)
  {
    hide Four, Table16, Plus, Shr4, Low4, LowNibble;
    FourSplit(x);
    Table16IsFour(LowNibble(x));
    NibbleOf(x);
  }

  lemma NibbleOf(x: bv32)
    ensures LowNibble(x) as bv32 == Low4(x)
  {
  }

  lemma NibbleIndex(c: bv32, n: bv8)
    ensures ((c ^ (n as bv32)) & 0xf) as bv4 == LowNibble(Plus(c, Word(n)))
  {
  }

  lemma PlusIs(t: bv32, c: bv32)
    ensures t ^ (c >> 4) == Plus(t, Shr4(c))
  {
  }

  lemma LookupAt(c: bv32, n: bv8, i: bv4)
    requires i == ((c ^ (n as bv32)) & 0xf) as bv4
    ensures Lookup(c, n) == Table16(i) ^ (c >> 4)
  {
    hide Table16;
  }

  lemma LookupNamed(c: bv32, n: bv8)
    ensures Lookup(c, n) == Plus(Table16(LowNibble(Plus(c, Word(n)))), Shr4(c))
  {
    hide Table16, Plus, Word, LowNibble, Shr4, Lookup;
    var i := LowNibble(Plus(c, Word(n)));
    NibbleIndex(c, n);
    LookupAt(c, n, i);
    PlusIs(Table16(i), c);
  }

  lemma NibbleFallsOut(c: bv32, n: bv8)
    requires n < 16
    ensures Shr4(Plus(c, Word(n))) == Shr4(c)
  {
  }

  lemma LookupIsFour(c: bv32, n: bv8)
    requires n < 16
    ensures Lookup(c, n) == Four(Plus(c, Word(n)))
  {
    hide Four, Table16, Plus, Word, LowNibble, Shr4, Lookup;
    LookupNamed(c, n);
    NibbleFallsOut(c, n);
    NibbleStep(Plus(c, Word(n)));
  }

  lemma PlusGrouped(a: bv32, b: bv32, c: bv32)
    ensures Plus(Plus(a, b), c) == Plus(a, Plus(b, c))
  {
  }

  lemma NibblesApart(b: bv8)
    ensures Plus(Word(b & 0xf), High4(Word(b))) == Word(b) && High4(Word(b)) & 0xf == 0
      && Shr4(High4(Word(b))) == Word(b >> 4)
    ensures b & 0xf < 16 && b >> 4 < 16
  {
  }

  lemma ShortStepIsByte(c: bv32, b: bv8)
    ensures ShortStep(c, b) == ShiftByte(c, b)
  {
    NibblesApart(b);
    ByteIsEight(c, b);
    var l, h, d := b & 0xf, b >> 4, High4(Word(b));
    hide Four, ShiftByte, Plus, Word, Shr4, Lookup, High4;
    LookupIsFour(c, l);
    LookupIsFour(Lookup(c, l), h);
    PlusGrouped(c, Word(l), d);
    FourLinear(Plus(c, Word(l)), d);
    FourUpper(d);
  }

  // ---------- the functions ----------

  /** The form with the table of 16 entries, for short data. */
  method Short(p: seq<bv8>) returns (crc: bv32)
    ensures crc == Crc(p)
  {
    crc := 0xffffffff;
    for i := 0 to |p|
      invariant Shift(crc, p[i..]) == Shift(0xffffffff, p)
    {
      hide Table16, ShiftByte;
      var c := p[i];
      ShortStepIsByte(crc, c);
      assert p[i..][1..] == p[i + 1..];
      crc := Lookup(crc, c & 0xf);
      crc := Lookup(crc, c >> 4);
    }
    crc := crc ^ 0xffffffff;
  }

  /** The form with the table of 256 entries. */
  method Long(p: seq<bv8>) returns (crc: bv32)
    ensures crc == Crc(p)
  {
    crc := 0xffffffff;
    for i := 0 to |p|
      invariant Shift(crc, p[i..]) == Shift(0xffffffff, p)
    {
      crc := ShiftNext(crc, p, i);
    }
    crc := crc ^ 0xffffffff;
  }

  method ShiftNext(crc: bv32, p: seq<bv8>, i: nat) returns (c: bv32)
    requires i < |p|
    ensures Shift(c, p[i + 1..]) == Shift(crc, p[i..])
  {
    hide Table256, ShiftByte;
    LongStepIsByte(crc, p[i]);
    assert p[i..][1..] == p[i + 1..];
    c := LongStep(crc, p[i]);
  }

  /** A running CRC: initialised, updated with one piece of the data after the other, finished. */
  class Register {
    var crc: bv32

    method Init()
      modifies this
      ensures crc == 0xffffffff
    {
      crc := 0xffffffff;
    }

    method Update(p: seq<bv8>)
      modifies this
      ensures crc == Shift(old(crc), p)
    {
      var c := crc;
      for i := 0 to |p|
        invariant Shift(c, p[i..]) == Shift(old(crc), p)
      {
        c := ShiftNext(c, p, i);
      }
      crc := c;
    }

    method Final()
      modifies this
      ensures crc == old(crc) ^ 0xffffffff
    {
      crc := crc ^ 0xffffffff;
    }
  }

  // ---------- laws ----------

  lemma {:induction false} ShiftConcat(c: bv32, a: seq<bv8>, b: seq<bv8>)
    ensures Shift(c, a + b) == Shift(Shift(c, a), b)
    decreases |a|
  {
    hide ShiftByte;
    if a == [] {
      assert a + b == b;
    } else {
      RestOfSum(a, b);
      ShiftConcat(ShiftByte(c, a[0]), a[1..], b);
    }
  }

  /** One update after the other. */
  function ShiftAll(c: bv32, pieces: seq<seq<bv8>>): bv32
    decreases |pieces|
  {
    if pieces == [] then c else ShiftAll(Shift(c, pieces[0]), pieces[1..])
  }

  /** However the data is cut, updating with the pieces and finishing gives the CRC of the whole. */
  lemma {:induction false} PiecesMakeTheWhole(pieces: seq<seq<bv8>>)
    ensures ShiftAll(0xffffffff, pieces) ^ 0xffffffff == Crc(Concat(pieces))
  {
    hide Shift, ShiftAll, Concat;
    ShiftPieces(0xffffffff, pieces);
  }

  lemma {:induction false} ShiftPieces(c: bv32, pieces: seq<seq<bv8>>)
    ensures ShiftAll(c, pieces) == Shift(c, Concat(pieces))
    decreases |pieces|
  {
    if pieces != [] {
      ShiftConcat(c, pieces[0], Concat(pieces[1..]));
      ShiftPieces(Shift(c, pieces[0]), pieces[1..]);
    }
  }

  /** The step backwards: the polynomial has its top bit set. */
  function StepBack(c: bv32): bv32 {
    if c >> 31 == 1 then ((c ^ 0xEDB88320) << 1) | 1 else c << 1
  }

  lemma StepUndone(c: bv32)
    ensures StepBack(Step(c)) == c
  {
    LowBit(c);
    if c & 1 == 1 { OddStepUndone(c); } else { EvenStepUndone(c); }
  }

  lemma OddStepUndone(c: bv32)
    requires c & 1 == 1
    ensures StepBack(Step(c)) == c
  {
  }

  lemma EvenStepUndone(c: bv32)
    requires c & 1 == 0
    ensures StepBack(Step(c)) == c
  {
  }

  /** Dividing loses nothing, because the polynomial has its top bit set. */
  lemma FourInjective(a: bv32, b: bv32)
    requires Four(a) == Four(b)
    ensures a == b
  {
    hide Step;
    StepUndone(Step(Step(Step(a))));
    StepUndone(Step(Step(Step(b))));
    StepUndone(Step(Step(a)));
    StepUndone(Step(Step(b)));
    StepUndone(Step(a));
    StepUndone(Step(b));
    StepUndone(a);
    StepUndone(b);
  }

  lemma ShiftByteInjective(c: bv32, x: bv8, d: bv32, y: bv8)
    requires ShiftByte(c, x) == ShiftByte(d, y)
    ensures x == y ==> c == d
    ensures c == d ==> x == y
  {
    hide ShiftByte, Four;
    ByteIsEight(c, x);
    ByteIsEight(d, y);
    var a, b := Plus(c, Word(x)), Plus(d, Word(y));
    FourInjective(Four(a), Four(b));
    FourInjective(a, b);
    PlusInjective(c, x, d, y);
  }

  lemma PlusInjective(c: bv32, x: bv8, d: bv32, y: bv8)
    requires Plus(c, Word(x)) == Plus(d, Word(y))
    ensures x == y ==> c == d
    ensures c == d ==> x == y
  {
  }

  lemma {:induction false} ShiftInjective(c: bv32, d: bv32, s: seq<bv8>)
    requires Shift(c, s) == Shift(d, s)
    ensures c == d
    decreases |s|
  {
    hide ShiftByte;
    if s != [] {
      ShiftInjective(ShiftByte(c, s[0]), ShiftByte(d, s[0]), s[1..]);
      ShiftByteInjective(c, s[0], d, s[0]);
    }
  }

  /** Any damage within one byte changes the CRC. */
  lemma {:induction false} DetectsOneByte(a: seq<bv8>, x: bv8, y: bv8, b: seq<bv8>)
    requires x != y
    ensures Crc(a + [x] + b) != Crc(a + [y] + b)
  {
    var c := Shift(0xffffffff, a);
    ShiftOne(0xffffffff, a, x, b);
    ShiftOne(0xffffffff, a, y, b);
    Complement(Shift(ShiftByte(c, x), b), Shift(ShiftByte(c, y), b));
    hide ShiftByte;
    if Crc(a + [x] + b) == Crc(a + [y] + b) {
      ShiftInjective(ShiftByte(c, x), ShiftByte(c, y), b);
      ShiftByteInjective(c, x, c, y);
    }
  }

  lemma ShiftOne(c: bv32, a: seq<bv8>, x: bv8, b: seq<bv8>)
    ensures Shift(c, a + [x] + b) == Shift(ShiftByte(Shift(c, a), x), b)
  {
    hide ShiftByte;
    ShiftConcat(c, a + [x], b);
    ShiftConcat(c, a, [x]);
  }

  lemma Complement(c: bv32, d: bv32)
    ensures c ^ 0xffffffff == d ^ 0xffffffff ==> c == d
  {
  }
}
