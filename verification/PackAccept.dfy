/** What the PACK parser accepts: just the printed forms of lists of elements. */
module PackAccept {
  import opened Bytes
  import opened ItemList
  import opened PackFormat
  import opened PackRuns
  import opened PackStream
  import opened Sequences
  import opened Wrappers

  /** What has been read of a stream: the elements that are complete, as they arrived, and the values of
      the next one. */
  datatype Log = Log(done: seq<Element>, values: seq<Value>)

  /** The printed form up to the element under construction. */
  ghost function Front(num: Uint32, done: seq<Element>): seq<Byte> { Encode32(num) + PrintElements(done) }

  ghost function Head(p: Parser): seq<Byte> { PrintBytes(p.name) + Encode32(p.elemType) }

  /** What has been read of the element under construction. */
  ghost function Begun(p: Parser, values: seq<Value>): seq<Byte> {
    match p.phase
    case Name => Encode32(p.nameLen)
    case Type => PrintBytes(p.name)
    case ValueNum => Head(p)
    case ValueInt => Head(p) + Encode32(p.valueNum) + PrintValues(values)
    case ValueLen => Head(p) + Encode32(p.valueNum) + PrintValues(values)
    case ValueBytes => Head(p) + Encode32(p.valueNum) + PrintValues(values) + Encode32(p.valueLen)
    case _ => []
  }

  /** A value of the type that can be printed. */
  ghost predicate IsValue(k: Kind, v: Value) { Suits(k, v) && (v.Blob? ==> |v.bytes| < 0x1_0000_0000) }

  ghost predicate AreValues(k: Kind, vs: seq<Value>) { forall i | 0 <= i < |vs| :: IsValue(k, vs[i]) }

  /** The element under construction, without values. */
  ghost function Nameless(p: Parser): Element
    requires KindOf(p.elemType).Some?
  {
    Element(p.name, KindOf(p.elemType).value, [])
  }

  /** The values of the element under construction are in their place. */
  ghost predicate HoldsValues(p: Parser, log: Log)
    requires KindOf(p.elemType).Some?
  {
    var e, s := Nameless(p), Received(log.done);
    && |log.values| == p.curValueNum && AreValues(e.kind, log.values)
    && p.cur == Place(Cmp, s, e) && p.elements == Insert(s, e.(values := KeptAll(e.kind, log.values)))
  }

  /** The limit has been looked at. */
  ghost predicate Limited(p: Parser) { p.max == 0 || p.num <= p.max }

  /** The state that the log leads to. */
  ghost predicate Sound(p: Parser, log: Log) {
    && Consistent(p) && |log.done| == p.curNum && (forall i | 0 <= i < |log.done| :: Printable(log.done[i]))
    && (p.phase == Init ==> p.curNum == 0) && (p.phase == Done ==> p.curNum == p.num)
    && (p.phase == Init || (p.phase == NameLen && p.curNum == 0) || Limited(p))
    && (p.phase == Type || p.phase == ValueNum || ReadsValue(p.phase) ==> |p.name| < 0x1_0000_0000)
    && if ReadsValue(p.phase) then HoldsValues(p, log) else p.elements == Received(log.done)
  }

  /** The bytes that have been read. */
  ghost function Written(p: Parser, log: Log): seq<Byte> {
    if p.phase == Init then [] else Front(p.num, log.done) + Begun(p, log.values)
  }

  lemma FreshSound(max: Uint32)
    ensures Sound(Fresh(max), Log([], [])) && Written(Fresh(max), Log([], [])) == []
  {
  }

  // ---------- one round ----------

  lemma InitRound(p: Parser, log: Log, b: seq<Byte>)
    requires Sound(p, log) && p.phase == Init && |b| == p.need && Step(p, b).Some?
    ensures var q := Step(p, b).value; Sound(q, log) && Written(q, log) == Written(p, log) + b
  {
    EncodeDecode(b);
    hide Decode32, Encode32;
    assert log.done == [];
    assert Written(p, log) + b == b && Front(Decode32(b), []) + [] == b;
  }

  /** The rounds that read the name, its length, the type, and the length of a value. */
  lemma FieldRound(p: Parser, log: Log, b: seq<Byte>)
    requires Sound(p, log) && (p.phase == NameLen || p.phase == Name || p.phase == Type || p.phase == ValueLen)
    requires |b| == p.need && Step(p, b).Some?
    ensures var q := Step(p, b).value; Sound(q, log) && Written(q, log) == Written(p, log) + b
  {
    FieldSound(p, log, b);
    FieldWritten(p, log, b);
  }

  lemma FieldSound(p: Parser, log: Log, b: seq<Byte>)
    requires Sound(p, log) && (p.phase == NameLen || p.phase == Name || p.phase == Type || p.phase == ValueLen)
    requires |b| == p.need && Step(p, b).Some?
    ensures Sound(Step(p, b).value, log)
  {
    hide Decode32, Received, Printable, Place, Insert, AreValues, KeptAll;
  }

  lemma FieldWritten(p: Parser, log: Log, b: seq<Byte>)
    requires Consistent(p) && (p.phase == NameLen || p.phase == Name || p.phase == Type || p.phase == ValueLen)
    requires |b| == p.need && Step(p, b).Some?
    ensures Written(Step(p, b).value, log) == Written(p, log) + b
  {
    FieldBegun(p, log.values, b);
    Grouped(Front(p.num, log.done), Begun(p, log.values), b);
    hide Decode32, Front, Begun;
  }

  lemma FieldBegun(p: Parser, values: seq<Value>, b: seq<Byte>)
    requires Consistent(p) && (p.phase == NameLen || p.phase == Name || p.phase == Type || p.phase == ValueLen)
    requires |b| == p.need && Step(p, b).Some?
    ensures Begun(Step(p, b).value, values) == Begun(p, values) + b
  {
    hide Decode32, Encode32, PrintValues, KindOf;
    if p.phase == Name {
    } else {
      EncodeDecode(b);
      assert [] + b == b;
    }
  }

  /** The round that reads the number of values. */
  lemma CountRound(p: Parser, log: Log, b: seq<Byte>)
    requires Sound(p, log) && p.phase == ValueNum && |b| == p.need && Step(p, b).Some?
    ensures var q, log' := Step(p, b).value, log.(values := []);
      Sound(q, log') && Written(q, log') == Written(p, log) + b
  {
    StepConsistent(p, b);
    CountStarts(p, b);
    CountWritten(p, log, b, Step(p, b).value);
    assert KeptAll(Nameless(p).kind, []) == [];
    hide Decode32, Written, Received, Printable, Place, Insert, Consistent, Step, KindOf;
  }

  lemma CountStarts(p: Parser, b: seq<Byte>)
    requires Consistent(p) && p.phase == ValueNum && |b| == p.need && Step(p, b).Some?
    ensures var q := Step(p, b).value; var e := Element(p.name, KindOf(p.elemType).value, []);
      && KindOf(p.elemType).Some? && ReadsValue(q.phase) && q.phase != ValueBytes && q.valueNum == Decode32(b)
      && q == p.(valueNum := Decode32(b), curValueNum := 0, elements := Insert(p.elements, e),
                 cur := Place(Cmp, p.elements, e), phase := q.phase, need := 4)
  {
    hide Place, Insert, Decode32;
  }

  lemma CountWritten(p: Parser, log: Log, b: seq<Byte>, q: Parser)
    requires p.phase == ValueNum && (q.phase == ValueInt || q.phase == ValueLen) && |b| == 4
    requires q.num == p.num && q.name == p.name && q.elemType == p.elemType && q.valueNum == Decode32(b)
    ensures Written(q, log.(values := [])) == Written(p, log) + b
  {
    EncodeDecode(b);
    hide Decode32, Encode32, Front, PrintBytes;
    Grouped(Front(p.num, log.done), Head(p), b);
    assert Head(q) == Head(p) && Head(p) + b + [] == Head(p) + b;
  }

  // ---------- a value ----------

  /** The value `v` comes next. */
  ghost predicate ReadsNext(p: Parser, log: Log, v: Value, again: Phase) {
    && Sound(p, log) && (p.phase == again == ValueInt || (p.phase == ValueBytes && again == ValueLen))
    && IsValue(Nameless(p).kind, v)
  }

  /** What has been read in front of the value. */
  ghost function Before(p: Parser, log: Log): seq<Byte> {
    Front(p.num, log.done) + (Head(p) + Encode32(p.valueNum) + PrintValues(log.values))
  }

  /** Giving an element in its place other values. */
  lemma FilledAgain(s: seq<Element>, e: Element, v: seq<Value>, w: seq<Value>)
    ensures var t, pos := Insert(s, e.(values := v)), Place(Cmp, s, e.(values := []));
      pos < |t| && t[pos] == e.(values := v) && t[pos := e.(values := w)] == Insert(s, e.(values := w))
  {
    hide Insert, Place;
    FilledInPlace(s, e, v);
    FilledInPlace(s, e, w);
    var t, pos := Insert(s, e.(values := [])), Place(Cmp, s, e.(values := []));
    assert t[pos := e.(values := v)][pos := e.(values := w)] == t[pos := e.(values := w)];
  }

  lemma ValueStored(p: Parser, v: Value, again: Phase)
    requires p.cur < |p.elements| && p.curValueNum < p.valueNum && p.curNum < p.num
    ensures var e := p.elements[p.cur];
      WithValue(p, v, again).elements == p.elements[p.cur := e.(values := e.values + [v])]
  {
  }

  lemma MoreAreValues(k: Kind, vs: seq<Value>, v: Value)
    requires AreValues(k, vs) && IsValue(k, v)
    ensures AreValues(k, vs + [v]) && KeptAll(k, vs + [v]) == KeptAll(k, vs) + [Kept(k, v)]
  {
    hide Kept, IsValue;
  }

  lemma ValueInPlace(p: Parser, log: Log, v: Value, again: Phase)
    requires ReadsNext(p, log, v, again)
    ensures var e := Nameless(p); var vs := log.values + [v]; var s := Received(log.done);
      && p.cur < |p.elements| && p.elements[p.cur].kind == e.kind && AreValues(e.kind, vs)
      && WithValue(p, Kept(e.kind, v), again).elements == Insert(s, e.(values := KeptAll(e.kind, vs)))
  {
    var e, s, vs := Nameless(p), Received(log.done), log.values + [v];
    hide KeptAll, Kept, Received, Place, Insert, AreValues, IsValue, WithValue, KindOf, Printable;
    MoreAreValues(e.kind, log.values, v);
    FilledAgain(s, e, KeptAll(e.kind, log.values), KeptAll(e.kind, vs));
    ValueStored(p, Kept(e.kind, v), again);
  }

  lemma ValuePrinted(front: seq<Byte>, head: seq<Byte>, values: seq<Value>, v: Value)
    ensures front + (head + PrintValues(values)) + PrintValue(v) == front + (head + PrintValues(values + [v]))
  {
    PrintValuesConcat(values, [v]);
    assert [v][1..] == [] && PrintValues([v]) == PrintValue(v) + [];
    hide PrintValues, PrintValue;
    Grouped(front, head + PrintValues(values), PrintValue(v));
    Grouped(head, PrintValues(values), PrintValue(v));
  }

  /** What a value does to the other fields. */
  lemma Counted(p: Parser, v: Value, again: Phase)
    requires p.cur < |p.elements| && p.curValueNum < p.valueNum && p.curNum < p.num
    ensures var q, last := WithValue(p, v, again), p.curValueNum + 1 == p.valueNum;
      && q.max == p.max && q.num == p.num && q.name == p.name && q.elemType == p.elemType && q.valueNum == p.valueNum
      && q.cur == p.cur && q.curValueNum == p.curValueNum + 1 && q.curNum == (if last then p.curNum + 1 else p.curNum)
      && q.phase == if !last then again else if q.curNum == q.num then Done else NameLen
  {
  }

  /** The element is not complete yet. */
  lemma MoreValues(p: Parser, log: Log, v: Value, again: Phase, q: Parser)
    requires ReadsNext(p, log, v, again) && p.curValueNum + 1 < p.valueNum
    requires q == WithValue(p, Kept(Nameless(p).kind, v), again)
    ensures var log' := log.(values := log.values + [v]);
      Sound(q, log') && Written(q, log') == Before(p, log) + PrintValue(v)
  {
    hide KeptAll, Kept, Received, Place, Insert, Front, PrintValues, PrintValue, Encode32, Printable, AreValues,
      PrintBytes, WithValue;
    ValueInPlace(p, log, v, again);
    WithValueConsistent(p, Kept(Nameless(p).kind, v), again);
    Counted(p, Kept(Nameless(p).kind, v), again);
    hide Written, Before, IsValue;
    MoreWritten(p, q, log, v);
  }

  lemma MoreWritten(p: Parser, q: Parser, log: Log, v: Value)
    requires q.num == p.num && q.name == p.name && q.elemType == p.elemType && q.valueNum == p.valueNum
    requires q.phase == ValueInt || q.phase == ValueLen
    ensures Written(q, log.(values := log.values + [v])) == Before(p, log) + PrintValue(v)
  {
    ValuePrinted(Front(p.num, log.done), Head(p) + Encode32(p.valueNum), log.values, v);
    hide Front, PrintValues, PrintValue, Encode32, PrintBytes;
  }

  lemma FrontMore(num: Uint32, done: seq<Element>, e: Element)
    ensures Front(num, done + [e]) == Front(num, done) + PrintElement(e)
  {
    PrintElementsConcat(done, [e]);
    assert [e][1..] == [] && PrintElements([e]) == PrintElement(e) + [];
    hide PrintElements, PrintElement;
    Grouped(Encode32(num), PrintElements(done), PrintElement(e));
  }

  lemma ReceivedMore(done: seq<Element>, e: Element)
    ensures Received(done + [e]) == Insert(Received(done), KeptElement(e))
  {
    assert (done + [e])[..|done|] == done;
  }

  /** The element that is complete. */
  lemma ElementPrinted(p: Parser, values: seq<Value>)
    requires KindOf(p.elemType).Some? && |p.name| < 0x1_0000_0000 && |values| == p.valueNum && p.valueNum > 0
    requires AreValues(Nameless(p).kind, values)
    ensures var e := Nameless(p).(values := values);
      Printable(e) && PrintElement(e) == Head(p) + Encode32(p.valueNum) + PrintValues(values)
  {
  }

  /** The element `e` is complete. */
  lemma LastValue(p: Parser, log: Log, v: Value, again: Phase, e: Element, q: Parser)
    requires ReadsNext(p, log, v, again) && p.curValueNum + 1 == p.valueNum
    requires e == Nameless(p).(values := log.values + [v]) && q == WithValue(p, Kept(e.kind, v), again)
    ensures Sound(q, Log(log.done + [e], [])) && Written(q, Log(log.done + [e], [])) == Before(p, log) + PrintValue(v)
  {
    hide KeptAll, Kept, Received, Place, Insert, Front, PrintValues, PrintValue, Encode32, Printable, AreValues,
      PrintBytes, WithValue, PrintElement;
    ValueInPlace(p, log, v, again);
    WithValueConsistent(p, Kept(e.kind, v), again);
    Counted(p, Kept(e.kind, v), again);
    ElementPrinted(p, e.values);
    ReceivedMore(log.done, e);
    hide Written, Before, IsValue;
    LastWritten(p, q, log, e, v);
  }

  lemma LastWritten(p: Parser, q: Parser, log: Log, e: Element, v: Value)
    requires q.num == p.num && (q.phase == Done || q.phase == NameLen)
    requires PrintElement(e) == Head(p) + Encode32(p.valueNum) + PrintValues(log.values + [v])
    ensures Written(q, Log(log.done + [e], [])) == Before(p, log) + PrintValue(v)
  {
    ValuePrinted(Front(p.num, log.done), Head(p) + Encode32(p.valueNum), log.values, v);
    FrontMore(p.num, log.done, e);
    hide Front, PrintValues, PrintValue, Encode32, Head;
    assert Front(p.num, log.done + [e]) + [] == Front(p.num, log.done + [e]);
  }

  lemma AnyValue(p: Parser, log: Log, v: Value, again: Phase, q: Parser) returns (log': Log)
    requires ReadsNext(p, log, v, again) && q == WithValue(p, Kept(Nameless(p).kind, v), again)
    ensures Sound(q, log') && Written(q, log') == Before(p, log) + PrintValue(v)
  {
    hide Sound, Written, Before, PrintValue, Kept, WithValue;
    assert p.curValueNum < p.valueNum && KindOf(p.elemType).Some? by { StillReads(p, log); }
    if p.curValueNum + 1 < p.valueNum {
      log' := log.(values := log.values + [v]);
      MoreValues(p, log, v, again, q);
    } else {
      var e := Nameless(p).(values := log.values + [v]);
      log' := Log(log.done + [e], []);
      LastValue(p, log, v, again, e, q);
    }
  }

  lemma StillReads(p: Parser, log: Log)
    requires Sound(p, log) && ReadsValue(p.phase)
    ensures p.curValueNum < p.valueNum && p.curNum < p.num && p.cur < |p.elements|
    ensures KindOf(p.elemType) == Some(p.elements[p.cur].kind) && (p.phase == ValueInt <==> Nameless(p).kind.Int?)
    ensures p.need as int == if p.phase == ValueBytes then p.valueLen else 4
  {
  }

  /** The round that reads a value. */
  lemma StepOfValue(p: Parser, log: Log, b: seq<Byte>)
    requires Sound(p, log) && (p.phase == ValueInt || p.phase == ValueBytes) && |b| == p.need
    ensures Step(p, b) == Some(if p.phase == ValueInt
      then WithValue(p, Kept(Nameless(p).kind, Number(Decode32(b))), ValueInt)
                               else WithValue(p, Kept(Nameless(p).kind, Blob(b)), ValueLen))
    ensures IsValue(Nameless(p).kind, if p.phase == ValueInt then Number(Decode32(b)) else Blob(b))
  {
    hide WithValue, Decode32, Received, Insert, Place, KeptAll, AreValues, Printable;
  }

  lemma ValueRound(p: Parser, log: Log, b: seq<Byte>) returns (log': Log)
    requires Sound(p, log) && (p.phase == ValueInt || p.phase == ValueBytes) && |b| == p.need && Step(p, b).Some?
    ensures Sound(Step(p, b).value, log') && Written(Step(p, b).value, log') == Written(p, log) + b
  {
    StillReads(p, log);
    hide Sound, Written, Before, Decode32, PrintValue, WithValue, KindOf, Consistent, Step, Kept, IsValue;
    WrittenBefore(p, log, b);
    StepOfValue(p, log, b);
    if p.phase == ValueInt {
      log' := AnyValue(p, log, Number(Decode32(b)), ValueInt, Step(p, b).value);
    } else {
      log' := AnyValue(p, log, Blob(b), ValueLen, Step(p, b).value);
    }
  }

  /** The bytes of a value make up its printed form. */
  lemma WrittenBefore(p: Parser, log: Log, b: seq<Byte>)
    requires |b| as int == if p.phase == ValueBytes then p.valueLen else 4
    ensures p.phase == ValueInt ==> Before(p, log) + PrintValue(Number(Decode32(b))) == Written(p, log) + b
    ensures p.phase == ValueBytes ==> Before(p, log) + PrintValue(Blob(b)) == Written(p, log) + b
  {
    var f, h, l := Front(p.num, log.done), Head(p) + Encode32(p.valueNum) + PrintValues(log.values),
      Encode32(p.valueLen);
    if p.phase == ValueInt {
      EncodeDecode(b);
    } else if p.phase == ValueBytes {
      assert PrintValue(Blob(b)) == l + b && Written(p, log) == f + (h + l) && Before(p, log) == f + h;
      hide Front, Head, Encode32, PrintValues, Written, Before, PrintValue;
      Grouped(f, h, l);
      Grouped(f + h, l, b);
    }
  }

  /** Every round of the parser. */
  lemma AnyRound(p: Parser, log: Log, b: seq<Byte>) returns (log': Log)
    requires Sound(p, log) && p.phase != Done && |b| == p.need && Step(p, b).Some?
    ensures Sound(Step(p, b).value, log') && Written(Step(p, b).value, log') == Written(p, log) + b
  {
    hide Sound, Written, Step;
    log' := log;
    match p.phase
    case Init => InitRound(p, log, b);
    case ValueNum =>
      CountRound(p, log, b);
      log' := log.(values := []);
    case ValueInt => log' := ValueRound(p, log, b);
    case ValueBytes => log' := ValueRound(p, log, b);
    case _ => FieldRound(p, log, b);
  }

  lemma LimitStays(p: Parser, b: seq<Byte>)
    requires Consistent(p) && p.phase != Done && |b| == p.need && Step(p, b).Some?
    ensures Step(p, b).value.max == p.max
  {
  }

  lemma ReadOn(was: seq<Byte>, middle: seq<Byte>, now: seq<Byte>, b: seq<Byte>, n: nat, m: nat)
    requires n + m <= |b| && middle == was + b[..n] && now == middle + b[n..][..m]
    ensures now == was + b[..n + m]
  {
    assert b[..n] + b[n..][..m] == b[..n + m];
    Grouped(was, b[..n], b[n..][..m]);
  }

  /** And so every call. */
  lemma {:induction false} AnyParse(p: Parser, log: Log, b: seq<Byte>) returns (log': Log)
    requires Consistent(p) && Sound(p, log) && Parse(p, b).Stopped?
    ensures var q, n := Parse(p, b).parser, Parse(p, b).used;
      Sound(q, log') && Written(q, log') == Written(p, log) + b[..n] && q.max == p.max
    decreases 2 * |b| + Idle(p)
  {
    hide Sound, Written, Step, Consistent;
    if p.phase == Done || |b| < p.need {
      ParseStops(p, b);
      assert Written(p, log) + b[..0] == Written(p, log);
      log' := log;
    } else {
      var n, rest := p.need as int, b[p.need..];
      ParseUnfold(p, b);
      hide Parse;
      var q := Step(p, b[..n]).value;
      var middle := AnyRound(p, log, b[..n]);
      LimitStays(p, b[..n]);
      log' := AnyParse(q, middle, rest);
      var r := Parse(q, rest);
      ReadOn(Written(p, log), Written(q, middle), Written(r.parser, log'), b, n, r.used);
    }
  }

  // ---------- what is accepted ----------

  /** The bytes begin with the printed form of the list, which is not empty, fits its lengths and counts
      into four bytes each, and respects the limit. */
  ghost predicate Begins(b: seq<Byte>, s: seq<Element>, max: Uint32) {
    && 0 < |s| < 0x1_0000_0000 && (max == 0 || |s| <= max)
    && (forall i | 0 <= i < |s| :: Printable(s[i])) && Print(s) <= b
  }

  ghost predicate Accepted(r: Outcome) { r.Stopped? && r.parser.phase == Done }

  /** What is accepted has been printed from some list of elements, each with a known type and at least
      one value. */
  lemma AcceptedIsPrinted(max: Uint32, b: seq<Byte>) returns (s: seq<Element>)
    requires Accepted(Parse(Fresh(max), b))
    ensures Begins(b, s, max) && b[..Parse(Fresh(max), b).used] == Print(s)
    ensures Parse(Fresh(max), b).parser.elements == Received(s)
  {
    FreshSound(max);
    var log := AnyParse(Fresh(max), Log([], []), b);
    s := log.done;
    var n := Parse(Fresh(max), b).used;
    assert [] + b[..n] == b[..n] && Print(s) + [] == Print(s);
    assert b[..n] <= b;
  }

  lemma PrintedIsAccepted(max: Uint32, b: seq<Byte>, s: seq<Element>)
    requires Begins(b, s, max)
    ensures var r := Parse(Fresh(max), b); Accepted(r) && r.used == |Print(s)| && r.parser.elements == Received(s)
  {
    var rest := b[|Print(s)|..];
    assert b == Print(s) + rest;
    hide Parse, Received, Print, Printable;
    var q := PrintedIsReceived(s, max, rest);
  }

  /** A parser accepts just the streams that begin with a printed list, whatever follows, and its
      elements are those of the list, each put in its place. */
  lemma AcceptsJustPrinted(max: Uint32, b: seq<Byte>)
    ensures Accepted(Parse(Fresh(max), b)) <==> exists s :: Begins(b, s, max)
    ensures forall s | Begins(b, s, max) :: var r := Parse(Fresh(max), b);
      Accepted(r) && r.used == |Print(s)| && r.parser.elements == Received(s)
  {
    hide Parse, Received, Print, Begins;
    forall s | Begins(b, s, max)
      ensures var r := Parse(Fresh(max), b); Accepted(r) && r.used == |Print(s)| && r.parser.elements == Received(s)
    {
      PrintedIsAccepted(max, b, s);
    }
    if Accepted(Parse(Fresh(max), b)) {
      var s := AcceptedIsPrinted(max, b);
    }
  }

  lemma {:induction false} ReceivedLength(s: seq<Element>)
    ensures |Received(s)| == |s|
  {
    hide Insert, KeptElement;
    if s != [] {
      ReceivedLength(s[..|s| - 1]);
      assert |Insert(Received(s[..|s| - 1]), KeptElement(s[|s| - 1]))| == |Received(s[..|s| - 1])| + 1 by {
        InsertLength(Received(s[..|s| - 1]), KeptElement(s[|s| - 1]));
      }
    }
  }

  lemma InsertLength(s: seq<Element>, e: Element)
    ensures |Insert(s, e)| == |s| + 1
  {
  }

  /** Whatever arrives, a parser never holds more elements than its limit. */
  lemma LimitIsKept(max: Uint32, b: seq<Byte>)
    requires Parse(Fresh(max), b).Stopped? && max != 0
    ensures |Parse(Fresh(max), b).parser.elements| <= max
  {
    FreshSound(max);
    var log := AnyParse(Fresh(max), Log([], []), b);
    hide Received, Place;
    ReceivedLength(log.done);
  }

  /** The printed form of the int 7 under the name "a" and the text "c" under "b". */
  lemma PrintedExample()
    ensures Print([Element([97], Int, [Number(7)]), Element([98], Str, [Blob([99])])]) ==
      [2, 0, 0, 0] + (
        [1, 0, 0, 0] + [97] + [0, 0, 0, 0] + [1, 0, 0, 0] + [7, 0, 0, 0] + (
        [1, 0, 0, 0] + [98] + [2, 0, 0, 0] + [1, 0, 0, 0] + ([1, 0, 0, 0] + [99])))
  {
    var e, f := Element([97], Int, [Number(7)]), Element([98], Str, [Blob([99])]);
    PrintedOne(97, Int, Number(7));
    PrintedOne(98, Str, Blob([99]));
    SmallNumbers();
    assert PrintValue(Number(7)) == [7, 0, 0, 0] && PrintValue(Blob([99])) == [1, 0, 0, 0] + [99];
    hide PrintElement, PrintValue, Encode32;
    assert [e, f][1..] == [f] && [f][1..] == [];
    assert PrintElements([f]) == PrintElement(f) + [] == PrintElement(f);
    assert PrintElements([e, f]) == PrintElement(e) + PrintElements([f]);
  }

  lemma SmallNumbers()
    ensures Encode32(0) == [0, 0, 0, 0] && Encode32(1) == [1, 0, 0, 0]
    ensures Encode32(2) == [2, 0, 0, 0] && Encode32(7) == [7, 0, 0, 0]
  {
  }

  lemma PrintedOne(name: Byte, kind: Kind, v: Value)
    ensures PrintElement(Element([name], kind, [v])) ==
      [1, 0, 0, 0] + [name] + Encode32(Code(kind)) + [1, 0, 0, 0] + PrintValue(v)
  {
    SmallNumbers();
    hide PrintValue, Encode32;
    assert [v][1..] == [] && PrintValues([v]) == PrintValue(v) + [] == PrintValue(v);
  }
}
