/** The PACK format on values: elements and their order, the printed form, and the parser
    as a function from a state and a chunk of bytes to a new state. */
module PackFormat {
  import opened Bytes
  import opened ItemList
  import opened Sequences
  import opened Wrappers

  // ---------- elements ----------

  /** The type of an element; its code on the wire is 0, 1 or 2. */
  datatype Kind = Int | Data | Str

  datatype Value = Number(n: Uint32) | Blob(bytes: seq<Byte>)

  datatype Element = Element(name: seq<Byte>, kind: Kind, values: seq<Value>)

  function Code(k: Kind): (c: Uint32) {
    match k
    case Int => 0
    case Data => 1
    case Str => 2
  }

  function KindOf(c: Uint32): Option<Kind> {
    if c == 0 then Some(Int) else if c == 1 then Some(Data) else if c == 2 then Some(Str) else None
  }

  predicate Suits(k: Kind, v: Value) { k.Int? <==> v.Number? }

  /** The value as it is kept: a string ends at its first NUL byte. */
  function Kept(k: Kind, v: Value): Value {
    if k.Str? && v.Blob? then Blob(UntilNul(v.bytes, 0)) else v
  }

  function KeptAll(k: Kind, vs: seq<Value>): (r: seq<Value>)
    ensures |r| == |vs|
  {
    seq(|vs|, i requires 0 <= i < |vs| => Kept(k, vs[i]))
  }

  function KeptElement(e: Element): Element { e.(values := KeptAll(e.kind, e.values)) }

  // ---------- the order of the element list ----------

  /** The cast of a size_t difference to int. */
  function AsInt(d: int): int {
    var u := d % 0x1_0000_0000;
    if u < 0x8000_0000 then u else u - 0x1_0000_0000
  }

  function MemCmp(a: seq<Byte>, b: seq<Byte>): (r: int)
    requires |a| == |b|
  {
    if a == [] then 0
    else if a[0] < b[0] then -1
    else if a[0] > b[0] then 1
    else MemCmp(a[1..], b[1..])
  }

  function CmpName(k: Kind, name: seq<Byte>, k': Kind, name': seq<Byte>): (r: int) {
    if k != k' then Code(k) - Code(k')
    else if |name| != |name'| then AsInt(|name| - |name'|)
    else MemCmp(name, name')
  }

  ghost predicate Short(name: seq<Byte>) { |name| < 0x8000_0000 }

  lemma {:induction false} MemCmpOrder(a: seq<Byte>, b: seq<Byte>, c: seq<Byte>)
    requires |a| == |b| == |c|
    ensures MemCmp(a, b) == 0 <==> a == b
    ensures MemCmp(a, b) < 0 <==> MemCmp(b, a) > 0
    ensures MemCmp(a, b) < 0 && MemCmp(b, c) < 0 ==> MemCmp(a, c) < 0
  {
    if a != [] {
      MemCmpOrder(a[1..], b[1..], c[1..]);
      assert a == [a[0]] + a[1..] && b == [b[0]] + b[1..];
    }
  }

  /** Names below 2^31 bytes are totally ordered, and only equal names compare equal. */
  lemma CmpNameOrder(k: Kind, a: seq<Byte>, l: Kind, b: seq<Byte>, m: Kind, c: seq<Byte>)
    requires Short(a) && Short(b) && Short(c)
    ensures CmpName(k, a, l, b) == 0 <==> k == l && a == b
    ensures CmpName(k, a, l, b) < 0 <==> CmpName(l, b, k, a) > 0
    ensures CmpName(k, a, l, b) < 0 && CmpName(l, b, m, c) < 0 ==> CmpName(k, a, m, c) < 0
  {
    if |a| == |b| == |c| {
      MemCmpOrder(a, b, c);
    } else if |a| == |b| {
      MemCmpOrder(a, b, a);
    }
  }

  /** The type decides, then the length, and then the first byte that differs. */
  lemma {:induction false} CmpNameDecides(k: Kind, a: seq<Byte>, l: Kind, b: seq<Byte>) returns (i: nat)
    requires Short(a) && Short(b)
    ensures k != l ==> (CmpName(k, a, l, b) < 0 <==> Code(k) < Code(l))
    ensures k == l && |a| != |b| ==> (CmpName(k, a, l, b) < 0 <==> |a| < |b|)
    ensures k == l && |a| == |b| && a != b ==>
      i < |a| && a[..i] == b[..i] && a[i] != b[i] && (CmpName(k, a, l, b) < 0 <==> a[i] < b[i])
  {
    i := 0;
    if k == l && |a| == |b| && a != b { i := FirstDifference(a, b); }
  }

  lemma {:induction false} FirstDifference(a: seq<Byte>, b: seq<Byte>) returns (i: nat)
    requires |a| == |b| && a != b
    ensures i < |a| && a[..i] == b[..i] && a[i] != b[i] && (MemCmp(a, b) < 0 <==> a[i] < b[i])
  {
    i := 0;
    if a[0] == b[0] {
      assert a == [a[0]] + a[1..] && b == [b[0]] + b[1..];
      i := FirstDifference(a[1..], b[1..]);
      i := i + 1;
      assert a[..i] == [a[0]] + a[1..][..i - 1] && b[..i] == [b[0]] + b[1..][..i - 1];
    }
  }

  function Cmp(e: Element, f: Element): int { CmpName(e.kind, e.name, f.kind, f.name) }

  /** The elements stand in strictly ascending order, so no two have the same type and name. */
  ghost predicate StrictlySorted(s: seq<Element>) { StrictlyOrdered(Cmp, s) }

  ghost predicate AllShort(s: seq<Element>) { forall i | 0 <= i < |s| :: Short(s[i].name) }

  lemma CmpPreorder(dom: set<Element>)
    requires forall e | e in dom :: Short(e.name)
    ensures Preorder(Cmp, dom)
  {
    forall a, b, c | a in dom && b in dom && c in dom
      ensures Cmp(a, b) < 0 <==> Cmp(b, a) > 0
      ensures Cmp(a, b) <= 0 && Cmp(b, c) <= 0 ==> Cmp(a, c) <= 0
    {
      CmpNameOrder(a.kind, a.name, b.kind, b.name, c.kind, c.name);
      CmpNameOrder(b.kind, b.name, c.kind, c.name, a.kind, a.name);
    }
  }

  ghost function Insert(s: seq<Element>, e: Element): (s': seq<Element>)
    ensures |s'| == |s| + 1 && s'[Place(Cmp, s, e)] == e
  {
    Inserted(s, Place(Cmp, s, e), e)
  }

  // ---------- printing ----------

  /** A length as the writer stores it: in four bytes. */
  function Length(n: nat): (u: Uint32)
    ensures n < 0x1_0000_0000 ==> u == n
  {
    n % 0x1_0000_0000
  }

  function PrintBytes(s: seq<Byte>): seq<Byte> { Encode32(Length(|s|)) + s }

  function PrintValue(v: Value): seq<Byte> {
    if v.Number? then Encode32(v.n) else PrintBytes(v.bytes)
  }

  function PrintValues(s: seq<Value>): seq<Byte> {
    if s == [] then [] else PrintValue(s[0]) + PrintValues(s[1..])
  }

  function PrintHead(e: Element): seq<Byte> {
    PrintBytes(e.name) + Encode32(Code(e.kind)) + Encode32(Length(|e.values|))
  }

  function PrintElement(e: Element): seq<Byte> { PrintHead(e) + PrintValues(e.values) }

  function PrintElements(s: seq<Element>): seq<Byte> {
    if s == [] then [] else PrintElement(s[0]) + PrintElements(s[1..])
  }

  function Print(s: seq<Element>): seq<Byte> { Encode32(Length(|s|)) + PrintElements(s) }

  /** Every length and count fits its four bytes, and the values are of the element's type. */
  ghost predicate Printable(e: Element) {
    && |e.name| < 0x1_0000_0000 && 0 < |e.values| < 0x1_0000_0000
    && forall i | 0 <= i < |e.values| ::
         Suits(e.kind, e.values[i]) && (e.values[i].Blob? ==> |e.values[i].bytes| < 0x1_0000_0000)
  }

  // ---------- parsing ----------

  datatype Phase = Init | NameLen | Name | Type | ValueNum | ValueInt | ValueLen | ValueBytes | Done

  /** A value of the current element comes next. */
  predicate ReadsValue(p: Phase) { p.ValueInt? || p.ValueLen? || p.ValueBytes? }

  /** The state of a parse: the settings, the elements so far, and the fields of the pack that
      the parser works with.  `cur` is the index of the element under construction. */
  datatype Parser = Parser(max: Uint32, elements: seq<Element>, phase: Phase, need: Uint32,
                           num: Uint32, curNum: Uint32, nameLen: Uint32, name: seq<Byte>, elemType: Uint32,
                           valueNum: Uint32, curValueNum: Uint32, valueLen: Uint32, cur: nat)

  function Fresh(max: Uint32): Parser {
    Parser(max, [], Init, 4, 0, 0, 0, [], 0, 0, 0, 0, 0)
  }

  /** The relations between the fields that every call of the parser keeps. */
  ghost predicate Consistent(p: Parser) {
    && (match p.phase
        case Name => p.need == p.nameLen
        case ValueBytes => p.need == p.valueLen
        case Done => true
        case _ => p.need == 4)
    && (p.phase != Init ==> p.curNum < p.num || (p.phase == Done && p.curNum == p.num))
    && (ReadsValue(p.phase) ==>
          && p.cur < |p.elements| && p.curValueNum < p.valueNum
          && KindOf(p.elemType) == Some(p.elements[p.cur].kind)
          && (p.phase == ValueInt <==> p.elements[p.cur].kind.Int?))
  }

  /** A value has been read: on to the next value, the next element, or the end. */
  function Advanced(p: Parser, again: Phase): Parser
    requires p.curValueNum < p.valueNum && p.curNum < p.num
  {
    var q := p.(curValueNum := p.curValueNum + 1);
    if q.curValueNum < q.valueNum then q.(phase := again, need := 4)
    else if q.curNum + 1 == q.num then q.(curNum := q.curNum + 1, phase := Done)
    else q.(curNum := q.curNum + 1, phase := NameLen, need := 4)
  }

  function WithValue(p: Parser, v: Value, again: Phase): Parser
    requires p.cur < |p.elements| && p.curValueNum < p.valueNum && p.curNum < p.num
  {
    var e := p.elements[p.cur];
    Advanced(p.(elements := p.elements[p.cur := e.(values := e.values + [v])]), again)
  }

  /** Starts the element whose name, type and number of values have been read. */
  ghost function StartElement(p: Parser): Option<Parser> {
    if p.valueNum == 0 then None
    else
      match KindOf(p.elemType)
      case None => None
      case Some(kind) =>
        var e := Element(p.name, kind, []);
        Some(p.(curValueNum := 0, elements := Insert(p.elements, e), cur := Place(Cmp, p.elements, e),
                phase := if kind.Int? then ValueInt else ValueLen, need := 4))
  }

  /** One round of the parser's loop on the `need` bytes `b`. */
  ghost function Step(p: Parser, b: seq<Byte>): Option<Parser>
    requires Consistent(p) && p.phase != Done && |b| == p.need
  {
    match p.phase
    case Init =>
      if Decode32(b) == 0 then None
      else Some(p.(num := Decode32(b), curNum := 0, phase := NameLen, need := 4))
    case NameLen =>
      if p.max != 0 && p.max < p.num then None
      else Some(p.(nameLen := Decode32(b), phase := Name, need := Decode32(b)))
    case Name => Some(p.(name := b, phase := Type, need := 4))
    case Type => Some(p.(elemType := Decode32(b), phase := ValueNum, need := 4))
    case ValueNum => StartElement(p.(valueNum := Decode32(b)))
    case ValueInt => Some(WithValue(p, Number(Decode32(b)), ValueInt))
    case ValueLen => Some(p.(valueLen := Decode32(b), phase := ValueBytes, need := Decode32(b)))
    case ValueBytes =>
      Some(WithValue(p, Blob(if p.elements[p.cur].kind.Str? then UntilNul(b, 0) else b), ValueLen))
  }

  /** A round on the bytes `b` led from `p` to `q`, or failed. */
  ghost predicate Rounded(p: Parser, b: seq<Byte>, ok: bool, q: Parser)
    requires Consistent(p) && p.phase != Done && |b| == p.need
  {
    Step(p, b) == (if ok then Some(q) else None)
  }

  /** 1 in the states whose next round consumes nothing. */
  ghost function Idle(p: Parser): nat { if p.phase != Done && p.need == 0 then 1 else 0 }

  lemma WithValueConsistent(p: Parser, v: Value, again: Phase)
    requires Consistent(p) && (p.phase == again == ValueInt || (p.phase == ValueBytes && again == ValueLen))
    ensures Consistent(WithValue(p, v, again)) && Idle(WithValue(p, v, again)) == 0
  {
  }

  lemma StartConsistent(p: Parser, n: Uint32)
    requires Consistent(p) && p.phase == ValueNum
    ensures StartElement(p.(valueNum := n)).Some? ==> Consistent(StartElement(p.(valueNum := n)).value)
  {
  }

  lemma {:induction false} StepConsistent(p: Parser, b: seq<Byte>)
    requires Consistent(p) && p.phase != Done && |b| == p.need
    ensures Step(p, b).Some? ==> Consistent(Step(p, b).value)
    ensures p.need == 0 && Step(p, b).Some? ==> Idle(Step(p, b).value) == 0
  {
    hide WithValue, StartElement, Decode32, UntilNul;
    match p.phase
    case ValueNum => StartConsistent(p, Decode32(b));
    case ValueInt => WithValueConsistent(p, Number(Decode32(b)), ValueInt);
    case ValueBytes =>
      WithValueConsistent(p, Blob(if p.elements[p.cur].kind.Str? then UntilNul(b, 0) else b), ValueLen);
    case _ =>
  }

  datatype Outcome = Failed | Stopped(parser: Parser, used: nat)

  /** One call of the parser on the bytes `b`. */
  ghost function Parse(p: Parser, b: seq<Byte>): (r: Outcome)
    requires Consistent(p)
    ensures r.Stopped? ==> Consistent(r.parser) && r.used <= |b|
    decreases 2 * |b| + Idle(p)
  {
    if p.phase == Done || |b| < p.need then Stopped(p, 0)
    else
      StepConsistent(p, b[..p.need]);
      match Step(p, b[..p.need])
      case None => Failed
      case Some(q) => Advance(Parse(q, b[p.need..]), p.need)
  }

  ghost function Advance(r: Outcome, n: nat): Outcome {
    if r.Failed? then r else Stopped(r.parser, n + r.used)
  }

  lemma ParseStops(p: Parser, b: seq<Byte>)
    requires Consistent(p) && (p.phase == Done || |b| < p.need)
    ensures Parse(p, b) == Stopped(p, 0)
  {
  }

  /** One round of the loop. */
  lemma ParseUnfold(p: Parser, b: seq<Byte>)
    requires Consistent(p) && p.phase != Done && p.need <= |b|
    ensures match Step(p, b[..p.need])
      case None => Parse(p, b) == Failed
      case Some(q) =>
        && Consistent(q) && Parse(p, b) == Advance(Parse(q, b[p.need..]), p.need)
        && 2 * (|b| - p.need) + Idle(q) < 2 * |b| + Idle(p)
  {
    StepConsistent(p, b[..p.need]);
  }
}
