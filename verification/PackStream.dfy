/** The two laws of the PACK parser: the way a stream is cut into chunks does not matter, and
    reading undoes printing. */
module PackStream {
  import opened Bytes
  import opened ItemList
  import opened PackFormat
  import opened Sequences

  // ---------- fragmentation ----------

  /** The parser cannot go on with the bytes `b`. */
  ghost predicate Stuck(p: Parser, b: seq<Byte>) {
    p.phase == Done || |b| < p.need
  }

  /** What a call leaves behind is stuck. */
  lemma {:induction false} ParseEndsStuck(p: Parser, b: seq<Byte>)
    requires Consistent(p) && Parse(p, b).Stopped?
    ensures Stuck(Parse(p, b).parser, b[Parse(p, b).used..])
    decreases 2 * |b| + Idle(p)
  {
    if !Stuck(p, b) {
      StepConsistent(p, b[..p.need]);
      var q := Step(p, b[..p.need]).value;
      ParseEndsStuck(q, b[p.need..]);
      assert b[p.need..][Parse(q, b[p.need..]).used..] == b[Parse(p, b).used..];
    }
  }

  /** More bytes behind `a` are as good as a second call with what the first one left. */
  lemma {:induction false} ParseTwice(p: Parser, a: seq<Byte>, b: seq<Byte>)
    requires Consistent(p)
    ensures match Parse(p, a)
      case Failed => Parse(p, a + b) == Failed
      case Stopped(q, used) => Parse(p, a + b) == Advance(Parse(q, a[used..] + b), used)
    decreases 2 * |a| + Idle(p)
  {
    hide Step, Consistent;
    if Stuck(p, a) {
      assert a[0..] == a;
    } else {
      assert (a + b)[..p.need] == a[..p.need];
      assert (a + b)[p.need..] == a[p.need..] + b;
      StepConsistent(p, a[..p.need]);
      match Step(p, a[..p.need])
      case None =>
      case Some(q) =>
        ParseTwice(q, a[p.need..], b);
        match Parse(q, a[p.need..])
        case Failed =>
        case Stopped(r, used) =>
          assert a[p.need..][used..] == a[p.need + used..];
    }
  }

  /** A connection's way of reading: each chunk is presented behind the bytes `pending` that
      the calls before it did not use. */
  ghost function Feed(p: Parser, pending: seq<Byte>, chunks: seq<seq<Byte>>): Outcome
    requires Consistent(p)
    decreases |chunks|
  {
    if chunks == [] then Stopped(p, 0)
    else
      var b := pending + chunks[0];
      match Parse(p, b)
      case Failed => Failed
      case Stopped(q, used) => Advance(Feed(q, b[used..], chunks[1..]), used)
  }

  lemma {:induction false} FeedIsParse(p: Parser, pending: seq<Byte>, chunks: seq<seq<Byte>>)
    requires Consistent(p) && Stuck(p, pending)
    ensures Feed(p, pending, chunks) == Parse(p, pending + Concat(chunks))
    decreases |chunks|
  {
    if chunks == [] {
      assert pending + Concat(chunks) == pending;
    } else {
      var b, rest := pending + chunks[0], Concat(chunks[1..]);
      assert pending + Concat(chunks) == b + rest;
      ParseTwice(p, b, rest);
      match Parse(p, b)
      case Failed =>
      case Stopped(q, used) =>
        ParseEndsStuck(p, b);
        FeedIsParse(q, b[used..], chunks[1..]);
    }
  }

  /** Fragmentation independence: however a stream is cut, the calls fail alike or reach the same
      state and use the same number of bytes. */
  lemma {:induction false} Fragmentation(max: Uint32, chunks: seq<seq<Byte>>, chunks': seq<seq<Byte>>)
    requires Concat(chunks) == Concat(chunks')
    ensures Feed(Fresh(max), [], chunks) == Feed(Fresh(max), [], chunks') == Parse(Fresh(max), Concat(chunks))
  {
    FeedIsParse(Fresh(max), [], chunks);
    FeedIsParse(Fresh(max), [], chunks');
    assert [] + Concat(chunks) == Concat(chunks);
  }

  // ---------- the order of what is received ----------

  /** As long as all names are short, the elements are in order; there may be several of one name. */
  ghost predicate InOrder(s: seq<Element>) { AllShort(s) ==> Ordered(Cmp, s) }

  lemma {:induction false} InsertInOrder(s: seq<Element>, e: Element)
    requires InOrder(s)
    ensures InOrder(Insert(s, e))
  {
    var t, pos := Insert(s, e), Place(Cmp, s, e);
    if AllShort(t) {
      forall i | 0 <= i < |s|
        ensures Short(s[i].name)
      {
        assert s[i] == t[if i < pos then i else i + 1];
      }
      assert Short(t[pos].name);
      hide Cmp, Preorder, Ordered, Place;
      CmpPreorder((set y | y in s) + {e});
      InsertedOrdered(Cmp, s, e);
    }
  }

  lemma {:induction false} ValueInOrder(s: seq<Element>, at: nat, v: seq<Value>)
    requires at < |s| && InOrder(s)
    ensures InOrder(s[at := s[at].(values := v)])
  {
    var t := s[at := s[at].(values := v)];
    if AllShort(t) {
      assert forall i | 0 <= i < |s| :: t[i].name == s[i].name && t[i].kind == s[i].kind;
      hide CmpName;
      assert forall i, j | 0 <= i < j < |s| :: Cmp(t[i], t[j]) == Cmp(s[i], s[j]);
    }
  }

  lemma {:induction false} StepInOrder(p: Parser, b: seq<Byte>)
    requires Consistent(p) && p.phase != Done && |b| == p.need && InOrder(p.elements)
    ensures Step(p, b).Some? ==> InOrder(Step(p, b).value.elements)
  {
    hide InOrder, Insert, Place, Decode32, UntilNul;
    match p.phase
    case ValueNum =>
      if KindOf(p.elemType).Some? { InsertInOrder(p.elements, Element(p.name, KindOf(p.elemType).value, [])); }
    case ValueInt =>
      ValueInOrder(p.elements, p.cur, p.elements[p.cur].values + [Number(Decode32(b))]);
    case ValueBytes =>
      var e := p.elements[p.cur];
      ValueInOrder(p.elements, p.cur, e.values + [Blob(if e.kind.Str? then UntilNul(b, 0) else b)]);
    case _ =>
  }

  lemma {:induction false} ParseInOrder(p: Parser, b: seq<Byte>)
    requires Consistent(p) && InOrder(p.elements)
    ensures Parse(p, b).Stopped? ==> InOrder(Parse(p, b).parser.elements)
    decreases 2 * |b| + Idle(p)
  {
    hide InOrder;
    if p.phase == Done || |b| < p.need {
      ParseStops(p, b);
    } else {
      ParseUnfold(p, b);
      StepInOrder(p, b[..p.need]);
      hide Step, Parse;
      match Step(p, b[..p.need])
      case None =>
      case Some(q) => ParseInOrder(q, b[p.need..]);
    }
  }

  /** Whatever is received, it is in order. */
  lemma ReceivedInOrder(max: Uint32, b: seq<Byte>)
    ensures Parse(Fresh(max), b).Stopped? ==> InOrder(Parse(Fresh(max), b).parser.elements)
  {
    ParseInOrder(Fresh(max), b);
  }

  // ---------- round trip ----------

  /** One round of the loop that uses up `a`. */
  lemma {:induction false} ParseStep(p: Parser, a: seq<Byte>, rest: seq<Byte>)
    requires Consistent(p) && p.phase != Done && |a| == p.need && Step(p, a).Some?
    ensures Consistent(Step(p, a).value)
    ensures Parse(p, a + rest) == Advance(Parse(Step(p, a).value, rest), |a|)
  {
    StepConsistent(p, a);
    assert (a + rest)[..p.need] == a && (a + rest)[p.need..] == rest;
  }

  /** The parser has read the prefix `done` of the values of its current element `e`. */
  ghost predicate InValues(p: Parser, e: Element, done: nat) {
    && Consistent(p) && p.phase == (if e.kind.Int? then ValueInt else ValueLen)
    && p.valueNum as int == |e.values| && p.curValueNum as int == done < |e.values|
    && p.elements[p.cur] == e.(values := KeptAll(e.kind, e.values[..done]))
  }

  /** No string value of the element holds a NUL byte. */
  ghost predicate NulFree(e: Element) {
    e.kind.Str? ==> forall i | 0 <= i < |e.values| :: e.values[i].Blob? ==> 0 !in e.values[i].bytes
  }

  /** One round of the loop on the printed form of the number `i`. */
  lemma {:induction false} ParseNumber(p: Parser, i: Uint32, rest: seq<Byte>)
    requires Consistent(p) && p.phase != Done && p.need == 4 && Step(p, Encode32(i)).Some?
    ensures Decode32(Encode32(i)) == i && Consistent(Step(p, Encode32(i)).value)
    ensures Parse(p, Encode32(i) + rest) == Advance(Parse(Step(p, Encode32(i)).value, rest), 4)
  {
    DecodeEncode(i, []);
    assert Encode32(i) + [] == Encode32(i);
    ParseStep(p, Encode32(i), rest);
  }

  ghost predicate SameButLengths(p: Parser, q: Parser) {
    p.(need := 0, valueLen := 0) == q.(need := 0, valueLen := 0)
  }

  /** The round of the loop that reads the bytes of a text or data value. */
  lemma {:induction false} ReadBytes(p: Parser, b: seq<Byte>, rest: seq<Byte>)
    requires Consistent(p) && p.phase == ValueBytes && p.need as int == |b|
    ensures var v := Kept(p.elements[p.cur].kind, Blob(b));
      && Consistent(WithValue(p, v, ValueLen))
      && Parse(p, b + rest) == Advance(Parse(WithValue(p, v, ValueLen), rest), |b|)
  {
    ParseStep(p, b, rest);
  }

  /** The round that reads the length of a text or data value. */
  lemma {:induction false} ReadLength(p: Parser, n: Uint32, rest: seq<Byte>) returns (q: Parser)
    requires Consistent(p) && p.phase == ValueLen
    ensures q == p.(valueLen := n, phase := ValueBytes, need := n) && Consistent(q)
    ensures Parse(p, Encode32(n) + rest) == Advance(Parse(q, rest), 4)
  {
    ParseNumber(p, n, rest);
    q := Step(p, Encode32(n)).value;
  }

  lemma LengthsForgotten(p: Parser, n: Uint32, v: Value)
    requires p.cur < |p.elements| && p.curValueNum < p.valueNum && p.curNum < p.num
    ensures SameButLengths(WithValue(p.(valueLen := n, phase := ValueBytes, need := n), v, ValueLen),
      WithValue(p, v, ValueLen))
  {
  }

  lemma {:induction false} ReadBlob(p: Parser, e: Element, done: nat, rest: seq<Byte>) returns (q: Parser)
    requires Printable(e) && InValues(p, e, done) && e.values[done].Blob?
    ensures SameButLengths(q, WithValue(p, Kept(e.kind, e.values[done]), ValueLen)) && Consistent(q)
    ensures Parse(p, PrintValue(e.values[done]) + rest) == Advance(Parse(q, rest), |PrintValue(e.values[done])|)
  {
    var b := e.values[done].bytes;
    assert |b| < 0x1_0000_0000 && !e.kind.Int?;
    hide Parse, Printable, WithValue, SameButLengths, Kept;
    var p' := ReadLength(p, |b|, b + rest);
    ReadBytes(p', b, rest);
    q := WithValue(p', Kept(e.kind, Blob(b)), ValueLen);
    LengthsForgotten(p, |b|, Kept(e.kind, Blob(b)));
    assert Encode32(|b|) + b + rest == Encode32(|b|) + (b + rest);
  }

  lemma {:induction false} ReadValue(p: Parser, e: Element, done: nat, rest: seq<Byte>) returns (q: Parser)
    requires Printable(e) && InValues(p, e, done)
    ensures SameButLengths(q, WithValue(p, Kept(e.kind, e.values[done]), p.phase)) && Consistent(q)
    ensures Parse(p, PrintValue(e.values[done]) + rest) == Advance(Parse(q, rest), |PrintValue(e.values[done])|)
  {
    if e.kind.Int? {
      ParseNumber(p, e.values[done].n, rest);
      q := Step(p, Encode32(e.values[done].n)).value;
    } else {
      q := ReadBlob(p, e, done, rest);
    }
  }

  /** The parser `q` has finished the element under construction in `p` as `e`. */
  ghost predicate Finished(p: Parser, q: Parser, e: Element)
    requires p.cur < |p.elements|
  {
    && Consistent(q) && q.elements == p.elements[p.cur := KeptElement(e)]
    && q.max == p.max && q.num == p.num && q.curNum == p.curNum + 1
    && q.phase == (if q.curNum == q.num then Done else NameLen)
  }

  lemma KeptOneMore(k: Kind, vs: seq<Value>, done: nat)
    requires done < |vs|
    ensures KeptAll(k, vs[..done]) + [Kept(k, vs[done])] == KeptAll(k, vs[..done + 1])
  {
  }

  lemma {:induction false} ReadValues(p: Parser, e: Element, done: nat, rest: seq<Byte>) returns (q: Parser)
    requires Printable(e) && InValues(p, e, done)
    ensures Finished(p, q, e)
    ensures Parse(p, PrintValues(e.values[done..]) + rest) == Advance(Parse(q, rest), |PrintValues(e.values[done..])|)
    decreases |e.values| - done
  {
    hide Parse, PrintValue, Step, Kept, KeptAll;
    var vs := e.values[done..];
    var v, tail := PrintValue(vs[0]), PrintValues(vs[1..]);
    assert vs[1..] == e.values[done + 1..] && e.values[done] == vs[0];
    KeptOneMore(e.kind, e.values, done);
    assert PrintValues(vs) + rest == v + (tail + rest);
    var p' := ReadValue(p, e, done, tail + rest);
    if done + 1 == |e.values| {
      assert e.values[..done + 1] == e.values && tail == [] && tail + rest == rest;
      q := p';
    } else {
      q := ReadValues(p', e, done + 1, rest);
    }
  }

  /** The element list after the elements `s` have arrived in this order. */
  ghost function Received(s: seq<Element>): seq<Element> {
    if s == [] then [] else Insert(Received(s[..|s| - 1]), KeptElement(s[|s| - 1]))
  }

  /** The parser is about to read the element number `i` of the list `s`. */
  ghost predicate InElements(p: Parser, s: seq<Element>, i: nat) {
    && Consistent(p) && p.num as int == |s| && p.curNum as int == i <= |s| && p.elements == Received(s[..i])
    && (p.max == 0 || p.num <= p.max)
    && p.phase == (if i == |s| then Done else NameLen)
  }

  lemma {:induction false} ReadName(p: Parser, e: Element, rest: seq<Byte>) returns (q: Parser)
    requires Printable(e) && Consistent(p) && p.phase == NameLen && (p.max == 0 || p.num <= p.max)
    ensures Consistent(q)
      && q == p.(phase := ValueNum, need := 4, nameLen := |e.name|, name := e.name, elemType := Code(e.kind))
    ensures var h := PrintBytes(e.name) + Encode32(Code(e.kind));
      Parse(p, h + rest) == Advance(Parse(q, rest), |h|)
  {
    hide Parse, Encode32, Decode32;
    var l, t := Encode32(|e.name|), Encode32(Code(e.kind));
    assert l + e.name + t + rest == l + (e.name + (t + rest));
    ParseNumber(p, |e.name|, e.name + (t + rest));
    var p1 := Step(p, l).value;
    ParseStep(p1, e.name, t + rest);
    var p2 := Step(p1, e.name).value;
    ParseNumber(p2, Code(e.kind), rest);
    q := Step(p2, t).value;
  }

  /** The round that reads the number of values puts the new element in its place. */
  lemma {:induction false} ReadCount(p: Parser, e: Element, rest: seq<Byte>) returns (q: Parser)
    requires Printable(e) && Consistent(p) && p.phase == ValueNum && p.name == e.name && p.elemType == Code(e.kind)
    ensures Started(p, e, q)
    ensures Parse(p, Encode32(|e.values|) + rest) == Advance(Parse(q, rest), 4)
  {
    hide Parse, Place;
    DecodeEncode(|e.values|, []);
    assert Encode32(|e.values|) + [] == Encode32(|e.values|);
    q := StartElement(p.(valueNum := |e.values|)).value;
    assert KeptAll(e.kind, e.values[..0]) == [];
    ParseNumber(p, |e.values|, rest);
  }

  /** The parser `q` is about to read the values of the element, which stands in its place. */
  ghost predicate Started(p: Parser, e: Element, q: Parser) {
    var e0 := e.(values := []);
    && InValues(q, e, 0) && q.elements == Insert(p.elements, e0) && q.cur == Place(Cmp, p.elements, e0)
    && q.max == p.max && q.num == p.num && q.curNum == p.curNum
  }

  lemma {:induction false} ReadHead(p: Parser, e: Element, rest: seq<Byte>) returns (q: Parser)
    requires Printable(e) && Consistent(p) && p.phase == NameLen && (p.max == 0 || p.num <= p.max)
    ensures Started(p, e, q)
    ensures Parse(p, PrintHead(e) + rest) == Advance(Parse(q, rest), |PrintHead(e)|)
  {
    var h, n := PrintBytes(e.name) + Encode32(Code(e.kind)), Encode32(|e.values|);
    assert PrintHead(e) + rest == h + (n + rest);
    hide Parse, InValues, Cmp, Insert, Place;
    var p1 := ReadName(p, e, n + rest);
    q := ReadCount(p1, e, rest);
  }

  /** Putting an element in its place without values, and then giving it its values. */
  lemma FilledInPlace(s: seq<Element>, e: Element, v: seq<Value>)
    ensures var e0 := e.(values := []); var pos := Place(Cmp, s, e0);
      Insert(s, e0)[pos := e.(values := v)] == Insert(s, e.(values := v))
  {
    var e0, e1 := e.(values := []), e.(values := v);
    FindPosSame(Cmp, s, e0, Cmp, s, e1, 0, |s|);
    hide Place, Cmp;
  }

  lemma {:induction false} ReadElement(p: Parser, e: Element, rest: seq<Byte>) returns (q: Parser)
    requires Printable(e) && Consistent(p) && p.phase == NameLen && (p.max == 0 || p.num <= p.max)
    ensures Consistent(q) && q.elements == Insert(p.elements, KeptElement(e))
    ensures q.max == p.max && q.num == p.num && q.curNum == p.curNum + 1
    ensures q.phase == if q.curNum == q.num then Done else NameLen
    ensures Parse(p, PrintElement(e) + rest) == Advance(Parse(q, rest), |PrintElement(e)|)
  {
    var vs := PrintValues(e.values);
    assert PrintElement(e) + rest == PrintHead(e) + (vs + rest);
    hide Parse, InValues, Cmp, Insert, Place, KeptAll;
    var p1 := ReadHead(p, e, vs + rest);
    assert e.values[0..] == e.values;
    q := ReadValues(p1, e, 0, rest);
    FilledInPlace(p.elements, e, KeptAll(e.kind, e.values));
  }

  lemma {:induction false} ReadElements(p: Parser, s: seq<Element>, i: nat, rest: seq<Byte>) returns (q: Parser)
    requires (forall k | 0 <= k < |s| :: Printable(s[k])) && InElements(p, s, i)
    ensures InElements(q, s, |s|)
    ensures Parse(p, PrintElements(s[i..]) + rest) == Advance(Parse(q, rest), |PrintElements(s[i..])|)
    decreases |s| - i
  {
    hide Parse, PrintElement, Cmp, Step, Insert, KeptElement, Printable;
    if i == |s| {
      q := p;
      assert PrintElements(s[i..]) + rest == rest;
    } else {
      var e, tail := s[i], PrintElements(s[i + 1..]);
      assert s[i..][1..] == s[i + 1..] && s[..i + 1][..i] == s[..i];
      assert PrintElements(s[i..]) + rest == PrintElement(e) + (tail + rest);
      var p' := ReadElement(p, e, tail + rest);
      q := ReadElements(p', s, i + 1, rest);
    }
  }

  /** The printed form of any list of elements, followed by anything, is read as just these elements,
      each put in its place, and nothing behind it is used. */
  lemma {:induction false} PrintedIsReceived(s: seq<Element>, max: Uint32, suffix: seq<Byte>) returns (q: Parser)
    requires 0 < |s| < 0x1_0000_0000 && (max == 0 || |s| <= max) && forall k | 0 <= k < |s| :: Printable(s[k])
    ensures Parse(Fresh(max), Print(s) + suffix) == Stopped(q, |Print(s)|)
    ensures q.phase == Done && q.elements == Received(s)
  {
    var n, es := Encode32(|s|), PrintElements(s);
    assert Print(s) + suffix == n + (es + suffix);
    DecodeEncode(|s|, []);
    assert n + [] == n;
    hide PrintElements, Printable, Encode32, Decode32, Parse;
    ParseNumber(Fresh(max), |s|, es + suffix);
    var p := Step(Fresh(max), n).value;
    assert s[0..] == s && s[..|s|] == s && s[..0] == [];
    hide Step;
    q := ReadElements(p, s, 0, suffix);
  }

  lemma LastInPlace(s: seq<Element>)
    requires StrictlySorted(s) && s != []
    ensures StrictlySorted(s[..|s| - 1]) && Insert(s[..|s| - 1], s[|s| - 1]) == s
  {
    var n := |s| - 1;
    var front, e := s[..n], s[n];
    hide CmpName;
    FindPosAppends(Cmp, front, e, 0, n);
    hide Place;
    assert s == front[..n] + [e] + front[n..];
  }

  /** A list in strict order without NUL bytes is received as it is. */
  lemma {:induction false} SortedIsReceived(s: seq<Element>)
    requires StrictlySorted(s) && forall k | 0 <= k < |s| :: NulFree(s[k])
    ensures Received(s) == s
  {
    hide StrictlySorted, NulFree, KeptElement, Insert;
    if s != [] {
      LastInPlace(s);
      NulFreeIsKept(s[|s| - 1]);
      SortedIsReceived(s[..|s| - 1]);
    }
  }

  lemma NulFreeIsKept(e: Element)
    requires NulFree(e)
    ensures KeptElement(e) == e
  {
    forall i | 0 <= i < |e.values|
      ensures Kept(e.kind, e.values[i]) == e.values[i]
    {
      if e.values[i].Blob? { UntilNulId(e.values[i].bytes, 0); }
    }
    assert KeptAll(e.kind, e.values) == e.values;
  }

  /** Round trip: the printed form of a sorted list of elements, followed by anything, is read
      back as that list, and nothing behind it is used. */
  lemma {:induction false} RoundTrip(s: seq<Element>, max: Uint32, suffix: seq<Byte>) returns (q: Parser)
    requires StrictlySorted(s) && 0 < |s| < 0x1_0000_0000 && (max == 0 || |s| <= max)
    requires forall k | 0 <= k < |s| :: Printable(s[k]) && NulFree(s[k])
    ensures Parse(Fresh(max), Print(s) + suffix) == Stopped(q, |Print(s)|)
    ensures q.phase == Done && q.elements == s
  {
    SortedIsReceived(s);
    q := PrintedIsReceived(s, max, suffix);
  }
}
