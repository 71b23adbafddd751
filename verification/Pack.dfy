/** The PACK object: its element list on the heap, the add and get functions, the writer and
    the resumable reader. */
module Pack {
  import opened Bytes
  import opened ItemList
  import opened PackFormat
  import opened PackRuns
  import opened PackStream
  import opened Sequences
  import opened Wrappers

  class Elem {
    const name: seq<Byte>
    const kind: Kind
    var values: seq<Value>

    constructor (name: seq<Byte>, kind: Kind)
      ensures this.name == name && this.kind == kind && values == []
    {
      this.name, this.kind, values := name, kind, [];
    }

    ghost function View(): Element
      reads this
    {
      Element(name, kind, values)
    }
  }

  function CmpElem(e: Elem, f: Elem): int { CmpName(e.kind, e.name, f.kind, f.name) }

  /** `s` holds the names and types of the objects `es`. */
  ghost predicate Labelled(es: seq<Elem>, s: seq<Element>) {
    |es| == |s| && forall i | 0 <= i < |es| :: es[i].name == s[i].name && es[i].kind == s[i].kind
  }

  /** The objects are ordered as what they hold. */
  lemma ElemOrder(es: seq<Elem>, s: seq<Element>, t: Elem)
    requires Labelled(es, s) && Ordered(Cmp, s) && AllShort(s) && Short(t.name)
    ensures Ordered(CmpElem, es) && Preorder(CmpElem, (set y | y in es) + {t})
    ensures forall i | 0 <= i < |es| :: CmpElem(es[i], t) == 0 <==> IsAt(s, i, t.kind, t.name)
  {
    forall i, j | 0 <= i < j < |es|
      ensures CmpElem(es[i], es[j]) <= 0
    {
      assert Cmp(s[i], s[j]) <= 0;
    }
    forall a, b, c | a in (set y | y in es) + {t} && b in (set y | y in es) + {t} && c in (set y | y in es) + {t}
      ensures CmpElem(a, b) < 0 <==> CmpElem(b, a) > 0
      ensures CmpElem(a, b) <= 0 && CmpElem(b, c) <= 0 ==> CmpElem(a, c) <= 0
    {
      CmpNameOrder(a.kind, a.name, b.kind, b.name, c.kind, c.name);
      CmpNameOrder(b.kind, b.name, c.kind, c.name, a.kind, a.name);
    }
    forall i | 0 <= i < |es|
      ensures CmpElem(es[i], t) == 0 <==> IsAt(s, i, t.kind, t.name)
    {
      CmpNameOrder(es[i].kind, es[i].name, t.kind, t.name, t.kind, t.name);
    }
  }

  /** No object is in the list twice. */
  ghost predicate Distinct(es: seq<Elem>) {
    forall i, j | 0 <= i < j < |es| :: es[i] != es[j]
  }

  lemma DistinctInserted(es: seq<Elem>, pos: nat, e: Elem)
    requires Distinct(es) && e !in es && pos <= |es|
    ensures Distinct(Inserted(es, pos, e))
    ensures forall x | x in Inserted(es, pos, e) :: x in es || x == e
  {
  }

  class Pack {
    const elements: List<Elem>
    const max: Uint32
    var buf: array?<Byte>
    var totalSize: nat
    var phase: Phase
    var needSize: Uint32
    var num: Uint32
    var curNum: Uint32
    var valueLen: Uint32
    var curValueNum: Uint32
    var valueNum: Uint32
    var elemType: Uint32
    var elemName: seq<Byte>
    var elemNameLen: Uint32
    var curElem: Elem?
    /** What the objects in the list hold. */
    ghost var view: seq<Element>
    /** The index of `curElem`. */
    ghost var cur: nat
    /** The add calls that were accepted. */
    ghost var history: seq<Entry>

    constructor (max: Uint32)
      ensures Valid() && fresh(elements) && fresh(elements.p) && buf == null
      ensures State() == Fresh(max) && Tracks() && history == []
    {
      this.max := max;
      elements := new List<Elem>(Some(CmpElem));
      phase, needSize, totalSize, buf := Init, 4, 4, null;
      num, curNum, valueLen, curValueNum, valueNum, elemType, elemName, elemNameLen := 0, 0, 0, 0, 0, 0, [], 0;
      curElem, view, cur, history := null, [], 0, [];
    }

    ghost predicate ListValid()
      reads elements, elements.p
    {
      elements.Valid() && elements.compare == Some(CmpElem) && elements.sorted && Distinct(elements.contents)
    }

    /** The objects in the list hold the elements `view`. */
    ghost predicate Holds()
      reads `view, elements, set e | e in elements.contents
    {
      && |view| == |elements.contents|
      && forall i | 0 <= i < |view| :: elements.contents[i].View() == view[i]
    }

    ghost predicate Valid()
      reads this, elements, elements.p, set e | e in elements.contents
    {
      && ListValid() && Holds()
      && (ReadsValue(phase) ==> cur < |view| && elements.contents[cur] == curElem)
      && Consistent(State())
    }

    /** The pack as the parser's mathematical state. */
    ghost function State(): Parser
      reads this
    {
      Parser(max, view, phase, needSize, num, curNum, elemNameLen, elemName, elemType, valueNum, curValueNum,
        valueLen, cur)
    }

    /** The invariant of a pack that is filled by the add functions. */
    ghost predicate Tracks()
      reads this
    {
      Accounted(view, history, totalSize)
    }

    /** Puts a new element in its place. */
    method InsertElem(e: Elem)
      requires ListValid() && Holds() && e !in elements.contents
      modifies elements, elements.p, `view
      ensures ListValid() && Holds() && (elements.p == old(elements.p) || fresh(elements.p))
      ensures forall x | x in elements.contents :: x in old(elements.contents) || x == e
      ensures elements.contents == Inserted(old(elements.contents), Place(Cmp, old(view), e.View()), e)
      ensures view == Insert(old(view), e.View()) && elements.contents[Place(Cmp, old(view), e.View())] == e
    {
      hide Distinct, FindPos, Preorder, Ordered, List.FlagHolds, List.Comparable;
      ghost var es, pos := elements.contents, Place(CmpElem, elements.contents, e);
      FindPosSame(CmpElem, es, e, Cmp, view, e.View(), 0, |es|);
      DistinctInserted(es, pos, e);
      ghost var base := elements.Insert(e);
      view := Insert(view, e.View());
    }

    // ---------- reading ----------

    method CreateElem(kind: Kind)
      requires ListValid() && Holds()
      modifies `curElem, `cur, `view, elements, elements.p
      ensures ListValid() && Holds() && (elements.p == old(elements.p) || fresh(elements.p))
      ensures forall x | x in elements.contents :: x in old(elements.contents) || fresh(x)
      ensures view == Insert(old(view), Element(elemName, kind, []))
        && cur == Place(Cmp, old(view), Element(elemName, kind, []))
      ensures elements.contents[cur] == curElem
    {
      hide Place, Insert, ListValid;
      var e := new Elem(elemName, kind);
      ghost var pos := Place(Cmp, view, e.View());
      InsertElem(e);
      curElem, cur := e, pos;
    }

    /** The round of the parser that has read the number of values. */
    method StartElem(n: Uint32) returns (ok: bool)
      requires Valid() && phase == ValueNum
      modifies `phase, `needSize, `valueNum, `curValueNum, `curElem, `cur, `view, elements, elements.p
      ensures (ok ==> Valid()) && (elements.p == old(elements.p) || fresh(elements.p))
      ensures forall x | x in elements.contents :: x in old(elements.contents) || fresh(x)
      ensures StartElement(old(State()).(valueNum := n)) == if ok then Some(State()) else None
    {
      hide Consistent, Place, Insert, ListValid;
      StartConsistent(State(), n);
      valueNum := n;
      if valueNum == 0 {
        return false;
      }
      curValueNum := 0;
      var kind := KindOf(elemType);
      if kind.None? {
        return false;
      }
      CreateElem(kind.value);
      if kind.value.Int? {
        phase, needSize := ValueInt, 4;
      } else {
        phase, needSize := ValueLen, 4;
      }
      ok := true;
    }

    /** A value has been read. */
    method AddParsed(v: Value, again: Phase)
      requires Valid() && (phase == again == ValueInt || (phase == ValueBytes && again == ValueLen))
      modifies `phase, `needSize, `curNum, `curValueNum, `view, curElem
      ensures Valid() && State() == WithValue(old(State()), v, again)
    {
      WithValueConsistent(State(), v, again);
      assert curValueNum < valueNum && curNum < num;
      hide Consistent, ListValid, Advanced;
      PushValue(v);
      Count(again);
    }

    /** Goes on to the next value, the next element, or the end. */
    method Count(again: Phase)
      requires curValueNum < valueNum && curNum < num && ReadsValue(phase) && ReadsValue(again)
      modifies `phase, `needSize, `curNum, `curValueNum
      ensures State() == Advanced(old(State()), again) && (ReadsValue(phase) ==> phase == again)
    {
      curValueNum := curValueNum + 1;
      if curValueNum == valueNum {
        curNum := curNum + 1;
        if curNum == num {
          phase := Done;
        } else {
          phase, needSize := NameLen, 4;
        }
      } else {
        phase, needSize := again, 4;
      }
    }

    /** The current element gets one more value. */
    method PushValue(v: Value)
      requires ListValid() && Holds() && cur < |view| && elements.contents[cur] == curElem
      modifies `view, curElem
      ensures ListValid() && Holds()
      ensures view == old(view)[cur := old(view)[cur].(values := old(view)[cur].values + [v])]
    {
      curElem.values := curElem.values + [v];
      view := view[cur := view[cur].(values := view[cur].values + [v])];
    }

    // The rounds of the parser's loop, on the `needSize` bytes `b` at its pointer.

    method InitRound(b: seq<Byte>) returns (ok: bool)
      requires Valid() && phase == Init && |b| == needSize
      modifies `phase, `needSize, `num, `curNum
      ensures Rounded(old(State()), b, ok, State())
    {
      var n := Decode32(b);
      if n == 0 {
        return false;
      }
      num, curNum, phase, needSize := n, 0, NameLen, 4;
      ok := true;
    }

    method NameLenRound(b: seq<Byte>) returns (ok: bool)
      requires Valid() && phase == NameLen && |b| == needSize
      modifies `phase, `needSize, `elemNameLen
      ensures Rounded(old(State()), b, ok, State())
    {
      if max != 0 && max < num {
        return false;
      }
      elemNameLen := Decode32(b);
      phase, needSize := Name, elemNameLen;
      ok := true;
    }

    method FieldRound(b: seq<Byte>)
      requires Valid() && (phase == Name || phase == Type || phase == ValueLen) && |b| == needSize
      modifies `phase, `needSize, `valueLen, `elemType, `elemName
      ensures Rounded(old(State()), b, true, State())
    {
      if phase == Name {
        elemName := b;
        phase, needSize := Type, 4;
      } else if phase == Type {
        elemType := Decode32(b);
        phase, needSize := ValueNum, 4;
      } else {
        valueLen := Decode32(b);
        phase, needSize := ValueBytes, valueLen;
      }
    }

    method ValueRound(b: seq<Byte>)
      requires Valid() && (phase == ValueInt || phase == ValueBytes) && |b| == needSize
      modifies `phase, `needSize, `curNum, `curValueNum, `view, curElem
      ensures Valid() && Rounded(old(State()), b, true, State())
    {
      assert view[cur].kind == curElem.kind;
      assert phase == ValueInt ==> needSize == 4;
      hide Consistent, ListValid, WithValue;
      if phase == ValueInt {
        AddParsed(Number(Decode32(b)), ValueInt);
      } else {
        AddParsed(Blob(if curElem.kind.Str? then UntilNul(b, 0) else b), ValueLen);
      }
    }

    method Round(b: seq<Byte>) returns (ok: bool)
      requires Valid() && phase != Done && |b| == needSize
      modifies `phase, `needSize, `num, `curNum, `valueLen, `curValueNum, `valueNum, `elemType, `elemName, `elemNameLen
      modifies `curElem, `cur, `view, elements, elements.p, set e | e in elements.contents
      ensures (ok ==> Valid()) && (elements.p == old(elements.p) || fresh(elements.p))
      ensures forall x | x in elements.contents :: x in old(elements.contents) || fresh(x)
      ensures Rounded(old(State()), b, ok, State())
    {
      StepConsistent(State(), b);
      assert phase == ValueNum ==> needSize == 4;
      hide ListValid, Consistent, StartElement, WithValue;
      if phase == ValueNum {
        ok := StartElem(Decode32(b));
      } else if phase == ValueInt || phase == ValueBytes {
        ValueRound(b);
        ok := true;
      } else if phase == Init {
        ok := InitRound(b);
      } else if phase == NameLen {
        ok := NameLenRound(b);
      } else {
        FieldRound(b);
        ok := true;
      }
    }

    /** Parses the bytes of `buffer` from where the calls before this one stopped. */
    method Read(buffer: seq<Byte>) returns (used: int)
      requires Valid()
      modifies `phase, `needSize, `num, `curNum, `valueLen, `curValueNum, `valueNum, `elemType, `elemName, `elemNameLen
      modifies `curElem, `cur, `view, elements, elements.p, set e | e in elements.contents
      ensures used >= 0 ==> Valid()
      ensures (elements.p == old(elements.p) || fresh(elements.p))
      ensures forall x | x in elements.contents :: x in old(elements.contents) || fresh(x)
      ensures match old(Parse(State(), buffer))
        case Failed => used == -1
        case Stopped(q, n) => used == n && State() == q
    {
      hide ListValid, Parse, Step, Consistent;
      var p: nat := 0;
      assert buffer[p..] == buffer;
      while p + needSize <= |buffer|
        invariant Valid() && p <= |buffer| && (elements.p == old(elements.p) || fresh(elements.p))
        invariant forall x | x in elements.contents :: x in old(elements.contents) || fresh(x)
        invariant old(Parse(State(), buffer)) == Advance(Parse(State(), buffer[p..]), p)
        decreases 2 * (|buffer| - p) + Idle(State())
      {
        if phase == Done {
          break;
        }
        ParseUnfold(State(), buffer[p..]);
        var b, next := buffer[p..p + needSize], p + needSize;
        assert buffer[p..][..needSize] == b && buffer[p..][needSize..] == buffer[next..];
        var ok := Round(b);
        if !ok {
          return -1;
        }
        p := next;
      }
      ParseStops(State(), buffer[p..]);
      used := p;
    }

    // ---------- adding and getting ----------

    /** An element with the name and type, if there is one. */
    method Get(name: seq<Byte>, kind: Kind) returns (e: Elem?, ghost at: nat)
      requires Valid() && InOrder(view) && AllShort(view) && Short(name)
      modifies elements`contents, elements`sorted, elements.p
      ensures Valid() && elements.contents == old(elements.contents)
      ensures e == null <==> forall i | 0 <= i < |view| :: !IsAt(view, i, kind, name)
      ensures e != null ==> IsAt(view, at, kind, name) && elements.contents[at] == e
    {
      hide Consistent, Ordered, Preorder, AllShort;
      var t := new Elem(name, kind);
      ElemOrder(elements.contents, view, t);
      var found := elements.Search(t);
      at := 0;
      if found.None? {
        e := null;
      } else {
        e := found.value;
        at :| 0 <= at < |view| && elements.contents[at] == e;
      }
    }

    /** The values under the name and type, in a pack that holds what the run `h` of add calls has
        put in: one that has been filled, or one that has received what another was filled with. */
    method GetArray(name: seq<Byte>, kind: Kind, ghost h: seq<Entry>) returns (r: Option<seq<Value>>)
      requires Valid() && Reflects(view, h) && Short(name)
      modifies elements`contents, elements`sorted, elements.p
      ensures Valid() && elements.contents == old(elements.contents)
      ensures var vs := Under(h, kind, name); r == if vs == [] then None else Some(vs)
    {
      var e, at := Get(name, kind);
      if e == null {
        assert Under(h, kind, name) == [];
        return None;
      }
      assert e.values == view[at].values;
      if |e.values| == 0 {
        return None;
      }
      r := Some(e.values);
    }

    /** Adds a value under a name and type. */
    method AddValue(name: seq<Byte>, kind: Kind, value: Value) returns (ok: bool, ghost at: nat)
      requires Valid() && Tracks() && Short(name) && Suits(kind, value)
      modifies `totalSize, `view, `history, `cur, elements, elements.p, set e | e in elements.contents
      ensures Valid() && Tracks() && (elements.p == old(elements.p) || fresh(elements.p))
      ensures forall x | x in elements.contents :: x in old(elements.contents) || fresh(x)
      ensures ok <==> max == 0 || |old(view)| < max || exists i: nat :: IsAt(old(view), i, kind, name)
      ensures !ok ==> view == old(view) && history == old(history) && totalSize == old(totalSize)
      ensures max != 0 && |old(view)| <= max ==> |view| <= max
      ensures ok ==>
        && history == old(history) + [Entry(kind, name, value)]
        && Added(old(view), Entry(kind, name, value), at, view)
    {
      hide Consistent, ListValid, Accounted, Stored, Place, Insert, WithOneMore, PrintValue, Dropped, Suits, Cmp;
      ghost var before, entry := State(), Entry(kind, name, value);
      TracksInOrder();
      var e: Elem?;
      e, at := Get(name, kind);
      if e == null {
        if max != 0 && max <= elements.numItem {
          return false, 0;
        }
        AddedAsNew(view, entry);
        e, at := AddElem(name, kind);
      }
      AddTo(e, value, at);
      Record(before, old(totalSize), entry, at);
      ok := true;
    }

    /** The call `entry` has been carried out. */
    ghost method Record(before: Parser, size: nat, entry: Entry, at: nat)
      requires Accounted(before.elements, history, size) && Short(entry.name) && Suits(entry.kind, entry.value)
      requires Added(before.elements, entry, at, view) && Consistent(before) && State() == before.(elements := view)
      requires totalSize == size + |PrintValue(Stored(entry))| + Dropped(entry)
        + if IsAt(before.elements, at, entry.kind, entry.name) then 0 else 12 + |entry.name|
      requires ListValid() && Holds()
      requires ReadsValue(phase) ==>
        var i := Moved(before.elements, entry, at, cur); i < |view| && elements.contents[i] == curElem
      modifies `history, `cur
      ensures Valid() && Tracks() && history == old(history) + [entry]
    {
      hide Consistent, ListValid, Accounted, Added;
      AddedAccounted(before.elements, history, size, entry, at, view);
      AddedConsistent(before, entry, at, view);
      history := history + [entry];
      cur := Moved(before.elements, entry, at, cur);
    }

    lemma TracksInOrder()
      requires ListValid() && Holds() && Tracks()
      ensures StrictlySorted(view) && AllShort(view) && elements.numItem == |view|
    {
    }

    /** Creates an element without values and counts its name, type and number of values. */
    method AddElem(name: seq<Byte>, kind: Kind) returns (e: Elem, ghost at: nat)
      requires ListValid() && Holds()
      modifies `totalSize, `view, elements, elements.p
      ensures ListValid() && Holds() && fresh(e) && e.kind == kind && e.name == name
      ensures elements.p == old(elements.p) || fresh(elements.p)
      ensures forall x | x in elements.contents :: x in old(elements.contents) || x == e
      ensures totalSize == old(totalSize) + 12 + |name|
      ensures var n := Element(name, kind, []); at == Place(Cmp, old(view), n) && view == Insert(old(view), n)
      ensures elements.contents == Inserted(old(elements.contents), at, e)
    {
      hide ListValid, Place, Insert;
      at := Place(Cmp, view, Element(name, kind, []));
      e := new Elem(name, kind);
      InsertElem(e);
      totalSize := totalSize + 4;
      totalSize := totalSize + |name|;
      totalSize := totalSize + 4;
      totalSize := totalSize + 4;
    }

    /** The element `e` gets one more value, which is counted. */
    method AddTo(e: Elem, value: Value, ghost at: nat)
      requires ListValid() && Holds() && at < |view| && elements.contents[at] == e && Suits(e.kind, value)
      modifies `totalSize, `view, e
      ensures ListValid() && Holds()
      ensures var v := Stored(Entry(e.kind, e.name, value));
        && view == WithOneMore(old(view), at, v)
        && totalSize == old(totalSize) + |PrintValue(v)| + Dropped(Entry(e.kind, e.name, value))
    {
      var v := value;
      match e.kind {
        case Int =>
          totalSize := totalSize + 4;
        case Str =>
          totalSize := totalSize + 4;
          totalSize := totalSize + |value.bytes|;
          v := Blob(UntilNul(value.bytes, 0));
        case Data =>
          totalSize := totalSize + 4;
          totalSize := totalSize + |value.bytes|;
      }
      e.values := e.values + [v];
      view := view[at := view[at].(values := view[at].values + [v])];
    }

    // ---------- writing ----------

    /** Prints the pack into a buffer of the size computed while it was filled, once; later calls
        return the same buffer and leave the size alone. */
    method Write(size0: nat) returns (out: array?<Byte>, size: nat)
      requires Valid() && Tracks()
      modifies `buf
      ensures view == [] ==> out == null && buf == old(buf)
      ensures view != [] && old(buf) != null ==> out == buf == old(buf) && size == size0
      ensures view != [] && old(buf) == null ==>
        && out != null && fresh(out) && buf == out && out.Length == totalSize
        && size == |Print(view)| <= out.Length && out[..size] == Print(view)
        && (size == totalSize <==> NoNul(history))
    {
      hide Consistent, Reflects, Print, PrintElement, AllSuit, NoNul;
      var n := elements.numItem;
      if n == 0 {
        return null, size0;
      }
      if buf != null {
        return buf, size0;
      }
      PrintStarts(view);
      ReflectsSuits(view, history);
      NothingDropped(history);
      var o := new Byte[totalSize];
      var p := WriteInt(o, 0, Length(n));
      var i := 0;
      while i < n
        invariant i <= n && p == 4 + |PrintElements(view[..i])| <= o.Length
        invariant o[..p] == Encode32(Length(n)) + PrintElements(view[..i])
      {
        PrintUpTo(view, i);
        Grouped(Encode32(Length(n)), PrintElements(view[..i]), PrintElement(view[i]));
        p := WriteElem(o, p, elements.p[i].value);
        i := i + 1;
      }
      assert view[..n] == view;
      buf, out, size := o, o, p;
    }
  }

  lemma PrintStarts(s: seq<Element>)
    ensures Print(s) == Encode32(Length(|s|)) + PrintElements(s)
  {
  }

  /** Writes an unsigned int at the index `p`. */
  method WriteInt(out: array<Byte>, p: nat, i: Uint32) returns (q: nat)
    requires p + 4 <= out.Length
    modifies out
    ensures q == p + 4 && out[..q] == old(out[..p]) + Encode32(i)
  {
    q := CopyBytes(out, p, Encode32(i));
  }

  method CopyBytes(out: array<Byte>, p: nat, b: seq<Byte>) returns (q: nat)
    requires p + |b| <= out.Length
    modifies out
    ensures q == p + |b| && out[..q] == old(out[..p]) + b
  {
    for i := 0 to |b|
      invariant out[..p + i] == old(out[..p]) + b[..i]
    {
      out[p + i] := b[i];
    }
    assert b[..|b|] == b;
    q := p + |b|;
  }

  method WriteStr(out: array<Byte>, p: nat, b: seq<Byte>) returns (q: nat)
    requires p + |PrintBytes(b)| <= out.Length
    modifies out
    ensures q == p + |PrintBytes(b)| && out[..q] == old(out[..p]) + PrintBytes(b)
  {
    q := WriteInt(out, p, Length(|b|));
    q := CopyBytes(out, q, b);
    Grouped(old(out[..p]), Encode32(Length(|b|)), b);
  }

  method WriteElem(out: array<Byte>, p: nat, e: Elem) returns (q: nat)
    requires p + |PrintElement(e.View())| <= out.Length && AllSuit(e.View())
    modifies out
    ensures q == p + |PrintElement(e.View())| && out[..q] == old(out[..p]) + PrintElement(e.View())
  {
    ghost var start := out[..p];
    q := WriteHead(out, p, e);
    ghost var head := PrintHead(e.View());
    var j := 0;
    while j < |e.values|
      invariant j <= |e.values| && q == p + |head| + |PrintValues(e.values[..j])| <= out.Length
      invariant out[..q] == start + head + PrintValues(e.values[..j])
    {
      PrintValuesUpTo(e.values, j);
      Grouped(start + head, PrintValues(e.values[..j]), PrintValue(e.values[j]));
      match e.kind {
        case Int => q := WriteInt(out, q, e.values[j].n);
        case _ => q := WriteStr(out, q, e.values[j].bytes);
      }
      j := j + 1;
    }
    assert e.values[..j] == e.values;
    Grouped(start, head, PrintValues(e.values));
  }

  method WriteHead(out: array<Byte>, p: nat, e: Elem) returns (q: nat)
    requires p + |PrintHead(e.View())| <= out.Length
    modifies out
    ensures q == p + |PrintHead(e.View())| && out[..q] == old(out[..p]) + PrintHead(e.View())
  {
    ghost var start, name, kind := out[..p], PrintBytes(e.name), Encode32(Code(e.kind));
    q := WriteStr(out, p, e.name);
    q := WriteInt(out, q, Code(e.kind));
    Grouped(start, name, kind);
    q := WriteInt(out, q, Length(|e.values|));
    Grouped(start, name + kind, Encode32(Length(|e.values|)));
  }
}
