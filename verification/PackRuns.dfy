/** Runs of add calls on a pack: what the element list holds, how long its printed form is,
    and what a receiver gets. */
module PackRuns {
  import opened Bytes
  import opened ItemList
  import opened PackFormat
  import opened PackStream
  import opened Sequences

  /** One accepted add call. */
  datatype Entry = Entry(kind: Kind, name: seq<Byte>, value: Value)

  /** The value that the element keeps. */
  function Stored(e: Entry): Value { Kept(e.kind, e.value) }

  /** The bytes that were counted, but cut off. */
  function Dropped(e: Entry): nat {
    if e.kind.Str? && e.value.Blob? then |e.value.bytes| - |UntilNul(e.value.bytes, 0)| else 0
  }

  function TotalDropped(h: seq<Entry>): nat {
    if h == [] then 0 else TotalDropped(h[..|h| - 1]) + Dropped(h[|h| - 1])
  }

  /** The values added under a type and name, in the order of the calls. */
  ghost function Under(h: seq<Entry>, kind: Kind, name: seq<Byte>): seq<Value> {
    if h == [] then []
    else
      var e := h[|h| - 1];
      Under(h[..|h| - 1], kind, name) + if e.kind == kind && e.name == name then [Stored(e)] else []
  }

  ghost predicate Matches(h: seq<Entry>, i: nat, kind: Kind, name: seq<Byte>) {
    i < |h| && h[i].kind == kind && h[i].name == name
  }

  /** The calls `at` are in order, and they are all the calls with the type and name. */
  ghost predicate AreTheCalls(h: seq<Entry>, kind: Kind, name: seq<Byte>, at: seq<nat>) {
    && (forall j | 0 <= j < |at| :: Matches(h, at[j], kind, name))
    && (forall i, j | 0 <= i < j < |at| :: at[i] < at[j])
    && forall i: nat | Matches(h, i, kind, name) :: i in at
  }

  lemma OneMoreCall(h: seq<Entry>, e: Entry, kind: Kind, name: seq<Byte>, at: seq<nat>)
    requires AreTheCalls(h, kind, name, at)
    ensures AreTheCalls(h + [e], kind, name, if e.kind == kind && e.name == name then at + [|h|] else at)
  {
    var h', at' := h + [e], if e.kind == kind && e.name == name then at + [|h|] else at;
    forall j | 0 <= j < |at'|
      ensures Matches(h', at'[j], kind, name) && (j < |at| ==> at'[j] < |h|)
    {
      if j < |at| { assert Matches(h, at[j], kind, name); }
    }
    forall i: nat | Matches(h', i, kind, name)
      ensures i in at'
    {
      if i < |h| {
        assert Matches(h, i, kind, name);
        assert i in at;
      } else {
        assert at'[|at|] == |h|;
      }
    }
  }

  /** The value at `j` is that of the call at `at[j]`. */
  ghost predicate ValuesOf(h: seq<Entry>, at: seq<nat>, vs: seq<Value>) {
    |at| == |vs| && forall j | 0 <= j < |at| :: at[j] < |h| && vs[j] == Stored(h[at[j]])
  }

  lemma OneMoreValue(h: seq<Entry>, e: Entry, at: seq<nat>, vs: seq<Value>)
    requires ValuesOf(h, at, vs)
    ensures ValuesOf(h + [e], at, vs) && ValuesOf(h + [e], at + [|h|], vs + [Stored(e)])
  {
    hide Stored;
  }

  /** The values are those of all these calls, one for each, in their order. */
  lemma {:induction false} UnderIsInOrder(h: seq<Entry>, kind: Kind, name: seq<Byte>) returns (at: seq<nat>)
    ensures AreTheCalls(h, kind, name, at) && ValuesOf(h, at, Under(h, kind, name))
  {
    hide Stored, AreTheCalls, ValuesOf;
    if h == [] {
      at := [];
      NoCalls(kind, name);
    } else {
      var front, e := h[..|h| - 1], h[|h| - 1];
      at := UnderIsInOrder(front, kind, name);
      OneMoreCall(front, e, kind, name, at);
      OneMoreValue(front, e, at, Under(front, kind, name));
      assert h == front + [e];
      assert Under(front, kind, name) + [] == Under(front, kind, name);
      at := if e.kind == kind && e.name == name then at + [|front|] else at;
    }
  }

  lemma NoCalls(kind: Kind, name: seq<Byte>)
    ensures AreTheCalls([], kind, name, []) && ValuesOf([], [], [])
  {
  }

  /** There is an element with the type and name at the index `i`. */
  ghost predicate IsAt(s: seq<Element>, i: nat, kind: Kind, name: seq<Byte>) {
    i < |s| && s[i].kind == kind && s[i].name == name
  }

  /** The list holds one element for each type and name of the run `h`, with just the values
      added under it. */
  ghost predicate Reflects(s: seq<Element>, h: seq<Entry>) {
    && StrictlySorted(s) && AllShort(s)
    && (forall i | 0 <= i < |h| :: Suits(h[i].kind, h[i].value))
    && (forall i | 0 <= i < |s| :: s[i].values != [] && s[i].values == Under(h, s[i].kind, s[i].name))
    && (forall kind, name | Under(h, kind, name) != [] :: exists i: nat :: IsAt(s, i, kind, name))
  }

  /** What is under the index `at` gets one more value. */
  function WithOneMore(s: seq<Element>, at: nat, v: Value): seq<Element>
    requires at < |s|
  {
    s[at := s[at].(values := s[at].values + [v])]
  }

  /** What an accepted add call does to the list: the value goes behind those of the element with
      its type and name, which is inserted when there is none. */
  ghost predicate Added(s: seq<Element>, e: Entry, at: nat, s': seq<Element>) {
    || (IsAt(s, at, e.kind, e.name) && s' == WithOneMore(s, at, Stored(e)))
    || ((forall i | 0 <= i < |s| :: !IsAt(s, i, e.kind, e.name))
        && var n := Element(e.name, e.kind, [Stored(e)]); at == Place(Cmp, s, n) && s' == Insert(s, n))
  }

  lemma EqualNames(e: Element, f: Element)
    requires Short(e.name) && Short(f.name)
    ensures Cmp(e, f) == 0 <==> e.kind == f.kind && e.name == f.name
  {
    CmpNameOrder(e.kind, e.name, f.kind, f.name, e.kind, e.name);
  }

  /** The order does not look at the values. */
  lemma {:induction false} ValuesDoNotMatter(s: seq<Element>, s': seq<Element>)
    requires StrictlySorted(s) && AllShort(s) && |s| == |s'|
    requires forall i | 0 <= i < |s| :: s'[i].kind == s[i].kind && s'[i].name == s[i].name
    ensures StrictlySorted(s') && AllShort(s')
  {
    hide CmpName;
    forall i, j | 0 <= i < j < |s'|
      ensures Cmp(s'[i], s'[j]) < 0
    {
      assert Cmp(s'[i], s'[j]) == Cmp(s[i], s[j]);
    }
  }

  lemma {:induction false} NewSorted(s: seq<Element>, n: Element)
    requires StrictlySorted(s) && AllShort(s) && Short(n.name)
    requires forall i | 0 <= i < |s| :: !IsAt(s, i, n.kind, n.name)
    ensures StrictlySorted(Insert(s, n)) && AllShort(Insert(s, n))
  {
    hide CmpName, Preorder;
    CmpPreorder((set y | y in s) + {n});
    forall i | 0 <= i < |s|
      ensures Cmp(s[i], n) != 0
    {
      assert !IsAt(s, i, n.kind, n.name);
      EqualNames(s[i], n);
    }
    InsertedStrictly(Cmp, s, n);
  }

  lemma {:induction false} AddedSorted(s: seq<Element>, e: Entry, at: nat, s': seq<Element>)
    requires StrictlySorted(s) && AllShort(s) && Short(e.name) && Added(s, e, at, s')
    ensures StrictlySorted(s') && AllShort(s')
  {
    hide Cmp, StrictlySorted, AllShort, Stored;
    if IsAt(s, at, e.kind, e.name) {
      ValuesDoNotMatter(s, s');
    } else {
      NewSorted(s, Element(e.name, e.kind, [Stored(e)]));
    }
  }

  lemma {:induction false} UnderMore(h: seq<Entry>, e: Entry, kind: Kind, name: seq<Byte>)
    ensures Under(h + [e], kind, name) ==
      Under(h, kind, name) + if e.kind == kind && e.name == name then [Stored(e)] else []
  {
    assert (h + [e])[..|h|] == h;
  }

  /** Where an element of the old list is in the new one. */
  ghost function Moved(s: seq<Element>, e: Entry, at: nat, i: nat): nat {
    if IsAt(s, at, e.kind, e.name) || i < at then i else i + 1
  }

  lemma {:induction false} AddedItem(s: seq<Element>, e: Entry, at: nat, s': seq<Element>, i: nat)
    requires Added(s, e, at, s')
    ensures at < |s'| && s'[at].kind == e.kind && s'[at].name == e.name
    ensures i < |s| ==> IsAt(s', Moved(s, e, at, i), s[i].kind, s[i].name)
    ensures i < |s| && !(IsAt(s, at, e.kind, e.name) && i == at) ==> s'[Moved(s, e, at, i)] == s[i]
    ensures s'[at].values == (if IsAt(s, at, e.kind, e.name) then s[at].values else []) + [Stored(e)]
    ensures i < |s'| && i != at ==> exists k: nat :: k < |s| && Moved(s, e, at, k) == i && s'[i] == s[k]
  {
    if i < |s'| && i != at {
      var k := if IsAt(s, at, e.kind, e.name) || i < at then i else i - 1;
      assert Moved(s, e, at, k) == i && s'[i] == s[k];
    }
  }

  /** No two elements have the same type and name. */
  lemma OneEach(s: seq<Element>, i: nat, j: nat)
    requires StrictlySorted(s) && i < j < |s|
    ensures s[i].kind != s[j].kind || s[i].name != s[j].name
  {
    if s[i].kind == s[j].kind && s[i].name == s[j].name { MemCmpOrder(s[i].name, s[j].name, s[i].name); }
  }

  lemma OnlyThere(s: seq<Element>, i: nat, kind: Kind, name: seq<Byte>)
    requires StrictlySorted(s) && IsAt(s, i, kind, name)
    ensures forall j | 0 <= j < |s| && j != i :: !IsAt(s, j, kind, name)
  {
    forall j | 0 <= j < |s| && j != i
      ensures !IsAt(s, j, kind, name)
    {
      if i < j { OneEach(s, i, j); } else { OneEach(s, j, i); }
    }
  }

  /** The invariant of every run of add calls. */
  lemma {:induction false} AddedReflects(s: seq<Element>, h: seq<Entry>, e: Entry, at: nat, s': seq<Element>)
    requires Reflects(s, h) && Short(e.name) && Suits(e.kind, e.value) && Added(s, e, at, s')
    ensures Reflects(s', h + [e])
  {
    AddedSorted(s, e, at, s');
    hide Added, Under, StrictlySorted, IsAt;
    forall i | 0 <= i < |s'|
      ensures s'[i].values != [] && s'[i].values == Under(h + [e], s'[i].kind, s'[i].name)
    {
      AddedValues(s, h, e, at, s', i);
    }
    forall kind, name | Under(h + [e], kind, name) != []
      ensures exists i: nat :: IsAt(s', i, kind, name)
    {
      AddedCovers(s, h, e, at, s', kind, name);
    }
  }

  lemma {:induction false} AddedCovers(s: seq<Element>, h: seq<Entry>, e: Entry, at: nat, s': seq<Element>,
          kind: Kind, name: seq<Byte>)
    requires Reflects(s, h) && Added(s, e, at, s') && Under(h + [e], kind, name) != []
    ensures exists i: nat :: IsAt(s', i, kind, name)
  {
    hide Added, Moved, StrictlySorted, AllShort;
    UnderMore(h, e, kind, name);
    AddedItem(s, e, at, s', 0);
    if e.kind == kind && e.name == name {
      assert IsAt(s', at, kind, name);
    } else {
      var i: nat :| IsAt(s, i, kind, name);
      AddedItem(s, e, at, s', i);
    }
  }

  lemma {:induction false} AddedValues(s: seq<Element>, h: seq<Entry>, e: Entry, at: nat, s': seq<Element>, i: nat)
    requires Reflects(s, h) && Added(s, e, at, s') && i < |s'| && StrictlySorted(s')
    ensures s'[i].values != [] && s'[i].values == Under(h + [e], s'[i].kind, s'[i].name)
  {
    UnderMore(h, e, s'[i].kind, s'[i].name);
    AddedItem(s, e, at, s', i);
    if i == at {
      assert !IsAt(s, at, e.kind, e.name) ==> forall k: nat :: !IsAt(s, k, e.kind, e.name);
    } else {
      assert IsAt(s', at, e.kind, e.name);
      OnlyThere(s', at, e.kind, e.name);
      assert !IsAt(s', i, e.kind, e.name);
    }
  }

  /** Putting an empty element in its place and giving it its first value is an add call. */
  lemma {:induction false} AddedAsNew(s: seq<Element>, e: Entry)
    requires forall i | 0 <= i < |s| :: !IsAt(s, i, e.kind, e.name)
    ensures var n := Element(e.name, e.kind, []); var at := Place(Cmp, s, n);
      at < |Insert(s, n)| && Added(s, e, at, WithOneMore(Insert(s, n), at, Stored(e)))
  {
    var n, n' := Element(e.name, e.kind, []), Element(e.name, e.kind, [Stored(e)]);
    FindPosSame(Cmp, s, n, Cmp, s, n', 0, |s|);
    var at := Place(Cmp, s, n);
    assert [] + [Stored(e)] == [Stored(e)];
    assert Insert(s, n') == WithOneMore(Insert(s, n), at, Stored(e));
  }

  /** An add call does not disturb a parser that is at work on the same list. */
  lemma {:induction false} AddedConsistent(p: Parser, e: Entry, at: nat, s': seq<Element>)
    requires Consistent(p) && Added(p.elements, e, at, s')
    ensures Consistent(p.(elements := s', cur := Moved(p.elements, e, at, p.cur)))
  {
    AddedItem(p.elements, e, at, s', p.cur);
  }

  lemma {:induction false} DroppedMore(h: seq<Entry>, e: Entry)
    ensures TotalDropped(h + [e]) == TotalDropped(h) + Dropped(e)
  {
    assert (h + [e])[..|h|] == h;
  }

  // ---------- sizes ----------

  lemma {:induction false} PrintElementsConcat(a: seq<Element>, b: seq<Element>)
    ensures PrintElements(a + b) == PrintElements(a) + PrintElements(b)
  {
    hide PrintElement;
    if a == [] {
      assert a + b == b;
    } else {
      PrintElementsConcat(a[1..], b);
      RestOfSum(a, b);
      Grouped(PrintElement(a[0]), PrintElements(a[1..]), PrintElements(b));
    }
  }

  lemma {:induction false} PrintValuesConcat(a: seq<Value>, b: seq<Value>)
    ensures PrintValues(a + b) == PrintValues(a) + PrintValues(b)
  {
    hide PrintValue;
    if a == [] {
      assert a + b == b;
    } else {
      PrintValuesConcat(a[1..], b);
      RestOfSum(a, b);
      Grouped(PrintValue(a[0]), PrintValues(a[1..]), PrintValues(b));
    }
  }

  lemma {:induction false} PrintAround(a: seq<Element>, e: Element, b: seq<Element>)
    ensures |Print(a + [e] + b)| == |Print(a + b)| + |PrintElement(e)|
  {
    PrintElementsConcat(a + [e], b);
    PrintElementsConcat(a, [e]);
    PrintElementsConcat(a, b);
    assert PrintElements([e]) == PrintElement(e) + PrintElements([]);
  }

  lemma {:induction false} PrintOneMore(e: Element, v: Value)
    ensures |PrintElement(e.(values := e.values + [v]))| == |PrintElement(e)| + |PrintValue(v)|
  {
    PrintValuesConcat(e.values, [v]);
    assert PrintValues([v]) == PrintValue(v) + PrintValues([]);
  }

  /** The printed form of a list up to the index `i`, and one element further. */
  lemma {:induction false} PrintUpTo(s: seq<Element>, i: nat)
    requires i < |s|
    ensures PrintElements(s[..i + 1]) == PrintElements(s[..i]) + PrintElement(s[i])
    ensures |PrintElements(s[..i])| + |PrintElement(s[i])| <= |PrintElements(s)|
  {
    assert s[..i + 1] == s[..i] + [s[i]] && s == s[..i + 1] + s[i + 1..];
    PrintElementsConcat(s[..i], [s[i]]);
    PrintElementsConcat(s[..i + 1], s[i + 1..]);
    assert PrintElements([s[i]]) == PrintElement(s[i]) + PrintElements([]);
  }

  lemma {:induction false} PrintValuesUpTo(s: seq<Value>, i: nat)
    requires i < |s|
    ensures PrintValues(s[..i + 1]) == PrintValues(s[..i]) + PrintValue(s[i])
    ensures |PrintValues(s[..i])| + |PrintValue(s[i])| <= |PrintValues(s)|
  {
    assert s[..i + 1] == s[..i] + [s[i]] && s == s[..i + 1] + s[i + 1..];
    PrintValuesConcat(s[..i], [s[i]]);
    PrintValuesConcat(s[..i + 1], s[i + 1..]);
    assert PrintValues([s[i]]) == PrintValue(s[i]) + PrintValues([]);
  }

  /** How much longer the printed form gets. */
  lemma {:induction false} AddedSize(s: seq<Element>, e: Entry, at: nat, s': seq<Element>)
    requires Added(s, e, at, s')
    ensures |Print(s')| == |Print(s)| + |PrintValue(Stored(e))|
      + if IsAt(s, at, e.kind, e.name) then 0 else 12 + |e.name|
  {
    if IsAt(s, at, e.kind, e.name) {
      var a, b := s[..at], s[at + 1..];
      assert s == a + [s[at]] + b && s' == a + [s'[at]] + b;
      PrintAround(a, s[at], b);
      PrintAround(a, s'[at], b);
      PrintOneMore(s[at], Stored(e));
    } else {
      var n := Element(e.name, e.kind, [Stored(e)]);
      assert s == s[..at] + s[at..];
      PrintAround(s[..at], n, s[at..]);
      PrintOneMore(n.(values := []), Stored(e));
      assert [] + [Stored(e)] == [Stored(e)];
    }
  }

  /** The list reflects the run, and `size` is the exact length of the printed form, plus the bytes
      that NUL characters cut off. */
  ghost predicate Accounted(s: seq<Element>, h: seq<Entry>, size: nat) {
    Reflects(s, h) && size == |Print(s)| + TotalDropped(h)
  }

  lemma {:induction false} AddedAccounted(s: seq<Element>, h: seq<Entry>, size: nat, e: Entry, at: nat,
          s': seq<Element>)
    requires Accounted(s, h, size) && Short(e.name) && Suits(e.kind, e.value) && Added(s, e, at, s')
    ensures Accounted(s', h + [e], size + |PrintValue(Stored(e))| + Dropped(e)
      + if IsAt(s, at, e.kind, e.name) then 0 else 12 + |e.name|)
  {
    AddedReflects(s, h, e, at, s');
    AddedSize(s, e, at, s');
    DroppedMore(h, e);
  }

  /** The string value of an add call holds a NUL. */
  predicate HoldsNul(e: Entry) { e.kind.Str? && e.value.Blob? && 0 in e.value.bytes }

  ghost predicate NoNul(h: seq<Entry>) { forall i | 0 <= i < |h| :: !HoldsNul(h[i]) }

  lemma DroppedIsNul(e: Entry)
    ensures Dropped(e) == 0 <==> !HoldsNul(e)
  {
    if e.kind.Str? && e.value.Blob? { UntilNulId(e.value.bytes, 0); }
  }

  /** Nothing was cut off exactly when no string that was added holds a NUL. */
  lemma {:induction false} NothingDropped(h: seq<Entry>)
    ensures TotalDropped(h) == 0 <==> NoNul(h)
  {
    hide HoldsNul, Dropped;
    if h != [] {
      var front, last := h[..|h| - 1], h[|h| - 1];
      NothingDropped(front);
      DroppedIsNul(last);
      assert forall i | 0 <= i < |front| :: front[i] == h[i];
    }
  }

  /** A string that holds a NUL makes the size of every pack too large for what is printed. */
  lemma {:induction false} NulSpoilsSize(s: seq<Element>, h: seq<Entry>, size: nat, i: nat)
    requires Accounted(s, h, size) && i < |h| && HoldsNul(h[i])
    ensures |Print(s)| < size
  {
    NothingDropped(h);
  }

  /** Such a pack: one string of a single NUL byte. */
  lemma NulExample(name: seq<Byte>) returns (s: seq<Element>, size: nat)
    requires Short(name)
    ensures Added([], Entry(Str, name, Blob([0])), 0, s)
    ensures Accounted(s, [Entry(Str, name, Blob([0]))], size) && |Print(s)| == size - 1
  {
    var e := Entry(Str, name, Blob([0]));
    assert UntilNul<Byte>([0], 0) == [];
    var n := Element(name, Str, [Stored(e)]);
    s := Insert([], n);
    assert Place(Cmp, [], n) == 0 && Added([], e, 0, s);
    assert Accounted([], [], 4) && [] + [e] == [e];
    AddedAccounted([], [], 4, e, 0, s);
    size := 4 + |PrintValue(Stored(e))| + Dropped(e) + 12 + |name|;
    DroppedMore([], e);
  }

  // ---------- what a receiver gets ----------

  lemma {:induction false} UnderStored(h: seq<Entry>, kind: Kind, name: seq<Byte>, j: nat)
    requires j < |Under(h, kind, name)| && forall i | 0 <= i < |h| :: Suits(h[i].kind, h[i].value)
    ensures var v := Under(h, kind, name)[j]; Suits(kind, v) && (kind.Str? ==> v.Blob? && 0 !in v.bytes)
  {
    var t := h[..|h| - 1];
    if j < |Under(t, kind, name)| { UnderStored(t, kind, name, j); }
  }

  lemma {:induction false} ReflectsSuits(s: seq<Element>, h: seq<Entry>)
    requires Reflects(s, h)
    ensures forall i | 0 <= i < |s| :: AllSuit(s[i])
  {
    forall i, j | 0 <= i < |s| && 0 <= j < |s[i].values|
      ensures Suits(s[i].kind, s[i].values[j])
    {
      UnderStored(h, s[i].kind, s[i].name, j);
    }
  }

  ghost predicate AllSuit(e: Element) { forall j | 0 <= j < |e.values| :: Suits(e.kind, e.values[j]) }

  /** The lengths and counts fit their four bytes on the wire. */
  ghost predicate Fits(s: seq<Element>) {
    && 0 < |s| < 0x1_0000_0000
    && forall i | 0 <= i < |s| :: |s[i].values| < 0x1_0000_0000
         && forall j | 0 <= j < |s[i].values| :: s[i].values[j].Blob? ==> |s[i].values[j].bytes| < 0x1_0000_0000
  }

  /** Whatever was added, the printed form is read back as the same elements, so that a receiver
      finds under each type and name the values that were added under it, in order. */
  lemma {:induction false} ReceivedAsAdded(s: seq<Element>, h: seq<Entry>, max: Uint32, suffix: seq<Byte>)
    returns (q: Parser)
    requires Reflects(s, h) && Fits(s) && (max == 0 || |s| <= max)
    ensures Parse(Fresh(max), Print(s) + suffix) == Stopped(q, |Print(s)|)
    ensures q.phase == Done && q.elements == s && Reflects(q.elements, h)
  {
    forall k | 0 <= k < |s|
      ensures Printable(s[k]) && NulFree(s[k])
    {
      forall j | 0 <= j < |s[k].values|
        ensures Suits(s[k].kind, s[k].values[j]) && (s[k].kind.Str? ==> 0 !in s[k].values[j].bytes)
      {
        UnderStored(h, s[k].kind, s[k].name, j);
      }
    }
    q := RoundTrip(s, max, suffix);
  }

  /** The list, and with it every byte printed, depends only on the values under each type and
      name: neither the order in which names first appeared nor the interleaving matters. */
  lemma {:induction false} Canonical(s: seq<Element>, h: seq<Entry>, s': seq<Element>, h': seq<Entry>)
    requires Reflects(s, h) && Reflects(s', h')
    requires forall kind, name :: Under(h, kind, name) == Under(h', kind, name)
    ensures s == s'
  {
    SameFrom(s, h, s', h', 0);
  }

  /** The first element at or after `i` on one side occurs at or after `i` on the other. */
  lemma {:induction false} Matched(s: seq<Element>, h: seq<Entry>, s': seq<Element>, h': seq<Entry>, i: nat)
    returns (k: nat)
    requires Reflects(s, h) && Reflects(s', h')
    requires forall kind, name :: Under(h, kind, name) == Under(h', kind, name)
    requires i < |s| && i <= |s'| && s[..i] == s'[..i]
    ensures i <= k < |s'| && s'[k] == s[i]
  {
    var e := s[i];
    assert Under(h', e.kind, e.name) != [];
    k :| IsAt(s', k, e.kind, e.name);
    if k < i {
      assert s[k] == s[..i][k] == s'[..i][k] == s'[k];
      OneEach(s, k, i);
    }
  }

  lemma {:induction false} SameFrom(s: seq<Element>, h: seq<Entry>, s': seq<Element>, h': seq<Entry>, i: nat)
    requires Reflects(s, h) && Reflects(s', h')
    requires forall kind, name :: Under(h, kind, name) == Under(h', kind, name)
    requires i <= |s| && i <= |s'| && s[..i] == s'[..i]
    ensures s == s'
    decreases |s| - i
  {
    hide Under, Reflects, StrictlySorted;
    if i < |s| {
      var k := Matched(s, h, s', h', i);
      var k' := Matched(s', h', s, h, i);
      SameFirst(s, h, s', h', i, k, k');
      assert s[..i + 1] == s[..i] + [s[i]] && s'[..i + 1] == s'[..i] + [s'[i]];
      SameFrom(s, h, s', h', i + 1);
    } else if i < |s'| {
      var k := Matched(s', h', s, h, i);
    }
  }

  lemma {:induction false} SameFirst(s: seq<Element>, h: seq<Entry>, s': seq<Element>, h': seq<Entry>, i: nat, k: nat,
          k': nat)
    requires Reflects(s, h) && Reflects(s', h')
    requires i <= k < |s'| && i <= k' < |s| && s'[k] == s[i] && s[k'] == s'[i]
    ensures s[i] == s'[i]
  {
    CmpNameOrder(s[i].kind, s[i].name, s'[i].kind, s'[i].name, s[i].kind, s[i].name);
    assert i < k ==> Cmp(s'[i], s'[k]) < 0;
    assert i < k' ==> Cmp(s[i], s[k']) < 0;
  }
}
