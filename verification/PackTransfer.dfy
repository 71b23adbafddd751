/** A pack on its way: filled, written, cut into chunks, read chunk by chunk, and looked into. */
module PackTransfer {
  import opened Bytes
  import opened PackFormat
  import opened PackRuns
  import opened PackStream
  import opened Sequences
  import opened Wrappers
  import Packs = Pack

  /** Reads a stream in chunks.  The bytes `pending` that the calls so far have not used come again in
      front of the next chunk. */
  method FeedPack(p: Packs.Pack, pending: seq<Byte>, chunks: seq<seq<Byte>>) returns (used: int)
    requires p.Valid() && Stuck(p.State(), pending)
    modifies p, p.elements, p.elements.p, set e | e in p.elements.contents
    ensures used >= 0 ==> p.Valid()
    ensures p.elements.p == old(p.elements.p) || fresh(p.elements.p)
    ensures forall x | x in p.elements.contents :: x in old(p.elements.contents) || fresh(x)
    ensures match old(Parse(p.State(), pending + Concat(chunks)))
      case Failed => used == -1
      case Stopped(q, n) => used == n && p.State() == q
    decreases |chunks|
  {
    hide Parse, Consistent, Stuck;
    ghost var before := p.State();
    if chunks == [] {
      assert pending + Concat(chunks) == pending;
      StuckStops(before, pending);
      return 0;
    }
    var b := pending + chunks[0];
    ghost var rest := Concat(chunks[1..]);
    Grouped(pending, chunks[0], rest);
    ParseTwice(before, b, rest);
    var n := p.Read(b);
    if n < 0 {
      return -1;
    }
    ParseEndsStuck(before, b);
    used := FeedPack(p, b[n..], chunks[1..]);
    if used >= 0 {
      used := n + used;
    }
  }

  lemma {:induction false} StuckStops(p: Parser, b: seq<Byte>)
    requires Consistent(p) && Stuck(p, b)
    ensures Parse(p, b) == Stopped(p, 0)
  {
    ParseStops(p, b);
  }

  /** Cuts bytes into chunks of the lengths `cuts` and a last one. */
  function Cut(b: seq<Byte>, cuts: seq<nat>): (chunks: seq<seq<Byte>>)
    decreases |cuts|
  {
    if cuts == [] || cuts[0] > |b| then [b] else [b[..cuts[0]]] + Cut(b[cuts[0]..], cuts[1..])
  }

  lemma {:induction false} CutIsWhole(b: seq<Byte>, cuts: seq<nat>)
    ensures Concat(Cut(b, cuts)) == b
    decreases |cuts|
  {
    if cuts == [] || cuts[0] > |b| {
      assert [b][1..] == [];
    } else {
      CutIsWhole(b[cuts[0]..], cuts[1..]);
      Cons(b[..cuts[0]], Cut(b[cuts[0]..], cuts[1..]));
      Halves(b, cuts[0]);
    }
  }

  /** A call that the add functions take, and whose length fits its four bytes on the wire. */
  ghost predicate Addable(e: Entry) {
    Short(e.name) && Suits(e.kind, e.value) && (e.value.Blob? ==> |e.value.bytes| < 0x1_0000_0000)
  }

  lemma {:induction false} UnderFits(h: seq<Entry>, kind: Kind, name: seq<Byte>)
    requires forall i | 0 <= i < |h| :: Addable(h[i])
    ensures |Under(h, kind, name)| <= |h|
    ensures forall j | 0 <= j < |Under(h, kind, name)| ::
      var v := Under(h, kind, name)[j]; v.Blob? ==> |v.bytes| < 0x1_0000_0000
  {
    if h != [] { UnderFits(h[..|h| - 1], kind, name); }
  }

  lemma {:induction false} ReflectedFits(s: seq<Element>, h: seq<Entry>)
    requires Reflects(s, h) && |s| <= |h| < 0x1_0000_0000 && h != [] && forall i | 0 <= i < |h| :: Addable(h[i])
    ensures Fits(s)
  {
    var e := h[|h| - 1];
    assert Under(h, e.kind, e.name) != [];
    forall i | 0 <= i < |s|
      ensures |s[i].values| < 0x1_0000_0000
      ensures forall j | 0 <= j < |s[i].values| :: s[i].values[j].Blob? ==> |s[i].values[j].bytes| < 0x1_0000_0000
    {
      UnderFits(h, s[i].kind, s[i].name);
    }
  }

  lemma AddedLength(s: seq<Element>, e: Entry, at: nat, s': seq<Element>)
    requires Added(s, e, at, s')
    ensures |s'| <= |s| + 1
  {
  }

  /** Makes the add calls `entries`. */
  method Fill(p: Packs.Pack, entries: seq<Entry>)
    requires p.Valid() && p.Tracks() && p.max == 0 && forall i | 0 <= i < |entries| :: Addable(entries[i])
    modifies p`totalSize, p`view, p`history, p`cur, p.elements, p.elements.p, set e | e in p.elements.contents
    ensures p.Valid() && p.Tracks() && p.history == old(p.history) + entries
    ensures |p.view| <= |old(p.view)| + |entries|
    ensures p.elements.p == old(p.elements.p) || fresh(p.elements.p)
    ensures forall x | x in p.elements.contents :: x in old(p.elements.contents) || fresh(x)
    decreases |entries|
  {
    hide Packs.Pack.Valid, Packs.Pack.Tracks, Added, Suits;
    if entries == [] {
      return;
    }
    var e := entries[0];
    assert Suits(e.kind, e.value) by { assert Addable(entries[0]); }
    ghost var s := p.view;
    ghost var ok, at;
    ok, at := p.AddValue(e.name, e.kind, e.value);
    AddedLength(s, e, at, p.view);
    Grouped(old(p.history), [e], entries[1..]);
    assert entries == [e] + entries[1..];
    Fill(p, entries[1..]);
  }

  /** Fills a pack and writes it. */
  method Send(entries: seq<Entry>) returns (bytes: seq<Byte>, ghost s: seq<Element>)
    requires 0 < |entries| < 0x1_0000_0000 && forall i | 0 <= i < |entries| :: Addable(entries[i])
    ensures Reflects(s, entries) && Fits(s) && bytes == Print(s)
  {
    hide Consistent, Print, Reflects, Fits;
    var sender := new Packs.Pack(0);
    Fill(sender, entries);
    s := sender.view;
    assert [] + entries == entries;
    assert Reflects(s, entries);
    ReflectedFits(s, entries);
    FitsIsSomething(s);
    var out, size := sender.Write(0);
    bytes := out[..size];
  }

  /** However a written pack is cut up on its way, the receiver finds under each type and name the values
      that the sender has added under it, in the order of the calls.  A pack without any has no printed
      form. */
  method Transfer(entries: seq<Entry>, cuts: seq<nat>, name: seq<Byte>, kind: Kind) returns (r: Option<seq<Value>>)
    requires 0 < |entries| < 0x1_0000_0000 && (forall i | 0 <= i < |entries| :: Addable(entries[i])) && Short(name)
    ensures var vs := Under(entries, kind, name); r == if vs == [] then None else Some(vs)
  {
    hide Consistent, Print, Parse, Reflects, Fits, Under;
    var bytes;
    ghost var s;
    bytes, s := Send(entries);
    var receiver := new Packs.Pack(0);
    CutIsWhole(bytes, cuts);
    ghost var q := ReceivedAsAdded(s, entries, 0, []);
    assert Print(s) + [] == bytes && [] + Concat(Cut(bytes, cuts)) == bytes;
    var used := FeedPack(receiver, [], Cut(bytes, cuts));
    r := receiver.GetArray(name, kind, entries);
  }

  lemma FitsIsSomething(s: seq<Element>)
    requires Fits(s)
    ensures s != []
  {
  }
}
