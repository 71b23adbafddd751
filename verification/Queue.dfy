/** The circular doubly linked queue. */
module Queue {
  import opened ItemList
  import opened Sequences

  class Link {
    var prev: Link?
    var next: Link?
  }

  /** A walk around the queue, from the sentinel to the sentinel: no node is passed twice, and
      each is linked to the one behind it in both directions. */
  ghost predicate Walk(r: seq<Link>)
    reads set x | x in r
  {
    Closed(r) && Linked(r)
  }

  ghost predicate Linked(r: seq<Link>)
    reads set x | x in r
  {
    forall i, j | 0 <= i < |r| - 1 && j == i + 1 :: r[i].next == r[j] && r[j].prev == r[i]
  }

  ghost predicate Closed(r: seq<Link>) {
    |r| >= 2 && r[0] == r[|r| - 1] && forall i, j | 0 <= i < j < |r| - 1 :: r[i] != r[j]
  }

  ghost function At(r: seq<Link>, k: nat): Link
    requires k < |r|
  {
    r[k]
  }

  /** The walk along the queue with the sentinel `h` and the nodes `s`. */
  ghost function Around(h: Link, s: seq<Link>): (r: seq<Link>)
    ensures |r| == |s| + 2
  {
    [h] + s + [h]
  }

  /** The queue with the sentinel `h` holds the nodes `s`. */
  ghost predicate Ring(h: Link, s: seq<Link>)
    reads h, set x | x in s
  {
    Walk(Around(h, s))
  }

  method Init(h: Link)
    modifies h
    ensures Ring(h, [])
  {
    h.prev := h;
    h.next := h;
  }

  method IsEmpty(h: Link, ghost s: seq<Link>) returns (empty: bool)
    requires Ring(h, s)
    ensures empty <==> s == []
  {
    ghost var r := Around(h, s);
    assert r[|r| - 1].prev == r[|r| - 2];
    empty := h == h.prev;
  }

  /** Links `x` in behind `p`. */
  method LinkIn(p: Link, x: Link, ghost r: seq<Link>, ghost k: nat)
    requires Walk(r) && k < |r| - 1 && p == At(r, k) && x !in r
    modifies p`next, x, At(r, k + 1)`prev
    ensures Walk(Inserted(r, k + 1, x))
  {
    ghost var r' := Inserted(r, k + 1, x);
    x.next := p.next;
    x.next.prev := x;
    x.prev := p;
    p.next := x;
    assert forall i {:trigger r'[i]} | 0 <= i < |r'| ::
      r'[i] == if i <= k then r[i] else if i == k + 1 then x else r[i - 1];
  }

  /** Puts `x` behind `p`, which is the sentinel or the node in front of the index `k`. */
  method InsertAfter(p: Link, x: Link, ghost h: Link, ghost s: seq<Link>, ghost k: nat)
    requires Ring(h, s) && k <= |s| && p == At(Around(h, s), k) && x !in [h] + s
    modifies h, x, set y | y in s
    ensures Ring(h, Inserted(s, k, x))
  {
    LinkIn(p, x, Around(h, s), k);
    assert Around(h, Inserted(s, k, x)) == Inserted(Around(h, s), k + 1, x);
  }

  ghost function Without(s: seq<Link>, k: nat): seq<Link>
    requires k < |s|
  {
    s[..k] + s[k + 1..]
  }

  lemma AroundWithout(h: Link, s: seq<Link>, k: nat)
    requires Closed(Around(h, s)) && k < |s|
    ensures var r, r' := Around(h, s), Around(h, Without(s, k));
      Closed(r') && forall i {:trigger r'[i]} | 0 <= i < |r'| :: r'[i] == if i <= k then r[i] else r[i + 1]
  {
    var r, r' := Around(h, s), Around(h, Without(s, k));
    assert forall i {:trigger r'[i]} | 0 <= i < |r'| :: r'[i] == if i <= k then r[i] else r[i + 1];
  }

  method Remove(x: Link, ghost h: Link, ghost s: seq<Link>, ghost k: nat)
    requires Ring(h, s) && k < |s| && x == s[k]
    modifies h, set y | y in s
    ensures Ring(h, Without(s, k))
  {
    ghost var r, r' := Around(h, s), Around(h, Without(s, k));
    AroundWithout(h, s, k);
    hide Around, Without;
    assert r[k].next == r[k + 1] == x && r[k + 1].next == r[k + 2];
    x.next.prev := x.prev;
    x.prev.next := x.next;
  }

  /** The middle node, or the first node of the second half. */
  method Middle(h: Link, ghost s: seq<Link>) returns (middle: Link?)
    requires Ring(h, s)
    ensures middle == if s == [] then h else s[|s| / 2]
  {
    ghost var r := Around(h, s);
    assert r[0].next == r[1] && r[|r| - 1].prev == r[|r| - 2];
    middle := h.next;
    if middle == h.prev {
      return;
    }
    var next := h.next;
    ghost var i := 0;
    while true
      invariant 0 <= i && 2 * i + 1 < |s| && middle == r[i + 1] && next == r[2 * i + 1]
      decreases |s| - i
    {
      assert r[i + 1].next == r[i + 2] && r[2 * i + 1].next == r[2 * i + 2];
      middle := middle.next;
      next := next.next;
      if next == h.prev {
        return;
      }
      assert r[2 * i + 2].next == r[2 * i + 3];
      next := next.next;
      if next == h.prev {
        return;
      }
      i := i + 1;
    }
  }

  lemma AroundParts(h: Link, n: Link, s: seq<Link>, k: nat)
    requires Closed(Around(h, s)) && k < |s| && n !in Around(h, s)
    ensures var r, a, b := Around(h, s), Around(h, s[..k]), Around(n, s[k..]);
      && Closed(a) && (forall i {:trigger a[i]} | 0 <= i < |a| - 1 :: a[i] == r[i]) && a[|a| - 1] == h
      && Closed(b) && (forall i {:trigger b[i]} | 0 < i < |b| - 1 :: b[i] == r[i + k]) && b[0] == b[|b| - 1] == n
  {
    var r, a, b := Around(h, s), Around(h, s[..k]), Around(n, s[k..]);
    assert forall i {:trigger a[i]} | 0 <= i < |a| - 1 :: a[i] == r[i];
    assert forall i {:trigger b[i]} | 0 < i < |b| - 1 :: b[i] == r[i + k];
    assert forall i | 0 <= i < |r| :: r[i] in r;
  }

  /** Cuts the queue in front of `q`; the second part gets the sentinel `n`. */
  method Split(h: Link, q: Link, n: Link, ghost s: seq<Link>, ghost k: nat)
    requires Ring(h, s) && k < |s| && q == s[k] && n !in Around(h, s)
    modifies h, n, set x | x in s
    ensures Ring(h, s[..k]) && Ring(n, s[k..])
  {
    ghost var r, a, b := Around(h, s), Around(h, s[..k]), Around(n, s[k..]);
    AroundParts(h, n, s, k);
    hide Around;
    assert r[k + 1] == q && r[k].next == q && r[|r| - 2].next == r[|r| - 1];
    n.prev := h.prev;
    n.prev.next := n;
    n.next := q;
    h.prev := q.prev;
    h.prev.next := h;
    q.prev := n;
  }

  lemma AroundJoined(h: Link, n: Link, s: seq<Link>, t: seq<Link>)
    requires Closed(Around(h, s)) && Closed(Around(n, t)) && forall x | x in Around(h, s) :: x !in Around(n, t)
    ensures var a, b, r := Around(h, s), Around(n, t), Around(h, s + t);
      && Closed(r) && (forall i {:trigger r[i]} | 0 <= i < |r| ::
        r[i] == if i <= |s| then a[i] else if i < |r| - 1 then b[i - |s|] else h)
      && (forall i, j | 0 <= i < |a| && 0 <= j < |b| :: a[i] != b[j])
  {
    var a, b, r := Around(h, s), Around(n, t), Around(h, s + t);
    forall i, j | 0 <= i < |a| && 0 <= j < |b|
      ensures a[i] != b[j]
    {
      assert a[i] in a && b[j] in b;
    }
    assert forall i {:trigger r[i]} | 0 <= i < |r| ::
      r[i] == if i <= |s| then a[i] else if i < |r| - 1 then b[i - |s|] else h;
  }

  /** Appends the nodes of the queue `n`. */
  method Add(h: Link, n: Link, ghost s: seq<Link>, ghost t: seq<Link>)
    requires Ring(h, s) && Ring(n, t) && forall x | x in Around(h, s) :: x !in Around(n, t)
    modifies h, n, set x | x in s + t
    ensures Ring(h, s + t)
  {
    ghost var a, b, r := Around(h, s), Around(n, t), Around(h, s + t);
    AroundJoined(h, n, s, t);
    hide Around;
    assert a[|a| - 2].next == a[|a| - 1] && b[0].next == b[1] && b[|b| - 2].next == b[|b| - 1];
    h.prev.next := n.next;
    n.next.prev := h.prev;
    h.prev := n.prev;
    h.prev.next := h;
  }

  /** Adding undoes a split, whatever place the queue is cut at. */
  method SplitAndAdd(h: Link, q: Link, n: Link, ghost s: seq<Link>, ghost k: nat)
    requires Ring(h, s) && k < |s| && q == s[k] && n !in Around(h, s)
    modifies h, n, set x | x in s
    ensures Ring(h, s)
  {
    Split(h, q, n, s, k);
    PartsApart(h, n, s, k);
    assert s[..k] + s[k..] == s;
    Add(h, n, s[..k], s[k..]);
  }

  /** The parts have no node in common, sentinels included. */
  lemma PartsApart(h: Link, n: Link, s: seq<Link>, k: nat)
    requires Closed(Around(h, s)) && k < |s| && n !in Around(h, s)
    ensures forall x | x in Around(h, s[..k]) :: x !in Around(n, s[k..])
    ensures forall x | x in s[..k] + s[k..] :: x in s
  {
    var r := Around(h, s);
    assert forall i | 0 <= i < |s| :: r[i + 1] == s[i];
    assert n != h && n !in s && h !in s;
    forall i, j | 0 <= i < k <= j < |s|
      ensures s[i] != s[j]
    {
      assert r[i + 1] != r[j + 1];
    }
  }

  lemma AroundPrepended(h: Link, n: Link, s: seq<Link>, t: seq<Link>)
    requires Closed(Around(h, s)) && Closed(Around(n, t)) && forall x | x in Around(h, s) :: x !in Around(n, t)
    ensures var a, b, r := Around(h, s), Around(n, t), Around(h, t + s);
      && Closed(r) && (forall i {:trigger r[i]} | 0 <= i < |r| ::
        r[i] == if i == 0 then h else if i <= |t| then b[i] else a[i - |t|])
      && (forall i, j | 0 <= i < |a| && 0 <= j < |b| :: a[i] != b[j])
  {
    AroundJoined(h, n, s, t);
    var a, b, r := Around(h, s), Around(n, t), Around(h, t + s);
    assert forall i {:trigger r[i]} | 0 <= i < |r| ::
      r[i] == if i == 0 then h else if i <= |t| then b[i] else a[i - |t|];
  }

  /** Puts the nodes of the queue `n` in front. */
  method AddHead(h: Link, n: Link, ghost s: seq<Link>, ghost t: seq<Link>)
    requires Ring(h, s) && Ring(n, t) && forall x | x in Around(h, s) :: x !in Around(n, t)
    modifies h, n, set x | x in s + t
    ensures Ring(h, t + s)
  {
    ghost var a, b, r := Around(h, s), Around(n, t), Around(h, t + s);
    AroundPrepended(h, n, s, t);
    hide Around;
    assert a[0].next == a[1] && b[0].next == b[1] && b[|b| - 2].next == b[|b| - 1];
    h.next.prev := n.prev;
    n.prev.next := h.next;
    h.next := n.next;
    h.next.prev := h;
  }

  // ---------- sorting ----------

  /** Where `x` comes among the first `k` nodes: behind the last one that is not greater. */
  ghost function Slot(cmp: (Link, Link) -> int, s: seq<Link>, x: Link, k: nat): (slot: nat)
    requires k <= |s|
    ensures slot <= k && (slot > 0 ==> cmp(s[slot - 1], x) <= 0) && forall i | slot <= i < k :: cmp(s[i], x) > 0
  {
    if k == 0 || cmp(s[k - 1], x) <= 0 then k else Slot(cmp, s, x, k - 1)
  }

  /** The nodes inserted one after the other. */
  ghost function SortedBy(cmp: (Link, Link) -> int, s: seq<Link>): (t: seq<Link>)
    ensures |t| == |s|
  {
    if s == [] then []
    else
      var front, x := SortedBy(cmp, s[..|s| - 1]), s[|s| - 1];
      Inserted(front, Slot(cmp, front, x, |front|), x)
  }

  /** The result holds the same nodes. */
  lemma {:induction false} SortedItems(cmp: (Link, Link) -> int, s: seq<Link>)
    ensures multiset(SortedBy(cmp, s)) == multiset(s)
  {
    if s == [] {
      assert SortedBy(cmp, s) == s;
    } else {
      var s0, x := s[..|s| - 1], s[|s| - 1];
      var front := SortedBy(cmp, s0);
      var k := Slot(cmp, front, x, |front|);
      assert SortedBy(cmp, s) == Inserted(front, k, x);
      assert s == s0 + [x];
      hide SortedBy, Slot, Inserted;
      SortedItems(cmp, s0);
      InsertedItems(front, k, x);
      OneMoreItem(s0, x);
    }
  }

  /** The nodes that compare equal to `x`, in their order. */
  ghost function Equals(cmp: (Link, Link) -> int, s: seq<Link>, x: Link): seq<Link> {
    if s == [] then [] else (if cmp(s[0], x) == 0 then [s[0]] else []) + Equals(cmp, s[1..], x)
  }

  lemma {:induction false} EqualsConcat(cmp: (Link, Link) -> int, s: seq<Link>, t: seq<Link>, x: Link)
    ensures Equals(cmp, s + t, x) == Equals(cmp, s, x) + Equals(cmp, t, x)
  {
    if s == [] {
      assert s + t == t;
    } else {
      RestOfSum(s, t);
      var a := if cmp(s[0], x) == 0 then [s[0]] else [];
      assert Equals(cmp, s + t, x) == a + Equals(cmp, s[1..] + t, x) && Equals(cmp, s, x) == a + Equals(cmp, s[1..], x);
      hide Equals;
      EqualsConcat(cmp, s[1..], t, x);
      Grouped(a, Equals(cmp, s[1..], x), Equals(cmp, t, x));
    }
  }

  lemma {:induction false} NoEquals(cmp: (Link, Link) -> int, s: seq<Link>, x: Link)
    requires forall i | 0 <= i < |s| :: cmp(s[i], x) != 0
    ensures Equals(cmp, s, x) == []
  {
    if s != [] { NoEquals(cmp, s[1..], x); }
  }

  ghost predicate Within(s: seq<Link>, dom: set<Link>) { forall i | 0 <= i < |s| :: s[i] in dom }

  /** What is behind the place of `x` is not equal to anything that `x` is equal to. */
  lemma NotEqualBehind(cmp: (Link, Link) -> int, dom: set<Link>, z: Link, x: Link, y: Link)
    requires Preorder(cmp, dom) && x in dom && y in dom && z in dom && cmp(z, x) > 0 && cmp(x, y) == 0
    ensures cmp(z, y) != 0
  {
    assert cmp(y, x) <= 0;
  }

  lemma {:induction false} EqualsInserted(cmp: (Link, Link) -> int, s: seq<Link>, k: nat, x: Link, y: Link)
    requires k <= |s| && (cmp(x, y) == 0 ==> Equals(cmp, s[k..], y) == [])
    ensures Equals(cmp, Inserted(s, k, x), y) == Equals(cmp, s + [x], y)
  {
    var a, b := s[..k], s[k..];
    EqualsConcat(cmp, a + [x], b, y);
    EqualsConcat(cmp, a, [x], y);
    EqualsConcat(cmp, a, b, y);
    EqualsConcat(cmp, s, [x], y);
    assert s == a + b;
    assert cmp(x, y) != 0 ==> Equals(cmp, [x], y) == [];
  }

  /** Inserting behind all equal nodes keeps their order. */
  lemma {:induction false} SlotIsStable(cmp: (Link, Link) -> int, dom: set<Link>, s: seq<Link>, x: Link, y: Link)
    requires Preorder(cmp, dom) && Within(s, dom) && x in dom && y in dom
    ensures Equals(cmp, Inserted(s, Slot(cmp, s, x, |s|), x), y) == Equals(cmp, s + [x], y)
  {
    hide Preorder;
    var k := Slot(cmp, s, x, |s|);
    if cmp(x, y) == 0 {
      forall i | k <= i < |s|
        ensures cmp(s[i], y) != 0
      {
        NotEqualBehind(cmp, dom, s[i], x, y);
      }
      NoEquals(cmp, s[k..], y);
    }
    EqualsInserted(cmp, s, k, x, y);
  }

  lemma AtMostBefore(cmp: (Link, Link) -> int, dom: set<Link>, s: seq<Link>, k: nat, x: Link)
    requires Preorder(cmp, dom) && Within(s, dom) && x in dom && Ordered(cmp, s) && 0 < k <= |s|
      && cmp(s[k - 1], x) <= 0
    ensures forall i | 0 <= i < k :: cmp(s[i], x) <= 0
  {
    forall i | 0 <= i < k - 1
      ensures cmp(s[i], x) <= 0
    {
      assert cmp(s[i], s[k - 1]) <= 0;
    }
  }

  lemma {:induction false} SlotKeepsOrder(cmp: (Link, Link) -> int, dom: set<Link>, s: seq<Link>, x: Link)
    requires Ordered(cmp, s) && Preorder(cmp, dom) && Within(s, dom) && x in dom
    ensures Ordered(cmp, Inserted(s, Slot(cmp, s, x, |s|), x))
  {
    var k := Slot(cmp, s, x, |s|);
    assert forall i | k <= i < |s| :: cmp(x, s[i]) < 0;
    if k > 0 { AtMostBefore(cmp, dom, s, k, x); }
    Between(cmp, s, x, k, 1);
  }

  /** The result is in ascending order, and nodes that compare equal keep their order. */
  lemma {:induction false} SortedIsStable(cmp: (Link, Link) -> int, dom: set<Link>, s: seq<Link>, x: Link)
    requires Preorder(cmp, dom) && Within(s, dom) && x in dom
    ensures Ordered(cmp, SortedBy(cmp, s)) && Equals(cmp, SortedBy(cmp, s), x) == Equals(cmp, s, x)
  {
    if s != [] {
      var n, last := |s| - 1, s[|s| - 1];
      var front := SortedBy(cmp, s[..n]);
      assert SortedBy(cmp, s) == Inserted(front, Slot(cmp, front, last, |front|), last);
      assert Within(s[..n], dom) && last in dom;
      hide Preorder, Ordered, Slot, SortedBy, Inserted, Equals, Within;
      LastApart(s);
      SortedIsStable(cmp, dom, s[..n], x);
      SortedItems(cmp, s[..n]);
      SameNodes(front, s[..n], dom);
      SlotKeepsOrder(cmp, dom, front, last);
      SlotIsStable(cmp, dom, front, last, x);
      EqualsConcat(cmp, s[..n], [last], x);
      EqualsConcat(cmp, front, [last], x);
    } else {
      assert SortedBy(cmp, s) == s;
    }
  }

  lemma SameNodes(s: seq<Link>, t: seq<Link>, dom: set<Link>)
    requires multiset(s) == multiset(t) && Within(t, dom)
    ensures Within(s, dom)
  {
    forall i | 0 <= i < |s|
      ensures s[i] in dom
    {
      assert s[i] in multiset(t);
    }
  }

  lemma {:induction false} EqualsHolds(cmp: (Link, Link) -> int, s: seq<Link>, x: Link, y: Link)
    ensures y in Equals(cmp, s, x) <==> y in s && cmp(y, x) == 0
  {
    if s != [] { EqualsHolds(cmp, s[1..], x, y); }
  }

  /** The first node is at most any node of another ordered sequence with the same classes. */
  lemma {:induction false} FirstIsLeast(cmp: (Link, Link) -> int, dom: set<Link>, s: seq<Link>, t: seq<Link>)
    requires Preorder(cmp, dom) && Within(s, dom) && Within(t, dom) && Ordered(cmp, s) && t != []
    requires Equals(cmp, s, t[0]) == Equals(cmp, t, t[0])
    ensures s != [] && cmp(s[0], t[0]) <= 0
  {
    assert cmp(t[0], t[0]) == 0;
    EqualsHolds(cmp, t, t[0], t[0]);
    EqualsHolds(cmp, s, t[0], t[0]);
    var i :| 0 <= i < |s| && s[i] == t[0];
    if i > 0 { assert cmp(s[0], s[i]) <= 0; }
  }

  lemma {:induction false} HeadsAlike(cmp: (Link, Link) -> int, dom: set<Link>, s: seq<Link>, t: seq<Link>)
    requires Preorder(cmp, dom) && Within(s, dom) && Within(t, dom) && Ordered(cmp, s) && Ordered(cmp, t)
    requires (forall x | x in dom :: Equals(cmp, s, x) == Equals(cmp, t, x)) && (s != [] || t != [])
    ensures s != [] && t != [] && s[0] == t[0]
  {
    if s != [] { FirstIsLeast(cmp, dom, t, s); }
    if t != [] { FirstIsLeast(cmp, dom, s, t); }
    var a, b := s[0], t[0];
    assert cmp(a, b) == 0 && cmp(b, b) == 0;
    assert Equals(cmp, s, b)[0] == a && Equals(cmp, t, b)[0] == b;
  }

  lemma {:induction false} TailsAlike(cmp: (Link, Link) -> int, s: seq<Link>, t: seq<Link>, x: Link)
    requires s != [] && t != [] && s[0] == t[0] && Equals(cmp, s, x) == Equals(cmp, t, x)
    ensures Equals(cmp, s[1..], x) == Equals(cmp, t[1..], x)
  {
    var u, v := Equals(cmp, s[1..], x), Equals(cmp, t[1..], x);
    var a := if cmp(s[0], x) == 0 then [s[0]] else [];
    assert Equals(cmp, s, x) == a + u && Equals(cmp, t, x) == a + v;
    hide Equals;
    Parts(a, u, 0);
    Parts(a, v, 0);
  }

  /** There is only one stable sort: an ordered sequence with the same classes in the same order. */
  lemma {:induction false} StableSortIsUnique(cmp: (Link, Link) -> int, dom: set<Link>, s: seq<Link>, t: seq<Link>)
    requires Preorder(cmp, dom) && Within(s, dom) && Within(t, dom) && Ordered(cmp, s) && Ordered(cmp, t)
    requires forall x | x in dom :: Equals(cmp, s, x) == Equals(cmp, t, x)
    ensures s == t
  {
    if s != [] || t != [] {
      HeadsAlike(cmp, dom, s, t);
      assert Within(s[1..], dom) && Within(t[1..], dom) && Ordered(cmp, s[1..]) && Ordered(cmp, t[1..]);
      hide Preorder, Within, Ordered, Equals;
      forall x | x in dom
        ensures Equals(cmp, s[1..], x) == Equals(cmp, t[1..], x)
      {
        TailsAlike(cmp, s, t, x);
      }
      StableSortIsUnique(cmp, dom, s[1..], t[1..]);
      FirstApart(s);
      FirstApart(t);
    }
  }

  /** The nodes after `i` rounds: the first `i` are sorted. */
  ghost function AfterRounds(cmp: (Link, Link) -> int, s: seq<Link>, i: nat): seq<Link>
    requires i <= |s|
  {
    SortedBy(cmp, s[..i]) + s[i..]
  }

  /** A round takes the node at `i` out and inserts it among those in front of it. */
  lemma {:induction false} OneRound(cmp: (Link, Link) -> int, s: seq<Link>, i: nat)
    requires i < |s|
    ensures var t := AfterRounds(cmp, s, i); var u := Without(t, i);
      t[i] == s[i] && |t| == |s| && AfterRounds(cmp, s, i + 1) == Inserted(u, Slot(cmp, u, s[i], i), s[i])
  {
    var front, rest := SortedBy(cmp, s[..i]), s[i + 1..];
    hide Slot;
    WithoutMiddle(front, s[i], rest);
    assert s[i..] == [s[i]] + rest && s[..i + 1][..i] == s[..i] && s[..i + 1][i] == s[i];
    SlotPrefix(cmp, front + rest, front, s[i], i);
    InsertedFront(front, Slot(cmp, front, s[i], i), s[i], rest);
  }

  lemma WithoutMiddle(a: seq<Link>, x: Link, b: seq<Link>)
    ensures Without(a + ([x] + b), |a|) == a + b && (a + ([x] + b))[|a|] == x
  {
  }

  lemma InsertedFront(a: seq<Link>, k: nat, x: Link, b: seq<Link>)
    requires k <= |a|
    ensures Inserted(a, k, x) + b == Inserted(a + b, k, x)
  {
  }

  lemma BehindRound(h: Link, cmp: (Link, Link) -> int, s: seq<Link>, i: nat)
    requires 1 <= i < |s|
    ensures var t := AfterRounds(cmp, s, i);
      && At(Around(h, t), i) == t[i - 1] == Without(t, i)[i - 1] && |Without(t, i)| == |t| - 1
      && At(Around(h, t), i + 2) == At(Around(h, s), i + 2)
  {
    hide SortedBy;
  }

  lemma {:induction false} SlotPrefix(cmp: (Link, Link) -> int, s: seq<Link>, front: seq<Link>, x: Link, k: nat)
    requires k <= |front| <= |s| && forall i | 0 <= i < k :: s[i] == front[i]
    ensures Slot(cmp, s, x, k) == Slot(cmp, front, x, k)
  {
    if k > 0 { SlotPrefix(cmp, s, front, x, k - 1); }
  }

  lemma {:induction false} RoundNodes(cmp: (Link, Link) -> int, s: seq<Link>, i: nat)
    requires i < |s|
    ensures forall x | x in AfterRounds(cmp, s, i) :: x in s
    ensures forall x | x in Without(AfterRounds(cmp, s, i), i) :: x in s
  {
    SortedItems(cmp, s[..i]);
    forall x | x in AfterRounds(cmp, s, i)
      ensures x in s
    {
      if x in SortedBy(cmp, s[..i]) { assert x in multiset(s[..i]); }
    }
    forall x | x in Without(AfterRounds(cmp, s, i), i)
      ensures x in AfterRounds(cmp, s, i)
    {
    }
  }

  lemma TakenOut(h: Link, t: seq<Link>, i: nat)
    requires Closed(Around(h, t)) && i < |t|
    ensures t[i] !in [h] + Without(t, i)
  {
    var r := Around(h, t);
    forall k | 0 <= k < |t|
      ensures r[k + 1] == t[k]
    {
    }
  }

  lemma Neighbours(h: Link, s: seq<Link>)
    requires Ring(h, s)
    ensures h.next == At(Around(h, s), 1) && h.prev == At(Around(h, s), |s|)
    ensures forall k | 0 <= k < |s| :: s[k].prev == At(Around(h, s), k) && s[k].next == At(Around(h, s), k + 2)
    ensures forall k | 0 <= k < |s| :: At(Around(h, s), k + 1) == s[k] && s[k] != h
    ensures At(Around(h, s), |s| + 1) == h == At(Around(h, s), 0)
  {
    var r := Around(h, s);
    assert r[0].next == r[1] && r[|s|].next == r[|s| + 1];
    forall k | 0 <= k < |s|
      ensures s[k].prev == At(r, k) && s[k].next == At(r, k + 2) && s[k] != h
    {
      assert r[k].next == r[k + 1] && r[k + 1].next == r[k + 2] && r[k + 1] == s[k];
    }
  }

  /** The walk back from the node before the index `i` to the one that `q` belongs behind. */
  method FindSlot(h: Link, cmp: (Link, Link) -> int, q: Link, last: Link, ghost s: seq<Link>, ghost i: nat)
    returns (prev: Link, ghost k: nat)
    requires Ring(h, s) && 1 <= i <= |s| && last == s[i - 1]
    ensures k == Slot(cmp, s, q, i) && k <= i && prev == At(Around(h, s), k)
  {
    Neighbours(h, s);
    hide Ring, Around, At;
    prev, k := last, i;
    while true
      invariant 1 <= k <= i && prev == s[k - 1] && Slot(cmp, s, q, i) == Slot(cmp, s, q, k)
      decreases k
    {
      if cmp(prev, q) <= 0 {
        break;
      }
      prev := prev.prev;
      k := k - 1;
      if prev == h {
        break;
      }
    }
  }

  /** Puts the node `q` where it belongs among the first `i`. */
  method PutBack(h: Link, cmp: (Link, Link) -> int, q: Link, last: Link, ghost s: seq<Link>, ghost i: nat)
    requires Ring(h, s) && 1 <= i <= |s| && last == s[i - 1] && q !in [h] + s
    modifies h, q, set x | x in s
    ensures Ring(h, Inserted(s, Slot(cmp, s, q, i), q))
  {
    var prev, k := FindSlot(h, cmp, q, last, s, i);
    InsertAfter(prev, q, h, s, k);
  }

  /** Takes the node `q` out and puts it where it belongs among those in front of it. */
  method SortNext(h: Link, cmp: (Link, Link) -> int, q: Link, ghost s: seq<Link>, ghost i: nat) returns (next: Link)
    requires 1 <= i < |s| && q == s[i] && Ring(h, AfterRounds(cmp, s, i))
    modifies h, set x | x in s
    ensures Ring(h, AfterRounds(cmp, s, i + 1)) && next == At(Around(h, s), i + 2)
  {
    ghost var t := AfterRounds(cmp, s, i);
    ghost var u := Without(t, i);
    OneRound(cmp, s, i);
    RoundNodes(cmp, s, i);
    TakenOut(h, t, i);
    Neighbours(h, t);
    BehindRound(h, cmp, s, i);
    hide SortedBy, Slot, AfterRounds, Ring, Around, At, Inserted, Without;
    var prev := q.prev;
    next := q.next;
    Remove(q, h, t, i);
    PutBack(h, cmp, q, prev, u, i);
  }

  /** The in-place stable insertion sort. */
  method Sort(h: Link, cmp: (Link, Link) -> int, ghost s: seq<Link>)
    requires Ring(h, s)
    modifies h, set x | x in s
    ensures Ring(h, SortedBy(cmp, s))
  {
    Neighbours(h, s);
    hide Walk;
    var q := h.next;
    if q == h.prev {
      SortedShort(cmp, s);
      return;
    }
    q := q.next;
    ghost var i := 1;
    SortedShort(cmp, s[..1]);
    assert AfterRounds(cmp, s, 1) == s;
    while q != h
      invariant 1 <= i <= |s| && Ring(h, AfterRounds(cmp, s, i)) && q == At(Around(h, s), i + 1)
      decreases |s| - i
    {
      q := SortNext(h, cmp, q, s, i);
      i := i + 1;
    }
    assert i == |s| && s[..i] == s && AfterRounds(cmp, s, i) == SortedBy(cmp, s);
  }

  lemma SortedShort(cmp: (Link, Link) -> int, s: seq<Link>)
    requires |s| <= 1
    ensures SortedBy(cmp, s) == s
  {
  }
}
