/** Runs of inserts and deletes on a red-black tree, as the changes of its keys that the contracts of
    the tree promise. */
module RbRuns {
  import opened RbKeys
  import opened RbNodes
  import opened RbShape
  import opened RbTree

  datatype Change = Insert(at: nat, key: Key) | Remove(at: nat)

  /** The call `c` has turned the keys `s` into `s'`. */
  ghost predicate Changed(order: Comparison, base: Key, s: seq<Key>, c: Change, s': seq<Key>) {
    match c
    case Insert(at, key) => InsertedAt(s, at, key, s') && Between(order, base, s, at, at, key)
    case Remove(at) => at < |s| && RemovedAt(s, at, s[at], s')
  }

  ghost predicate AllInWindow(order: Comparison, base: Key, s: seq<Key>) {
    forall i | 0 <= i < |s| :: InWindow(order, base, s[i])
  }

  /** The keys of a tree that starts empty, after each call.  With timer keys there is, at each call,
      an instant after which all keys in the tree expire within half a turn of the counter.  The
      instants may move on, so a run may go round the counter any number of times. */
  ghost predicate IsRun(order: Comparison, run: seq<seq<Key>>, calls: seq<Change>, bases: seq<Key>) {
    && |run| == |bases| == |calls| + 1 && run[0] == []
    && (forall i, j | 0 <= i < |calls| && j == i + 1 ::
          Changed(order, bases[j], run[i], calls[i], run[j]) && AllInWindow(order, bases[j], run[i]))
    && (forall i | 0 <= i < |run| :: AllInWindow(order, bases[i], run[i]))
  }

  /** Keys in order stay in order when the instant moves on. */
  lemma SortedFromLater(order: Comparison, base: Key, base': Key, s: seq<Key>)
    requires Sorted(order, base, s) && AllInWindow(order, base, s) && AllInWindow(order, base', s)
    ensures Sorted(order, base', s)
  {
    forall i, j | 0 <= i < j < |s|
      ensures Rank(order, base', s[i]) <= Rank(order, base', s[j])
    {
      RankOrderIsStable(order, base, base', s[i], s[j]);
    }
  }

  lemma ChangeKeepsSorted(order: Comparison, base: Key, s: seq<Key>, c: Change, s': seq<Key>)
    requires Sorted(order, base, s) && AllInWindow(order, base, s) && AllInWindow(order, base, s')
    requires Changed(order, base, s, c, s')
    ensures Sorted(order, base, s')
  {
    match c
    case Insert(at, key) =>
      assert s'[at] == key;
      SortedInsert(order, base, s, at, key);
    case Remove(at) =>
      SortedRemove(order, base, s, at);
  }

  /** In every run the keys stay in order: of their values, or of expiry across wrap-around. */
  lemma {:induction false} RunStaysSorted(order: Comparison, run: seq<seq<Key>>, calls: seq<Change>, bases: seq<Key>,
          i: nat)
    requires IsRun(order, run, calls, bases) && i < |run|
    ensures Sorted(order, bases[i], run[i])
  {
    hide Changed, Sorted, AllInWindow;
    if i == 0 {
      NothingSorted(order, bases[0]);
    } else {
      RunStaysSorted(order, run, calls, bases, i - 1);
      SortedFromLater(order, bases[i - 1], bases[i], run[i - 1]);
      ChangeKeepsSorted(order, bases[i], run[i - 1], calls[i - 1], run[i]);
    }
  }

  lemma NothingSorted(order: Comparison, base: Key)
    ensures Sorted(order, base, [])
  {
  }

  // ---------- calls on a tree ----------

  /** A caller sets the key of a node and inserts it, or deletes a node. */
  datatype Call = Put(node: Node, key: Key) | Take(node: Node)

  ghost predicate AllHeldFrom(order: Comparison, base: Key, held: map<Node, Key>) {
    forall n | n in held :: InWindow(order, base, held[n])
  }

  ghost function After(held: map<Node, Key>, c: Call): map<Node, Key> {
    match c
    case Put(n, k) => held[n := k]
    case Take(n) => held - {n}
  }

  ghost function AfterAll(held: map<Node, Key>, calls: seq<Call>): map<Node, Key>
    decreases |calls|
  {
    if calls == [] then held else AfterAll(After(held, calls[0]), calls[1..])
  }

  /** Nodes are inserted while they are outside the tree and deleted while they are inside, and at
      each call there is an instant whose window holds all keys, the new one included. */
  ghost predicate Legal(order: Comparison, sentinel: Node, calls: seq<Call>, bases: seq<Key>, held: map<Node, Key>)
    decreases |calls|
  {
    && |bases| == |calls|
    && (calls != [] ==>
          && calls[0].node != sentinel && (calls[0].Put? <==> calls[0].node !in held)
          && AllHeldFrom(order, bases[0], held) && AllHeldFrom(order, bases[0], After(held, calls[0]))
          && Legal(order, sentinel, calls[1..], bases[1..], After(held, calls[0])))
  }

  /** The tree holds just the nodes `held`, with their keys. */
  ghost predicate Holding(t: Tree, held: map<Node, Key>)
    reads t, set n | n in t.Nodes()
  {
    && (set n | n in t.Nodes()) == held.Keys
    && forall n | n in t.Nodes() :: n.key == held[n]
  }

  lemma WindowOfKeys(t: Tree, held: map<Node, Key>, order: Comparison, base: Key)
    requires Holding(t, held) && AllHeldFrom(order, base, held)
    ensures AllInWindow(order, base, t.Keys())
  {
    forall i | 0 <= i < |t.Keys()|
      ensures InWindow(order, base, t.Keys()[i])
    {
      assert t.Nodes()[i] in held && t.Keys()[i] == t.Nodes()[i].key;
    }
  }

  lemma NodesInserted(s: seq<Node>, k: nat, x: Node, s': seq<Node>)
    requires InsertedAt(s, k, x, s')
    ensures (set n | n in s') == (set n | n in s) + {x}
  {
    assert s == s[..k] + s[k..];
  }

  lemma {:induction false} NodesRemoved(s: seq<Node>, k: nat, x: Node, s': seq<Node>)
    requires RemovedAt(s, k, x, s') && x !in s'
    ensures (set n | n in s') == (set n | n in s) - {x}
  {
    assert s == s[..k] + [x] + s[k + 1..];
  }

  /** The caller's side of an insertion. */
  method PutNode(t: Tree, n: Node, k: Key, ghost base: Key, ghost held: map<Node, Key>)
    requires t.Valid() && Holding(t, held) && n !in held && n != t.sentinel
    requires Sorted(t.insert, base, t.Keys()) && AllHeldFrom(t.insert, base, held)
      && AllHeldFrom(t.insert, base, held[n := k])
    modifies t, n, set m | m in held
    ensures t.Valid() && Holding(t, held[n := k]) && Sorted(t.insert, base, t.Keys())
  {
    hide RedBlack, Distinct, Balanced, InOrder, Sorted, InsertedAt, Between, Tree.Holds, CellOf;
    ItemsInOrder(t.shape);
    ghost var nodes, keys := t.Nodes(), t.Keys();
    assert n !in nodes;
    WindowOfKeys(t, held, t.insert, base);
    n.key := k;
    assert t.Keys() == keys;
    ghost var at := t.Insert(n, base);
    NodesInserted(nodes, at, n, t.Nodes());
    WindowOfKeys(t, held[n := k], t.insert, base);
    ChangeKeepsSorted(t.insert, base, keys, Insert(at, k), t.Keys());
  }

  /** The caller's side of a deletion. */
  method TakeNode(t: Tree, n: Node, ghost base: Key, ghost held: map<Node, Key>)
    requires t.Valid() && Holding(t, held) && n in held
    requires Sorted(t.insert, base, t.Keys()) && AllHeldFrom(t.insert, base, held)
    modifies t, t.sentinel, set m | m in held
    ensures t.Valid() && Holding(t, held - {n}) && Sorted(t.insert, base, t.Keys())
  {
    hide RedBlack, Distinct, Balanced, InOrder, Sorted, RemovedAt, Tree.Holds, CellOf;
    ItemsInOrder(t.shape);
    ghost var nodes, keys := t.Nodes(), t.Keys();
    assert n in nodes;
    WindowOfKeys(t, held, t.insert, base);
    ghost var at := t.Delete(n);
    NodesRemoved(nodes, at, n, t.Nodes());
    WindowOfKeys(t, held - {n}, t.insert, base);
    assert RemovedAt(keys, at, held[n], t.Keys());
    TakenKey(keys, at, held[n], t.Keys());
    ChangeKeepsSorted(t.insert, base, keys, Remove(at), t.Keys());
  }

  lemma TakenKey(s: seq<Key>, at: nat, key: Key, s': seq<Key>)
    requires RemovedAt(s, at, key, s')
    ensures at < |s| && RemovedAt(s, at, s[at], s')
  {
  }

  /** One call, at an instant that may be later than that of the call before. */
  method Carry(t: Tree, c: Call, ghost base: Key, ghost base': Key, ghost held: map<Node, Key>)
    requires t.Valid() && Holding(t, held) && Sorted(t.insert, base, t.Keys())
    requires c.node != t.sentinel && (c.Put? <==> c.node !in held)
    requires AllHeldFrom(t.insert, base, held) && AllHeldFrom(t.insert, base', held)
      && AllHeldFrom(t.insert, base', After(held, c))
    modifies t, t.sentinel, c.node, set m | m in held
    ensures t.Valid() && Holding(t, After(held, c)) && Sorted(t.insert, base', t.Keys())
  {
    hide Sorted, Tree.Holds, RedBlack, InOrder, AllHeldFrom, Holding;
    WindowOfKeys(t, held, t.insert, base);
    WindowOfKeys(t, held, t.insert, base');
    SortedFromLater(t.insert, base, base', t.Keys());
    match c {
      case Put(n, k) => PutNode(t, n, k, base', held);
      case Take(n) => TakeNode(t, n, base', held);
    }
  }

  /** Any legal calls on a tree that starts empty, and then a traversal: it yields just the nodes that
      were inserted and not deleted again, and their keys in order. */
  method Drive(sentinel: Node, order: Comparison, calls: seq<Call>, ghost bases: seq<Key>)
    returns (t: Tree, visited: seq<Node>)
    requires Legal(order, sentinel, calls, bases, map[])
    modifies sentinel, set c | c in calls :: c.node
    ensures fresh(t) && t.Valid() && visited == t.Nodes() && Holding(t, AfterAll(map[], calls))
    ensures forall i, j | 0 <= i < j < |visited| :: visited[i] != visited[j]
    ensures calls != [] ==> Sorted(order, bases[|bases| - 1], KeysOf(visited))
  {
    assert AllHeldFrom(order, 0, map[]);
    hide Sorted, Tree.Holds, RedBlack, InOrder, AllHeldFrom;
    t := new Tree(sentinel, order);
    ghost var held: map<Node, Key>, base: Key, touched := map[], 0, set c | c in calls :: c.node;
    NothingSorted(order, base);
    assert calls[0..] == calls && bases[0..] == bases;
    for i := 0 to |calls|
      invariant fresh(t) && t.Valid() && t.sentinel == sentinel && t.insert == order && Holding(t, held)
      invariant Legal(order, sentinel, calls[i..], bases[i..], held)
        && AfterAll(held, calls[i..]) == AfterAll(map[], calls)
      invariant Sorted(order, base, t.Keys()) && AllHeldFrom(order, base, held)
      invariant i > 0 ==> base == bases[i - 1]
      invariant held.Keys <= touched
    {
      assert calls[i] in calls && calls[i].node in touched;
      assert calls[i..][0] == calls[i] && calls[i..][1..] == calls[i + 1..] && bases[i..][1..] == bases[i + 1..];
      Carry(t, calls[i], base, bases[i], held);
      held, base := After(held, calls[i]), bases[i];
    }
    assert calls[|calls|..] == [];
    visited := t.Traverse();
  }
}
