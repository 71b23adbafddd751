/** The nodes of the red-black tree, and what they contain when they are linked to a tree of a given
    shape.  The lemmas say which cells change when the shape changes. */
module RbNodes {
  import opened RbKeys
  import opened RbShape
  import opened Sequences

  class Node {
    var key: Key
    var left: Node?
    var right: Node?
    var parent: Node?
    var red: bool

    constructor (k: Key)
      ensures key == k
    {
      key := k;
      left, right, parent, red := null, null, null, false;
    }
  }

  /** The contents of a linked node.  `parent == null` leaves the parent pointer open: that
      of the root may be stale after a delete. */
  datatype Cell = Cell(left: Node, right: Node, parent: Node?, red: bool)

  /** The node that a pointer to the subtree `t` holds. */
  ghost function Ptr(t: Shape<Node>, s: Node): Node {
    if t.Leaf? then s else t.node
  }

  /** The parent of the hole of `c`, when `p` is the parent of the whole. */
  ghost function Above(c: Path<Node>, p: Node?): Node? {
    if c.Top? then p else c.node
  }

  /** What the node `n` of `t` contains when `p` is the parent of the root of `t` and `s` the sentinel. */
  ghost function CellOf(t: Shape<Node>, p: Node?, n: Node, s: Node): Cell
    requires n in Items(t)
  {
    if n in Items(t.left) then CellOf(t.left, t.node, n, s)
    else if n in Items(t.right) then CellOf(t.right, t.node, n, s)
    else Cell(Ptr(t.left, s), Ptr(t.right, s), p, t.red)
  }

  /** What the node `n` along or beside the path contains when `child` is in the hole and
      `p` is the parent of the whole. */
  ghost function PathCellOf(c: Path<Node>, child: Node, p: Node?, n: Node, s: Node): Cell
    requires n in PathItems(c)
  {
    if n in PathItems(c.up) then PathCellOf(c.up, c.node, p, n, s)
    else if n in Items(c.sibling) then CellOf(c.sibling, c.node, n, s)
    else if c.onLeft then Cell(child, Ptr(c.sibling, s), Above(c.up, p), c.red)
    else Cell(Ptr(c.sibling, s), child, Above(c.up, p), c.red)
  }

  lemma {:induction false} CellOfPlug(c: Path<Node>, t: Shape<Node>, p: Node?, n: Node, s: Node)
    requires Distinct(Plug(c, t)) && n in Items(Plug(c, t))
    ensures n in Items(t) ==> CellOf(Plug(c, t), p, n, s) == CellOf(t, Above(c, p), n, s)
    ensures n !in Items(t) ==> n in PathItems(c) && CellOf(Plug(c, t), p, n, s) == PathCellOf(c, Ptr(t, s), p, n, s)
  {
    DistinctPlug(c, t);
    if c.Step? {
      DistinctPlug(c.up, Fill(c, t));
      CellOfPlug(c.up, Fill(c, t), p, n, s);
    }
  }

  lemma {:induction false} CellReparented(t: Shape<Node>, p: Node?, q: Node?, n: Node, s: Node)
    requires n in Items(t) && Distinct(t)
    ensures CellOf(t, q, n, s) == if n == t.node then CellOf(t, p, n, s).(parent := q) else CellOf(t, p, n, s)
  {
  }

  lemma {:induction false} PathCellRelinked(c: Path<Node>, child: Node, child': Node, p: Node?, n: Node, s: Node)
    requires n in PathItems(c) && PathDistinct(c)
    ensures var e := PathCellOf(c, child, p, n, s);
      PathCellOf(c, child', p, n, s) ==
        if n != c.node then e else if c.onLeft then e.(left := child') else e.(right := child')
  {
  }

  /** The cells of the node `n` on either side of a rotation: `x` and `y` are the nodes that
      change places, `b` the subtree that changes sides, `up` the parent of the higher node. */
  ghost predicate RotatedCell(n: Node, l: Cell, h: Cell, x: Node, y: Node, b: Node, up: Node?, s: Node) {
    if n == x then l.right == y && l.parent == up && h == l.(right := b, parent := y)
    else if n == y then l.left == b && l.parent == x && h == l.(left := x, parent := up)
    else if n == b then l.parent == y && h == l.(parent := x)
    else if n == up then
      if l.left == x then l.right != x && l.right != y && h == l.(left := y)
      else l.right == x && l.left != y && h == l.(right := y)
    else h == l
  }

  /** `high` is `low` rotated to the left at `x`. */
  ghost predicate Rotation(low: Shape<Node>, high: Shape<Node>, x: Node, y: Node, b: Node, up: Node?, s: Node) {
    && Distinct(low) && Distinct(high) && Items(low) == Items(high)
    && x in Items(low) && y in Items(low) && x != y && b != x && b != y
    && (b == s || b in Items(low))
    && Ptr(high, s) == (if up == null then y else Ptr(low, s))
    && Ptr(low, s) == (if up == null then x else Ptr(high, s))
    && (up != null ==> up in Items(low) && up != x && up != y && up != b && Ptr(low, s) != x && Ptr(low, s) != y)
    && forall n | n in Items(low) :: RotatedCell(n, CellOf(low, null, n, s), CellOf(high, null, n, s), x, y, b, up, s)
  }

  lemma {:induction false} RotationCell(c: Path<Node>, t: Shape<Node>, n: Node, s: Node)
    requires Distinct(Plug(c, t)) && s !in Items(Plug(c, t)) && n in Items(Plug(c, t))
    requires t.Branch? && t.right.Branch?
    ensures var low, high := Plug(c, t), Plug(c, LeftTurn(t));
      && Distinct(high) && n in Items(high)
      && RotatedCell(n, CellOf(low, null, n, s), CellOf(high, null, n, s), t.node, t.right.node, Ptr(t.right.left, s),
        Above(c, null), s)
  {
    var t', b := LeftTurn(t), t.right.left;
    TurnKeepsOrder(t);
    DistinctPlug(c, t);
    DistinctPlug(c, t');
    CellOfPlug(c, t, null, n, s);
    CellOfPlug(c, t', null, n, s);
    if n !in Items(t) {
      PathCellRelinked(c, t.node, t'.node, null, n, s);
    } else if n in Items(b) {
      CellReparented(b, t'.node, t.node, n, s);
    }
  }

  lemma {:induction false} PlugRotation(c: Path<Node>, t: Shape<Node>, s: Node)
    requires Distinct(Plug(c, t)) && s !in Items(Plug(c, t))
    requires t.Branch? && t.right.Branch?
    ensures Rotation(Plug(c, t), Plug(c, LeftTurn(t)), t.node, t.right.node, Ptr(t.right.left, s), Above(c, null), s)
  {
    var t' := LeftTurn(t);
    TurnKeepsOrder(t);
    DistinctPlug(c, t);
    DistinctPlug(c, t');
    if c.Step? { PlugRoot(c, t, t'); }
    forall n | n in Items(Plug(c, t))
      ensures n in Items(Plug(c, t'))
      ensures RotatedCell(n, CellOf(Plug(c, t), null, n, s), CellOf(Plug(c, t'), null, n, s), t.node, t'.node,
        Ptr(t.right.left, s), Above(c, null), s)
    {
      RotationCell(c, t, n, s);
    }
  }

  /** The cells of the node `m` before and after `x` takes the place of `y`. */
  ghost predicate ReplacedCell(m: Node, e: Cell, e': Cell, y: Node, x: Node, l: Node, r: Node, up: Node?) {
    if m == l || m == r then e.parent == y && e' == e.(parent := x)
    else if m == up then
      if e.left == y then e.right != y && e' == e.(left := x)
      else e.right == y && e' == e.(right := x)
    else e' == e
  }

  /** `high` is `low` with `x` in the place of `y`, whose children are `l` and `r`. */
  ghost predicate Replacement(low: Shape<Node>, high: Shape<Node>, y: Node, x: Node, l: Node, r: Node, up: Node?,
          s: Node) {
    && Distinct(low) && Distinct(high) && Items(high) == Items(low) - {y} + {x}
    && y in Items(low) && x !in Items(low) && x != s
    && (l == s || l in Items(low)) && (r == s || r in Items(low)) && l != y && r != y
    && (up == null ==> Ptr(low, s) == y && Ptr(high, s) == x)
    && (up != null ==>
          && Ptr(low, s) == Ptr(high, s) && Ptr(low, s) != y && up in Items(low)
          && up != y && up != l && up != r)
    && CellOf(high, null, x, s) == CellOf(low, null, y, s)
    && (var e := CellOf(low, null, y, s); e.left == l && e.right == r && e.parent == up)
    && forall m | m in Items(low) && m != y ::
         ReplacedCell(m, CellOf(low, null, m, s), CellOf(high, null, m, s), y, x, l, r, up)
  }

  lemma {:induction false} ReplacementCell(c: Path<Node>, t: Shape<Node>, x: Node, m: Node, s: Node)
    requires t.Branch? && Distinct(Plug(c, t)) && s !in Items(Plug(c, t)) && x !in Items(Plug(c, t)) && x != s
    requires m in Items(Plug(c, t)) && m != t.node
    ensures Items(Plug(c, t.(node := x))) == Items(Plug(c, t)) - {t.node} + {x}
    ensures ReplacedCell(m, CellOf(Plug(c, t), null, m, s), CellOf(Plug(c, t.(node := x)), null, m, s),
                         t.node, x, Ptr(t.left, s), Ptr(t.right, s), Above(c, null))
  {
    var t', y := t.(node := x), t.node;
    DistinctPlug(c, t);
    DistinctPlug(c, t');
    CellOfPlug(c, t, null, m, s);
    CellOfPlug(c, t', null, m, s);
    if m in Items(t.left) {
      CellReparented(t.left, y, x, m, s);
    } else if m in Items(t.right) {
      CellReparented(t.right, y, x, m, s);
    } else {
      PathCellRelinked(c, y, x, null, m, s);
    }
  }

  lemma {:induction false} PlugReplacement(c: Path<Node>, t: Shape<Node>, x: Node, s: Node)
    requires t.Branch? && Distinct(Plug(c, t)) && s !in Items(Plug(c, t)) && x !in Items(Plug(c, t)) && x != s
    ensures Replacement(Plug(c, t), Plug(c, t.(node := x)), t.node, x, Ptr(t.left, s), Ptr(t.right, s),
      Above(c, null), s)
  {
    var t' := t.(node := x);
    DistinctPlug(c, t);
    DistinctPlug(c, t');
    if c.Step? { PlugRoot(c, t, t'); }
    CellOfPlug(c, t, null, t.node, s);
    CellOfPlug(c, t', null, x, s);
    forall m | m in Items(Plug(c, t)) && m != t.node
      ensures m in Items(Plug(c, t'))
      ensures ReplacedCell(m, CellOf(Plug(c, t), null, m, s), CellOf(Plug(c, t'), null, m, s), t.node, x,
        Ptr(t.left, s), Ptr(t.right, s), Above(c, null))
    {
      ReplacementCell(c, t, x, m, s);
    }
  }

  ghost function KeysOf(s: seq<Node>): (keys: seq<Key>)
    reads (set n | n in s)`key
    ensures |keys| == |s| && forall i | 0 <= i < |s| :: keys[i] == s[i].key
  {
    if s == [] then [] else [s[0].key] + KeysOf(s[1..])
  }

  lemma {:induction false} NarrowedDown(order: Comparison, base: Key, keys: seq<Key>, c: Path<Node>, t: Shape<Node>,
          k: Key, at: Key)
    requires t.Branch? && Between(order, base, keys, |Before(c)|, |Before(c)| + |InOrder(t)|, k)
    requires keys[|Before(c)| + |InOrder(t.left)|] == at
    ensures var c', u := Down(c, t, GoesLeft(order, k, at)), Subtree(t, GoesLeft(order, k, at));
      Between(order, base, keys, |Before(c')|, |Before(c')| + |InOrder(u)|, k)
  {
    var lo, m, hi := |Before(c)|, |Before(c)| + |InOrder(t.left)|, |Before(c)| + |InOrder(t)|;
    PlugDown(c, t, GoesLeft(order, k, at));
    Narrowed(order, base, keys, lo, m, hi, k);
  }

  /** The cells of the tree with the red leaf `x` below `p`, in the hole of the path `c`. */
  lemma {:induction false} AttachedCells(c: Path<Node>, x: Node, s: Node)
    requires c.Step? && Distinct(Plug(c, Leaf)) && s !in Items(Plug(c, Leaf))
    requires x !in Items(Plug(c, Leaf)) && x != s
    ensures var low, high := Plug(c, Leaf), Plug(c, Branch(Leaf, x, true, Leaf));
      && Distinct(high) && Items(high) == Items(low) + {x} && c.node in Items(low)
      && s !in Items(high) && Ptr(high, s) == Ptr(low, s) && CellOf(high, null, x, s) == Cell(s, s, c.node, true)
      && forall m | m in Items(low) ::
           var e := CellOf(low, null, m, s);
           CellOf(high, null, m, s) == if m != c.node then e else if c.onLeft then e.(left := x) else e.(right := x)
  {
    var t' := Branch(Leaf, x, true, Leaf);
    var low, high := Plug(c, Leaf), Plug(c, t');
    DistinctPlug(c, Leaf);
    DistinctPlug(c, t');
    PlugRoot(c, Leaf, t');
    CellOfPlug(c, t', null, x, s);
    forall m | m in Items(low)
      ensures var e := CellOf(low, null, m, s);
        CellOf(high, null, m, s) == if m != c.node then e else if c.onLeft then e.(left := x) else e.(right := x)
    {
      CellOfPlug(c, t', null, m, s);
      CellOfPlug(c, Leaf, null, m, s);
      PathCellRelinked(c, s, x, null, m, s);
    }
  }

  lemma KeysOfPieces(a: seq<Node>, b: seq<Node>)
    ensures KeysOf(a + b) == KeysOf(a) + KeysOf(b)
  {
    forall i | 0 <= i < |a + b|
      ensures KeysOf(a + b)[i] == (KeysOf(a) + KeysOf(b))[i]
    {
      assert (a + b)[i] == if i < |a| then a[i] else b[i - |a|];
    }
  }

  lemma KeysOfLength(s: seq<Node>)
    ensures |KeysOf(s)| == |s|
  {
  }

  lemma KeysOfSlices(s: seq<Node>, k: nat)
    requires k <= |s|
    ensures KeysOf(s[..k]) == KeysOf(s)[..k] && KeysOf(s[k..]) == KeysOf(s)[k..]
  {
    hide KeysOf;
    var a, b := s[..k], s[k..];
    assert a + b == s;
    KeysOfLength(a);
    KeysOfPieces(a, b);
    Parts(KeysOf(a), KeysOf(b), 0);
  }

  lemma KeysOfInserted(s: seq<Node>, k: nat, n: Node)
    requires k <= |s|
    ensures InsertedAt(KeysOf(s), k, n.key, KeysOf(s[..k] + [n] + s[k..]))
  {
    var a, b := s[..k], s[k..];
    KeysOfSlices(s, k);
    KeysOfPieces(a + [n], b);
    KeysOfPieces(a, [n]);
    assert KeysOf([n]) == [n.key];
  }

  lemma KeysRemoved(s: seq<Node>, k: nat, n: Node, s': seq<Node>, keys: seq<Key>)
    requires RemovedAt(s, k, n, s') && |keys| == |s| && forall i | 0 <= i < |s| && s[i] in s' :: s[i].key == keys[i]
    ensures k < |keys| && RemovedAt(keys, k, keys[k], KeysOf(s'))
  {
    var rest := keys[..k] + keys[k + 1..];
    forall i | 0 <= i < |s'|
      ensures KeysOf(s')[i] == rest[i]
    {
      assert s[if i < k then i else i + 1] == s'[i];
    }
  }

  lemma {:induction false} AllAllocated(t: Shape<Node>)
    ensures forall n | n in Items(t) :: allocated(n)
  {
    if t.Branch? {
      AllAllocated(t.left);
      AllAllocated(t.right);
    }
  }

  lemma {:induction false} AllocatedNodes(t: Shape<Node>)
    ensures forall i | 0 <= i < |InOrder(t)| :: allocated(InOrder(t)[i])
  {
    ItemsInOrder(t);
    AllAllocated(t);
  }
}
