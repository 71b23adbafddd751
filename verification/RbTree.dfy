/** The intrusive red-black tree on linked nodes, with parent pointers and one sentinel. */
module RbTree {
  import opened Powers
  import opened RbKeys
  import opened RbNodes
  import opened RbShape

  class Tree {
    var root: Node
    const sentinel: Node
    const insert: Comparison
    ghost var shape: Shape<Node>

    constructor (s: Node, i: Comparison)
      modifies s`red
      ensures sentinel == s && insert == i && Valid() && Nodes() == []
    {
      root, sentinel, insert := s, s, i;
      shape := Leaf;
      new;
      s.red := false;
    }

    /** The heap holds a red-black tree. */
    ghost predicate Valid()
      reads this, sentinel, Items(shape)
    {
      Holds(shape) && RedBlack(shape)
    }

    /** The nodes of the tree from left to right, and their keys. */
    ghost function Nodes(): seq<Node>
      reads this
    {
      InOrder(shape)
    }

    ghost function Keys(): seq<Key>
      reads this, (set n | n in Nodes())`key
    {
      KeysOf(Nodes())
    }

    /** The nodes of the heap hold the tree `t`. */
    ghost predicate Holds(t: Shape<Node>)
      reads `root, sentinel, Items(t)
    {
      && Distinct(t) && sentinel !in Items(t) && !sentinel.red
      && root == Ptr(t, sentinel)
      && forall n | n in Items(t) :: var e := CellOf(t, null, n, sentinel);
           && n.left == e.left && n.right == e.right && n.red == e.red
           && (e.parent != null ==> n.parent == e.parent)
    }

    /** The nodes hold the tree `t`, except perhaps that the parent pointer of `x` is wrong. */
    ghost predicate HoldsExcept(t: Shape<Node>, x: Node)
      reads `root, sentinel, Items(t)
    {
      && Distinct(t) && sentinel !in Items(t) && !sentinel.red
      && root == Ptr(t, sentinel)
      && forall n | n in Items(t) :: var e := CellOf(t, null, n, sentinel);
           && n.left == e.left && n.right == e.right && n.red == e.red
           && (e.parent != null && n != x ==> n.parent == e.parent)
    }

    /** What the heap says about the node at the root of the subtree `t`. */
    lemma {:induction false} LookAt(c: Path<Node>, t: Shape<Node>)
      requires t.Branch? && Holds(Plug(c, t))
      ensures t.node in Items(Plug(c, t)) && t.node != sentinel
      ensures (t.left.Branch? ==> t.left.node != sentinel) && (t.right.Branch? ==> t.right.node != sentinel)
      ensures t.node.left == Ptr(t.left, sentinel) && t.node.right == Ptr(t.right, sentinel) && t.node.red == t.red
      ensures root == t.node <==> c.Top?
      ensures c.Step? ==> t.node.parent == c.node
    {
      DistinctPlug(c, t);
      CellOfPlug(c, t, null, t.node, sentinel);
      if c.Step? { PlugRoot(c, t, t); }
    }

    lemma {:induction false} LookAtRoot(t: Shape<Node>)
      requires t.Branch? && Holds(t)
      ensures root == t.node && root in Items(t)
    {
    }

    // ---------- colours ----------

    /** Recolouring the root of a subtree changes one cell. */
    lemma {:induction false} RecolouredCells(c: Path<Node>, t: Shape<Node>, red: bool)
      requires t.Branch? && Holds(Plug(c, t))
      ensures var low, high := Plug(c, t), Plug(c, t.(red := red));
        && Distinct(high) && SameItems(low, high) && Ptr(low, sentinel) == Ptr(high, sentinel) && t.node in Items(low)
        && forall m | m in Items(low) ::
             CellOf(high, null, m, sentinel) ==
               if m == t.node then CellOf(low, null, m, sentinel).(red := red) else CellOf(low, null, m, sentinel)
    {
      var s, t' := sentinel, t.(red := red);
      SameItemsPlug(c, t, t');
      DistinctPlug(c, t);
      DistinctPlug(c, t');
      if c.Step? { PlugRoot(c, t, t'); }
      forall m | m in Items(Plug(c, t))
        ensures CellOf(Plug(c, t'), null, m, s) ==
          if m == t.node then CellOf(Plug(c, t), null, m, s).(red := red) else CellOf(Plug(c, t), null, m, s)
      {
        CellOfPlug(c, t, null, m, s);
        CellOfPlug(c, t', null, m, s);
      }
    }

    method SetColour(n: Node, red: bool, ghost c: Path<Node>, ghost t: Shape<Node>)
      requires t.Branch? && t.node == n && Holds(Plug(c, t))
      modifies n`red
      ensures Holds(Plug(c, t.(red := red))) && SameItems(Plug(c, t), Plug(c, t.(red := red)))
    {
      RecolouredCells(c, t, red);
      n.red := red;
    }

    /** Makes the root of the subtree `t` black, or the sentinel if `t` is empty. */
    method BlackenAt(n: Node, ghost c: Path<Node>, ghost t: Shape<Node>)
      requires n == Ptr(t, sentinel) && Holds(Plug(c, t))
      modifies n`red
      ensures Holds(Plug(c, Blacken(t))) && SameItems(Plug(c, t), Plug(c, Blacken(t)))
    {
      if t.Branch? { RecolouredCells(c, t, false); }
      n.red := false;
    }

    // ---------- rotations ----------

    method LeftRotate(node: Node, ghost up: Node?)
      requires node.right != null && node.right.left != null
      requires var y, b := node.right, node.right.left;
        && y != node && b != node && b != y && y != sentinel
        && node != sentinel
      requires up == null <==> node == root
      requires up != null ==> node.parent == up && up != node && up != node.right && up != node.right.left
      requires up != null ==> up.left != up.right && (up.left == node || up.right == node)
      modifies `root, node`right, node`parent, node.right`left, node.right`parent,
               (if node.right.left == sentinel then {} else {node.right.left})`parent,
               (if up == null then {} else {up})`left, (if up == null then {} else {up})`right
      ensures var y, b := old(node.right), old(node.right.left);
        && node.right == b && node.parent == y
        && y.left == node && y.parent == old(node.parent)
        && (b != sentinel ==> b.parent == node)
        && (up == null ==> root == y)
        && (up != null ==>
             && root == old(root)
             && up.left == (if old(up.left) == node then y else old(up.left))
             && up.right == (if old(up.left) == node then old(up.right) else y))
    {
      var temp := node.right;
      node.right := temp.left;
      if temp.left != sentinel { temp.left.parent := node; }
      temp.parent := node.parent;
      if node == root {
        root := temp;
      } else if node == node.parent.left {
        node.parent.left := temp;
      } else {
        node.parent.right := temp;
      }
      temp.left := node;
      node.parent := temp;
    }

    method RightRotate(node: Node, ghost up: Node?)
      requires node.left != null && node.left.right != null
      requires var x, b := node.left, node.left.right;
        && x != node && b != node && b != x && x != sentinel
        && node != sentinel
      requires up == null <==> node == root
      requires up != null ==> node.parent == up && up != node && up != node.left && up != node.left.right
      requires up != null ==> up.left != up.right && (up.left == node || up.right == node)
      modifies `root, node`left, node`parent, node.left`right, node.left`parent,
               (if node.left.right == sentinel then {} else {node.left.right})`parent,
               (if up == null then {} else {up})`left, (if up == null then {} else {up})`right
      ensures var x, b := old(node.left), old(node.left.right);
        && node.left == b && node.parent == x
        && x.right == node && x.parent == old(node.parent)
        && (b != sentinel ==> b.parent == node)
        && (up == null ==> root == x)
        && (up != null ==>
             && root == old(root)
             && up.left == (if old(up.left) == node then x else old(up.left))
             && up.right == (if old(up.left) == node then old(up.right) else x))
    {
      var temp := node.left;
      node.left := temp.right;
      if temp.right != sentinel { temp.right.parent := node; }
      temp.parent := node.parent;
      if node == root {
        root := temp;
      } else if node == node.parent.right {
        node.parent.right := temp;
      } else {
        node.parent.left := temp;
      }
      temp.right := node;
      node.parent := temp;
    }

    /** A left rotation turns the subtree `t` inside the tree. */
    method LeftRotateAt(node: Node, ghost c: Path<Node>, ghost t: Shape<Node>)
      requires t.Branch? && t.right.Branch? && t.node == node && Holds(Plug(c, t))
      modifies `root, Items(Plug(c, t))`left, Items(Plug(c, t))`right, Items(Plug(c, t))`parent
      ensures Holds(Plug(c, LeftTurn(t))) && SameItems(Plug(c, t), Plug(c, LeftTurn(t)))
    {
      TurnKeepsOrder(t);
      SameItemsPlug(c, t, LeftTurn(t));
      ghost var s, y, b, up := sentinel, t.right.node, Ptr(t.right.left, sentinel), Above(c, null);
      ghost var low, high := Plug(c, t), Plug(c, LeftTurn(t));
      PlugRotation(c, t, s);
      LeftRotateBetween(node, low, high, y, b, up);
    }

    method LeftRotateBetween(x: Node, ghost low: Shape<Node>, ghost high: Shape<Node>, ghost y: Node, ghost b: Node,
            ghost up: Node?)
      requires Holds(low) && Rotation(low, high, x, y, b, up, sentinel)
      modifies `root, Items(low)`left, Items(low)`right, Items(low)`parent
      ensures Holds(high)
    {
      ghost var s := sentinel;
      AllAllocated(low);
      assert x.left == CellOf(low, null, x, s).left && y.left == CellOf(low, null, y, s).left;
      assert up != null ==> up.left == CellOf(low, null, up, s).left;
      LeftRotate(x, up);
      forall n | n in Items(high)
        ensures var e := CellOf(high, null, n, s);
           && n.left == e.left && n.right == e.right && n.red == e.red
           && (e.parent != null ==> n.parent == e.parent)
      {
        var l := CellOf(low, null, n, s);
        assert RotatedCell(n, l, CellOf(high, null, n, s), x, y, b, up, s);
        assert old(n.left) == l.left;
      }
    }

    method RightRotateBetween(y: Node, ghost low: Shape<Node>, ghost high: Shape<Node>, ghost x: Node, ghost b: Node,
            ghost up: Node?)
      requires Holds(high) && Rotation(low, high, x, y, b, up, sentinel)
      modifies `root, Items(high)`left, Items(high)`right, Items(high)`parent
      ensures Holds(low)
    {
      ghost var s := sentinel;
      AllAllocated(high);
      assert x.left == CellOf(high, null, x, s).left && y.left == CellOf(high, null, y, s).left;
      assert up != null ==> up.left == CellOf(high, null, up, s).left;
      RightRotate(y, up);
      forall n | n in Items(low)
        ensures var e := CellOf(low, null, n, s);
           && n.left == e.left && n.right == e.right && n.red == e.red
           && (e.parent != null ==> n.parent == e.parent)
      {
        var h := CellOf(high, null, n, s);
        assert RotatedCell(n, CellOf(low, null, n, s), h, x, y, b, up, s);
        assert old(n.left) == h.left;
      }
    }

    method RightRotateAt(node: Node, ghost c: Path<Node>, ghost t: Shape<Node>)
      requires t.Branch? && t.left.Branch? && t.node == node && Holds(Plug(c, t))
      modifies `root, Items(Plug(c, t))`left, Items(Plug(c, t))`right, Items(Plug(c, t))`parent
      ensures Holds(Plug(c, RightTurn(t))) && SameItems(Plug(c, t), Plug(c, RightTurn(t)))
    {
      ghost var s, x, b, up := sentinel, t.left.node, Ptr(t.left.right, sentinel), Above(c, null);
      ghost var t' := RightTurn(t);
      TurnKeepsOrder(t');
      SameItemsPlug(c, t', t);
      DistinctPlug(c, t);
      DistinctPlug(c, t');
      PlugRotation(c, t', s);
      RightRotateBetween(node, Plug(c, t'), Plug(c, t), x, b, up);
    }

    // ---------- insert ----------

    /** The state of the insert fix-up at the red node `n`: nothing is wrong but that its
        parent may be red, or that it may be the root. */
    ghost predicate RedAt(c: Path<Node>, t: Shape<Node>, n: Node)
      reads `root, sentinel, Items(Plug(c, t))
    {
      RedFits(c, t) && t.node == n && Holds(Plug(c, t))
    }

    lemma {:induction false} LookAbove(c: Path<Node>, t: Shape<Node>)
      requires t.Branch? && Holds(Plug(c, t))
      ensures c.Step? <==> t.node != root
      ensures c.Step? ==> t.node.parent == c.node && c.node.red == c.red
    {
      LookAt(c, t);
      if c.Step? { LookAt(c.up, Fill(c, t)); }
    }

    /** The parent, the grandparent and the uncle of the root of `t`. */
    lemma {:induction false} LookAround(c: Path<Node>, t: Shape<Node>)
      requires t.Branch? && c.Step? && c.up.Step? && Holds(Plug(c, t))
      ensures t.node.parent == c.node && c.node.parent == c.up.node
      ensures c.node.left == (if c.onLeft then t.node else Ptr(c.sibling, sentinel))
      ensures c.node.right == (if c.onLeft then Ptr(c.sibling, sentinel) else t.node)
      ensures c.up.node.left == (if c.up.onLeft then c.node else Ptr(c.up.sibling, sentinel))
      ensures c.up.node.right == (if c.up.onLeft then Ptr(c.up.sibling, sentinel) else c.node)
      ensures Ptr(c.up.sibling, sentinel) != c.node && Ptr(c.sibling, sentinel) != t.node
      ensures Ptr(c.up.sibling, sentinel).red == IsRed(c.up.sibling)
    {
      var g := c.up;
      LookAt(c, t);
      LookAt(g, Fill(c, t));
      LookAt(g.up, Fill(g, Fill(c, t)));
      DistinctPlug(c, t);
      DistinctPlug(g, Fill(c, t));
      if g.sibling.Branch? { LookAt(Step(g.up, !g.onLeft, g.node, g.red, Fill(c, t)), g.sibling); }
    }

    /** The subtree `t`, red at its root, under a red parent with a red uncle: the redness
        moves to the grandparent. */
    method PushRednessUp(node: Node, temp: Node, ghost c: Path<Node>, ghost t: Shape<Node>)
      returns (up: Node, ghost c': Path<Node>, ghost t': Shape<Node>)
      requires RedAt(c, t, node) && c.Step? && c.red && c.up.Step? && IsRed(c.up.sibling) && temp == c.up.sibling.node
      modifies Items(Plug(c, t))`red
      ensures RedAt(c', t', up) && SameItems(Plug(c, t), Plug(c', t')) && c' == c.up.up
    {
      ghost var g, p := c.up, Blacken(Fill(c, t));
      LookAround(c, t);
      LookAt(g, Fill(c, t));
      LookAt(g.up, Fill(g, Fill(c, t)));
      SetColour(node.parent, false, g, Fill(c, t));
      ghost var beside := Step(g.up, !g.onLeft, g.node, g.red, p);
      LookAt(beside, g.sibling);
      SetColour(temp, false, beside, g.sibling);
      SetColour(node.parent.parent, true, g.up, Fill(beside, Blacken(g.sibling)));
      up := node.parent.parent;
      c', t' := g.up, Fill(g.(red := true, sibling := Blacken(g.sibling)), p);
      PushedFits(c, t);
    }

    /** Makes the parent black and the grandparent red. */
    method PaintParents(node: Node, ghost c: Path<Node>, ghost t: Shape<Node>)
      requires RedAt(c, t, node) && c.Step? && c.up.Step?
      modifies Items(Plug(c, t))`red
      ensures var g := c.up; var top := Fill(g, Fill(c, t).(red := false)).(red := true);
        && Holds(Plug(g.up, top)) && SameItems(Plug(c, t), Plug(g.up, top))
        && node.parent != null && node.parent.parent == g.node
    {
      ghost var g := c.up;
      ghost var p := Fill(c, t).(red := false);
      LookAt(c, t);
      LookAt(g, Fill(c, t));
      LookAt(g.up, Fill(g, Fill(c, t)));
      SetColour(node.parent, false, g, Fill(c, t));
      SetColour(node.parent.parent, true, g.up, Fill(g, p));
    }

    /** A red node and its red parent, both on the left, the other child of the grandparent
        black: the parent becomes the black root of the grandparent's subtree. */
    method LiftFromLeft(node: Node, ghost c: Path<Node>, ghost t: Shape<Node>)
      returns (ghost c': Path<Node>)
      requires RedAt(c, t, node) && c.Step? && c.red && c.up.Step? && c.onLeft && c.up.onLeft && !IsRed(c.up.sibling)
      modifies `root, Items(Plug(c, t))`left, Items(Plug(c, t))`right, Items(Plug(c, t))`parent, Items(Plug(c, t))`red
      ensures RedAt(c', t, node) && SameItems(Plug(c, t), Plug(c', t))
      ensures c'.Step? && c'.up == c.up.up && !c'.red
    {
      ghost var g := c.up;
      LiftedFits(c, t);
      PaintParents(node, c, t);
      RightRotateAt(node.parent.parent, g.up, Branch(Branch(t, c.node, false, c.sibling), g.node, true, g.sibling));
      c' := Lifted(c);
    }

    /** The mirror image of `LiftFromLeft`. */
    method LiftFromRight(node: Node, ghost c: Path<Node>, ghost t: Shape<Node>)
      returns (ghost c': Path<Node>)
      requires RedAt(c, t, node) && c.Step? && c.red && c.up.Step? && !c.onLeft && !c.up.onLeft && !IsRed(c.up.sibling)
      modifies `root, Items(Plug(c, t))`left, Items(Plug(c, t))`right, Items(Plug(c, t))`parent, Items(Plug(c, t))`red
      ensures RedAt(c', t, node) && SameItems(Plug(c, t), Plug(c', t))
      ensures c'.Step? && c'.up == c.up.up && !c'.red
    {
      ghost var g := c.up;
      LiftedFits(c, t);
      PaintParents(node, c, t);
      LeftRotateAt(node.parent.parent, g.up, Branch(g.sibling, g.node, true, Branch(c.sibling, c.node, false, t)));
      c' := Lifted(c);
    }

    /** One round of the insert fix-up on the left of the grandparent. */
    method FixLeft(node: Node, ghost c: Path<Node>, ghost t: Shape<Node>)
      returns (node': Node, ghost c': Path<Node>, ghost t': Shape<Node>)
      requires RedAt(c, t, node) && c.Step? && c.red && c.up.Step? && c.up.onLeft
      modifies `root, Items(Plug(c, t))`left, Items(Plug(c, t))`right, Items(Plug(c, t))`parent, Items(Plug(c, t))`red
      ensures RedAt(c', t', node') && SameItems(Plug(c, t), Plug(c', t')) && Depth(c') < Depth(c)
    {
      ghost var g := c.up;
      LookAround(c, t);
      StraightenedFits(c, t);
      var temp := node.parent.parent.right;
      if temp.red {
        node', c', t' := PushRednessUp(node, temp, c, t);
      } else {
        node', c', t' := node, c, t;
        if node' == node'.parent.right {
          node' := node'.parent;
          LeftRotateAt(node', g, Fill(c, t));
          c', t' := Step(g, true, t.node, true, t.right), Branch(c.sibling, c.node, true, t.left);
        }
        c' := LiftFromLeft(node', c', t');
      }
    }

    /** One round of the insert fix-up on the right of the grandparent. */
    method FixRight(node: Node, ghost c: Path<Node>, ghost t: Shape<Node>)
      returns (node': Node, ghost c': Path<Node>, ghost t': Shape<Node>)
      requires RedAt(c, t, node) && c.Step? && c.red && c.up.Step? && !c.up.onLeft
      modifies `root, Items(Plug(c, t))`left, Items(Plug(c, t))`right, Items(Plug(c, t))`parent, Items(Plug(c, t))`red
      ensures RedAt(c', t', node') && SameItems(Plug(c, t), Plug(c', t')) && Depth(c') < Depth(c)
    {
      ghost var g := c.up;
      LookAround(c, t);
      StraightenedFits(c, t);
      var temp := node.parent.parent.left;
      if temp.red {
        node', c', t' := PushRednessUp(node, temp, c, t);
      } else {
        node', c', t' := node, c, t;
        if node' == node'.parent.left {
          node' := node'.parent;
          RightRotateAt(node', g, Fill(c, t));
          c', t' := Step(g, false, t.node, true, t.left), Branch(t.right, c.node, true, c.sibling);
        }
        c' := LiftFromRight(node', c', t');
      }
    }

    /** Restores the colours from the red node `node0` upwards, its parent being possibly red. */
    method InsertFixup(node0: Node, ghost c0: Path<Node>, ghost t0: Shape<Node>)
      returns (ghost shape': Shape<Node>)
      requires RedAt(c0, t0, node0)
      modifies `root, Items(Plug(c0, t0))`left, Items(Plug(c0, t0))`right, Items(Plug(c0, t0))`parent,
        Items(Plug(c0, t0))`red
      ensures Holds(shape') && RedBlack(shape') && SameItems(Plug(c0, t0), shape')
    {
      var node := node0;
      ghost var c, t := c0, t0;
      LookAbove(c, t);
      while node != root && node.parent.red
        invariant RedAt(c, t, node) && SameItems(Plug(c0, t0), Plug(c, t))
        invariant c.Step? <==> node != root
        invariant c.Step? ==> node.parent == c.node && c.node.red == c.red
        decreases Depth(c)
      {
        GrandparentIsBlack(c, t);
        LookAround(c, t);
        if node.parent == node.parent.parent.left {
          node, c, t := FixLeft(node, c, t);
        } else {
          node, c, t := FixRight(node, c, t);
        }
        LookAbove(c, t);
      }
      InsertDone(c, t);
      LookAtRoot(Plug(c, t));
      SetColour(root, false, Top, Plug(c, t));
      shape' := Blacken(Plug(c, t));
    }

    /** Walks down from the root to the empty place where `node` belongs. */
    method FindPlace(node: Node, ghost base: Key, ghost keys: seq<Key>)
      returns (temp: Node, goLeft: bool, ghost c: Path<Node>)
      requires Holds(shape) && shape.Branch? && Keys() == keys
      ensures Holds(shape) && c.Step? && c.node == temp && c.onLeft == goLeft && Plug(c, Leaf) == shape
      ensures Keys() == keys && Between(insert, base, keys, |Before(c)|, |Before(c)|, node.key)
      ensures goLeft == GoesLeft(insert, node.key, temp.key) && (if goLeft then temp.left else temp.right) == sentinel
    {
      temp := root;
      c := Top;
      ghost var t := shape;
      LookAt(c, t);
      while true
        invariant t.Branch? && t.node == temp && Plug(c, t) == shape && Holds(shape) && Keys() == keys
        invariant LinksOf(t)
        invariant Between(insert, base, keys, |Before(c)|, |Before(c)| + |InOrder(t)|, node.key)
        decreases t
      {
        goLeft := GoesLeft(insert, node.key, temp.key);
        var p := if goLeft then temp.left else temp.right;
        ghost var below := Subtree(t, goLeft);
        StepDown(c, t, base, keys, node.key);
        c := Down(c, t, goLeft);
        if p == sentinel { break; }
        t := below;
        temp := p;
      }
    }

    lemma {:induction false} StepDown(c: Path<Node>, t: Shape<Node>, base: Key, keys: seq<Key>, k: Key)
      requires t.Branch? && Plug(c, t) == shape && Holds(shape) && Keys() == keys
      requires Between(insert, base, keys, |Before(c)|, |Before(c)| + |InOrder(t)|, k)
      ensures var l := GoesLeft(insert, k, t.node.key);
        var u, c' := Subtree(t, l), Down(c, t, l);
        && Plug(c', u) == shape && (u.Branch? ==> LinksOf(u))
        && Between(insert, base, keys, |Before(c')|, |Before(c')| + |InOrder(u)|, k)
    {
      var l := GoesLeft(insert, k, t.node.key);
      KeyAt(c, t);
      PlugDown(c, t, l);
      NarrowedDown(insert, base, keys, c, t, k, t.node.key);
      if Subtree(t, l).Branch? { LookAt(Down(c, t, l), Subtree(t, l)); }
    }

    ghost predicate LinksOf(t: Shape<Node>)
      requires t.Branch?
      reads t.node
    {
      t.node != sentinel && t.node.left == Ptr(t.left, sentinel) && t.node.right == Ptr(t.right, sentinel)
    }

    lemma {:induction false} KeyAt(c: Path<Node>, t: Shape<Node>)
      requires t.Branch? && Plug(c, t) == shape
      ensures |Before(c)| + |InOrder(t)| <= |Keys()| && Keys()[|Before(c)| + |InOrder(t.left)|] == t.node.key
    {
      ItemAt(c, t);
    }

    /** Links the fresh node `node` into the hole of the path, coloured red. */
    method AttachLeaf(temp: Node, node: Node, goLeft: bool, ghost c: Path<Node>)
      requires c.Step? && c.node == temp && c.onLeft == goLeft && Holds(Plug(c, Leaf))
      requires node !in Items(Plug(c, Leaf)) && node != sentinel
      modifies temp`left, temp`right, node`left, node`right, node`parent, node`red
      ensures Holds(Plug(c, Branch(Leaf, node, true, Leaf)))
    {
      ghost var s, low, high := sentinel, Plug(c, Leaf), Plug(c, Branch(Leaf, node, true, Leaf));
      AttachedCells(c, node, s);
      AllAllocated(low);
      hide Plug, Distinct, Items, CellOf;
      Attach(temp, node, goLeft);
      forall m | m in Items(high)
        ensures var e := CellOf(high, null, m, s);
          && m.left == e.left && m.right == e.right && m.red == e.red
          && (e.parent != null ==> m.parent == e.parent)
      {
        if m != node { assert old(m.left) == CellOf(low, null, m, s).left; }
      }
    }

    method Attach(temp: Node, node: Node, goLeft: bool)
      requires temp != node
      modifies temp`left, temp`right, node`left, node`right, node`parent, node`red
      ensures if goLeft then temp.left == node && temp.right == old(temp.right)
        else temp.right == node && temp.left == old(temp.left)
      ensures node.parent == temp && node.left == node.right == sentinel && node.red
    {
      if goLeft { temp.left := node; } else { temp.right := node; }
      node.parent := temp;
      node.left := sentinel;
      node.right := sentinel;
      node.red := true;
    }

    method Insert(node: Node, ghost base: Key) returns (ghost k: nat)
      requires Valid()
      requires node !in Nodes() && node != sentinel
      modifies `root, `shape, Items(shape)`left, Items(shape)`right, Items(shape)`parent, Items(shape)`red,
               node`left, node`right, node`parent, node`red
      ensures Valid()
      ensures InsertedAt(old(Nodes()), k, node, Nodes()) && InsertedAt(old(Keys()), k, node.key, Keys())
      ensures Between(insert, base, old(Keys()), k, k, node.key)
    {
      ItemsInOrder(shape);
      AllAllocated(shape);
      ghost var s, keys := Nodes(), Keys();
      if root == sentinel {
        InsertFirst(node);
        k := 0;
        assert keys == [];
      } else {
        k := InsertBelowRoot(node, base, keys);
      }
      forall i | 0 <= i < |s| ensures KeysOf(s)[i] == keys[i] {
        assert s[i] in Items(old(shape));
        assert old(s[i].key) == s[i].key;
      }
      KeysOfInserted(s, k, node);
    }

    method InsertFirst(node: Node)
      requires Valid() && root == sentinel && node != sentinel
      modifies `root, `shape, node`left, node`right, node`parent, node`red
      ensures Valid() && old(Nodes()) == [] && Nodes() == [node]
    {
      node.parent := null;
      node.left := sentinel;
      node.right := sentinel;
      node.red := false;
      root := node;
      shape := Branch(Leaf, node, false, Leaf);
    }

    method InsertBelowRoot(node: Node, ghost base: Key, ghost keys: seq<Key>) returns (ghost k: nat)
      requires Valid() && shape.Branch? && Keys() == keys
      requires node !in Items(shape) && node != sentinel
      modifies `root, `shape, Items(shape)`left, Items(shape)`right, Items(shape)`parent, Items(shape)`red,
               node`left, node`right, node`parent, node`red
      ensures Valid()
      ensures InsertedAt(old(Nodes()), k, node, Nodes())
      ensures Between(insert, base, keys, k, k, node.key)
    {
      var temp, goLeft;
      ghost var c;
      temp, goLeft, c := FindPlace(node, base, keys);
      k := |Before(c)|;
      InOrderInsert(c, node, true);
      DistinctPlug(c, Leaf);
      AttachLeaf(temp, node, goLeft, c);
      BalanceLeaf(node, c);
    }

    method BalanceLeaf(node: Node, ghost c: Path<Node>)
      requires Holds(Plug(c, Branch(Leaf, node, true, Leaf))) && RedBlack(Plug(c, Leaf))
      modifies `root, `shape, PathItems(c)`left, PathItems(c)`right, PathItems(c)`parent, PathItems(c)`red,
               node`left, node`right, node`parent, node`red
      ensures Valid() && Nodes() == InOrder(Plug(c, Branch(Leaf, node, true, Leaf)))
    {
      ghost var t := Branch(Leaf, node, true, Leaf);
      DistinctPlug(c, t);
      LeafFits(c, node);
      ghost var shape' := InsertFixup(node, c, t);
      shape := shape';
    }

    // ---------- delete: the fix-up ----------

    /** The state of the delete fix-up at the node `n`, possibly the sentinel: one black node
        is missing below it. */
    ghost predicate ShortAt(c: Path<Node>, t: Shape<Node>, n: Node)
      reads `root, sentinel, Items(Plug(c, t)), n
    {
      Holds(Plug(c, t)) && ShortFits(c, t) && n == Ptr(t, sentinel) && ParentIs(c, n)
    }

    /** The parent pointer of what is in the hole, which may be the sentinel. */
    ghost predicate ParentIs(c: Path<Node>, n: Node)
      reads n
    {
      c.Step? ==> n.parent == c.node
    }

    lemma {:induction false} LookBeside(c: Path<Node>, t: Shape<Node>, n: Node)
      requires ShortAt(c, t, n) && c.Step?
      ensures n != root && c.node in Items(Plug(c, t)) && Ptr(c.sibling, sentinel) != n
      ensures c.node.left == (if c.onLeft then n else Ptr(c.sibling, sentinel))
      ensures c.node.right == (if c.onLeft then Ptr(c.sibling, sentinel) else n)
      ensures c.node.red == c.red && n.red == IsRed(t)
      ensures c.sibling.Branch? && c.sibling.node in Items(Plug(c, t)) && c.sibling.node.red == c.sibling.red
      ensures var w := c.sibling;
        && w.node.left == Ptr(w.left, sentinel) && w.node.left.red == IsRed(w.left)
        && w.node.right == Ptr(w.right, sentinel) && w.node.right.red == IsRed(w.right)
    {
      SiblingExists(c, t);
      var b, w := Beside(c, t), c.sibling;
      PlugBeside(c, t, w);
      DistinctPlug(c, t);
      LookAt(c.up, Fill(c, t));
      LookAt(b, w);
      if t.Branch? { LookAt(c, t); }
      PlugRoot(c, t, t);
      if w.left.Branch? { LookAt(Step(b, true, w.node, w.red, w.right), w.left); }
      if w.right.Branch? { LookAt(Step(b, false, w.node, w.red, w.left), w.right); }
    }

    method ColourParent(p: Node, red: bool, ghost c: Path<Node>, ghost t: Shape<Node>)
      requires c.Step? && c.node == p && Holds(Plug(c, t))
      modifies p`red
      ensures Holds(Plug(c.(red := red), t)) && SameItems(Plug(c, t), Plug(c.(red := red), t))
    {
      assert Fill(c.(red := red), t) == Fill(c, t).(red := red);
      SetColour(p, red, c.up, Fill(c, t));
    }

    method ColourSibling(w: Node, red: bool, ghost c: Path<Node>, ghost t: Shape<Node>)
      requires c.Step? && c.sibling.Branch? && c.sibling.node == w && Holds(Plug(c, t))
      modifies w`red
      ensures var c' := c.(sibling := c.sibling.(red := red)); Holds(Plug(c', t)) && SameItems(Plug(c, t), Plug(c', t))
    {
      PlugBeside(c, t, c.sibling);
      PlugBeside(c, t, c.sibling.(red := red));
      SetColour(w, red, Beside(c, t), c.sibling);
    }

    method ColourLeftNephew(n: Node, red: bool, ghost c: Path<Node>, ghost t: Shape<Node>)
      requires c.Step? && c.sibling.Branch? && c.sibling.left.Branch? && c.sibling.left.node == n && Holds(Plug(c, t))
      modifies n`red
      ensures var w := c.sibling; var c' := c.(sibling := w.(left := w.left.(red := red)));
        Holds(Plug(c', t)) && SameItems(Plug(c, t), Plug(c', t))
    {
      ghost var w := c.sibling;
      PlugBeside(c, t, w);
      PlugBeside(c, t, w.(left := w.left.(red := red)));
      SetColour(n, red, Step(Beside(c, t), true, w.node, w.red, w.right), w.left);
    }

    method ColourRightNephew(n: Node, red: bool, ghost c: Path<Node>, ghost t: Shape<Node>)
      requires c.Step? && c.sibling.Branch? && c.sibling.right.Branch? && c.sibling.right.node == n && Holds(Plug(c, t))
      modifies n`red
      ensures var w := c.sibling; var c' := c.(sibling := w.(right := w.right.(red := red)));
        Holds(Plug(c', t)) && SameItems(Plug(c, t), Plug(c', t))
    {
      ghost var w := c.sibling;
      PlugBeside(c, t, w);
      PlugBeside(c, t, w.(right := w.right.(red := red)));
      SetColour(n, red, Step(Beside(c, t), false, w.node, w.red, w.left), w.right);
    }

    /** A red sibling on the right: the parent turns left below it. */
    method TurnRightSibling(temp: Node, w: Node, ghost c: Path<Node>, ghost t: Shape<Node>)
      requires ShortAt(c, t, temp) && c.Step? && c.onLeft && IsRed(c.sibling) && c.sibling.node == w
      modifies `root, Items(Plug(c, t))`left, Items(Plug(c, t))`right, Items(Plug(c, t))`parent, Items(Plug(c, t))`red
      ensures ShortAt(SiblingTurned(c), t, temp) && SameItems(Plug(c, t), Plug(SiblingTurned(c), t))
    {
      SiblingTurnedFits(c, t);
      LookBeside(c, t, temp);
      PlugBeside(c, t, c.sibling);
      LookAt(Beside(c, t), c.sibling);
      ColourSibling(w, false, c, t);
      ghost var c1 := c.(sibling := c.sibling.(red := false));
      ColourParent(temp.parent, true, c1, t);
      ghost var c2 := c1.(red := true);
      LeftRotateAt(temp.parent, c.up, Fill(c2, t));
      LookUp(SiblingTurned(c), t, temp, c.node);
    }

    /** The parent of what is in the hole after a change that moved none of its parent pointers. */
    lemma {:induction false} LookUp(c: Path<Node>, t: Shape<Node>, n: Node, p: Node)
      requires Holds(Plug(c, t)) && n == Ptr(t, sentinel) && c.Step? && c.node == p
      requires t.Leaf? ==> n.parent == p
      ensures ParentIs(c, n)
    {
      if t.Branch? { LookAt(c, t); }
    }

    /** The mirror image of `TurnRightSibling`. */
    method TurnLeftSibling(temp: Node, w: Node, ghost c: Path<Node>, ghost t: Shape<Node>)
      requires ShortAt(c, t, temp) && c.Step? && !c.onLeft && IsRed(c.sibling) && c.sibling.node == w
      modifies `root, Items(Plug(c, t))`left, Items(Plug(c, t))`right, Items(Plug(c, t))`parent, Items(Plug(c, t))`red
      ensures ShortAt(SiblingTurned(c), t, temp) && SameItems(Plug(c, t), Plug(SiblingTurned(c), t))
    {
      SiblingTurnedFits(c, t);
      LookBeside(c, t, temp);
      PlugBeside(c, t, c.sibling);
      LookAt(Beside(c, t), c.sibling);
      ColourSibling(w, false, c, t);
      ghost var c1 := c.(sibling := c.sibling.(red := false));
      ColourParent(temp.parent, true, c1, t);
      ghost var c2 := c1.(red := true);
      RightRotateAt(temp.parent, c.up, Fill(c2, t));
      LookUp(SiblingTurned(c), t, temp, c.node);
    }

    /** A black sibling on the right whose near child is red and whose far child is black. */
    method TurnRightNephew(temp: Node, w: Node, ghost c: Path<Node>, ghost t: Shape<Node>)
      requires ShortAt(c, t, temp) && !IsRed(t) && c.Step? && c.onLeft && c.sibling.Branch? && c.sibling.node == w
      requires !IsRed(c.sibling) && IsRed(Near(c)) && !IsRed(Far(c))
      modifies `root, Items(Plug(c, t))`left, Items(Plug(c, t))`right, Items(Plug(c, t))`parent, Items(Plug(c, t))`red
      ensures ShortAt(NearTurned(c), t, temp) && SameItems(Plug(c, t), Plug(NearTurned(c), t))
    {
      NearTurnedFits(c, t);
      LookBeside(c, t, temp);
      ghost var w0 := c.sibling;
      PlugBeside(c, t, w0);
      LookAt(Beside(c, t), w0);
      LookAt(Step(Beside(c, t), true, w0.node, w0.red, w0.right), w0.left);
      ColourLeftNephew(w.left, false, c, t);
      ghost var w1 := w0.(left := w0.left.(red := false));
      ColourSibling(w, true, c.(sibling := w1), t);
      ghost var w2 := w1.(red := true);
      PlugBeside(c, t, w2);
      RightRotateAt(w, Beside(c, t), w2);
      PlugBeside(c, t, RightTurn(w2));
      LookUp(NearTurned(c), t, temp, c.node);
    }

    /** The mirror image of `TurnRightNephew`. */
    method TurnLeftNephew(temp: Node, w: Node, ghost c: Path<Node>, ghost t: Shape<Node>)
      requires ShortAt(c, t, temp) && !IsRed(t) && c.Step? && !c.onLeft && c.sibling.Branch? && c.sibling.node == w
      requires !IsRed(c.sibling) && IsRed(Near(c)) && !IsRed(Far(c))
      modifies `root, Items(Plug(c, t))`left, Items(Plug(c, t))`right, Items(Plug(c, t))`parent, Items(Plug(c, t))`red
      ensures ShortAt(NearTurned(c), t, temp) && SameItems(Plug(c, t), Plug(NearTurned(c), t))
    {
      NearTurnedFits(c, t);
      LookBeside(c, t, temp);
      ghost var w0 := c.sibling;
      PlugBeside(c, t, w0);
      LookAt(Beside(c, t), w0);
      LookAt(Step(Beside(c, t), false, w0.node, w0.red, w0.left), w0.right);
      ColourRightNephew(w.right, false, c, t);
      ghost var w1 := w0.(right := w0.right.(red := false));
      ColourSibling(w, true, c.(sibling := w1), t);
      ghost var w2 := w1.(red := true);
      PlugBeside(c, t, w2);
      LeftRotateAt(w, Beside(c, t), w2);
      PlugBeside(c, t, LeftTurn(w2));
      LookUp(NearTurned(c), t, temp, c.node);
    }

    /** A black sibling on the right with a red far child: the parent turns left below it and
        the tree is whole again. */
    method LiftRightSibling(temp: Node, w: Node, ghost c: Path<Node>, ghost t: Shape<Node>)
      requires ShortAt(c, t, temp) && !IsRed(t) && c.Step? && c.onLeft && c.sibling.Branch? && c.sibling.node == w
      requires !IsRed(c.sibling) && IsRed(Far(c))
      modifies `root, Items(Plug(c, t))`left, Items(Plug(c, t))`right, Items(Plug(c, t))`parent, Items(Plug(c, t))`red
      ensures var t' := Plug(c.up, SiblingLifted(c, t)); Holds(t') && RedBlack(t') && SameItems(Plug(c, t), t')
    {
      SiblingLiftedFits(c, t);
      LookBeside(c, t, temp);
      ghost var w0 := c.sibling;
      PlugBeside(c, t, w0);
      LookAt(Beside(c, t), w0);
      LookAt(Step(Beside(c, t), false, w0.node, w0.red, w0.left), w0.right);
      ColourSibling(w, temp.parent.red, c, t);
      ghost var w1 := w0.(red := c.red);
      ColourParent(temp.parent, false, c.(sibling := w1), t);
      ghost var c1 := c.(sibling := w1, red := false);
      ColourRightNephew(w.right, false, c1, t);
      ghost var w2 := w1.(right := w1.right.(red := false));
      LeftRotateAt(temp.parent, c.up, Fill(c1.(sibling := w2), t));
    }

    /** The mirror image of `LiftRightSibling`. */
    method LiftLeftSibling(temp: Node, w: Node, ghost c: Path<Node>, ghost t: Shape<Node>)
      requires ShortAt(c, t, temp) && !IsRed(t) && c.Step? && !c.onLeft && c.sibling.Branch? && c.sibling.node == w
      requires !IsRed(c.sibling) && IsRed(Far(c))
      modifies `root, Items(Plug(c, t))`left, Items(Plug(c, t))`right, Items(Plug(c, t))`parent, Items(Plug(c, t))`red
      ensures var t' := Plug(c.up, SiblingLifted(c, t)); Holds(t') && RedBlack(t') && SameItems(Plug(c, t), t')
    {
      SiblingLiftedFits(c, t);
      LookBeside(c, t, temp);
      ghost var w0 := c.sibling;
      PlugBeside(c, t, w0);
      LookAt(Beside(c, t), w0);
      LookAt(Step(Beside(c, t), true, w0.node, w0.red, w0.right), w0.left);
      ColourSibling(w, temp.parent.red, c, t);
      ghost var w1 := w0.(red := c.red);
      ColourParent(temp.parent, false, c.(sibling := w1), t);
      ghost var c1 := c.(sibling := w1, red := false);
      ColourLeftNephew(w.left, false, c1, t);
      ghost var w2 := w1.(left := w1.left.(red := false));
      RightRotateAt(temp.parent, c.up, Fill(c1.(sibling := w2), t));
    }

    /** A black sibling with two black children turns red; the parent is one short. */
    method ReddenSibling(temp: Node, w: Node, ghost c: Path<Node>, ghost t: Shape<Node>)
      returns (up: Node, ghost t': Shape<Node>)
      requires ShortAt(c, t, temp) && !IsRed(t) && c.Step? && c.sibling.Branch? && c.sibling.node == w
      requires !IsRed(c.sibling) && !IsRed(Near(c)) && !IsRed(Far(c))
      modifies w`red
      ensures ShortAt(c.up, t', up) && SameItems(Plug(c, t), Plug(c.up, t')) && IsRed(t') == c.red
    {
      SiblingReddenedFits(c, t);
      LookBeside(c, t, temp);
      ColourSibling(w, true, c, t);
      up := temp.parent;
      t' := Fill(c.(sibling := c.sibling.(red := true)), t);
      LookAt(c.up, t');
    }

    ghost function Remaining(c: Path<Node>, t: Shape<Node>): nat {
      Depth(c) + if IsRed(t) then 0 else 1
    }

    /** One round of the delete fix-up with the missing black node on the left. */
    method FixShortLeft(temp: Node, ghost c: Path<Node>, ghost t: Shape<Node>)
      returns (temp': Node, ghost c': Path<Node>, ghost t': Shape<Node>)
      requires ShortAt(c, t, temp) && !IsRed(t) && c.Step? && c.onLeft
      modifies `root, Items(Plug(c, t))`left, Items(Plug(c, t))`right, Items(Plug(c, t))`parent, Items(Plug(c, t))`red
      ensures ShortAt(c', t', temp') && SameItems(Plug(c, t), Plug(c', t')) && Remaining(c', t') < Remaining(c, t)
    {
      temp', c', t' := temp, c, t;
      LookBeside(c', t', temp);
      var w := temp.parent.right;
      if w.red {
        TurnRightSibling(temp, w, c', t');
        c' := SiblingTurned(c);
        SiblingTurnedFits(c, t);
        LookBeside(c', t', temp);
        w := temp.parent.right;
      }
      if !w.left.red && !w.right.red {
        temp', t' := ReddenSibling(temp, w, c', t);
        c' := c'.up;
      } else {
        if !w.right.red {
          TurnRightNephew(temp, w, c', t);
          c' := NearTurned(c');
          LookBeside(c', t', temp);
          w := temp.parent.right;
        }
        LiftRightSibling(temp, w, c', t);
        c', t' := Top, Plug(c'.up, SiblingLifted(c', t));
        temp' := root;
      }
    }

    /** One round of the delete fix-up with the missing black node on the right. */
    method FixShortRight(temp: Node, ghost c: Path<Node>, ghost t: Shape<Node>)
      returns (temp': Node, ghost c': Path<Node>, ghost t': Shape<Node>)
      requires ShortAt(c, t, temp) && !IsRed(t) && c.Step? && !c.onLeft
      modifies `root, Items(Plug(c, t))`left, Items(Plug(c, t))`right, Items(Plug(c, t))`parent, Items(Plug(c, t))`red
      ensures ShortAt(c', t', temp') && SameItems(Plug(c, t), Plug(c', t')) && Remaining(c', t') < Remaining(c, t)
    {
      temp', c', t' := temp, c, t;
      LookBeside(c', t', temp);
      var w := temp.parent.left;
      if w.red {
        TurnLeftSibling(temp, w, c', t');
        c' := SiblingTurned(c);
        SiblingTurnedFits(c, t);
        LookBeside(c', t', temp);
        w := temp.parent.left;
      }
      if !w.left.red && !w.right.red {
        temp', t' := ReddenSibling(temp, w, c', t);
        c' := c'.up;
      } else {
        if !w.left.red {
          TurnLeftNephew(temp, w, c', t);
          c' := NearTurned(c');
          LookBeside(c', t', temp);
          w := temp.parent.left;
        }
        LiftLeftSibling(temp, w, c', t);
        c', t' := Top, Plug(c'.up, SiblingLifted(c', t));
        temp' := root;
      }
    }

    lemma {:induction false} LookTop(c: Path<Node>, t: Shape<Node>, n: Node)
      requires ShortAt(c, t, n)
      ensures n != root <==> c.Step?
      ensures n.red == IsRed(t)
    {
      if c.Step? { LookBeside(c, t, n); }
      if t.Branch? { LookAt(c, t); }
    }

    /** Restores the black heights from `temp0` upwards. */
    method DeleteFixup(temp0: Node, ghost c0: Path<Node>, ghost t0: Shape<Node>)
      returns (ghost shape': Shape<Node>)
      requires ShortAt(c0, t0, temp0)
      modifies `root, Items(Plug(c0, t0))`left, Items(Plug(c0, t0))`right, Items(Plug(c0, t0))`parent,
        Items(Plug(c0, t0))`red, temp0`red, sentinel`red
      ensures Holds(shape') && RedBlack(shape') && SameItems(Plug(c0, t0), shape')
    {
      var temp := temp0;
      ghost var c, t := c0, t0;
      LookTop(c, t, temp);
      while temp != root && !temp.red
        invariant ShortAt(c, t, temp) && SameItems(Plug(c0, t0), Plug(c, t))
        invariant temp != root <==> c.Step?
        invariant temp.red == IsRed(t)
        decreases Remaining(c, t)
      {
        LookBeside(c, t, temp);
        if temp == temp.parent.left {
          temp, c, t := FixShortLeft(temp, c, t);
        } else {
          temp, c, t := FixShortRight(temp, c, t);
        }
        LookTop(c, t, temp);
      }
      DeleteDone(c, t);
      shape' := Plug(c, Blacken(t));
      if t.Branch? { LookAt(c, t); }
      BlackenAt(temp, c, t);
    }

    // ---------- delete: taking the node out ----------

    lemma {:induction false} DetachedCells(c: Path<Node>, t: Shape<Node>)
      requires t.Branch? && (t.left.Leaf? || t.right.Leaf?) && c.Step? && Holds(Plug(c, t))
      ensures var high, u := Plug(c, t), OnlyChild(t); var low := Plug(c, u);
        && Distinct(low) && Items(high) == Items(low) + {t.node} && t.node !in Items(low)
        && Ptr(low, sentinel) == Ptr(high, sentinel) && Ptr(u, sentinel) != t.node
        && (u.Branch? ==> u.node in Items(low)) && c.node in Items(low) && c.node != Ptr(u, sentinel)
        && Ptr(c.sibling, sentinel) != t.node
        && forall m | m in Items(low) :: var e := CellOf(high, null, m, sentinel);
             CellOf(low, null, m, sentinel) ==
               if u.Branch? && m == u.node then e.(parent := c.node)
               else if m != c.node then e
               else if c.onLeft then e.(left := Ptr(u, sentinel)) else e.(right := Ptr(u, sentinel))
    {
      var s, u := sentinel, OnlyChild(t);
      DistinctPlug(c, t);
      DistinctPlug(c, u);
      PlugRoot(c, t, u);
      forall m | m in Items(Plug(c, u))
        ensures var e := CellOf(Plug(c, t), null, m, s);
          CellOf(Plug(c, u), null, m, s) ==
            if u.Branch? && m == u.node then e.(parent := c.node)
            else if m != c.node then e
            else if c.onLeft then e.(left := Ptr(u, s)) else e.(right := Ptr(u, s))
      {
        CellOfPlug(c, t, null, m, s);
        CellOfPlug(c, u, null, m, s);
        if m in Items(u) {
          CellReparented(u, t.node, c.node, m, s);
        } else {
          PathCellRelinked(c, t.node, Ptr(u, s), null, m, s);
        }
      }
    }

    method Unlink(subst: Node, temp: Node, node: Node, ghost up: Node)
      requires subst.parent == up && up != temp && up != subst && temp != subst
      requires up.left != up.right && (up.left == subst || up.right == subst)
      modifies up`left, up`right, temp`parent
      ensures up.left == (if old(up.left) == subst then temp else old(up.left))
      ensures up.right == (if old(up.left) == subst then old(up.right) else temp)
      ensures temp.parent == if subst != node && up == node then subst else up
    {
      if subst == subst.parent.left {
        subst.parent.left := temp;
      } else {
        subst.parent.right := temp;
      }
      if subst == node {
        temp.parent := subst.parent;
      } else if subst.parent == node {
        temp.parent := subst;
      } else {
        temp.parent := subst.parent;
      }
    }

    /** Takes the node `subst` out of its place, its only child `temp` moving up.  When `subst`
        is the child of the node that it is going to replace, `temp` stays below it. */
    method Detach(subst: Node, temp: Node, node: Node, ghost c: Path<Node>, ghost t: Shape<Node>)
      requires t.Branch? && t.node == subst && (t.left.Leaf? || t.right.Leaf?) && temp == Ptr(OnlyChild(t), sentinel)
      requires c.Step? && Holds(Plug(c, t))
      modifies c.node`left, c.node`right, temp`parent
      ensures HoldsExcept(Plug(c, OnlyChild(t)), temp)
      ensures subst !in Items(Plug(c, OnlyChild(t))) && Items(Plug(c, t)) == Items(Plug(c, OnlyChild(t))) + {subst}
      ensures temp.parent == if subst != node && c.node == node then subst else c.node
    {
      DetachedCells(c, t);
      LookAt(c, t);
      LookAt(c.up, Fill(c, t));
      ghost var s, low := sentinel, Plug(c, OnlyChild(t));
      AllAllocated(low);
      hide Plug, Distinct, Items, CellOf, OnlyChild;
      Unlink(subst, temp, node, c.node);
      forall m | m in Items(low)
        ensures var e := CellOf(low, null, m, s);
           && m.left == e.left && m.right == e.right && m.red == e.red
           && (e.parent != null && m != temp ==> m.parent == e.parent)
      {
        assert old(m.left) == CellOf(Plug(c, t), null, m, s).left;
      }
    }

    /** A tree with one doubtful parent pointer, once that pointer is right. */
    lemma {:induction false} ParentSettled(c: Path<Node>, t: Shape<Node>, x: Node)
      requires HoldsExcept(Plug(c, t), x) && x == Ptr(t, sentinel) && c.Step? && x.parent == c.node
      ensures Holds(Plug(c, t))
    {
      DistinctPlug(c, t);
      if t.Branch? { CellOfPlug(c, t, null, x, sentinel); }
    }

    method LinkIn(node: Node, subst: Node, ghost up: Node?)
      requires node.left != null && node.right != null && subst != node && subst != sentinel && node != sentinel
      requires node.left != node && node.left != subst && node.right != node && node.right != subst
      requires up == null <==> node == root
      requires up != null ==> node.parent == up && up != node && up != subst && up != node.left && up != node.right
      requires up != null ==> up.left != up.right && (up.left == node || up.right == node)
      modifies `root, subst`left, subst`right, subst`parent, subst`red,
               ({node.left, node.right} - {sentinel})`parent,
               (if up == null then {} else {up})`left, (if up == null then {} else {up})`right
      ensures subst.left == old(node.left) && subst.right == old(node.right)
      ensures subst.parent == old(node.parent) && subst.red == old(node.red)
      ensures node.left != sentinel ==> node.left.parent == subst
      ensures node.right != sentinel ==> node.right.parent == subst
      ensures up == null ==> root == subst
      ensures up != null ==> root == old(root)
      ensures up != null ==> up.left == if old(up.left) == node then subst else old(up.left)
      ensures up != null ==> up.right == if old(up.left) == node then old(up.right) else subst
    {
      subst.left := node.left;
      subst.right := node.right;
      subst.parent := node.parent;
      subst.red := node.red;
      if node == root {
        root := subst;
      } else if node == node.parent.left {
        node.parent.left := subst;
      } else {
        node.parent.right := subst;
      }
      if subst.left != sentinel { subst.left.parent := subst; }
      if subst.right != sentinel { subst.right.parent := subst; }
    }

    /** Puts `subst` in the place of `node`. */
    method Replace(node: Node, subst: Node, ghost c: Path<Node>, ghost t: Shape<Node>)
      requires t.Branch? && t.node == node && HoldsExcept(Plug(c, t), Ptr(t.right, sentinel))
      requires subst !in Items(Plug(c, t)) && subst != sentinel
      modifies `root, subst`left, subst`right, subst`parent, subst`red,
               Items(Plug(c, t))`left, Items(Plug(c, t))`right, Items(Plug(c, t))`parent
      ensures Holds(Plug(c, t.(node := subst)))
        && Items(Plug(c, t.(node := subst))) == Items(Plug(c, t)) - {node} + {subst}
    {
      PlugReplacement(c, t, subst, sentinel);
      ReplaceBetween(node, subst, Plug(c, t), Plug(c, t.(node := subst)),
                     Ptr(t.left, sentinel), Ptr(t.right, sentinel), Above(c, null));
    }

    method ReplaceBetween(y: Node, x: Node, ghost low: Shape<Node>, ghost high: Shape<Node>,
                          ghost l: Node, ghost r: Node, ghost up: Node?)
      requires Replacement(low, high, y, x, l, r, up, sentinel) && HoldsExcept(low, r)
      modifies `root, x`left, x`right, x`parent, x`red, Items(low)`left, Items(low)`right, Items(low)`parent
      ensures Holds(high)
    {
      ghost var s := sentinel;
      AllAllocated(low);
      assert y.left == CellOf(low, null, y, s).left;
      assert up != null ==> up.left == CellOf(low, null, up, s).left;
      LinkIn(y, x, up);
      forall m | m in Items(high)
        ensures var e := CellOf(high, null, m, s);
           && m.left == e.left && m.right == e.right && m.red == e.red
           && (e.parent != null ==> m.parent == e.parent)
      {
        if m != x {
          var e := CellOf(low, null, m, s);
          assert ReplacedCell(m, e, CellOf(high, null, m, s), y, x, l, r, up);
          assert old(m.left) == e.left;
        }
      }
    }

    /** The leftmost node below `node`, and the path to it inside the subtree of `node`. */
    method Min(node: Node, ghost c: Path<Node>, ghost t: Shape<Node>)
      returns (m: Node, ghost inner: Path<Node>, ghost u: Shape<Node>)
      requires t.Branch? && t.node == node && Holds(Plug(c, t))
      ensures u.Branch? && u.left.Leaf? && u.node == m && Plug(inner, u) == t && Before(inner) == []
      ensures Holds(Plug(c, t)) && InOrder(t) != [] && m == InOrder(t)[0]
    {
      m := node;
      inner, u := Top, t;
      LookAt(c, t);
      while m.left != sentinel
        invariant u.Branch? && u.node == m && Plug(inner, u) == t && Before(inner) == []
        invariant Holds(Plug(c, t)) && m.left == Ptr(u.left, sentinel)
        invariant u.left.Branch? ==> u.left.node != sentinel
        decreases u
      {
        m := m.left;
        inner, u := Step(inner, true, u.node, u.red, u.right), u.left;
        ComposePlug(inner, c, u);
        LookAt(Compose(inner, c), u);
      }
      NextFirst(inner, u);
    }

    /** Every node of the tree is found at the end of a path. */
    static lemma {:induction false} Locate(t: Shape<Node>, n: Node) returns (c: Path<Node>, u: Shape<Node>)
      requires n in Items(t)
      ensures u.Branch? && u.node == n && Plug(c, u) == t
    {
      if n == t.node {
        c, u := Top, t;
      } else if n in Items(t.left) {
        c, u := Locate(t.left, n);
        var d := Step(Top, true, t.node, t.red, t.right);
        ComposePlug(c, d, u);
        c := Compose(c, d);
      } else {
        c, u := Locate(t.right, n);
        var d := Step(Top, false, t.node, t.red, t.left);
        ComposePlug(c, d, u);
        c := Compose(c, d);
      }
    }

    /** Takes out the root when it has at most one child. */
    method TakeOutRoot(temp: Node, ghost t: Shape<Node>)
      requires t.Branch? && (t.left.Leaf? || t.right.Leaf?) && Holds(t) && temp == Ptr(OnlyChild(t), sentinel)
      modifies `root, temp`red
      ensures Holds(Blacken(OnlyChild(t))) && t.node !in Items(Blacken(OnlyChild(t)))
    {
      ghost var u := OnlyChild(t);
      forall m | m in Items(u)
        ensures m in Items(t) && CellOf(u, null, m, sentinel) ==
          if m == u.node then CellOf(t, null, m, sentinel).(parent := null) else CellOf(t, null, m, sentinel)
      {
        CellReparented(u, t.node, null, m, sentinel);
      }
      root := temp;
      assert Holds(Plug(Top, u));
      BlackenAt(temp, Top, u);
    }

    /** Takes out the node `subst`, which has at most one child and is the successor of `node`
        below it, and puts it in the place of `node`. */
    method TakeOutNext(node: Node, subst: Node, temp: Node, ghost c: Path<Node>, ghost t: Shape<Node>,
                       ghost inner: Path<Node>, ghost u: Shape<Node>)
      requires t.Branch? && t.node == node && Holds(Plug(c, t))
      requires u.Branch? && u.left.Leaf? && u.node == subst && Plug(inner, u) == t.right
        && temp == Ptr(u.right, sentinel)
      modifies `root, (Items(Plug(c, t)) + {subst})`left, (Items(Plug(c, t)) + {subst})`right,
               (Items(Plug(c, t)) + {subst, temp})`parent, subst`red
      ensures var t' := Branch(t.left, subst, t.red, Plug(inner, u.right));
        && Holds(Plug(c, t')) && Items(Plug(c, t)) == Items(Plug(c, t')) + {node} && node !in Items(Plug(c, t'))
        && ParentIs(Compose(inner, Step(c, false, subst, t.red, t.left)), temp)
    {
      ghost var full := Compose(inner, Step(c, false, node, t.red, t.left));
      ghost var t1 := t.(right := Plug(inner, u.right));
      NextPath(c, t, inner, u);
      PathBelow(c, t, inner, u.right, subst);
      ghost var all, between := Items(Plug(c, t)), Items(Plug(c, t1));
      hide Plug, Distinct, Compose, Items, Holds, HoldsExcept;
      Detach(subst, temp, node, full, u);
      if inner.Step? {
        ParentSettled(full, u.right, temp);
        SettledExcept(Plug(c, t1), Ptr(t1.right, sentinel));
      }
      Replace(node, subst, c, t1);
      Swapped(all, between, node, subst);
      LookUp(Compose(inner, Step(c, false, subst, t.red, t.left)), u.right, temp,
        if inner.Top? then subst else inner.node);
    }

    lemma SettledExcept(t: Shape<Node>, x: Node)
      requires Holds(t)
      ensures HoldsExcept(t, x)
    {
    }

    static lemma Swapped(all: set<Node>, between: set<Node>, node: Node, subst: Node)
      requires all == between + {subst} && node in between && node != subst
      ensures all == between - {node} + {subst} + {node} && node !in between - {node} + {subst}
    {
    }

    /** The path to a node below the right child of `t`, with `x` in the place of the root of `t`. */
    static lemma {:induction false} PathBelow(c: Path<Node>, t: Shape<Node>, inner: Path<Node>, u: Shape<Node>, x: Node)
      requires t.Branch?
      ensures var full := Compose(inner, Step(c, false, x, t.red, t.left));
        && Plug(full, u) == Plug(c, t.(node := x, right := Plug(inner, u)))
        && full.Step? && full.node == (if inner.Top? then x else inner.node)
    {
      var d, t' := Step(c, false, x, t.red, t.left), t.(node := x, right := Plug(inner, u));
      ComposePlug(inner, d, u);
      assert Fill(d, t'.right) == t';
    }

    static lemma {:induction false} NextPath(c: Path<Node>, t: Shape<Node>, inner: Path<Node>, u: Shape<Node>)
      requires t.Branch? && Plug(inner, u) == t.right && u.Branch? && Distinct(Plug(c, t))
      ensures var full := Compose(inner, Step(c, false, t.node, t.red, t.left));
        && Plug(full, u) == Plug(c, t) && Plug(full, u.right) == Plug(c, t.(right := Plug(inner, u.right)))
        && full.Step? && full.node in Items(Plug(c, t)) && full.node == (if inner.Top? then t.node else inner.node)
        && (inner.Step? ==> inner.node != t.node)
        && t.node in Items(Plug(c, t.(right := Plug(inner, u.right))))
    {
      PathBelow(c, t, inner, u, t.node);
      PathBelow(c, t, inner, u.right, t.node);
      NextItems(c, t, inner, u);
    }

    static lemma {:induction false} NextItems(c: Path<Node>, t: Shape<Node>, inner: Path<Node>, u: Shape<Node>)
      requires t.Branch? && Plug(inner, u) == t.right && Distinct(Plug(c, t))
      ensures t.node in Items(Plug(c, t))
      ensures inner.Step? ==> inner.node in Items(Plug(c, t)) && inner.node != t.node
      ensures forall r :: t.node in Items(Plug(c, t.(right := r)))
    {
      DistinctPlug(c, t);
      DistinctPlug(inner, u);
      forall r ensures t.node in Items(Plug(c, t.(right := r))) {
        DistinctPlug(c, t.(right := r));
      }
    }

    /** The node that leaves its place when `node` is deleted, and what moves up there. */
    method PickSubstitute(node: Node, ghost c: Path<Node>, ghost t: Shape<Node>)
      returns (subst: Node, temp: Node, ghost inner: Path<Node>, ghost u: Shape<Node>)
      requires t.Branch? && t.node == node && Holds(Plug(c, t))
      ensures Holds(Plug(c, t)) && Substitute(c, t, subst, temp, inner, u)
      ensures subst.red == u.red && (subst == root <==> subst == node && c.Top?)
    {
      LookAt(c, t);
      inner, u := Top, t;
      if node.left == sentinel {
        temp := node.right;
        subst := node;
      } else if node.right == sentinel {
        temp := node.left;
        subst := node;
      } else {
        ghost var d := Step(c, false, node, t.red, t.left);
        assert Fill(d, t.right) == t;
        subst, inner, u := Min(node.right, d, t.right);
        PathBelow(c, t, inner, u, node);
        LookAt(Compose(inner, d), u);
        NextItems(c, t, inner, u);
        NextDiffers(c, t, inner, u);
        // The leftmost node has no left child, so its right child moves up.
        assert subst.left == sentinel;
        temp := subst.right;
      }
    }

    static lemma {:induction false} NextDiffers(c: Path<Node>, t: Shape<Node>, inner: Path<Node>, u: Shape<Node>)
      requires t.Branch? && Plug(inner, u) == t.right && u.Branch? && Distinct(Plug(c, t))
      ensures u.node != t.node && u.node in Items(Plug(c, t))
    {
      DistinctPlug(c, t);
      DistinctPlug(inner, u);
    }

    ghost predicate Substitute(c: Path<Node>, t: Shape<Node>, subst: Node, temp: Node, inner: Path<Node>,
            u: Shape<Node>)
    {
      && t.Branch? && u.Branch? && u.node == subst
      && if subst == t.node then
           inner == Top && u == t && (t.left.Leaf? || t.right.Leaf?) && temp == Ptr(OnlyChild(t), sentinel)
         else
           && t.left.Branch? && u.left.Leaf? && temp == Ptr(u.right, sentinel)
           && Plug(inner, u) == t.right && Before(inner) == []
    }

    /** The place that is left empty when `subst` has taken the place of the root of `t`. */
    static ghost function Vacated(c: Path<Node>, t: Shape<Node>, subst: Node, inner: Path<Node>): Path<Node>
      requires t.Branch?
    {
      if subst == t.node then c else Compose(inner, Step(c, false, subst, t.red, t.left))
    }

    lemma {:induction false} VacatedShape(c: Path<Node>, t: Shape<Node>, subst: Node, temp: Node, inner: Path<Node>,
            u: Shape<Node>)
      requires Substitute(c, t, subst, temp, inner, u) && RedBlack(Plug(c, t))
      ensures var c', t' := Vacated(c, t, subst, inner), OnlyChild(u);
        && (if u.red then RedBlack(Plug(c', t')) else ShortFits(c', t'))
        && Plug(c', t') == (if subst == t.node then Plug(c, t')
          else Plug(c, Branch(t.left, subst, t.red, Plug(inner, t'))))
        && RemovedAt(InOrder(Plug(c, t)), |Before(c)| + |InOrder(t.left)|, t.node, InOrder(Plug(c', t')))
    {
      hide RedBlack, ShortFits, RemovedAt, InOrder, Plug, Before;
      if subst == t.node {
        RemovedFits(c, t);
        InOrderRemove(c, t);
      } else {
        TakenNextFits(c, t, inner, u);
        InOrderTakeNext(c, t, inner, u, Branch(t.left, subst, t.red, Plug(inner, u.right)));
        PathBelow(c, t, inner, u.right, subst);
      }
    }

    /** Unlinks `node`, which is not a root without a second child. */
    method TakeOut(node: Node, subst: Node, temp: Node, ghost c: Path<Node>, ghost t: Shape<Node>,
                   ghost inner: Path<Node>, ghost u: Shape<Node>)
      requires t.Branch? && t.node == node && Holds(Plug(c, t)) && Substitute(c, t, subst, temp, inner, u)
      requires subst == node ==> c.Step?
      requires RedBlack(Plug(c, t))
      modifies `root, Items(Plug(c, t))`left, Items(Plug(c, t))`right, (Items(Plug(c, t)) + {sentinel})`parent,
        Items(Plug(c, t))`red
      ensures var c', t' := Vacated(c, t, subst, inner), OnlyChild(u);
        && Holds(Plug(c', t')) && ParentIs(c', temp)
        && Items(Plug(c, t)) == Items(Plug(c', t')) + {node} && node !in Items(Plug(c', t'))
        && temp == Ptr(t', sentinel) && temp != node
    {
      VacatedShape(c, t, subst, temp, inner, u);
      SubstituteItems(c, t, subst, temp, inner, u);
      if subst == node {
        Detach(subst, temp, node, c, t);
        ParentSettled(c, OnlyChild(t), temp);
      } else {
        TakeOutNext(node, subst, temp, c, t, inner, u);
      }
    }

    lemma {:induction false} SubstituteItems(c: Path<Node>, t: Shape<Node>, subst: Node, temp: Node,
            inner: Path<Node>, u: Shape<Node>)
      requires Substitute(c, t, subst, temp, inner, u) && Distinct(Plug(c, t))
      ensures subst in Items(Plug(c, t)) && (temp != sentinel ==> temp in Items(Plug(c, t)))
      ensures c.Step? ==> c.node in Items(Plug(c, t))
      ensures temp == Ptr(OnlyChild(u), sentinel) && (t.node != sentinel ==> temp != t.node)
    {
      DistinctPlug(c, t);
      if subst != t.node { DistinctPlug(inner, u); }
    }

    /** Takes `node` out of the tree.  The successor of a node with two children takes its place. */
    method Delete(node: Node) returns (ghost k: nat)
      requires Valid() && node in Nodes()
      modifies `root, `shape, Items(shape)`left, Items(shape)`right, (Items(shape) + {sentinel})`parent,
               (Items(shape) + {sentinel})`red, node`key
      ensures RemovedAt(old(Nodes()), k, node, Nodes()) && node !in Nodes()
      ensures RemovedAt(old(Keys()), k, old(node.key), Keys())
      ensures Valid()
      ensures node.left == node.right == node.parent == null && node.key == 0
    {
      hide Holds, RedBlack, Distinct, Items, Balanced, InOrder;
      ghost var s, keys := Nodes(), Keys();
      AllocatedNodes(shape);
      k := DeleteNode(node);
      forall i | 0 <= i < |s| && s[i] in Nodes() ensures s[i].key == keys[i] {
        assert s[i] != node && allocated(s[i]) && old(s[i].key) == s[i].key;
      }
      KeysRemoved(s, k, node, Nodes(), keys);
    }

    method DeleteNode(node: Node) returns (ghost k: nat)
      requires Valid() && node in Nodes()
      modifies `root, `shape, Items(shape)`left, Items(shape)`right, (Items(shape) + {sentinel})`parent,
               (Items(shape) + {sentinel})`red, node`key
      ensures RemovedAt(old(Nodes()), k, node, Nodes()) && node !in Nodes()
      ensures Valid()
      ensures node.left == node.right == node.parent == null && node.key == 0
    {
      hide RemovedAt, Plug, Before, RedBlack, Distinct, InOrder;
      ghost var c, t;
      c, t, k := LocateAt(shape, node);
      ghost var shape' := DeleteAt(node, c, t);
      shape := shape';
    }

    static lemma {:induction false} LocateAt(s: Shape<Node>, n: Node) returns (c: Path<Node>, t: Shape<Node>, k: nat)
      requires n in InOrder(s)
      ensures t.Branch? && t.node == n && Plug(c, t) == s
      ensures k == |Before(c)| + |InOrder(t.left)| < |InOrder(s)| && InOrder(s)[k] == n
    {
      ItemsInOrder(s);
      c, t := Locate(s, n);
      k := |Before(c)| + |InOrder(t.left)|;
      ItemAt(c, t);
    }

    method DeleteAt(node: Node, ghost c: Path<Node>, ghost t: Shape<Node>) returns (ghost shape': Shape<Node>)
      requires t.Branch? && t.node == node && Holds(Plug(c, t)) && RedBlack(Plug(c, t))
      modifies `root, Items(Plug(c, t))`left, Items(Plug(c, t))`right, (Items(Plug(c, t)) + {sentinel})`parent,
               (Items(Plug(c, t)) + {sentinel})`red, node`key
      ensures Holds(shape') && RedBlack(shape') && node !in InOrder(shape')
      ensures RemovedAt(InOrder(Plug(c, t)), |Before(c)| + |InOrder(t.left)|, node, InOrder(shape'))
      ensures node.left == node.right == node.parent == null && node.key == 0
    {
      hide RemovedAt, InOrder, Plug, Distinct, RedBlack;
      var subst, temp;
      ghost var inner, u;
      subst, temp, inner, u := PickSubstitute(node, c, t);
      VacatedShape(c, t, subst, temp, inner, u);
      shape' := UnlinkAndFix(node, subst, temp, c, t, inner, u);
      ItemsInOrder(shape');
    }

    method UnlinkAndFix(node: Node, subst: Node, temp: Node, ghost c: Path<Node>, ghost t: Shape<Node>,
                        ghost inner: Path<Node>, ghost u: Shape<Node>) returns (ghost shape': Shape<Node>)
      requires t.Branch? && t.node == node && Holds(Plug(c, t)) && Substitute(c, t, subst, temp, inner, u)
      requires subst.red == u.red && (subst == root <==> subst == node && c.Top?) && RedBlack(Plug(c, t))
      modifies `root, Items(Plug(c, t))`left, Items(Plug(c, t))`right, (Items(Plug(c, t)) + {sentinel})`parent,
               (Items(Plug(c, t)) + {sentinel})`red, node`key
      ensures Holds(shape') && RedBlack(shape') && SameItems(Plug(Vacated(c, t, subst, inner), OnlyChild(u)), shape')
      ensures node !in Items(shape') && node.left == node.right == node.parent == null && node.key == 0
    {
      SubstituteItems(c, t, subst, temp, inner, u);
      if subst == root {
        RemovedFits(c, t);
        TakeOutRoot(temp, t);
        shape' := Blacken(OnlyChild(t));
        Forget(node, shape');
      } else {
        shape' := DeleteBelowRoot(node, subst, temp, c, t, inner, u);
      }
    }

    method DeleteBelowRoot(node: Node, subst: Node, temp: Node, ghost c: Path<Node>, ghost t: Shape<Node>,
                           ghost inner: Path<Node>, ghost u: Shape<Node>) returns (ghost shape': Shape<Node>)
      requires t.Branch? && t.node == node && Holds(Plug(c, t)) && Substitute(c, t, subst, temp, inner, u)
      requires (subst == node ==> c.Step?) && subst.red == u.red && RedBlack(Plug(c, t))
      modifies `root, Items(Plug(c, t))`left, Items(Plug(c, t))`right, (Items(Plug(c, t)) + {sentinel})`parent,
               (Items(Plug(c, t)) + {sentinel})`red, node`key
      ensures Holds(shape') && RedBlack(shape') && SameItems(Plug(Vacated(c, t, subst, inner), OnlyChild(u)), shape')
      ensures node !in Items(shape') && node.left == node.right == node.parent == null && node.key == 0
    {
      VacatedShape(c, t, subst, temp, inner, u);
      SubstituteItems(c, t, subst, temp, inner, u);
      ghost var c', t' := Vacated(c, t, subst, inner), OnlyChild(u);
      var red := subst.red;
      TakeOut(node, subst, temp, c, t, inner, u);
      shape' := Plug(c', t');
      Forget(node, shape');
      if !red {
        shape' := DeleteFixup(temp, c', t');
      }
    }

    method Forget(node: Node, ghost t: Shape<Node>)
      requires Holds(t) && node !in Items(t) && node != sentinel
      modifies node`left, node`right, node`parent, node`key
      ensures Holds(t) && node.left == node.right == node.parent == null && node.key == 0
    {
      node.left := null;
      node.right := null;
      node.parent := null;
      node.key := 0;
    }

    // ---------- traversal ----------

    /** The node after `node`, or null after the last one. */
    method Next(node: Node, ghost k: nat) returns (r: Node?)
      requires Valid() && k < |Nodes()| && Nodes()[k] == node
      ensures Valid() && r == if k + 1 < |Nodes()| then Nodes()[k + 1] else null
    {
      ghost var c, t, i := LocateAt(shape, node);
      NoRepeats(shape, i, k);
      LookAt(c, t);
      if node.right != sentinel {
        ghost var inner, u;
        PlugDown(c, t, false);
        r, inner, u := Min(node.right, Down(c, t, false), t.right);
        FirstItemAt(Down(c, t, false), t.right, inner, u);
        return;
      }
      var n := node;
      while true
        invariant Valid() && t.Branch? && t.node == n && Plug(c, t) == shape
        invariant |Before(c)| + |InOrder(t)| == k + 1
        decreases c
      {
        NextAbove(c, t, k);
        var parent := n.parent;
        if n == root { return null; }
        if n == parent.left { return parent; }
        n := parent;
        c, t := c.up, Fill(c, t);
      }
    }

    /** Where a subtree ends with the index `k`, what comes next is the node above it, unless the subtree
        is on the right. */
    lemma {:induction false} NextAbove(c: Path<Node>, t: Shape<Node>, k: nat)
      requires Valid() && t.Branch? && Plug(c, t) == shape && |Before(c)| + |InOrder(t)| == k + 1
      ensures t.node == root <==> c.Top?
      ensures c.Top? ==> k + 1 == |Nodes()|
      ensures c.Step? ==> t.node.parent == c.node && (t.node == c.node.left <==> c.onLeft) && c.node.left != null
      ensures c.Step? && c.onLeft ==> k + 1 < |Nodes()| && Nodes()[k + 1] == c.node
      ensures c.Step? && !c.onLeft ==> |Before(c.up)| + |InOrder(Fill(c, t))| == k + 1
    {
      LookAt(c, t);
      ItemAt(c, t);
      InOrderPlug(c, t);
      if c.Step? {
        LookAt(c.up, Fill(c, t));
        ItemAt(c.up, Fill(c, t));
        SiblingIsOther(c, t);
      }
    }

    lemma {:induction false} SiblingIsOther(c: Path<Node>, t: Shape<Node>)
      requires t.Branch? && c.Step? && Distinct(Plug(c, t)) && sentinel !in Items(Plug(c, t))
      ensures t.node != Ptr(c.sibling, sentinel)
    {
      DistinctPlug(c, t);
    }

    static lemma {:induction false} NoRepeats(t: Shape<Node>, i: nat, j: nat)
      requires Distinct(t) && i < |InOrder(t)| && j < |InOrder(t)| && InOrder(t)[i] == InOrder(t)[j]
      ensures i == j
    {
      var l := |InOrder(t.left)|;
      ItemsInOrder(t.left);
      ItemsInOrder(t.right);
      if i < l && j < l {
        NoRepeats(t.left, i, j);
      } else if i > l && j > l {
        NoRepeats(t.right, i - l - 1, j - l - 1);
      }
    }

    /** No node is in the tree twice. */
    lemma NodesDiffer()
      requires Valid()
      ensures forall i, j | 0 <= i < j < |Nodes()| :: Nodes()[i] != Nodes()[j]
    {
      forall i, j | 0 <= i < j < |Nodes()|
        ensures Nodes()[i] != Nodes()[j]
      {
        if Nodes()[i] == Nodes()[j] { NoRepeats(shape, i, j); }
      }
    }

    /** A tree of n nodes has height at most 2*log2(n+1). */
    lemma HeightIsLogarithmic()
      requires Valid()
      ensures Pow2(Height(shape)) <= (|Nodes()| + 1) * (|Nodes()| + 1)
    {
      HeightBound(shape);
    }

    /** Starting at the leftmost node, `Next` visits each node once, from left to right. */
    method Traverse() returns (visited: seq<Node>)
      requires Valid()
      ensures Valid() && visited == Nodes() && forall i, j | 0 <= i < j < |visited| :: visited[i] != visited[j]
    {
      visited := [];
      NodesDiffer();
      if root == sentinel { return; }
      var n: Node?;
      ghost var inner, u;
      n, inner, u := Min(root, Top, shape);
      FirstItemAt(Top, shape, inner, u);
      while n != null
        invariant Valid() && |visited| <= |Nodes()| && visited == Nodes()[..|visited|]
        invariant n == if |visited| < |Nodes()| then Nodes()[|visited|] else null
        decreases |Nodes()| - |visited|
      {
        visited := visited + [n];
        n := Next(n, |visited| - 1);
      }
    }
  }
}