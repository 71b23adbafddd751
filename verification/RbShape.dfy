/** The mathematics behind the red-black tree: coloured binary trees, the paths that
    lead into them, and the balance invariants.  Nothing here reads the heap; the module
    `RbTree` ties these values to linked nodes. */
module RbShape {
  import opened Powers
  import opened Sequences

  /** A coloured binary tree whose branches carry items of type `T`. */
  datatype Shape<T> = Leaf | Branch(left: Shape<T>, node: T, red: bool, right: Shape<T>)

  /** A tree with one subtree missing, read from the hole up to the root: `node` is the
      parent of the hole, `onLeft` says on which side of it the hole is, and `sibling` is
      its other subtree. */
  datatype Path<T> = Top | Step(up: Path<T>, onLeft: bool, node: T, red: bool, sibling: Shape<T>)

  /** The subtree one level up from the hole, once `t` fills it. */
  ghost function Fill<T>(c: Path<T>, t: Shape<T>): Shape<T>
    requires c.Step?
  {
    if c.onLeft then Branch(t, c.node, c.red, c.sibling) else Branch(c.sibling, c.node, c.red, t)
  }

  ghost function Plug<T>(c: Path<T>, t: Shape<T>): Shape<T> {
    if c.Top? then t else Plug(c.up, Fill(c, t))
  }

  /** Puts the path `inner` below the path `outer`. */
  ghost function Compose<T>(inner: Path<T>, outer: Path<T>): Path<T> {
    match inner
    case Top => outer
    case Step(up, onLeft, n, red, sib) => Step(Compose(up, outer), onLeft, n, red, sib)
  }

  ghost function Depth<T>(c: Path<T>): nat {
    if c.Top? then 0 else 1 + Depth(c.up)
  }

  // ---------- items and their order ----------

  ghost function Items<T>(t: Shape<T>): (s: set<T>)
    ensures t.Branch? ==> t.node in s
  {
    if t.Leaf? then {} else Items(t.left) + {t.node} + Items(t.right)
  }

  ghost function PathItems<T>(c: Path<T>): (s: set<T>)
    ensures c.Step? ==> c.node in s
  {
    if c.Top? then {} else PathItems(c.up) + {c.node} + Items(c.sibling)
  }

  /** No item occurs twice. */
  ghost predicate Distinct<T>(t: Shape<T>) {
    t.Branch? ==>
      && Distinct(t.left) && Distinct(t.right)
      && t.node !in Items(t.left) && t.node !in Items(t.right)
      && Items(t.left) !! Items(t.right)
  }

  ghost predicate PathDistinct<T>(c: Path<T>) {
    c.Step? ==>
      && PathDistinct(c.up) && Distinct(c.sibling)
      && c.node !in PathItems(c.up) && c.node !in Items(c.sibling)
      && PathItems(c.up) !! Items(c.sibling)
  }

  ghost function InOrder<T>(t: Shape<T>): seq<T> {
    if t.Leaf? then [] else InOrder(t.left) + [t.node] + InOrder(t.right)
  }

  /** The items that come before the hole, and those that come after it. */
  ghost function Before<T>(c: Path<T>): seq<T> {
    if c.Top? then []
    else if c.onLeft then Before(c.up)
    else Before(c.up) + InOrder(c.sibling) + [c.node]
  }

  ghost function After<T>(c: Path<T>): seq<T> {
    if c.Top? then []
    else if c.onLeft then [c.node] + InOrder(c.sibling) + After(c.up)
    else After(c.up)
  }

  /** `s'` is `s` with the item `x` put in at index `k`. */
  ghost predicate InsertedAt<T>(s: seq<T>, k: nat, x: T, s': seq<T>) {
    k <= |s| && s' == s[..k] + [x] + s[k..]
  }

  /** `s'` is `s` without its item `x` at index `k`. */
  ghost predicate RemovedAt<T>(s: seq<T>, k: nat, x: T, s': seq<T>) {
    k < |s| && s[k] == x && s' == s[..k] + s[k + 1..]
  }

  /** The same items in the same order. */
  ghost predicate SameItems<T>(t: Shape<T>, t': Shape<T>) {
    Items(t) == Items(t') && InOrder(t) == InOrder(t')
  }

  lemma {:induction false} InOrderPlug<T>(c: Path<T>, t: Shape<T>)
    ensures InOrder(Plug(c, t)) == Before(c) + InOrder(t) + After(c)
  {
    if c.Step? {
      InOrderPlug(c.up, Fill(c, t));
      if c.onLeft {
        Regroup(Before(c.up), InOrder(t), [c.node], InOrder(c.sibling), After(c.up));
      } else {
        Regroup(Before(c.up), InOrder(c.sibling), [c.node], InOrder(t), After(c.up));
      }
    }
  }

  lemma Regroup<T>(a: seq<T>, b: seq<T>, m: seq<T>, d: seq<T>, e: seq<T>)
    ensures a + (b + m + d) + e == a + b + (m + d + e)
    ensures a + (b + m + d) + e == (a + b + m) + d + e
    ensures a + b + (m + d + e) == (a + b + m) + d + e
  {
  }

  /** The index of the item at the root of a subtree. */
  lemma {:induction false} ItemAt<T>(c: Path<T>, t: Shape<T>)
    requires t.Branch?
    ensures var s, m := InOrder(Plug(c, t)), |Before(c)| + |InOrder(t.left)|;
      m < |s| && s[m] == t.node && |Before(c)| + |InOrder(t)| <= |s|
  {
    InOrderPlug(c, t);
  }

  /** The path one step further down, to the left or to the right subtree of `t`. */
  ghost function Down<T>(c: Path<T>, t: Shape<T>, left: bool): Path<T>
    requires t.Branch?
  {
    Step(c, left, t.node, t.red, if left then t.right else t.left)
  }

  ghost function Subtree<T>(t: Shape<T>, left: bool): Shape<T>
    requires t.Branch?
  {
    if left then t.left else t.right
  }

  lemma {:induction false} PlugDown<T>(c: Path<T>, t: Shape<T>, left: bool)
    requires t.Branch?
    ensures Plug(Down(c, t, left), Subtree(t, left)) == Plug(c, t)
    ensures |Before(Down(c, t, left))| == |Before(c)| + if left then 0 else |InOrder(t.left)| + 1
    ensures |Before(Down(c, t, left))| + |InOrder(Subtree(t, left))|
      == |Before(c)| + |InOrder(if left then t.left else t)|
  {
    assert Fill(Down(c, t, left), Subtree(t, left)) == t;
  }

  /** Filling an empty place with a leaf inserts its item there. */
  lemma {:induction false} InOrderInsert<T>(c: Path<T>, x: T, red: bool)
    ensures InsertedAt(InOrder(Plug(c, Leaf)), |Before(c)|, x, InOrder(Plug(c, Branch(Leaf, x, red, Leaf))))
  {
    InOrderPlug(c, Leaf);
    InOrderPlug(c, Branch(Leaf, x, red, Leaf));
    var s, k := InOrder(Plug(c, Leaf)), |Before(c)|;
    assert s == Before(c) + After(c);
    assert s[..k] == Before(c) && s[k..] == After(c);
  }

  /** The only subtree of a branch that has at most one. */
  ghost function OnlyChild<T>(t: Shape<T>): Shape<T>
    requires t.Branch? && (t.left.Leaf? || t.right.Leaf?)
  {
    if t.left.Leaf? then t.right else t.left
  }

  /** Taking out a node with at most one child removes just its item. */
  lemma {:induction false} InOrderRemove<T>(c: Path<T>, t: Shape<T>)
    requires t.Branch? && (t.left.Leaf? || t.right.Leaf?)
    ensures RemovedAt(InOrder(Plug(c, t)), |Before(c)| + |InOrder(t.left)|, t.node, InOrder(Plug(c, OnlyChild(t))))
  {
    assert InOrder(OnlyChild(t)) == InOrder(t.left) + InOrder(t.right);
    InOrderJoined(c, t, OnlyChild(t), InOrder(t.left), t.node, InOrder(t.right));
  }

  lemma {:induction false} InOrderJoined<T>(c: Path<T>, t: Shape<T>, t': Shape<T>, l: seq<T>, x: T, r: seq<T>)
    requires InOrder(t) == l + [x] + r && InOrder(t') == l + r
    ensures RemovedAt(InOrder(Plug(c, t)), |Before(c)| + |l|, x, InOrder(Plug(c, t')))
  {
    hide *;
    Joined(InOrder(t), l, x, r, InOrder(t'));
    RemovedInPlug(c, t, t', |l|, x);
  }

  lemma Joined<T>(m: seq<T>, l: seq<T>, x: T, r: seq<T>, m': seq<T>)
    requires m == l + [x] + r && m' == l + r
    ensures RemovedAt(m, |l|, x, m')
  {
  }

  lemma {:induction false} RemovedInPlug<T>(c: Path<T>, t: Shape<T>, t': Shape<T>, k: nat, x: T)
    requires RemovedAt(InOrder(t), k, x, InOrder(t'))
    ensures RemovedAt(InOrder(Plug(c, t)), |Before(c)| + k, x, InOrder(Plug(c, t')))
  {
    RemovedInside(Before(c), InOrder(t), InOrder(t'), After(c), k, x);
    InOrderPlug(c, t);
    InOrderPlug(c, t');
  }

  lemma RemovedInside<T>(b: seq<T>, m: seq<T>, m': seq<T>, a: seq<T>, k: nat, x: T)
    requires RemovedAt(m, k, x, m')
    ensures RemovedAt(b + m + a, |b| + k, x, b + m' + a)
  {
    var s := b + m + a;
    assert s[..|b| + k] == b + m[..k];
    assert s[|b| + k + 1..] == m[k + 1..] + a;
  }

  /** So does putting the leftmost node of the right subtree in the place of the root. */
  lemma {:induction false} InOrderTakeNext<T>(c: Path<T>, t: Shape<T>, inner: Path<T>, u: Shape<T>, t': Shape<T>)
    requires t.Branch? && Plug(inner, u) == t.right && Before(inner) == [] && u.Branch? && u.left.Leaf?
    requires t' == Branch(t.left, u.node, t.red, Plug(inner, u.right))
    ensures RemovedAt(InOrder(Plug(c, t)), |Before(c)| + |InOrder(t.left)|, t.node, InOrder(Plug(c, t')))
  {
    hide *;
    TakeNextHere(t, inner, u, t');
    RemovedInPlug(c, t, t', |InOrder(t.left)|, t.node);
  }

  lemma {:induction false} TakeNextHere<T>(t: Shape<T>, inner: Path<T>, u: Shape<T>, t': Shape<T>)
    requires t.Branch? && Plug(inner, u) == t.right && Before(inner) == [] && u.Branch? && u.left.Leaf?
    requires t' == Branch(t.left, u.node, t.red, Plug(inner, u.right))
    ensures RemovedAt(InOrder(t), |InOrder(t.left)|, t.node, InOrder(t'))
  {
    hide RemovedAt, Plug, Before;
    NextFirst(inner, u);
    Grouped(InOrder(t.left), [u.node], InOrder(Plug(inner, u.right)));
    Joined(InOrder(t), InOrder(t.left), t.node, InOrder(t.right), InOrder(t'));
  }

  /** The leftmost item of a subtree comes right after what is before the subtree. */
  lemma {:induction false} FirstItemAt<T>(c: Path<T>, t: Shape<T>, inner: Path<T>, u: Shape<T>)
    requires Plug(inner, u) == t && Before(inner) == [] && u.Branch? && u.left.Leaf?
    ensures var s := InOrder(Plug(c, t)); |Before(c)| < |s| && s[|Before(c)|] == u.node
  {
    InOrderPlug(c, t);
    NextFirst(inner, u);
  }

  lemma {:induction false} NextFirst<T>(inner: Path<T>, u: Shape<T>)
    requires Before(inner) == [] && u.Branch? && u.left.Leaf?
    ensures InOrder(Plug(inner, u)) == [u.node] + InOrder(Plug(inner, u.right))
  {
    assert InOrder(u) == [u.node] + InOrder(u.right);
    hide InOrder, Plug, Before, After;
    InOrderPlug(inner, u);
    InOrderPlug(inner, u.right);
    Grouped([u.node], InOrder(u.right), After(inner));
  }

  lemma {:induction false} ComposePlug<T>(inner: Path<T>, outer: Path<T>, t: Shape<T>)
    ensures Plug(Compose(inner, outer), t) == Plug(outer, Plug(inner, t))
  {
    if inner.Step? { ComposePlug(inner.up, outer, Fill(inner, t)); }
  }

  lemma {:induction false} ItemsInOrder<T>(t: Shape<T>)
    ensures forall x :: x in Items(t) <==> x in InOrder(t)
    ensures forall i | 0 <= i < |InOrder(t)| :: InOrder(t)[i] in Items(t)
  {
    if t.Branch? {
      ItemsInOrder(t.left);
      ItemsInOrder(t.right);
    }
  }

  lemma {:induction false} DistinctPlug<T>(c: Path<T>, t: Shape<T>)
    ensures Distinct(Plug(c, t)) <==> Distinct(t) && PathDistinct(c) && Items(t) !! PathItems(c)
    ensures Items(Plug(c, t)) == PathItems(c) + Items(t)
  {
    if c.Step? { DistinctPlug(c.up, Fill(c, t)); }
  }

  lemma {:induction false} SameItemsPlug<T>(c: Path<T>, t: Shape<T>, t': Shape<T>)
    requires SameItems(t, t')
    ensures SameItems(Plug(c, t), Plug(c, t'))
  {
    DistinctPlug(c, t);
    DistinctPlug(c, t');
    InOrderPlug(c, t);
    InOrderPlug(c, t');
  }

  /** Below the root of the path, the root of the whole tree does not depend on what fills the hole. */
  lemma {:induction false} PlugRoot<T>(c: Path<T>, t: Shape<T>, t': Shape<T>)
    requires c.Step?
    ensures Plug(c, t).Branch? && Plug(c, t').Branch?
    ensures Plug(c, t).node == Plug(c, t').node && Plug(c, t).node in PathItems(c)
  {
    if c.up.Step? { PlugRoot(c.up, Fill(c, t), Fill(c, t')); }
  }

  /** The path to the sibling of the hole, once `t` fills the hole. */
  ghost function Beside<T>(c: Path<T>, t: Shape<T>): Path<T>
    requires c.Step?
  {
    Step(c.up, !c.onLeft, c.node, c.red, t)
  }

  lemma {:induction false} PlugBeside<T>(c: Path<T>, t: Shape<T>, w: Shape<T>)
    requires c.Step?
    ensures Plug(Beside(c, t), w) == Plug(c.(sibling := w), t)
  {
    assert Fill(Beside(c, t), w) == Fill(c.(sibling := w), t);
  }

  // ---------- rotations ----------

  ghost function LeftTurn<T>(t: Shape<T>): Shape<T>
    requires t.Branch? && t.right.Branch?
  {
    Branch(Branch(t.left, t.node, t.red, t.right.left), t.right.node, t.right.red, t.right.right)
  }

  ghost function RightTurn<T>(t: Shape<T>): Shape<T>
    requires t.Branch? && t.left.Branch?
  {
    Branch(t.left.left, t.left.node, t.left.red, Branch(t.left.right, t.node, t.red, t.right))
  }

  lemma TurnKeepsSets<T>(a: set<T>, x: set<T>, b: set<T>, y: set<T>, d: set<T>)
    ensures a + x + (b + y + d) == (a + x + b) + y + d
  {
  }

  lemma {:induction false} TurnKeepsDistinct<T>(t: Shape<T>)
    requires t.Branch? && t.right.Branch?
    ensures Distinct(LeftTurn(t)) <==> Distinct(t)
  {
    var t' := LeftTurn(t);
    assert Items(t'.left) == Items(t.left) + {t.node} + Items(t.right.left);
    assert Items(t.right) == Items(t.right.left) + {t'.node} + Items(t'.right);
  }

  /** A rotation keeps the items and their order, and `RightTurn` undoes `LeftTurn`. */
  lemma {:induction false} TurnKeepsOrder<T>(t: Shape<T>)
    requires t.Branch? && t.right.Branch?
    ensures RightTurn(LeftTurn(t)) == t
    ensures SameItems(t, LeftTurn(t))
    ensures Distinct(LeftTurn(t)) <==> Distinct(t)
  {
    var t', y := LeftTurn(t), t.right;
    TurnKeepsSets(Items(t.left), {t.node}, Items(y.left), {y.node}, Items(y.right));
    Regroup(InOrder(t.left), [t.node], InOrder(y.left), [y.node], InOrder(y.right));
    TurnKeepsDistinct(t);
  }

  // ---------- balance ----------

  ghost predicate IsRed<T>(t: Shape<T>) { t.Branch? && t.red }

  ghost function Blacken<T>(t: Shape<T>): Shape<T> {
    if t.Branch? then t.(red := false) else t
  }

  /** The number of black nodes from the root of `t` down its left spine. */
  ghost function BlackHeight<T>(t: Shape<T>): nat {
    if t.Leaf? then 0 else BlackHeight(t.left) + if t.red then 0 else 1
  }

  /** Equal black heights everywhere, and no red node with a red child. */
  ghost predicate Balanced<T>(t: Shape<T>) {
    t.Branch? ==>
      && Balanced(t.left) && Balanced(t.right)
      && BlackHeight(t.left) == BlackHeight(t.right)
      && (t.red ==> !IsRed(t.left) && !IsRed(t.right))
  }

  /** A red-black tree: balanced, with a black root. */
  ghost predicate RedBlack<T>(t: Shape<T>) { Balanced(t) && !IsRed(t) }

  /** The path accepts a balanced subtree of black height `bh` whose root has colour `red`. */
  ghost predicate Fits<T>(c: Path<T>, bh: nat, red: bool) {
    match c
    case Top => !red
    case Step(up, _, _, r, sib) =>
      && Balanced(sib) && BlackHeight(sib) == bh
      && (r ==> !red && !IsRed(sib))
      && Fits(up, bh + if r then 0 else 1, r)
  }

  lemma {:induction false} PlugBalanced<T>(c: Path<T>, t: Shape<T>)
    ensures Balanced(t) && Fits(c, BlackHeight(t), IsRed(t)) <==> RedBlack(Plug(c, t))
  {
    if c.Step? { PlugBalanced(c.up, Fill(c, t)); }
  }

  lemma {:induction false} FitsBlack<T>(c: Path<T>, bh: nat, red: bool)
    requires Fits(c, bh, red)
    ensures Fits(c, bh, false)
  {
  }

  // ---------- balance during an insert ----------

  /** Nothing is wrong with `Plug(c, t)` but that the red root of `t` may be the root of the
      whole or may have a red parent. */
  ghost predicate RedFits<T>(c: Path<T>, t: Shape<T>) {
    t.Branch? && Balanced(t) && IsRed(t) && Fits(c, BlackHeight(t), false)
  }

  /** A fresh red leaf in an empty place of a red-black tree. */
  lemma {:induction false} LeafFits<T>(c: Path<T>, x: T)
    requires RedBlack(Plug(c, Leaf))
    ensures RedFits(c, Branch(Leaf, x, true, Leaf))
  {
    PlugBalanced(c, Leaf);
  }

  lemma {:induction false} GrandparentIsBlack<T>(c: Path<T>, t: Shape<T>)
    requires RedFits(c, t) && c.Step? && c.red
    ensures c.up.Step? && !c.up.red && !IsRed(c.sibling)
    ensures Balanced(c.sibling) && BlackHeight(c.sibling) == BlackHeight(t)
    ensures Balanced(c.up.sibling) && BlackHeight(c.up.sibling) == BlackHeight(t)
    ensures Fits(c.up.up, BlackHeight(t) + 1, false)
  {
    assert Fits(c, BlackHeight(t), false);
    assert Fits(c.up, BlackHeight(t), true);
  }

  /** With a red uncle, parent and uncle become black and the grandparent red. */
  lemma {:induction false} PushedFits<T>(c: Path<T>, t: Shape<T>)
    requires RedFits(c, t) && c.Step? && c.red && c.up.Step? && IsRed(c.up.sibling)
    ensures RedFits(c.up.up, Fill(c.up.(red := true, sibling := Blacken(c.up.sibling)), Blacken(Fill(c, t))))
  {
    GrandparentIsBlack(c, t);
    var p := Blacken(Fill(c, t));
    assert Balanced(p) && BlackHeight(p) == BlackHeight(t) + 1;
  }

  /** With a black uncle and both steps on the same side, the parent takes the place of the
      grandparent, which becomes its red child. */
  ghost function Lifted<T>(c: Path<T>): Path<T>
    requires c.Step? && c.up.Step?
  {
    var g := c.up;
    Step(g.up, c.onLeft, c.node, false,
         if c.onLeft then Branch(c.sibling, g.node, true, g.sibling) else Branch(g.sibling, g.node, true, c.sibling))
  }

  lemma {:induction false} LiftedFits<T>(c: Path<T>, t: Shape<T>)
    requires RedFits(c, t) && c.Step? && c.red && c.up.Step? && !IsRed(c.up.sibling)
    ensures RedFits(Lifted(c), t)
  {
    GrandparentIsBlack(c, t);
    var sib := Lifted(c).sibling;
    assert Balanced(sib) && BlackHeight(sib) == BlackHeight(t);
  }

  /** When the steps are on different sides, a rotation at the parent makes them the same. */
  lemma {:induction false} StraightenedFits<T>(c: Path<T>, t: Shape<T>)
    requires RedFits(c, t) && c.Step? && c.red
    ensures RedFits(Step(c.up, true, t.node, true, t.right), Branch(c.sibling, c.node, true, t.left))
    ensures RedFits(Step(c.up, false, t.node, true, t.left), Branch(t.right, c.node, true, c.sibling))
  {
    GrandparentIsBlack(c, t);
  }

  /** The end of the insert fix-up: the new red node is the root, or its parent is black. */
  lemma {:induction false} InsertDone<T>(c: Path<T>, t: Shape<T>)
    requires RedFits(c, t) && (c.Step? ==> !c.red)
    ensures Plug(c, t).Branch? && RedBlack(Blacken(Plug(c, t)))
  {
    if c.Step? {
      PlugRoot(c, t, t);
      PlugBalanced(c, t);
    }
  }

  // ---------- balance during a delete ----------

  /** `Plug(c, t)` is one black node short in `t`, unless the root of `t` is red and turns black. */
  ghost predicate ShortFits<T>(c: Path<T>, t: Shape<T>) {
    Balanced(Blacken(t)) && Fits(c, BlackHeight(t) + 1, false)
  }

  /** A node with at most one child is taken out. */
  lemma {:induction false} RemovedFits<T>(c: Path<T>, t: Shape<T>)
    requires t.Branch? && (t.left.Leaf? || t.right.Leaf?) && RedBlack(Plug(c, t))
    ensures t.red ==> RedBlack(Plug(c, OnlyChild(t)))
    ensures !t.red ==> ShortFits(c, OnlyChild(t))
    ensures RedBlack(Blacken(OnlyChild(t)))
  {
    PlugBalanced(c, t);
    var u := OnlyChild(t);
    FitsBlack(c, BlackHeight(t), IsRed(t));
    if t.red {
      assert u.Leaf?;
      PlugBalanced(c, u);
    }
  }

  /** Putting another item into the tree does not touch its balance. */
  lemma {:induction false} RelabelledFits<T>(inner: Path<T>, outer: Path<T>, x: T, bh: nat, red: bool)
    requires outer.Step?
    ensures Fits(Compose(inner, outer), bh, red) <==> Fits(Compose(inner, outer.(node := x)), bh, red)
  {
    if inner.Step? { RelabelledFits(inner.up, outer, x, bh + if inner.red then 0 else 1, inner.red); }
  }

  /** The leftmost node `u` of the right subtree is taken out and put in the place of the root of `t`. */
  lemma {:induction false} TakenNextFits<T>(c: Path<T>, t: Shape<T>, inner: Path<T>, u: Shape<T>)
    requires t.Branch? && u.Branch? && u.left.Leaf? && Plug(inner, u) == t.right && RedBlack(Plug(c, t))
    ensures var full := Compose(inner, Step(c, false, u.node, t.red, t.left));
      if u.red then RedBlack(Plug(full, u.right)) else ShortFits(full, u.right)
  {
    var d := Step(c, false, t.node, t.red, t.left);
    assert Fill(d, t.right) == t;
    ComposePlug(inner, d, u);
    var full, full' := Compose(inner, d), Compose(inner, d.(node := u.node));
    RemovedFits(full, u);
    var bh := BlackHeight(u.right);
    PlugBalanced(full, u.right);
    PlugBalanced(full', u.right);
    RelabelledFits(inner, d, u.node, bh, IsRed(u.right));
    RelabelledFits(inner, d, u.node, bh + 1, false);
  }

  /** The subtrees of the sibling on the near and on the far side of the hole. */
  ghost function Near<T>(c: Path<T>): Shape<T>
    requires c.Step? && c.sibling.Branch?
  {
    if c.onLeft then c.sibling.left else c.sibling.right
  }

  ghost function Far<T>(c: Path<T>): Shape<T>
    requires c.Step? && c.sibling.Branch?
  {
    if c.onLeft then c.sibling.right else c.sibling.left
  }

  lemma {:induction false} SiblingExists<T>(c: Path<T>, t: Shape<T>)
    requires ShortFits(c, t) && c.Step?
    ensures c.sibling.Branch? && Balanced(c.sibling) && BlackHeight(c.sibling) == BlackHeight(t) + 1
    ensures Balanced(Near(c)) && Balanced(Far(c)) && BlackHeight(Near(c)) == BlackHeight(Far(c))
    ensures Fits(c.up, BlackHeight(t) + 1 + if c.red then 0 else 1, c.red)
    ensures c.red ==> !IsRed(c.sibling)
    ensures IsRed(c.sibling) ==> !IsRed(Near(c)) && !IsRed(Far(c))
  {
    assert Fits(c, BlackHeight(t) + 1, false);
  }

  /** A red sibling is turned above the parent, which becomes red. */
  ghost function SiblingTurned<T>(c: Path<T>): Path<T>
    requires c.Step? && c.sibling.Branch?
  {
    Step(Step(c.up, c.onLeft, c.sibling.node, false, Far(c)), c.onLeft, c.node, true, Near(c))
  }

  lemma {:induction false} SiblingTurnedFits<T>(c: Path<T>, t: Shape<T>)
    requires ShortFits(c, t) && c.Step? && IsRed(c.sibling)
    ensures ShortFits(SiblingTurned(c), t) && !IsRed(SiblingTurned(c).sibling)
  {
    SiblingExists(c, t);
    var c' := SiblingTurned(c);
    assert Fits(c'.up, BlackHeight(t) + 1, true);
  }

  /** A black sibling with two black children turns red, and the parent is one short. */
  lemma {:induction false} SiblingReddenedFits<T>(c: Path<T>, t: Shape<T>)
    requires ShortFits(c, t) && !IsRed(t) && c.Step? && c.sibling.Branch? && !IsRed(c.sibling)
    requires !IsRed(Near(c)) && !IsRed(Far(c))
    ensures ShortFits(c.up, Fill(c.(sibling := c.sibling.(red := true)), t))
  {
    SiblingExists(c, t);
    FitsBlack(c.up, BlackHeight(t) + 1 + if c.red then 0 else 1, c.red);
    var w := c.sibling.(red := true);
    assert Balanced(w) && BlackHeight(w) == BlackHeight(t);
  }

  /** A red near child of the sibling is turned above it and becomes the sibling. */
  ghost function NearTurned<T>(c: Path<T>): Path<T>
    requires c.Step? && c.sibling.Branch? && Near(c).Branch?
  {
    var w, x := c.sibling, Near(c);
    c.(sibling := if c.onLeft then Branch(x.left, x.node, false, Branch(x.right, w.node, true, w.right))
                  else Branch(Branch(w.left, w.node, true, x.left), x.node, false, x.right))
  }

  lemma {:induction false} NearTurnedFits<T>(c: Path<T>, t: Shape<T>)
    requires ShortFits(c, t) && !IsRed(t) && c.Step? && c.sibling.Branch? && !IsRed(c.sibling)
    requires IsRed(Near(c)) && !IsRed(Far(c))
    ensures ShortFits(NearTurned(c), t) && !IsRed(NearTurned(c).sibling) && IsRed(Far(NearTurned(c)))
  {
    SiblingExists(c, t);
    var c' := NearTurned(c);
    assert Balanced(Near(c')) && Balanced(Far(c'));
    assert Balanced(c'.sibling) && BlackHeight(c'.sibling) == BlackHeight(t) + 1;
  }

  /** The sibling, with a red far child, takes the place of the parent: nothing is short any more. */
  ghost function SiblingLifted<T>(c: Path<T>, t: Shape<T>): Shape<T>
    requires c.Step? && c.sibling.Branch?
  {
    var w := c.sibling;
    if c.onLeft then Branch(Branch(t, c.node, false, w.left), w.node, c.red, Blacken(w.right))
    else Branch(Blacken(w.left), w.node, c.red, Branch(w.right, c.node, false, t))
  }

  lemma {:induction false} SiblingLiftedFits<T>(c: Path<T>, t: Shape<T>)
    requires ShortFits(c, t) && !IsRed(t) && c.Step? && c.sibling.Branch? && !IsRed(c.sibling) && IsRed(Far(c))
    ensures RedBlack(Plug(c.up, SiblingLifted(c, t)))
  {
    SiblingExists(c, t);
    var u := SiblingLifted(c, t);
    assert Balanced(u.left) && Balanced(u.right);
    assert Balanced(u) && BlackHeight(u) == BlackHeight(t) + 1 + if c.red then 0 else 1;
    PlugBalanced(c.up, u);
  }

  /** The end of the delete fix-up: blackening the root of `t` settles the account. */
  lemma {:induction false} DeleteDone<T>(c: Path<T>, t: Shape<T>)
    requires ShortFits(c, t) && (c.Step? ==> IsRed(t))
    ensures RedBlack(Plug(c, Blacken(t)))
  {
    PlugBalanced(c, Blacken(t));
  }

  // ---------- height ----------

  ghost function Height<T>(t: Shape<T>): nat {
    if t.Leaf? then 0
    else 1 + if Height(t.left) < Height(t.right) then Height(t.right) else Height(t.left)
  }

  lemma {:induction false} HeightVsBlackHeight<T>(t: Shape<T>)
    requires Balanced(t)
    ensures Height(t) <= 2 * BlackHeight(t) + if IsRed(t) then 1 else 0
  {
    if t.Branch? {
      HeightVsBlackHeight(t.left);
      HeightVsBlackHeight(t.right);
    }
  }

  lemma {:induction false} SizeVsBlackHeight<T>(t: Shape<T>)
    requires Balanced(t)
    ensures Pow2(BlackHeight(t)) <= |InOrder(t)| + 1
  {
    if t.Branch? {
      SizeVsBlackHeight(t.left);
      SizeVsBlackHeight(t.right);
    }
  }

  /** A red-black tree of n nodes has height at most 2*log2(n+1). */
  lemma {:induction false} HeightBound<T>(t: Shape<T>)
    requires RedBlack(t)
    ensures Pow2(Height(t)) <= (|InOrder(t)| + 1) * (|InOrder(t)| + 1)
  {
    var b, n := BlackHeight(t), |InOrder(t)| + 1;
    HeightVsBlackHeight(t);
    SizeVsBlackHeight(t);
    Pow2Monotone(Height(t), 2 * b);
    Pow2Square(b);
    SquareMonotone(Pow2(b), n);
  }

  lemma SquareMonotone(a: nat, b: nat)
    requires a <= b
    ensures a * a <= b * b
  {
    assert a * a <= a * b <= b * b;
  }
}
