/** The growing pointer list with binary-search insertion. */
module ItemList {
  import opened Sequences
  import opened Wrappers

  // ---------- orders and searching ----------

  /** On the items of `dom` the comparator behaves like an order. */
  ghost predicate Preorder<T>(cmp: (T, T) -> int, dom: set<T>) {
    && (forall a, b | a in dom && b in dom :: cmp(a, b) < 0 <==> cmp(b, a) > 0)
    && (forall a, b, c | a in dom && b in dom && c in dom :: cmp(a, b) <= 0 && cmp(b, c) <= 0 ==> cmp(a, c) <= 0)
  }

  ghost predicate Ordered<T>(cmp: (T, T) -> int, s: seq<T>) {
    forall i, j | 0 <= i < j < |s| :: cmp(s[i], s[j]) <= 0
  }

  ghost predicate StrictlyOrdered<T>(cmp: (T, T) -> int, s: seq<T>) {
    forall i, j | 0 <= i < j < |s| :: cmp(s[i], s[j]) < 0
  }

  /** The index at which a binary search of `s[low..high]` puts `x`. */
  ghost function FindPos<T>(cmp: (T, T) -> int, s: seq<T>, x: T, low: nat, high: nat): (pos: nat)
    requires low <= high <= |s|
    ensures low <= pos <= high
    decreases high - low
  {
    if low == high then low
    else
      var middle := (low + high - 1) / 2;
      var r := cmp(s[middle], x);
      if r == 0 then middle
      else if r > 0 then FindPos(cmp, s, x, low, middle)
      else FindPos(cmp, s, x, middle + 1, high)
  }

  ghost function Place<T>(cmp: (T, T) -> int, s: seq<T>, x: T): (pos: nat)
    ensures pos <= |s|
  {
    FindPos(cmp, s, x, 0, |s|)
  }

  ghost function Inserted<T>(s: seq<T>, pos: nat, x: T): (s': seq<T>)
    requires pos <= |s|
    ensures |s'| == |s| + 1 && s'[pos] == x
  {
    s[..pos] + [x] + s[pos..]
  }

  /** What one comparison says about the items on either side. */
  lemma ComparedAt<T>(cmp: (T, T) -> int, s: seq<T>, x: T, m: nat, i: nat)
    requires m < |s| && i < |s| && Ordered(cmp, s) && Preorder(cmp, (set y | y in s) + {x})
    ensures i <= m && cmp(s[m], x) <= 0 ==> cmp(s[i], x) <= 0
    ensures m <= i && cmp(s[m], x) >= 0 ==> cmp(s[i], x) >= 0
  {
    assert s[i] in s && s[m] in s;
    if m < i && cmp(s[m], x) >= 0 { assert cmp(x, s[m]) <= 0 && cmp(s[m], s[i]) <= 0; }
  }

  /** In an ordered list everything before the place is at most `x`, and everything from it on
      at least `x`. */
  lemma {:induction false} PlaceSplits<T>(cmp: (T, T) -> int, s: seq<T>, x: T, low: nat, high: nat)
    requires low <= high <= |s| && Ordered(cmp, s) && Preorder(cmp, (set y | y in s) + {x})
    requires (forall i | 0 <= i < low :: cmp(s[i], x) <= 0) && (forall i | high <= i < |s| :: cmp(s[i], x) >= 0)
    ensures var pos := FindPos(cmp, s, x, low, high);
      (forall i | 0 <= i < pos :: cmp(s[i], x) <= 0) && (forall i | pos <= i < |s| :: cmp(s[i], x) >= 0)
    decreases high - low
  {
    if low < high {
      var middle := (low + high - 1) / 2;
      hide Preorder, Ordered;
      var r := cmp(s[middle], x);
      if r >= 0 {
        forall i | middle <= i < |s|
          ensures cmp(s[i], x) >= 0
        {
          ComparedAt(cmp, s, x, middle, i);
        }
      }
      if r <= 0 {
        forall i | 0 <= i <= middle
          ensures cmp(s[i], x) <= 0
        {
          ComparedAt(cmp, s, x, middle, i);
        }
      }
      if r > 0 {
        PlaceSplits(cmp, s, x, low, middle);
      } else if r < 0 {
        PlaceSplits(cmp, s, x, middle + 1, high);
      }
    }
  }

  /** Inserting at the place found keeps a list ordered. */
  lemma InsertedOrdered<T>(cmp: (T, T) -> int, s: seq<T>, x: T)
    requires Ordered(cmp, s) && Preorder(cmp, (set y | y in s) + {x})
    ensures Ordered(cmp, Inserted(s, Place(cmp, s, x), x))
  {
    PlaceSplits(cmp, s, x, 0, |s|);
    Turned(cmp, s, x);
    Between(cmp, s, x, Place(cmp, s, x), 1);
  }

  /** Unless an equal item is already there, it keeps it strictly ordered. */
  lemma InsertedStrictly<T>(cmp: (T, T) -> int, s: seq<T>, x: T)
    requires StrictlyOrdered(cmp, s) && Preorder(cmp, (set y | y in s) + {x})
    requires forall i | 0 <= i < |s| :: cmp(s[i], x) != 0
    ensures StrictlyOrdered(cmp, Inserted(s, Place(cmp, s, x), x))
  {
    PlaceSplits(cmp, s, x, 0, |s|);
    Turned(cmp, s, x);
    Between(cmp, s, x, Place(cmp, s, x), 0);
  }

  lemma Turned<T>(cmp: (T, T) -> int, s: seq<T>, x: T)
    requires Preorder(cmp, (set y | y in s) + {x})
    ensures forall i | 0 <= i < |s| :: cmp(s[i], x) > 0 <==> cmp(x, s[i]) < 0
    ensures forall i | 0 <= i < |s| :: cmp(s[i], x) < 0 <==> cmp(x, s[i]) > 0
  {
    forall i | 0 <= i < |s|
      ensures (cmp(s[i], x) > 0 <==> cmp(x, s[i]) < 0) && (cmp(s[i], x) < 0 <==> cmp(x, s[i]) > 0)
    {
      assert s[i] in s;
    }
  }

  /** Both kinds of order at once: `bound` is 1 for the order and 0 for the strict one. */
  lemma Between<T>(cmp: (T, T) -> int, s: seq<T>, x: T, pos: nat, bound: int)
    requires forall i, j | 0 <= i < j < |s| :: cmp(s[i], s[j]) < bound
    requires pos <= |s| && (forall i | 0 <= i < pos :: cmp(s[i], x) < bound)
      && (forall i | pos <= i < |s| :: cmp(x, s[i]) < bound)
    ensures var t := Inserted(s, pos, x); forall i, j | 0 <= i < j < |t| :: cmp(t[i], t[j]) < bound
  {
  }

  /** An item greater than all others is put at the end. */
  lemma {:induction false} FindPosAppends<T>(cmp: (T, T) -> int, s: seq<T>, x: T, low: nat, high: nat)
    requires low <= high == |s| && forall i | 0 <= i < |s| :: cmp(s[i], x) < 0
    ensures FindPos(cmp, s, x, low, high) == |s|
    decreases high - low
  {
    if low < high { FindPosAppends(cmp, s, x, (low + high - 1) / 2 + 1, high); }
  }

  /** A search depends only on how the items compare with the target. */
  lemma {:induction false} FindPosSame<T, U>(cmp: (T, T) -> int, s: seq<T>, x: T,
          cmp': (U, U) -> int, s': seq<U>, x': U, low: nat, high: nat)
    requires |s| == |s'| && forall i | 0 <= i < |s| :: cmp(s[i], x) == cmp'(s'[i], x')
    requires low <= high <= |s|
    ensures FindPos(cmp, s, x, low, high) == FindPos(cmp', s', x', low, high)
    decreases high - low
  {
    if low < high {
      var middle := (low + high - 1) / 2;
      FindPosSame(cmp, s, x, cmp', s', x', low, middle);
      FindPosSame(cmp, s, x, cmp', s', x', middle + 1, high);
    }
  }

  // ---------- the list ----------

  class List<T(==)> {
    const compare: Option<(T, T) -> int>
    var p: array<Option<T>>
    var numItem: nat
    var numReserved: nat
    var sorted: bool
    /** The items of the list; the slots of `p` behind them hold nothing. */
    ghost var contents: seq<T>

    ghost predicate Valid()
      reads this, p
    {
      && numReserved == p.Length && 32 <= numReserved
      && numItem == |contents| <= numReserved
      && forall i | 0 <= i < numItem :: p[i] == Some(contents[i])
    }

    /** What the flag `sorted` stands for. */
    ghost predicate FlagHolds()
      reads this
    {
      compare.Some? && sorted ==> Ordered(compare.value, contents)
    }

    /** The comparator is a total preorder on the items of the list and `more`. */
    ghost predicate Comparable(more: set<T>)
      reads this
    {
      compare.Some? ==> Preorder(compare.value, (set y | y in contents) + more)
    }

    constructor (compare: Option<(T, T) -> int>)
      ensures FlagHolds()
      ensures Valid() && contents == [] && sorted && this.compare == compare && fresh(p)
    {
      this.compare := compare;
      p := new Option<T>[32](_ => None);
      numItem, numReserved, sorted, contents := 0, 32, true, [];
    }

    /** Copies the items to an array of another size. */
    method Reallocate(n: nat)
      requires Valid() && 32 <= n && numItem <= n
      modifies `p, `numReserved
      ensures Valid() && fresh(p) && numReserved == n
    {
      var q := new Option<T>[n](_ => None);
      for i := 0 to numItem
        invariant Valid() && p == old(p) && forall j | 0 <= j < i :: q[j] == p[j]
      {
        q[i] := p[i];
      }
      p, numReserved := q, n;
    }

    method Add(x: T)
      requires Valid()
      modifies this, p
      ensures Valid() && (p == old(p) || fresh(p))
      ensures contents == old(contents) + [x] && !sorted && FlagHolds()
    {
      var i := numItem;
      if numItem + 1 > numReserved {
        Reallocate(2 * numReserved);
      }
      numItem := numItem + 1;
      p[i] := Some(x);
      contents := contents + [x];
      sorted := false;
    }

    /** Where a binary search of the first `n` items puts `x`. */
    method FindPlace(cmp: (T, T) -> int, x: T, n: nat) returns (pos: nat)
      requires Valid() && n <= numItem
      ensures pos == FindPos(cmp, contents, x, 0, n)
    {
      var low, high := 0, n - 1;
      while low <= high
        invariant 0 <= low <= high + 1 <= n
        invariant FindPos(cmp, contents, x, low, high + 1) == FindPos(cmp, contents, x, 0, n)
        decreases high - low
      {
        var middle := (low + high) / 2;
        var r := cmp(p[middle].value, x);
        if r == 0 {
          return middle;
        } else if r > 0 {
          high := middle - 1;
        } else {
          low := middle + 1;
        }
      }
      pos := low;
    }

    /** Makes room at the index `pos` of the `n` items at the front of the array, and puts `x` there. */
    method PutAt(x: T, pos: nat, n: nat, ghost s: seq<T>)
      requires pos <= n == |s| && n < p.Length && forall i | 0 <= i < n :: p[i] == Some(s[i])
      modifies p
      ensures forall i | 0 <= i <= n :: p[i] == Some(Inserted(s, pos, x)[i])
      ensures forall i | n < i < p.Length :: p[i] == old(p[i])
    {
      var i := n - 1;
      while i >= pos
        invariant pos - 1 <= i < n
        invariant forall j | 0 <= j <= i :: p[j] == Some(s[j])
        invariant forall j | i + 1 < j <= n :: p[j] == Some(s[j - 1])
        invariant forall j | n < j < p.Length :: p[j] == old(p[j])
      {
        p[i + 1] := p[i];
        i := i - 1;
      }
      p[pos] := Some(x);
    }

    /** Stands for the library's sort: any ordered permutation. */
    method Sort()
      requires Valid()
      modifies this`contents, this`sorted, p
      ensures Valid()
      ensures compare.None? ==> contents == old(contents) && sorted == old(sorted)
      ensures compare.Some? ==> sorted && multiset(contents) == multiset(old(contents))
      ensures compare.Some? && Preorder(compare.value, set y | y in old(contents)) ==> Ordered(compare.value, contents)
      ensures old(Comparable({})) ==> FlagHolds()
    {
      assert old((set y | y in contents) + {}) == old(set y | y in contents);
      if compare.None? {
        return;
      }
      var cmp := compare.value;
      ghost var before := contents;
      for i := 0 to numItem
        invariant Valid() && SortedUpTo(cmp, before, contents, i)
      {
        SortStep(cmp, i, before);
      }
      assert contents[..numItem] == contents && before[..numItem] == before;
      sorted := true;
    }

    method SortStep(cmp: (T, T) -> int, i: nat, ghost before: seq<T>)
      requires Valid() && i < numItem && SortedUpTo(cmp, before, contents, i)
      modifies this`contents, p
      ensures Valid() && SortedUpTo(cmp, before, contents, i + 1)
    {
      hide SortedUpTo, FindPos;
      var x := p[i].value;
      var pos := FindPlace(cmp, x, i);
      SortedStep(cmp, before, contents, i, pos);
      PutAt(x, pos, i, contents[..i]);
      contents := Inserted(contents[..i], pos, x) + contents[i + 1..];
    }

    /** Puts `x` where a binary search finds its place. */
    method Insert(x: T) returns (ghost base: seq<T>)
      requires Valid()
      modifies this, p
      ensures Valid() && (p == old(p) || fresh(p))
      ensures compare.None? ==> contents == old(contents) + [x] && !sorted
      ensures compare.Some? ==> sorted && contents == Inserted(base, Place(compare.value, base, x), x)
      ensures old(sorted) ==> base == old(contents)
      ensures multiset(base) == multiset(old(contents))
      ensures compare.Some? && !old(sorted) && Preorder(compare.value, set y | y in old(contents))
        ==> Ordered(compare.value, base)
      ensures old(FlagHolds() && Comparable({x})) ==> FlagHolds()
    {
      hide Preorder, Ordered, FindPos;
      base := contents;
      if compare.None? {
        Add(x);
        return;
      }
      ghost var cmp := compare.value;
      FewerItems(cmp, contents, x);
      if !sorted {
        Sort();
        base := contents;
      }
      var pos := FindPlace(compare.value, x, numItem);
      if numItem + 1 > numReserved {
        Reallocate(2 * numReserved);
      }
      PutAt(x, pos, numItem, contents);
      numItem := numItem + 1;
      contents := Inserted(contents, pos, x);
      InsertedInOrder(cmp, old(contents), base, x);
    }

    /** Takes out the first occurrence of `x`. */
    method Delete(x: T) returns (ok: bool, ghost at: nat)
      requires Valid()
      modifies `p, `numItem, `numReserved, `contents, p
      ensures Valid() && (p == old(p) || fresh(p))
      ensures ok <==> x in old(contents)
      ensures ok ==> at < |old(contents)| && old(contents)[at] == x && x !in old(contents)[..at]
      ensures contents == if ok then old(contents)[..at] + old(contents)[at + 1..] else old(contents)
      ensures old(FlagHolds()) ==> FlagHolds()
    {
      hide Ordered;
      var i := 0;
      while i < numItem && p[i] != Some(x)
        invariant i <= numItem && x !in contents[..i]
      {
        i := i + 1;
      }
      ok, at := i < numItem, i;
      if !ok {
        assert contents[..numItem] == contents;
        return;
      }
      ghost var rest := contents[..at] + contents[at + 1..];
      assert forall j | 0 <= j < |rest| :: rest[j] == contents[if at <= j then j + 1 else j];
      if compare.Some? { RemovedOrdered(compare.value, contents, at); }
      MoveDown(i);
      contents := rest;
      numItem := numItem - 1;
      Shrink();
    }

    /** Gives half of the room back when no more than half is used. */
    method Shrink()
      requires Valid()
      modifies `p, `numReserved
      ensures Valid() && (p == old(p) || fresh(p))
    {
      if numItem * 2 <= numReserved {
        if numReserved > 64 {
          Reallocate(numReserved / 2);
        }
      }
    }

    /** Moves the items behind `n` one slot down. */
    method MoveDown(n: nat)
      requires Valid() && n < numItem
      modifies p
      ensures forall i | 0 <= i < numItem - 1 :: p[i] == old(if n <= i then p[i + 1] else p[i])
    {
      for i := n to numItem - 1
        invariant forall j | 0 <= j < p.Length :: p[j] == old(if n <= j < i then p[j + 1] else p[j])
      {
        p[i] := p[i + 1];
      }
    }

    method DeleteAll()
      requires Valid()
      modifies `p, `numItem, `numReserved, `contents
      ensures Valid() && contents == [] && fresh(p) && FlagHolds()
    {
      numItem, contents := 0, [];
      Reallocate(32);
    }

    /** Stands for the library's binary search: some item equal to the target, if there is one. */
    method Search(target: T) returns (found: Option<T>)
      requires Valid()
      modifies this`contents, this`sorted, p
      ensures Valid()
      ensures old(sorted) || compare.None? ==> contents == old(contents) && sorted == old(sorted)
      ensures multiset(contents) == multiset(old(contents))
      ensures compare.None? ==> found.None?
      ensures found.Some? ==> found.value in contents && compare.value(found.value, target) == 0
      ensures compare.Some? && found.None? && Ordered(compare.value, contents)
        && Preorder(compare.value, (set y | y in contents) + {target})
        ==> forall i | 0 <= i < |contents| :: compare.value(contents[i], target) != 0
      ensures old(FlagHolds() && Comparable({})) ==> FlagHolds()
    {
      if compare.None? {
        return None;
      }
      var cmp := compare.value;
      if !sorted {
        Sort();
      }
      var pos := FindPlace(cmp, target, numItem);
      if pos < numItem && cmp(p[pos].value, target) == 0 {
        return p[pos];
      }
      found := None;
      if Ordered(cmp, contents) && Preorder(cmp, (set y | y in contents) + {target}) {
        PlaceFindsEqual(cmp, contents, target);
      }
    }
  }

  lemma FewerItems<T>(cmp: (T, T) -> int, s: seq<T>, x: T)
    ensures Preorder(cmp, (set y | y in s) + {x}) ==> Preorder(cmp, set y | y in s)
  {
  }

  lemma RemovedOrdered<T>(cmp: (T, T) -> int, s: seq<T>, at: nat)
    requires at < |s|
    ensures Ordered(cmp, s) ==> Ordered(cmp, s[..at] + s[at + 1..])
  {
  }

  lemma InsertedInOrder<T>(cmp: (T, T) -> int, before: seq<T>, base: seq<T>, x: T)
    requires multiset(base) == multiset(before)
    ensures Ordered(cmp, base) && Preorder(cmp, (set y | y in before) + {x})
      ==> Ordered(cmp, Inserted(base, Place(cmp, base, x), x))
  {
    hide Preorder, Ordered, Place, Inserted;
    SameItems(base, before);
    if Ordered(cmp, base) && Preorder(cmp, (set y | y in before) + {x}) { InsertedOrdered(cmp, base, x); }
  }

  lemma SameItems<T>(s: seq<T>, t: seq<T>)
    requires multiset(s) == multiset(t)
    ensures (set y | y in s) == (set y | y in t)
  {
    assert forall y :: y in s <==> y in multiset(s);
    assert forall y :: y in t <==> y in multiset(t);
  }

  /** A search of a prefix does not look behind it. */
  lemma {:induction false} FindPosPrefix<T>(cmp: (T, T) -> int, s: seq<T>, x: T, n: nat, low: nat, high: nat)
    requires low <= high <= n <= |s|
    ensures FindPos(cmp, s, x, low, high) == FindPos(cmp, s[..n], x, low, high)
    decreases high - low
  {
    if low < high {
      var middle := (low + high - 1) / 2;
      FindPosPrefix(cmp, s, x, n, low, middle);
      FindPosPrefix(cmp, s, x, n, middle + 1, high);
    }
  }

  lemma InsertedItems<T>(s: seq<T>, k: nat, x: T)
    requires k <= |s|
    ensures multiset(Inserted(s, k, x)) == multiset(s) + multiset{x}
  {
    assert s == s[..k] + s[k..];
  }

  lemma OneMoreItem<T>(s: seq<T>, x: T)
    ensures multiset(s + [x]) == multiset(s) + multiset{x}
  {
  }

  /** `s` is `before` with its first `i` items sorted. */
  ghost predicate SortedUpTo<T>(cmp: (T, T) -> int, before: seq<T>, s: seq<T>, i: nat) {
    && i <= |s| == |before| && s[i..] == before[i..] && multiset(s[..i]) == multiset(before[..i])
    && (Preorder(cmp, set y | y in before) ==> Ordered(cmp, s[..i]))
  }

  lemma SortedStep<T>(cmp: (T, T) -> int, before: seq<T>, s: seq<T>, i: nat, pos: nat)
    requires i < |s| && SortedUpTo(cmp, before, s, i) && pos == FindPos(cmp, s, s[i], 0, i)
    ensures SortedUpTo(cmp, before, Inserted(s[..i], pos, s[i]) + s[i + 1..], i + 1)
  {
    hide Preorder, Ordered;
    var x, u, t := s[i], s[..i], Inserted(s[..i], pos, s[i]) + s[i + 1..];
    FindPosPrefix(cmp, s, x, i, 0, i);
    assert x == before[i] by { assert s[i..][0] == before[i..][0]; }
    assert s[i + 1..] == s[i..][1..] && before[i + 1..] == before[i..][1..];
    Parts(Inserted(u, pos, x), s[i + 1..], 0);
    InsertedItems(u, pos, x);
    assert before[..i + 1] == before[..i] + [x];
    OneMoreItem(before[..i], x);
    if Preorder(cmp, set y | y in before) {
      SamePreorder(cmp, before, i, u, x);
      InsertedOrdered(cmp, u, x);
    }
  }

  lemma SamePreorder<T>(cmp: (T, T) -> int, before: seq<T>, i: nat, s: seq<T>, x: T)
    requires i < |before| && multiset(s) == multiset(before[..i]) && x == before[i]
    requires Preorder(cmp, set y | y in before)
    ensures Preorder(cmp, (set y | y in s) + {x})
  {
    forall y | y in s
      ensures y in before
    {
      assert y in multiset(s);
      assert y in before[..i];
    }
  }

  /** In an ordered list the place of `x` holds an equal item, or there is none. */
  lemma PlaceFindsEqual<T>(cmp: (T, T) -> int, s: seq<T>, x: T)
    requires Ordered(cmp, s) && Preorder(cmp, (set y | y in s) + {x})
    requires var pos := Place(cmp, s, x); pos < |s| ==> cmp(s[pos], x) != 0
    ensures forall i | 0 <= i < |s| :: cmp(s[i], x) != 0
  {
    FindPosHits(cmp, s, x, 0, |s|);
  }

  /** An item on the far side of an unequal one is not equal either. */
  lemma NotEqual<T>(cmp: (T, T) -> int, s: seq<T>, x: T, i: nat, j: nat)
    requires i <= j < |s| && Ordered(cmp, s) && Preorder(cmp, (set y | y in s) + {x})
    ensures cmp(s[i], x) > 0 ==> cmp(s[j], x) != 0
    ensures cmp(s[j], x) < 0 ==> cmp(s[i], x) != 0
  {
    var a, b := s[i], s[j];
    if i < j { assert cmp(a, b) <= 0; }
    assert cmp(a, x) == 0 ==> cmp(x, a) <= 0;
  }

  lemma {:induction false} FindPosHits<T>(cmp: (T, T) -> int, s: seq<T>, x: T, low: nat, high: nat)
    requires low <= high <= |s| && Ordered(cmp, s) && Preorder(cmp, (set y | y in s) + {x})
    requires forall i | 0 <= i < |s| && !(low <= i < high) :: cmp(s[i], x) != 0
    requires var pos := FindPos(cmp, s, x, low, high); pos < |s| ==> cmp(s[pos], x) != 0
    ensures forall i | 0 <= i < |s| :: cmp(s[i], x) != 0
    decreases high - low
  {
    hide Ordered, Preorder;
    if low < high {
      var middle := (low + high - 1) / 2;
      if cmp(s[middle], x) > 0 {
        forall i | middle <= i < |s| ensures cmp(s[i], x) != 0 { NotEqual(cmp, s, x, middle, i); }
        FindPosHits(cmp, s, x, low, middle);
      } else {
        forall i | 0 <= i <= middle ensures cmp(s[i], x) != 0 { NotEqual(cmp, s, x, i, middle); }
        FindPosHits(cmp, s, x, middle + 1, high);
      }
    }
  }
}
