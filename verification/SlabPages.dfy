/** The page level of the slab allocator: the layout of the pool, and the first-fit allocation of runs
    of pages from the free list.  Pages are named by the indices of their descriptors. */
module SlabPages {
  import opened Sequences
  import opened Wrappers

  const START := 0x8000_0000_0000_0000
  const BUSY := 0xffff_ffff_ffff_ffff
  const DESCRIPTOR_SIZE := 24
  const POOL_SIZE := 96

  /** Where a pointer to a descriptor leads: nowhere, to the head of the free list, or to a page. */
  datatype Link = Null | Head | At(i: nat)

  datatype Page = Page(slab: nat, prev: Link, next: Link)

  /** A run of pages: free, or allocated. */
  datatype Run = Run(start: nat, len: nat, free: bool)

  // ---------- runs ----------

  /** The runs cover the pages from `at` to `n`, one behind the other. */
  ghost predicate Tiled(runs: seq<Run>, at: nat, n: nat) {
    if runs == [] then at == n
    else runs[0].start == at && runs[0].len > 0 && Tiled(runs[1..], at + runs[0].len, n)
  }

  ghost function FreePages(runs: seq<Run>): nat {
    if runs == [] then 0 else (if runs[0].free then runs[0].len else 0) + FreePages(runs[1..])
  }

  lemma {:induction false} TiledConcat(a: seq<Run>, b: seq<Run>, at: nat, m: nat, n: nat)
    requires Tiled(a, at, m)
    ensures Tiled(a + b, at, n) <==> Tiled(b, m, n)
  {
    if a == [] {
      assert a + b == b;
    } else {
      RestOfSum(a, b);
      TiledConcat(a[1..], b, at + a[0].len, m, n);
    }
  }

  lemma {:induction false} TiledLimit(runs: seq<Run>, at: nat, n: nat)
    requires Tiled(runs, at, n)
    ensures at <= n
  {
    if runs != [] { TiledLimit(runs[1..], at + runs[0].len, n); }
  }

  lemma {:induction false} TiledFront(runs: seq<Run>, at: nat, n: nat, i: nat)
    requires Tiled(runs, at, n) && i < |runs|
    ensures at <= runs[i].start && runs[i].start + runs[i].len <= n && runs[i].len > 0
    ensures Tiled(runs[..i], at, runs[i].start) && Tiled(runs[i + 1..], runs[i].start + runs[i].len, n)
  {
    if i == 0 {
      TiledLimit(runs[1..], at + runs[0].len, n);
    } else {
      TiledFront(runs[1..], at + runs[0].len, n, i - 1);
      assert runs[1..][i - 1] == runs[i] && runs[1..][..i - 1] == runs[..i][1..] && runs[1..][i..] == runs[i + 1..];
    }
  }

  /** Different runs have no page in common. */
  lemma {:induction false} RunsApart(runs: seq<Run>, n: nat, i: nat, j: nat)
    requires Tiled(runs, 0, n) && i < j < |runs|
    ensures runs[i].start + runs[i].len <= runs[j].start
  {
    TiledFront(runs, 0, n, i);
    TiledFront(runs[i + 1..], runs[i].start + runs[i].len, n, j - i - 1);
  }

  lemma {:induction false} FreeConcat(a: seq<Run>, b: seq<Run>)
    ensures FreePages(a + b) == FreePages(a) + FreePages(b)
  {
    if a == [] {
      assert a + b == b;
    } else {
      RestOfSum(a, b);
      FreeConcat(a[1..], b);
    }
  }

  /** What takes the place of a free run when its first `n` pages are allocated. */
  ghost function Pieces(r: Run, n: nat): seq<Run>
    requires n <= r.len
  {
    [Run(r.start, n, false)] + if n < r.len then [Run(r.start + n, r.len - n, true)] else []
  }

  ghost function Taken(runs: seq<Run>, i: nat, n: nat): seq<Run>
    requires i < |runs| && n <= runs[i].len
  {
    runs[..i] + Pieces(runs[i], n) + runs[i + 1..]
  }

  lemma PiecesTile(r: Run, n: nat)
    requires r.free && 0 < n <= r.len
    ensures Tiled(Pieces(r, n), r.start, r.start + r.len) && FreePages(Pieces(r, n)) == r.len - n
  {
    var a, b := Run(r.start, n, false), Run(r.start + n, r.len - n, true);
    assert [a][1..] == [] && [b][1..] == [] && [a, b][1..] == [b];
    assert Pieces(r, n) == if n < r.len then [a, b] else [a];
    assert FreePages([b]) == b.len;
  }

  lemma FreeOne(r: Run)
    ensures FreePages([r]) == if r.free then r.len else 0
  {
    assert [r][1..] == [];
  }

  /** The pages are still tiled, and `n` of them are no longer free. */
  lemma {:induction false} TakenTiles(runs: seq<Run>, i: nat, n: nat, last: nat)
    requires Tiled(runs, 0, last) && i < |runs| && runs[i].free && 0 < n <= runs[i].len
    ensures Tiled(Taken(runs, i, n), 0, last) && FreePages(Taken(runs, i, n)) == FreePages(runs) - n
  {
    var a, r, b, p := runs[..i], runs[i], runs[i + 1..], Pieces(runs[i], n);
    TiledFront(runs, 0, last, i);
    PiecesTile(r, n);
    FreeOne(r);
    assert Taken(runs, i, n) == a + p + b;
    hide Tiled, Pieces, FreePages, Taken;
    TiledConcat(p, b, r.start, r.start + r.len, last);
    TiledConcat(a, p + b, 0, r.start, last);
    Grouped(a, p, b);
    CutAt(runs, i);
    FreeConcat(a, [r] + b);
    FreeConcat([r], b);
    FreeConcat(a, p + b);
    FreeConcat(p, b);
  }

  // ---------- the pool ----------

  /** What the descriptors of a run contain. */
  ghost predicate Described(r: Run, pages: seq<Page>) {
    && r.start + r.len <= |pages| && r.len > 0
    && if r.free then pages[r.start].slab == r.len
       else
         && pages[r.start].slab == START + r.len && pages[r.start].next == Null
         && forall i | r.start < i < r.start + r.len :: pages[i].slab == BUSY && pages[i].next == Null
  }

  /** The link to the page in front of the index `k` of the free list, and the one to the page at `k`. */
  ghost function Before(list: seq<nat>, k: nat): Link
    requires k <= |list|
  {
    if k == 0 then Head else At(list[k - 1])
  }

  ghost function Here(list: seq<nat>, k: nat): Link
    requires k <= |list|
  {
    if k == |list| then Head else At(list[k])
  }

  /** The pages of the free list, linked in both directions behind the head. */
  ghost predicate Listed(list: seq<nat>, pages: seq<Page>, head: Page) {
    && head.next == Here(list, 0)
    && (forall i, j | 0 <= i < j < |list| :: list[i] != list[j])
    && (forall k | 0 <= k < |list| :: list[k] < |pages|)
    && (forall k {:trigger pages[list[k]]} | 0 <= k < |list| ::
         pages[list[k]].next == Here(list, k + 1) && pages[list[k]].prev == Before(list, k))
  }

  /** The free list holds the first pages of the free runs. */
  ghost predicate Heads(list: seq<nat>, runs: seq<Run>) {
    && (forall k | 0 <= k < |list| :: IsFreeAt(runs, list[k]))
    && (forall i | 0 <= i < |runs| && runs[i].free :: runs[i].start in list)
  }

  ghost predicate IsFreeAt(runs: seq<Run>, page: nat) {
    exists i :: 0 <= i < |runs| && runs[i].free && runs[i].start == page
  }

  /** What a change of the links does: the page in front of `k` points to `next`, and the one behind
      it back to `prev`. */
  ghost predicate Bridged(list: seq<nat>, k: nat, was: seq<Page>, now: seq<Page>, head: Page, head': Page, next: Link,
          prev: Link)
    requires k < |list|
  {
    && |now| == |was|
    && (forall x | 0 <= x < |was| :: now[x].slab == was[x].slab)
    && (forall x | 0 <= x < |was| :: now[x].next == if k > 0 && x == list[k - 1] then next else was[x].next)
    && (forall x | 0 <= x < |was| :: now[x].prev == if k + 1 < |list| && x == list[k + 1] then prev else was[x].prev)
    && head'.next == if k == 0 then next else head.next
  }

  /** The links of the page at the index `o` of a list. */
  ghost predicate LinkedAt(list: seq<nat>, pages: seq<Page>, o: nat)
    requires o < |list|
  {
    list[o] < |pages| && pages[list[o]].next == Here(list, o + 1) && pages[list[o]].prev == Before(list, o)
  }

  lemma ListedWhenLinked(list: seq<nat>, pages: seq<Page>, head: Page)
    requires head.next == Here(list, 0) && forall i, j | 0 <= i < j < |list| :: list[i] != list[j]
    requires forall o | 0 <= o < |list| :: LinkedAt(list, pages, o)
    ensures Listed(list, pages, head)
  {
    hide Here, Before;
    forall o | 0 <= o < |list|
      ensures list[o] < |pages| && pages[list[o]].next == Here(list, o + 1) && pages[list[o]].prev == Before(list, o)
    {
      assert LinkedAt(list, pages, o);
    }
  }

  /** The links of the page at the index `o` of the list, when the neighbours of the one at `k` point past it. */
  lemma BridgedAt(list: seq<nat>, k: nat, was: seq<Page>, now: seq<Page>, head: Page, head': Page, o: nat)
    requires k < |list| && Listed(list, was, head) && o < |list| && o != k
    requires Bridged(list, k, was, now, head, head', Here(list, k + 1), Before(list, k))
    ensures list[o] < |now|
    ensures now[list[o]].next == Here(list, if o + 1 == k then k + 1 else o + 1)
    ensures now[list[o]].prev == Before(list, if o == k + 1 then k else o)
  {
    assert was[list[o]].next == Here(list, o + 1) && was[list[o]].prev == Before(list, o);
    assert k > 0 && list[o] == list[k - 1] ==> o == k - 1;
    assert k + 1 < |list| && list[o] == list[k + 1] ==> o == k + 1;
  }

  /** The page behind `m` in the list without the one at `k`. */
  lemma BridgedLink(list: seq<nat>, k: nat, was: seq<Page>, now: seq<Page>, head: Page, head': Page, m: nat)
    requires k < |list| && Listed(list, was, head) && m < |list| - 1
    requires Bridged(list, k, was, now, head, head', Here(list, k + 1), Before(list, k))
    ensures LinkedAt(list[..k] + list[k + 1..], now, m)
  {
    var l, o := list[..k] + list[k + 1..], if m < k then m else m + 1;
    BridgedAt(list, k, was, now, head, head', o);
    hide Listed, Bridged;
    assert l[m] == list[o];
    assert Here(l, m + 1) == Here(list, if o + 1 == k then k + 1 else o + 1);
    assert Before(l, m) == Before(list, if o == k + 1 then k else o);
  }

  lemma RemovedDistinct(list: seq<nat>, k: nat)
    requires k < |list| && forall i, j | 0 <= i < j < |list| :: list[i] != list[j]
    ensures var l := list[..k] + list[k + 1..]; forall i, j | 0 <= i < j < |l| :: l[i] != l[j]
  {
    var l := list[..k] + list[k + 1..];
    assert forall m {:trigger l[m]} | 0 <= m < |l| :: l[m] == list[if m < k then m else m + 1];
  }

  lemma BridgedListed(list: seq<nat>, k: nat, was: seq<Page>, now: seq<Page>, head: Page, head': Page)
    requires k < |list| && Listed(list, was, head)
      && Bridged(list, k, was, now, head, head', Here(list, k + 1), Before(list, k))
    ensures Listed(list[..k] + list[k + 1..], now, head')
  {
    var l := list[..k] + list[k + 1..];
    RemovedDistinct(list, k);
    assert head'.next == Here(l, 0);
    hide Bridged, Listed, LinkedAt;
    forall m | 0 <= m < |l|
      ensures LinkedAt(l, now, m)
    {
      BridgedLink(list, k, was, now, head, head', m);
    }
    ListedWhenLinked(l, now, head');
  }

  /** When `rest` has taken the place of the page at `k`. */
  lemma ReplacedAt(list: seq<nat>, k: nat, rest: nat, was: seq<Page>, now: seq<Page>, head: Page, head': Page, o: nat)
    requires k < |list| && Listed(list, was, head) && Bridged(list, k, was, now, head, head', At(rest), At(rest))
    requires rest < |was| && rest !in list && o < |list|
    ensures LinkedAt(list[k := rest],
      now[rest := now[rest].(next := was[list[k]].next, prev := was[list[k]].prev)], o)
  {
    assert was[list[o]].next == Here(list, o + 1) && was[list[o]].prev == Before(list, o);
    assert k > 0 && list[o] == list[k - 1] ==> o == k - 1;
    assert k + 1 < |list| && list[o] == list[k + 1] ==> o == k + 1;
    hide Listed;
  }

  lemma ReplacedDistinct(list: seq<nat>, k: nat, rest: nat)
    requires k < |list| && rest !in list && forall i, j | 0 <= i < j < |list| :: list[i] != list[j]
    ensures var l := list[k := rest]; forall i, j | 0 <= i < j < |l| :: l[i] != l[j]
  {
  }

  lemma ReplacedListed(list: seq<nat>, k: nat, rest: nat, was: seq<Page>, now: seq<Page>, head: Page, head': Page)
    requires k < |list| && Listed(list, was, head) && Bridged(list, k, was, now, head, head', At(rest), At(rest))
    requires rest < |was| && rest !in list
    ensures Listed(list[k := rest], now[rest := now[rest].(next := was[list[k]].next, prev := was[list[k]].prev)],
      head')
  {
    assert list[k] < |was|;
    ReplacedDistinct(list, k, rest);
    var l := list[k := rest];
    var after := now[rest := now[rest].(next := was[list[k]].next, prev := was[list[k]].prev)];
    assert head'.next == Here(l, 0);
    hide Bridged, Listed, LinkedAt;
    forall o | 0 <= o < |l|
      ensures LinkedAt(l, after, o)
    {
      ReplacedAt(list, k, rest, was, now, head, head', o);
    }
    ListedWhenLinked(l, after, head');
  }

  /** No page of another run, and no other page of the free list, is in the run `i`. */
  ghost predicate Apart(runs: seq<Run>, list: seq<nat>, i: nat)
    requires i < |runs|
  {
    var s, e := runs[i].start, runs[i].start + runs[i].len;
    && (forall j | 0 <= j < |runs| && j != i :: runs[j].start + runs[j].len <= s || e <= runs[j].start)
    && (forall k | 0 <= k < |list| && list[k] != s :: list[k] < s || e <= list[k])
  }

  lemma RunIsApart(runs: seq<Run>, list: seq<nat>, last: nat, i: nat)
    requires Tiled(runs, 0, last) && Heads(list, runs) && i < |runs|
    ensures Apart(runs, list, i)
  {
    forall j | 0 <= j < |runs| && j != i
      ensures runs[j].start + runs[j].len <= runs[i].start || runs[i].start + runs[i].len <= runs[j].start
    {
      if i < j { RunsApart(runs, last, i, j); } else { RunsApart(runs, last, j, i); }
    }
    forall k | 0 <= k < |list| && list[k] != runs[i].start
      ensures list[k] < runs[i].start || runs[i].start + runs[i].len <= list[k]
    {
      var j :| 0 <= j < |runs| && runs[j].free && runs[j].start == list[k];
      TiledFront(runs, 0, last, j);
    }
  }

  /** The pages of an allocated run are not in the free list. */
  lemma AllocatedNotListed(runs: seq<Run>, list: seq<nat>, last: nat, j: nat)
    requires Tiled(runs, 0, last) && Heads(list, runs) && j < |runs| && !runs[j].free
    ensures forall k | 0 <= k < |list| :: list[k] < runs[j].start || runs[j].start + runs[j].len <= list[k]
  {
    RunIsApart(runs, list, last, j);
    forall k | 0 <= k < |list|
      ensures list[k] != runs[j].start
    {
      var i :| 0 <= i < |runs| && runs[i].free && runs[i].start == list[k];
      TiledFront(runs, 0, last, i);
      TiledFront(runs, 0, last, j);
    }
  }

  /** The free list when the first `n` pages of the run `i`, whose first page is at `k`, are allocated. */
  ghost function ListTaken(runs: seq<Run>, list: seq<nat>, i: nat, n: nat, k: nat): seq<nat>
    requires i < |runs| && k < |list|
  {
    if n < runs[i].len then list[k := runs[i].start + n] else list[..k] + list[k + 1..]
  }

  lemma {:induction false} HeadsTaken(runs: seq<Run>, list: seq<nat>, last: nat, i: nat, n: nat, k: nat)
    requires Tiled(runs, 0, last) && Heads(list, runs) && i < |runs| && runs[i].free && 0 < n <= runs[i].len
    requires k < |list| && list[k] == runs[i].start && forall x, y | 0 <= x < y < |list| :: list[x] != list[y]
    ensures Heads(ListTaken(runs, list, i, n, k), Taken(runs, i, n))
  {
    var l, t := ListTaken(runs, list, i, n, k), Taken(runs, i, n);
    forall m | 0 <= m < |l|
      ensures IsFreeAt(t, l[m])
    {
      if n < runs[i].len && m == k {
        assert t[i + 1] == Run(runs[i].start + n, runs[i].len - n, true);
      } else {
        var o := if n == runs[i].len && m >= k then m + 1 else m;
        assert l[m] == list[o] && o != k;
        FreeElsewhere(runs, i, n, list[o]);
      }
    }
    forall j | 0 <= j < |t| && t[j].free
      ensures t[j].start in l
    {
      if n < runs[i].len && j == i + 1 {
        assert l[k] == t[j].start;
      } else {
        var o := TakenFrom(runs, i, n, j);
        ListedElsewhere(runs, list, last, i, o);
        var m :| 0 <= m < |list| && list[m] == runs[o].start;
        assert l[if n == runs[i].len && m > k then m - 1 else m] == list[m];
      }
    }
  }

  lemma FreeElsewhere(runs: seq<Run>, i: nat, n: nat, page: nat)
    requires i < |runs| && 0 < n <= runs[i].len && IsFreeAt(runs, page) && page != runs[i].start
    ensures IsFreeAt(Taken(runs, i, n), page)
  {
    var j :| 0 <= j < |runs| && runs[j].free && runs[j].start == page;
    var t := Taken(runs, i, n);
    assert t[if j < i then j else j + |Pieces(runs[i], n)| - 1] == runs[j];
  }

  /** A free run of the new division, other than the rest of the divided one, is an old one. */
  lemma TakenFrom(runs: seq<Run>, i: nat, n: nat, j: nat) returns (o: nat)
    requires i < |runs| && 0 < n <= runs[i].len && j < |Taken(runs, i, n)| && Taken(runs, i, n)[j].free
    requires !(n < runs[i].len && j == i + 1)
    ensures o < |runs| && o != i && runs[o] == Taken(runs, i, n)[j]
  {
    o := if j < i then j else j + 1 - |Pieces(runs[i], n)|;
  }

  lemma ListedElsewhere(runs: seq<Run>, list: seq<nat>, last: nat, i: nat, o: nat)
    requires Tiled(runs, 0, last) && Heads(list, runs) && i < |runs| && o < |runs| && o != i && runs[o].free
    ensures runs[o].start in list && runs[o].start != runs[i].start
  {
    RunIsApart(runs, list, last, i);
    TiledFront(runs, 0, last, o);
    TiledFront(runs, 0, last, i);
  }

  /** Every piece of a division is an old run, or a piece of the divided one. */
  lemma DescribedTaken(runs: seq<Run>, i: nat, n: nat, now: seq<Page>)
    requires i < |runs| && 0 < n <= runs[i].len
    requires forall j | 0 <= j < |runs| && j != i :: Described(runs[j], now)
    requires Described(Run(runs[i].start, n, false), now)
    requires n < runs[i].len ==> Described(Run(runs[i].start + n, runs[i].len - n, true), now)
    ensures forall j | 0 <= j < |Taken(runs, i, n)| :: Described(Taken(runs, i, n)[j], now)
  {
    var t := Taken(runs, i, n);
    forall j | 0 <= j < |t|
      ensures Described(t[j], now)
    {
      if j < i {
        assert t[j] == runs[j];
      } else if j >= i + |Pieces(runs[i], n)| {
        assert t[j] == runs[j + 1 - |Pieces(runs[i], n)|];
      }
    }
  }

  /** The descriptors of the other runs have not changed. */
  ghost predicate Kept(runs: seq<Run>, list: seq<nat>, i: nat, was: seq<Page>, now: seq<Page>)
    requires i < |runs|
  {
    var s, e := runs[i].start, runs[i].start + runs[i].len;
    && |now| == |was|
    && (forall x | 0 <= x < |was| && !(s <= x < e) :: now[x].slab == was[x].slab)
    && (forall x | 0 <= x < |was| && !(s <= x < e) && x !in list :: now[x] == was[x])
  }

  lemma OthersDescribed(runs: seq<Run>, list: seq<nat>, last: nat, i: nat, was: seq<Page>, now: seq<Page>)
    requires Tiled(runs, 0, last) && Heads(list, runs) && i < |runs| && Kept(runs, list, i, was, now)
    requires forall j | 0 <= j < |runs| :: Described(runs[j], was)
    ensures forall j | 0 <= j < |runs| && j != i :: Described(runs[j], now)
  {
    RunIsApart(runs, list, last, i);
    forall j | 0 <= j < |runs| && j != i
      ensures Described(runs[j], now)
    {
      assert Described(runs[j], was);
      if !runs[j].free { AllocatedNotListed(runs, list, last, j); }
    }
  }

  ghost predicate SameOutside(was: seq<Page>, now: seq<Page>, start: nat, end: nat) {
    |now| == |was| && forall x | 0 <= x < |was| && !(start <= x < end) :: now[x] == was[x]
  }

  /** Changes inside the run, and then changes of links of listed pages. */
  lemma StillKept(runs: seq<Run>, list: seq<nat>, i: nat, was: seq<Page>, cut: seq<Page>, now: seq<Page>)
    requires i < |runs| && SameOutside(was, cut, runs[i].start, runs[i].start + runs[i].len)
    requires |now| == |cut| && (forall x | 0 <= x < |cut| :: now[x].slab == cut[x].slab)
    requires forall x | 0 <= x < |cut| && x !in list && !(runs[i].start <= x < runs[i].start + runs[i].len) ::
      now[x] == cut[x]
    ensures Kept(runs, list, i, was, now)
  {
  }

  /** Marking the pages that were cut off does not disturb the list. */
  lemma MarkedListed(runs: seq<Run>, list: seq<nat>, i: nat, n: nat, k: nat, cut: seq<Page>, now: seq<Page>, head: Page)
    requires i < |runs| && 0 < n <= runs[i].len && k < |list| && list[k] == runs[i].start
    requires Apart(runs, list, i) && Listed(ListTaken(runs, list, i, n, k), cut, head)
    requires forall x, y | 0 <= x < y < |list| :: list[x] != list[y]
    requires SameOutside(cut, now, runs[i].start, runs[i].start + n)
    ensures Listed(ListTaken(runs, list, i, n, k), now, head)
  {
    var l := ListTaken(runs, list, i, n, k);
    forall m | 0 <= m < |l|
      ensures now[l[m]] == cut[l[m]]
    {
      if !(n < runs[i].len && m == k) {
        var o := if n == runs[i].len && m >= k then m + 1 else m;
        assert l[m] == list[o] && o != k;
        assert list[if o < k then o else k] != list[if o < k then k else o];
      }
    }
  }

  lemma MarkedKept(runs: seq<Run>, list: seq<nat>, i: nat, n: nat, was: seq<Page>, cut: seq<Page>, now: seq<Page>)
    requires i < |runs| && 0 < n <= runs[i].len && runs[i].start + runs[i].len <= |was| && Kept(runs, list, i, was, cut)
    requires SameOutside(cut, now, runs[i].start, runs[i].start + n)
    requires n < runs[i].len ==> cut[runs[i].start + n].slab == runs[i].len - n
    ensures Kept(runs, list, i, was, now)
    ensures n < runs[i].len ==> Described(Run(runs[i].start + n, runs[i].len - n, true), now)
  {
  }

  /** The page table, the division of the pages into runs and the free list belong together. */
  ghost predicate Consistent(pages: seq<Page>, last: nat, head: Page, runs: seq<Run>, list: seq<nat>) {
    && last <= |pages| < START && Tiled(runs, 0, last)
    && (forall i | 0 <= i < |runs| :: Described(runs[i], pages))
    && Listed(list, pages, head) && Heads(list, runs)
  }

  lemma AtFront(pages: seq<Page>, last: nat, head: Page, runs: seq<Run>, list: seq<nat>)
    requires Consistent(pages, last, head, runs, list)
    ensures head.next == Here(list, 0)
  {
  }

  /** The page at the index `k` of the free list is the first one of a free run, and says how long it is. */
  lemma AtListed(pages: seq<Page>, last: nat, head: Page, runs: seq<Run>, list: seq<nat>, k: nat) returns (i: nat)
    requires Consistent(pages, last, head, runs, list) && k < |list|
    ensures list[k] < |pages| && pages[list[k]].next == Here(list, k + 1)
    ensures i < |runs| && runs[i].free && runs[i].start == list[k] && pages[list[k]].slab == runs[i].len
    ensures forall j | 0 <= j < |runs| && runs[j].free && runs[j].start == list[k] :: runs[j].len == runs[i].len
  {
    assert IsFreeAt(runs, list[k]);
    i :| 0 <= i < |runs| && runs[i].free && runs[i].start == list[k];
    forall j | 0 <= j < |runs| && runs[j].free && runs[j].start == list[k]
      ensures runs[j].len == pages[list[k]].slab
    {
      assert Described(runs[j], pages);
    }
  }

  lemma EveryRunListed(pages: seq<Page>, last: nat, head: Page, runs: seq<Run>, list: seq<nat>, n: nat)
    requires Consistent(pages, last, head, runs, list)
    requires forall m | 0 <= m < |list| :: list[m] < |pages| && pages[list[m]].slab < n
    ensures forall j | 0 <= j < |runs| && runs[j].free :: runs[j].len < n
  {
    forall j | 0 <= j < |runs| && runs[j].free
      ensures runs[j].len < n
    {
      assert runs[j].start in list && Described(runs[j], pages);
    }
  }

  /** What the code relies on when it takes pages from the run `i`. */
  lemma BeforeTaking(pages: seq<Page>, last: nat, head: Page, runs: seq<Run>, list: seq<nat>, i: nat, k: nat)
    requires Consistent(pages, last, head, runs, list) && i < |runs| && runs[i].free && k < |list|
      && list[k] == runs[i].start
    ensures Listed(list, pages, head) && Apart(runs, list, i) && runs[i].start + runs[i].len <= last <= |pages| < START
    ensures pages[runs[i].start].slab == runs[i].len
  {
    assert Described(runs[i], pages);
    TiledFront(runs, 0, last, i);
    RunIsApart(runs, list, last, i);
  }

  /** Cutting the first `n` pages of a run off and marking them keeps the table consistent. */
  lemma TakingKeeps(was: seq<Page>, cut: seq<Page>, now: seq<Page>, last: nat, head: Page, head': Page,
                    runs: seq<Run>, list: seq<nat>, i: nat, n: nat, k: nat)
    requires Consistent(was, last, head, runs, list) && i < |runs| && runs[i].free && k < |list|
      && list[k] == runs[i].start
    requires 0 < n <= runs[i].len && Kept(runs, list, i, was, cut) && Listed(ListTaken(runs, list, i, n, k), cut, head')
    requires n < runs[i].len ==> runs[i].start + n < |cut| && cut[runs[i].start + n].slab == runs[i].len - n
    requires SameOutside(cut, now, runs[i].start, runs[i].start + n) && Described(Run(runs[i].start, n, false), now)
    ensures Consistent(now, last, head', Taken(runs, i, n), ListTaken(runs, list, i, n, k))
    ensures FreePages(Taken(runs, i, n)) == FreePages(runs) - n
  {
    BeforeTaking(was, last, head, runs, list, i, k);
    HeadsTaken(runs, list, last, i, n, k);
    TakenTiles(runs, i, n, last);
    MarkedListed(runs, list, i, n, k, cut, now, head');
    MarkedKept(runs, list, i, n, was, cut, now);
    OthersDescribed(runs, list, last, i, was, now);
    DescribedTaken(runs, i, n, now);
  }

  // ---------- the layout ----------

  function Header(slots: nat): nat { POOL_SIZE + slots * DESCRIPTOR_SIZE }

  /** The bytes of `n` units. */
  function Bytes(n: nat, unit: nat): nat { n * unit }

  predicate Aligned(p: nat, a: nat)
    requires a > 0
  {
    p % a == 0
  }

  /** The number of pages with their descriptors that the bytes behind the header would hold. */
  function PagesAtMost(size: nat, pagesize: nat, slots: nat): nat
    requires Header(slots) <= size && pagesize > 0
  {
    (size - Header(slots)) / (pagesize + DESCRIPTOR_SIZE)
  }

  /** The next multiple of `a`. */
  function Align(p: nat, a: nat): nat
    requires a > 0
  {
    (p + (a - 1)) / a * a
  }

  lemma AlignIsNext(p: nat, a: nat)
    requires a > 0
    ensures Aligned(Align(p, a), a) && p <= Align(p, a) < p + a
  {
    var q := (p + (a - 1)) / a;
    assert p + (a - 1) == q * a + (p + (a - 1)) % a;
    MultipleOf(q, a);
  }

  lemma MultipleOf(q: nat, a: nat)
    requires a > 0
    ensures q * a % a == 0
  {
    var x := q * a;
    var d := q - x / a;
    assert x % a == d * a;
    assert d >= 1 ==> d * a >= a;
    assert d <= -1 ==> d * a + a <= 0;
  }

  lemma BytesAdd(m: nat, n: nat, b: nat)
    ensures Bytes(m + n, b) == Bytes(m, b) + Bytes(n, b) && Bytes(1, b) == b
  {
  }

  lemma Quotient(x: nat, b: nat)
    requires b > 0
    ensures x == Bytes(x / b, b) + x % b && x % b < b
  {
  }

  lemma QuotientAtLeast(x: nat, b: nat, k: nat)
    requires b > 0
    ensures x / b >= k <==> x >= Bytes(k, b)
  {
    var q := x / b;
    Quotient(x, b);
    hide Bytes;
    BytesAdd(q, 1, b);
    if k <= q { BytesAdd(k, q - k, b); } else { BytesAdd(q + 1, k - q - 1, b); }
  }

  /** The whole pages between `first` and `end`. */
  function Fitting(first: nat, end: nat, pagesize: nat): nat
    requires first <= end && pagesize > 0
  {
    (end - first) / pagesize
  }

  lemma FittingAtLeast(first: nat, end: nat, pagesize: nat, k: nat)
    requires first <= end && pagesize > 0
    ensures Fitting(first, end, pagesize) >= k <==> end - first >= Bytes(k, pagesize)
  {
    QuotientAtLeast(end - first, pagesize, k);
  }

  /** Where the descriptors of `n` pages end. */
  function DescriptorsEnd(addr: nat, slots: nat, n: nat): nat { addr + Header(slots) + n * DESCRIPTOR_SIZE }

  /** Of the pages that would fit, at most one is lost to the alignment. */
  lemma Layout(addr: nat, size: nat, pagesize: nat, slots: nat)
    requires Header(slots) <= pagesize && 8 * pagesize <= size < 0x1_0000_0000 * pagesize
    ensures var n := PagesAtMost(size, pagesize, slots); var top := DescriptorsEnd(addr, slots, n);
      var first := Align(top, pagesize);
      1 < n < 0x1_0000_0000 && Aligned(first, pagesize) && top <= first <= addr + size && first < top + pagesize
        && n - Fitting(first, addr + size, pagesize) <= 1
  {
    var n := PagesAtMost(size, pagesize, slots);
    var top := DescriptorsEnd(addr, slots, n);
    CountBounds(size, pagesize, slots);
    AlignIsNext(top, pagesize);
    EndOfPages(addr, size, pagesize, slots, n);
    hide Align, Aligned, Bytes, Fitting, Header, PagesAtMost, DescriptorsEnd;
    FittingAtLeast(Align(top, pagesize), addr + size, pagesize, n - 1);
  }

  lemma CountBounds(size: nat, pagesize: nat, slots: nat)
    requires Header(slots) <= pagesize && 8 * pagesize <= size < 0x1_0000_0000 * pagesize
    ensures var n := PagesAtMost(size, pagesize, slots);
      1 < n < 0x1_0000_0000 && Bytes(n, pagesize + DESCRIPTOR_SIZE) <= size - Header(slots)
  {
    var room, unit := size - Header(slots), pagesize + DESCRIPTOR_SIZE;
    assert POOL_SIZE <= Header(slots);
    hide Header;
    QuotientAtLeast(room, unit, 2);
    QuotientAtLeast(room, unit, 0x1_0000_0000);
    QuotientAtLeast(room, unit, room / unit);
  }

  /** The first `n` pages from `first` on, which are no more than fit, end before `end`, and one more would
      not, unless there are `m` already; fewer pages than `m` need fewer descriptors. */
  lemma LayoutEnd(addr: nat, slots: nat, first: nat, end: nat, pagesize: nat, n: nat, m: nat)
    requires first <= end && pagesize > 0
    requires n == if m <= Fitting(first, end, pagesize) then m else Fitting(first, end, pagesize)
    ensures first + n * pagesize <= end && DescriptorsEnd(addr, slots, n) <= DescriptorsEnd(addr, slots, m)
    ensures n == m || end < first + (n + 1) * pagesize
  {
    FittingAtLeast(first, end, pagesize, n);
    FittingAtLeast(first, end, pagesize, n + 1);
  }

  /** The number of pages for which descriptors are laid out is the greatest that the pool can hold
      before anything is aligned. */
  lemma MostPages(size: nat, pagesize: nat, slots: nat, n: nat)
    requires Header(slots) <= size && pagesize > 0
    ensures n <= PagesAtMost(size, pagesize, slots) <==> Header(slots) + n * (pagesize + DESCRIPTOR_SIZE) <= size
  {
    hide Header;
    QuotientAtLeast(size - Header(slots), pagesize + DESCRIPTOR_SIZE, n);
  }

  lemma EndOfPages(addr: nat, size: nat, pagesize: nat, slots: nat, n: nat)
    requires Header(slots) <= size && n >= 1 && Bytes(n, pagesize + DESCRIPTOR_SIZE) <= size - Header(slots)
    ensures DescriptorsEnd(addr, slots, n) + pagesize + Bytes(n - 1, pagesize) <= addr + size
  {
    assert n * (pagesize + DESCRIPTOR_SIZE) == n * pagesize + n * DESCRIPTOR_SIZE;
    assert n * pagesize == pagesize + (n - 1) * pagesize;
  }

  lemma OneRun(pages: seq<Page>, last: nat, head: Page)
    requires 0 < last <= |pages| < START && pages[0] == Page(last, Head, Head) && head.next == At(0)
    ensures Consistent(pages, last, head, [Run(0, last, true)], [0]) && FreePages([Run(0, last, true)]) == last
  {
    var r := [Run(0, last, true)];
    assert r[1..] == [];
    assert r[0].start in [0];
    assert IsFreeAt(r, 0);
  }

  class Pool {
    const pages: array<Page>
    var last: nat
    var head: Page
    var pfree: nat
    var start: nat
    /** How the pages are divided, and the pages of the free list. */
    ghost var runs: seq<Run>
    ghost var list: seq<nat>

    ghost predicate Valid()
      reads this, pages
    {
      Consistent(pages[..], last, head, runs, list) && pfree == FreePages(runs)
    }

    /** Lays out a pool of `size` bytes at `addr` with `slots` list heads behind its header, and the
        descriptors behind these: all pages are one free run. */
    constructor (addr: nat, size: nat, pagesize: nat, slots: nat)
      requires Header(slots) <= pagesize && 8 * pagesize <= size < 0x1_0000_0000 * pagesize
      ensures Valid() && fresh(pages) && runs == [Run(0, last, true)] && list == [0] && pfree == last > 0
      ensures start % pagesize == 0 && DescriptorsEnd(addr, slots, last) <= start
      ensures start + last * pagesize <= addr + size
      ensures last <= PagesAtMost(size, pagesize, slots) <= last + 1
      ensures start < DescriptorsEnd(addr, slots, PagesAtMost(size, pagesize, slots)) + pagesize
      ensures last == PagesAtMost(size, pagesize, slots) || addr + size < start + (last + 1) * pagesize
    {
      Layout(addr, size, pagesize, slots);
      hide Header, PagesAtMost, Align, Fitting, DescriptorsEnd, Consistent, FreePages;
      var pageN := PagesAtMost(size, pagesize, slots);
      var table := new Page[pageN](_ => Page(0, Null, Null));
      table[0] := Page(pageN, Head, Head);
      var first := Align(DescriptorsEnd(addr, slots, pageN), pagesize);
      ghost var most := pageN;
      var m := pageN - Fitting(first, addr + size, pagesize);
      if 0 < m {
        pageN := pageN - m;
        table[0] := table[0].(slab := pageN);
      }
      LayoutEnd(addr, slots, first, addr + size, pagesize, pageN, most);
      pages, last, pfree, start := table, pageN, pageN, first;
      head := Page(0, Null, At(0));
      runs, list := [Run(0, pageN, true)], [0];
      new;
      OneRun(pages[..], last, head);
    }

    method SetNext(at: Link, next: Link)
      requires at == Head || (at.At? && at.i < pages.Length)
      modifies `head, pages
      ensures at == Head ==> head == old(head).(next := next) && pages[..] == old(pages[..])
      ensures at.At? ==> head == old(head) && pages[..] == old(pages[..])[at.i := old(pages[at.i]).(next := next)]
    {
      if at == Head {
        head := head.(next := next);
      } else {
        pages[at.i] := pages[at.i].(next := next);
      }
    }

    method SetPrev(at: Link, prev: Link)
      requires at == Head || (at.At? && at.i < pages.Length)
      modifies `head, pages
      ensures at == Head ==> head == old(head).(prev := prev) && pages[..] == old(pages[..])
      ensures at.At? ==> head == old(head) && pages[..] == old(pages[..])[at.i := old(pages[at.i]).(prev := prev)]
    {
      if at == Head {
        head := head.(prev := prev);
      } else {
        pages[at.i] := pages[at.i].(prev := prev);
      }
    }

    /** The neighbours of the page at the index `k` of the free list get new links. */
    method Bridge(page: nat, next: Link, prev: Link, ghost k: nat)
      requires Listed(list, pages[..], head) && k < |list| && page == list[k]
      modifies `head, pages
      ensures Bridged(list, k, old(pages[..]), pages[..], old(head), head, next, prev)
      ensures forall x | 0 <= x < pages.Length && x !in list :: pages[x] == old(pages[x])
    {
      var p, q := pages[page].prev, pages[page].next;
      assert p == Before(list, k) && q == Here(list, k + 1);
      SetNext(p, next);
      SetPrev(q, prev);
    }

    /** Takes the page at the index `k` out of the free list. */
    method Unlink(page: nat, ghost k: nat)
      requires Listed(list, pages[..], head) && k < |list| && page == list[k]
      modifies `head, `list, pages
      ensures list == old(list)[..k] + old(list)[k + 1..] && Listed(list, pages[..], head)
      ensures forall x | 0 <= x < pages.Length :: pages[x].slab == old(pages[x].slab)
      ensures forall x | 0 <= x < pages.Length && x !in old(list) :: pages[x] == old(pages[x])
    {
      ghost var was, h := pages[..], head;
      Bridge(page, pages[page].next, pages[page].prev, k);
      BridgedListed(list, k, was, pages[..], h, head);
      list := list[..k] + list[k + 1..];
    }

    /** Puts the page `rest`, which is in no list, in the place of the page at the index `k`. */
    method Relink(page: nat, rest: nat, ghost k: nat)
      requires Listed(list, pages[..], head) && k < |list| && page == list[k] && rest < pages.Length && rest !in list
      modifies `head, `list, pages
      ensures list == old(list)[k := rest] && Listed(list, pages[..], head)
      ensures forall x | 0 <= x < pages.Length :: pages[x].slab == old(pages[x].slab)
      ensures forall x | 0 <= x < pages.Length && x !in old(list) && x != rest :: pages[x] == old(pages[x])
    {
      ghost var was, h := pages[..], head;
      var next, prev := pages[page].next, pages[page].prev;
      Bridge(page, At(rest), At(rest), k);
      ReplacedListed(list, k, rest, was, pages[..], h, head);
      pages[rest] := pages[rest].(next := next, prev := prev);
      list := list[k := rest];
    }

    /** Marks `n` pages from `page` on as allocated. */
    method Mark(page: nat, n: nat)
      requires page + n <= pages.Length && 0 < n < START
      modifies pages
      ensures Described(Run(page, n, false), pages[..]) && SameOutside(old(pages[..]), pages[..], page, page + n)
    {
      pages[page] := Page(START + n, Null, Null);
      var count, p := n - 1, page + 1;
      while count > 0
        invariant page < p && p + count == page + n && pages[page].slab == START + n && pages[page].next == Null
        invariant forall x | page < x < p :: pages[x].slab == BUSY && pages[x].next == Null
        invariant forall x | 0 <= x < pages.Length && !(page <= x < page + n) :: pages[x] == old(pages[x])
      {
        pages[p] := pages[p].(slab := BUSY, next := Null);
        pages[page] := pages[page].(prev := Null);
        count, p := count - 1, p + 1;
      }
    }

    /** Allocates the first `n` pages of the run `i`, which starts with `page`. */
    method Take(page: nat, n: nat, ghost k: nat, ghost i: nat)
      requires Valid() && k < |list| && page == list[k] && i < |runs| && runs[i].free && runs[i].start == page
        && 0 < n <= runs[i].len
      modifies this, pages
      ensures Valid() && runs == Taken(old(runs), i, n) && list == ListTaken(old(runs), old(list), i, n, k)
      ensures last == old(last) && start == old(start) && pfree == old(pfree) - n
    {
      hide Consistent, Listed, Apart, Described, Kept, ListTaken, Taken, FreePages, SameOutside;
      ghost var was, h, l := pages[..], head, list;
      BeforeTaking(was, last, h, runs, l, i, k);
      Cut(page, n, k, i);
      ghost var cut := pages[..];
      Mark(page, n);
      TakingKeeps(was, cut, pages[..], last, h, head, runs, l, i, n, k);
      pfree := pfree - n;
      runs := Taken(runs, i, n);
    }

    /** Takes the first `n` pages of a run out of the free list; what is left stays in its place. */
    method Cut(page: nat, n: nat, ghost k: nat, ghost i: nat)
      requires Listed(list, pages[..], head) && k < |list| && page == list[k]
      requires i < |runs| && runs[i].start == page && 0 < n <= runs[i].len == pages[page].slab
      requires page + runs[i].len <= pages.Length && Apart(runs, list, i)
      modifies `head, `list, pages
      ensures list == ListTaken(runs, old(list), i, n, k) && Listed(list, pages[..], head)
      ensures Kept(runs, old(list), i, old(pages[..]), pages[..])
      ensures n < runs[i].len ==> pages[page + n].slab == runs[i].len - n
    {
      hide Listed, Kept;
      ghost var was := pages[..];
      var slab := pages[page].slab;
      if n < slab {
        Divide(page, n, slab);
        ghost var divided := pages[..];
        Relink(page, page + n, k);
        StillKept(runs, old(list), i, was, divided, pages[..]);
      } else {
        Unlink(page, k);
        StillKept(runs, old(list), i, was, was, pages[..]);
      }
    }

    /** Writes the descriptors of the rest of a run of `slab` pages. */
    method Divide(page: nat, n: nat, slab: nat)
      requires 0 < n < slab && page + slab <= pages.Length && Listed(list, pages[..], head)
      requires forall m | 0 <= m < |list| && list[m] != page :: list[m] < page || page + slab <= list[m]
      modifies pages
      ensures Listed(list, pages[..], head) && page + n !in list && pages[page + n].slab == slab - n
      ensures forall x | 0 <= x < pages.Length && !(page < x < page + slab) :: pages[x] == old(pages[x])
    {
      pages[page + slab - 1] := pages[page + slab - 1].(prev := At(page + n));
      pages[page + n] := pages[page + n].(slab := slab - n);
    }

    /** Allocates `n` pages in a row: the first ones of the first run of the free list that is long
        enough.  There is no answer only when no free run is. */
    method AllocPages(n: nat) returns (r: Option<nat>, ghost k: nat, ghost i: nat)
      requires Valid() && n > 0
      modifies this, pages
      ensures Valid() && last == old(last) && start == old(start)
      ensures r.None? ==>
        && runs == old(runs) && list == old(list)
        && forall j | 0 <= j < |runs| && runs[j].free :: runs[j].len < n
      ensures r.Some? ==>
        && i < |old(runs)| && old(runs)[i].free && n <= old(runs)[i].len && r.value == old(runs)[i].start
        && runs == Taken(old(runs), i, n) && pfree == old(pfree) - n
        && k < |old(list)| && old(list)[k] == r.value && TooShort(old(runs), old(list), k, n)
    {
      hide Consistent, Here, Taken, ListTaken, FreePages;
      k, i := 0, 0;
      AtFront(pages[..], last, head, runs, list);
      HereIsEnd(list);
      var page := head.next;
      while page != Head
        invariant k <= |list| && page == Here(list, k) && Valid()
        invariant runs == old(runs) && list == old(list) && pages[..] == old(pages[..]) && pfree == old(pfree)
        invariant last == old(last) && start == old(start) && TooShort(runs, list, k, n)
        invariant forall m | 0 <= m < k :: list[m] < pages.Length && pages[list[m]].slab < n
        decreases |list| - k
      {
        i := AtListed(pages[..], last, head, runs, list, k);
        if n <= pages[page.i].slab {
          Take(page.i, n, k, i);
          return Some(page.i), k, i;
        }
        page := pages[page.i].next;
        k := k + 1;
      }
      r := None;
      EveryRunListed(pages[..], last, head, runs, list, n);
    }
  }

  lemma HereIsEnd(list: seq<nat>)
    ensures forall k | 0 <= k <= |list| :: Here(list, k) == (if k == |list| then Head else At(list[k]))
  {
  }

  /** The runs in front of the index `k` of the free list are shorter than `n`. */
  ghost predicate TooShort(runs: seq<Run>, list: seq<nat>, k: nat, n: nat) {
    forall j, m | 0 <= j < |runs| && 0 <= m < k && m < |list| && runs[j].free && runs[j].start == list[m] ::
      runs[j].len < n
  }
}
