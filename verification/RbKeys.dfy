/** The two orders in which a red-black tree can keep its keys: by value, and by time on a
    32-bit counter that wraps around. */
module RbKeys {

  const KEY_MODULUS := 0x1_0000_0000
  const HALF := 0x8000_0000

  type Key = k: int | 0 <= k < KEY_MODULUS

  /** The insert function that a tree was set up with. */
  datatype Comparison = ByValue | ByTimer

  /** The cast of an unsigned 32-bit number to a signed one. */
  function AsSigned(u: Key): int {
    if u < HALF then u else u - KEY_MODULUS
  }

  /** Does a node with the key `k` go to the left of one with the key `t`? */
  predicate GoesLeft(order: Comparison, k: Key, t: Key) {
    match order
    case ByValue => k < t
    case ByTimer => AsSigned((k - t) % KEY_MODULUS) < 0
  }

  /** The place of a key: for timers, how long after the instant `base` it expires. */
  ghost function Rank(order: Comparison, base: Key, k: Key): nat {
    match order
    case ByValue => k
    case ByTimer => (k - base) % KEY_MODULUS
  }

  /** Timer keys can be compared when they expire less than half a turn of the counter after `base`. */
  ghost predicate InWindow(order: Comparison, base: Key, k: Key) {
    order.ByTimer? ==> Rank(order, base, k) < HALF
  }

  /** Inside the window the wrap-around comparison is the comparison of expiry times. */
  lemma ComparesByRank(order: Comparison, base: Key, k: Key, t: Key)
    requires InWindow(order, base, k) && InWindow(order, base, t)
    ensures GoesLeft(order, k, t) <==> Rank(order, base, k) < Rank(order, base, t)
  {
    if order.ByTimer? {
      var rk, rt := Rank(order, base, k), Rank(order, base, t);
      assert rk == k - base || rk == k - base + KEY_MODULUS;
      assert rt == t - base || rt == t - base + KEY_MODULUS;
      assert (k - t) % KEY_MODULUS == if k < t then k - t + KEY_MODULUS else k - t;
    }
  }

  /** Outside any common window it is not an order: each key is to the left of the next. */
  lemma ComparisonCycles()
    ensures exists a: Key, b: Key, c: Key ::
      GoesLeft(ByTimer, a, b) && GoesLeft(ByTimer, b, c) && GoesLeft(ByTimer, c, a)
  {
    var a: Key, b: Key, c: Key := 0, 0x6000_0000, 0xC000_0000;
    assert GoesLeft(ByTimer, a, b) && GoesLeft(ByTimer, b, c) && GoesLeft(ByTimer, c, a);
  }

  /** The comparison of timer keys is an order on the keys `s`. */
  ghost predicate IsOrder(s: seq<Key>) {
    && (forall a, b | a in s && b in s :: GoesLeft(ByTimer, a, b) ==> !GoesLeft(ByTimer, b, a))
    && (forall a, b, c | a in s && b in s && c in s ::
          GoesLeft(ByTimer, a, b) && GoesLeft(ByTimer, b, c) ==> GoesLeft(ByTimer, a, c))
  }

  ghost predicate AllFrom(base: Key, s: seq<Key>) {
    forall k | k in s :: InWindow(ByTimer, base, k)
  }

  /** Where the comparison is an order, no key goes to the left of the least one. */
  lemma {:induction false} Least(s: seq<Key>) returns (least: Key)
    requires s != [] && IsOrder(s)
    ensures least in s && forall k | k in s :: !GoesLeft(ByTimer, k, least)
  {
    var last := s[|s| - 1];
    var front := s[..|s| - 1];
    assert s == front + [last];
    least := last;
    if front != [] {
      var l := Least(front);
      if !GoesLeft(ByTimer, last, l) { least := l; }
    }
  }

  lemma NotLeftOfBase(base: Key, k: Key)
    ensures InWindow(ByTimer, base, k) <==> !GoesLeft(ByTimer, k, base)
  {
  }

  /** The comparison of timer keys is an order exactly when all keys expire less than half a turn of
      the counter after some instant. */
  lemma WindowIffOrder(s: seq<Key>)
    requires s != []
    ensures (exists base: Key :: AllFrom(base, s)) <==> IsOrder(s)
  {
    if base: Key :| AllFrom(base, s) {
      forall a, b | a in s && b in s
        ensures GoesLeft(ByTimer, a, b) <==> Rank(ByTimer, base, a) < Rank(ByTimer, base, b)
      {
        ComparesByRank(ByTimer, base, a, b);
      }
    }
    if IsOrder(s) {
      var least := Least(s);
      forall k | k in s
        ensures InWindow(ByTimer, least, k)
      {
        NotLeftOfBase(least, k);
      }
      assert AllFrom(least, s);
    }
  }

  /** The order of two keys does not depend on the window, so time may move on. */
  lemma RankOrderIsStable(order: Comparison, base: Key, base': Key, k: Key, t: Key)
    requires InWindow(order, base, k) && InWindow(order, base, t)
    requires InWindow(order, base', k) && InWindow(order, base', t)
    ensures Rank(order, base, k) <= Rank(order, base, t) <==> Rank(order, base', k) <= Rank(order, base', t)
  {
    ComparesByRank(order, base, t, k);
    ComparesByRank(order, base', t, k);
  }

  // ---------- sequences of keys ----------

  ghost predicate Sorted(order: Comparison, base: Key, s: seq<Key>) {
    forall i, j | 0 <= i < j < |s| :: Rank(order, base, s[i]) <= Rank(order, base, s[j])
  }

  ghost predicate AtMost(order: Comparison, base: Key, s: seq<Key>, k: Key) {
    forall i | 0 <= i < |s| :: Rank(order, base, s[i]) <= Rank(order, base, k)
  }

  ghost predicate Greater(order: Comparison, base: Key, s: seq<Key>, k: Key) {
    forall i | 0 <= i < |s| :: Rank(order, base, k) < Rank(order, base, s[i])
  }

  /** The keys are sorted, and `k` can be compared with each of them. */
  ghost predicate Comparable(order: Comparison, base: Key, s: seq<Key>, k: Key) {
    && Sorted(order, base, s) && InWindow(order, base, k)
    && forall i | 0 <= i < |s| :: InWindow(order, base, s[i])
  }

  /** When `k` can be compared with the sorted keys `s`, its place is neither among the first
      `lo` of them nor among those from `hi` on. */
  ghost predicate Between(order: Comparison, base: Key, s: seq<Key>, lo: nat, hi: nat, k: Key) {
    && lo <= hi <= |s|
    && (Comparable(order, base, s, k) ==> AtMost(order, base, s[..lo], k) && Greater(order, base, s[hi..], k))
  }

  /** One comparison narrows the place down. */
  lemma Narrowed(order: Comparison, base: Key, s: seq<Key>, lo: nat, m: nat, hi: nat, k: Key)
    requires Between(order, base, s, lo, hi, k) && lo <= m < hi
    ensures GoesLeft(order, k, s[m]) ==> Between(order, base, s, lo, m, k)
    ensures !GoesLeft(order, k, s[m]) ==> Between(order, base, s, m + 1, hi, k)
  {
    if Comparable(order, base, s, k) { ComparesByRank(order, base, k, s[m]); }
  }

  lemma SortedInsert(order: Comparison, base: Key, s: seq<Key>, i: nat, k: Key)
    requires Comparable(order, base, s, k) && Between(order, base, s, i, i, k)
    ensures Sorted(order, base, s[..i] + [k] + s[i..])
  {
  }

  lemma SortedRemove(order: Comparison, base: Key, s: seq<Key>, i: nat)
    requires Sorted(order, base, s) && i < |s|
    ensures Sorted(order, base, s[..i] + s[i + 1..])
  {
  }
}
