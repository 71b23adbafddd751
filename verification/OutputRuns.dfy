/** The loop that sends a chain of buffers, on values: what one call of the system can reach, what is
    left after it, and when the loop is left.  A chain is given by the stretches of its buffers. */
module OutputRuns {
  import opened Sequences

  /** A stretch of memory. */
  datatype Iov = Iov(base: nat, len: nat)

  /** No stretch is at the start of memory, whose address is the null pointer. */
  ghost predicate Placed(p: seq<Iov>) { forall i | 0 <= i < |p| :: p[i].base > 0 }

  ghost function Total(p: seq<Iov>): nat { if p == [] then 0 else p[0].len + Total(p[1..]) }

  lemma {:induction false} TotalConcat(p: seq<Iov>, q: seq<Iov>)
    ensures Total(p + q) == Total(p) + Total(q)
  {
    if p == [] {
      assert p + q == q;
    } else {
      RestOfSum(p, q);
      TotalConcat(p[1..], q);
    }
  }

  lemma TotalCut(p: seq<Iov>, k: nat)
    requires k <= |p|
    ensures Total(p) == Total(p[..k]) + Total(p[k..])
  {
    Halves(p, k);
    TotalConcat(p[..k], p[k..]);
  }

  /** A buffer that is not empty counts. */
  lemma TotalAtLeast(p: seq<Iov>, k: nat)
    requires k < |p|
    ensures Total(p) >= p[k].len && Total(p[k..]) == p[k].len + Total(p[k + 1..])
  {
    TotalCut(p, k);
    assert p[k..][0] == p[k] && p[k..][1..] == p[k + 1..];
  }

  // ---------- one round ----------

  /** How many buffers fit into `room` entries of a vector, when the entry in front of them ends at
      `end`: a buffer that begins there shares that entry, but when no entry is left no buffer is
      looked at any more. */
  ghost function ReachFrom(p: seq<Iov>, room: nat, end: nat): (k: nat)
    ensures k <= |p|
  {
    if p == [] || room == 0 then 0
    else 1 + ReachFrom(p[1..], if p[0].base == end then room else room - 1, p[0].base + p[0].len)
  }

  ghost function Reach(p: seq<Iov>, room: nat): (k: nat)
    ensures k <= |p|
  {
    ReachFrom(p, room, 0)
  }

  /** The bytes in reach of a round. */
  ghost function InReach(p: seq<Iov>, room: nat): nat { Total(p[..Reach(p, room)]) }

  /** What is left of the chain when `n` bytes of it have been sent.  A buffer that has been sent
      exactly stays, and so do empty ones when nothing has been sent. */
  ghost function Dropped(p: seq<Iov>, n: nat): seq<Iov> {
    if n == 0 then p
    else if p == [] then []
    else if n <= p[0].len then [Iov(p[0].base + n, p[0].len - n)] + p[1..]
    else Dropped(p[1..], n - p[0].len)
  }

  lemma {:induction false} DroppedTotal(p: seq<Iov>, n: nat)
    requires n <= Total(p)
    ensures Total(Dropped(p, n)) == Total(p) - n && (Placed(p) ==> Placed(Dropped(p, n)))
  {
    if n == 0 {
    } else if n <= p[0].len {
      Cons(Iov(p[0].base + n, p[0].len - n), p[1..]);
    } else {
      DroppedTotal(p[1..], n - p[0].len);
    }
  }

  /** More room reaches as far. */
  lemma {:induction false} ReachMonotone(p: seq<Iov>, room: nat, more: nat, end: nat)
    requires room <= more
    ensures ReachFrom(p, room, end) <= ReachFrom(p, more, end)
  {
    if p != [] && room > 0 {
      var here := p[0].base == end;
      ReachMonotone(p[1..], if here then room else room - 1, if here then more else more - 1, p[0].base + p[0].len);
    }
  }

  lemma InReachAtMost(p: seq<Iov>, room: nat)
    ensures InReach(p, room) <= Total(p)
  {
    TotalCut(p, Reach(p, room));
  }

  // ---------- the loop ----------

  /** What the system says to a call: it takes up to `n` bytes, would block, or fails. */
  datatype Answer = Takes(n: nat) | WouldBlock | Fails

  /** How the loop is left: after a short write, after an error, or not at all by the time the answers
      are used up. */
  datatype End = ShortWrite | Error | Looping

  /** A run of the loop: what is left of the chain, the bytes sent, and how the loop was left. */
  datatype Run = Run(rest: seq<Iov>, sent: nat, end: End)

  /** The loop on the answers of the system.  A call that would block is made again at once. */
  ghost function Sending(p: seq<Iov>, room: nat, answers: seq<Answer>): Run
    decreases |answers|
  {
    if answers == [] then Run(p, 0, Looping)
    else
      match answers[0]
      case WouldBlock => Sending(p, room, answers[1..])
      case Fails => Run(p, 0, Error)
      case Takes(n) =>
        var size := InReach(p, room);
        if n < size then Run(Dropped(p, n), n, ShortWrite)
        else
          var r := Sending(Dropped(p, size), room, answers[1..]);
          Run(r.rest, size + r.sent, r.end)
  }

  /** What is left after `i` rounds that took all they could. */
  ghost function After(p: seq<Iov>, room: nat, i: nat): seq<Iov>
    decreases i
  {
    if i == 0 then p else After(Dropped(p, InReach(p, room)), room, i - 1)
  }

  /** The answers that are not retried. */
  ghost function Effective(answers: seq<Answer>): seq<Answer>
    decreases |answers|
  {
    if answers == [] then []
    else if answers[0] == WouldBlock then Effective(answers[1..])
    else [answers[0]] + Effective(answers[1..])
  }

  /** Calls that would block make no difference. */
  lemma {:induction false} RetriesDoNotMatter(p: seq<Iov>, room: nat, answers: seq<Answer>)
    ensures Sending(p, room, answers) == Sending(p, room, Effective(answers)) && WouldBlock !in Effective(answers)
    decreases |answers|
  {
    if answers != [] {
      var rest := answers[1..];
      RetriesDoNotMatter(p, room, rest);
      RetriesDoNotMatter(Dropped(p, InReach(p, room)), room, rest);
      if answers[0] != WouldBlock { Cons(answers[0], Effective(rest)); }
    }
  }

  ghost predicate AllTake(answers: seq<Answer>) { forall i | 0 <= i < |answers| :: answers[i].Takes? }

  /** The answer takes all that the buffers in reach hold after `i` full rounds. */
  ghost predicate TakesAll(p: seq<Iov>, room: nat, a: Answer, i: nat) {
    a.Takes? && a.n >= InReach(After(p, room, i), room)
  }

  lemma AfterNext(p: seq<Iov>, room: nat, i: nat)
    ensures After(p, room, i + 1) == After(Dropped(p, InReach(p, room)), room, i)
  {
  }

  /** The loop goes on as long as each answer takes all that is in reach, which depends only on the
      chain and the room; then it has sent what the rounds before have reached. */
  lemma {:induction false} LoopsWhileTaken(p: seq<Iov>, room: nat, answers: seq<Answer>)
    requires WouldBlock !in answers
    ensures var r := Sending(p, room, answers);
      && (r.end == Looping <==> forall i | 0 <= i < |answers| :: TakesAll(p, room, answers[i], i))
      && (r.end == Looping ==> r.rest == After(p, room, |answers|))
    decreases |answers|
  {
    if answers != [] {
      var q, rest := Dropped(p, InReach(p, room)), answers[1..];
      hide Dropped, InReach;
      LoopsWhileTaken(q, room, rest);
      forall i | 0 <= i < |rest|
        ensures TakesAll(q, room, rest[i], i) == TakesAll(p, room, answers[i + 1], i + 1)
      {
        AfterNext(p, room, i);
      }
      assert After(p, room, |answers|) == After(q, room, |rest|);
      assert answers[0].Takes? <==> answers[0] != Fails;
      if TakesAll(p, room, answers[0], 0) {
        if forall i | 0 <= i < |rest| :: TakesAll(q, room, rest[i], i) {
          forall i | 0 <= i < |answers|
            ensures TakesAll(p, room, answers[i], i)
          {
            if i > 0 { assert TakesAll(q, room, rest[i - 1], i - 1); }
          }
        }
      }
    }
  }

  lemma {:induction false} TakingIsNoError(p: seq<Iov>, room: nat, answers: seq<Answer>)
    requires AllTake(answers)
    ensures Sending(p, room, answers).end != Error && WouldBlock !in answers
    decreases |answers|
  {
    if answers != [] { TakingIsNoError(Dropped(p, InReach(p, room)), room, answers[1..]); }
  }

  /** When the system takes something of every call, the loop is left exactly when some answer is below
      the bytes that are in reach of its round. */
  lemma LeftWhenShort(p: seq<Iov>, room: nat, answers: seq<Answer>)
    requires AllTake(answers)
    ensures var end := Sending(p, room, answers).end;
      && (end == ShortWrite || end == Looping)
      && (end == ShortWrite <==> exists i :: 0 <= i < |answers| && answers[i].n < InReach(After(p, room, i), room))
  {
    hide Sending, InReach, After;
    TakingIsNoError(p, room, answers);
    LoopsWhileTaken(p, room, answers);
    if i :| 0 <= i < |answers| && answers[i].n < InReach(After(p, room, i), room) {
      assert !TakesAll(p, room, answers[i], i);
    }
    if i :| 0 <= i < |answers| && !TakesAll(p, room, answers[i], i) {
      assert answers[i].n < InReach(After(p, room, i), room);
    }
  }

  /** Answers after others are answers on what those have left. */
  lemma {:induction false} SendingInParts(p: seq<Iov>, room: nat, a: seq<Answer>, b: seq<Answer>)
    requires Sending(p, room, a).end == Looping
    ensures var r := Sending(p, room, a); var t := Sending(r.rest, room, b);
      Sending(p, room, a + b) == Run(t.rest, r.sent + t.sent, t.end)
    decreases |a|
  {
    if a == [] {
      assert a + b == b;
    } else {
      RestOfSum(a, b);
      if a[0] == WouldBlock {
        SendingInParts(p, room, a[1..], b);
      } else {
        SendingInParts(Dropped(p, InReach(p, room)), room, a[1..], b);
      }
    }
  }

  // ---------- the loop that is never left ----------

  /** However much the system takes, the loop goes on and sends nothing. */
  ghost predicate Stuck(p: seq<Iov>, room: nat) {
    forall answers | AllTake(answers) :: Sending(p, room, answers) == Run(p, 0, Looping)
  }

  lemma {:induction false} NothingInReach(p: seq<Iov>, room: nat, answers: seq<Answer>)
    requires AllTake(answers) && InReach(p, room) == 0
    ensures Sending(p, room, answers) == Run(p, 0, Looping)
    decreases |answers|
  {
    if answers != [] { NothingInReach(p, room, answers[1..]); }
  }

  /** The loop is stuck exactly when the buffers in reach hold no bytes. */
  lemma StuckIffNothingInReach(p: seq<Iov>, room: nat)
    ensures Stuck(p, room) <==> InReach(p, room) == 0
  {
    if InReach(p, room) == 0 {
      forall answers | AllTake(answers)
        ensures Sending(p, room, answers) == Run(p, 0, Looping)
      {
        NothingInReach(p, room, answers);
      }
    } else {
      assert AllTake([Takes(0)]) && Sending(p, room, [Takes(0)]).end == ShortWrite;
    }
  }

  lemma {:induction false} SentAndLeft(p: seq<Iov>, room: nat, answers: seq<Answer>)
    ensures var r := Sending(p, room, answers); r.sent + Total(r.rest) == Total(p) && (Placed(p) ==> Placed(r.rest))
    decreases |answers|
  {
    if answers != [] {
      InReachAtMost(p, room);
      match answers[0]
      case WouldBlock => SentAndLeft(p, room, answers[1..]);
      case Fails =>
      case Takes(n) =>
        DroppedTotal(p, if n < InReach(p, room) then n else InReach(p, room));
        if n >= InReach(p, room) { SentAndLeft(Dropped(p, InReach(p, room)), room, answers[1..]); }
    }
  }

  /** Once everything has been sent without a short write, no write is short any more. */
  lemma ConsumedKeepsLooping(p: seq<Iov>, room: nat, a: seq<Answer>, b: seq<Answer>)
    requires Sending(p, room, a).end == Looping && Sending(p, room, a).sent == Total(p) && AllTake(b)
    ensures Sending(p, room, a + b).end == Looping
  {
    var rest := Sending(p, room, a).rest;
    SentAndLeft(p, room, a);
    InReachAtMost(rest, room);
    NothingInReach(rest, room, b);
    SendingInParts(p, room, a, b);
  }

  /** Such a run: one byte, which the first call takes. */
  lemma OneByteLoops(room: nat, b: seq<Answer>)
    requires room > 0 && AllTake(b)
    ensures Sending([Iov(1, 1)], room, [Takes(1)] + b) == Run([Iov(2, 0)], 1, Looping)
  {
    var p, q := [Iov(1, 1)], [Iov(2, 0)];
    assert p[1..] == [] && q[1..] == [] && p[..1] == p && q[..1] == q && q[..0] == [];
    assert Total(p) == 1 && Total(q) == 0 && Reach(p, room) == 1;
    assert Dropped(p, 1) == q;
    InReachAtMost(q, room);
    NothingInReach(q, room, b);
    assert [Takes(1)][1..] == [];
    assert Sending(p, room, [Takes(1)]) == Run(q, 1, Looping);
    SendingInParts(p, room, [Takes(1)], b);
  }

  // ---------- when everything can be sent ----------

  /** What is left when the buffer at `k` has just been sent. */
  ghost function Emptied(p: seq<Iov>, k: nat): seq<Iov>
    requires k < |p|
  {
    [Iov(p[k].base + p[k].len, 0)] + p[k + 1..]
  }

  /** If there are bytes at all, some are in reach. */
  ghost predicate Open(p: seq<Iov>, room: nat) { Total(p) > 0 ==> InReach(p, room) > 0 }

  /** There are bytes in reach, if any are left, at the start and wherever a buffer with bytes in it
      has just been sent: no series of empty buffers fills the vector. */
  ghost predicate Clear(p: seq<Iov>, room: nat) {
    Open(p, room) && forall k | 0 <= k < |p| && p[k].len > 0 :: Open(Emptied(p, k), room)
  }

  lemma {:induction false} LastFilled(p: seq<Iov>, m: nat) returns (k: nat)
    requires m <= |p| && Total(p[..m]) > 0
    ensures k < m && p[k].len > 0 && Total(p[..m]) == Total(p[..k + 1])
    decreases m
  {
    LastApart(p[..m]);
    assert p[..m][..m - 1] == p[..m - 1] && p[..m][m - 1] == p[m - 1];
    TotalConcat(p[..m - 1], [p[m - 1]]);
    assert [p[m - 1]][1..] == [] && Total([p[m - 1]]) == p[m - 1].len;
    if p[m - 1].len > 0 { k := m - 1; } else { k := LastFilled(p, m - 1); }
  }

  lemma {:induction false} DroppedUpTo(p: seq<Iov>, k: nat)
    requires k < |p| && p[k].len > 0
    ensures Dropped(p, Total(p[..k + 1])) == Emptied(p, k)
  {
    var front := p[..k + 1];
    assert front[0] == p[0] && front[1..] == p[1..][..k];
    if k > 0 {
      DroppedUpTo(p[1..], k - 1);
      assert p[1..][k..] == p[k + 1..] && p[1..][k - 1] == p[k];
      TotalAtLeast(front[1..], k - 1);
      assert front[1..][k - 1] == p[k];
    }
  }

  /** A round that reaches bytes ends with a buffer that has just been sent. */
  lemma RoundEmpties(p: seq<Iov>, room: nat) returns (k: nat)
    requires InReach(p, room) > 0
    ensures k < Reach(p, room) && p[k].len > 0 && Dropped(p, InReach(p, room)) == Emptied(p, k)
  {
    hide ReachFrom, Emptied, Dropped;
    k := LastFilled(p, Reach(p, room));
    DroppedUpTo(p, k);
  }

  /** Where the vector stands behind the buffer at `k`. */
  lemma {:induction false} ReachBehind(p: seq<Iov>, room: nat, end: nat, k: nat) returns (left: nat)
    requires k < ReachFrom(p, room, end)
    ensures left <= room && (p[0].base != end ==> left < room)
    ensures ReachFrom(p, room, end) == k + 1 + ReachFrom(p[k + 1..], left, p[k].base + p[k].len)
  {
    left := if p[0].base == end then room else room - 1;
    if k > 0 {
      left := ReachBehind(p[1..], left, p[0].base + p[0].len, k - 1);
      assert p[1..][k..] == p[k + 1..];
    }
  }

  /** What a round reaches behind the buffer at `k`, a round that begins with that buffer just sent
      reaches too. */
  lemma ReachAgain(p: seq<Iov>, room: nat, k: nat)
    requires Placed(p) && k < Reach(p, room)
    ensures Reach(Emptied(p, k), room) + k >= Reach(p, room)
  {
    var left := ReachBehind(p, room, 0, k);
    var e := Emptied(p, k);
    assert e[0].base > 0 && e[1..] == p[k + 1..];
    ReachMonotone(p[k + 1..], left, room - 1, p[k].base + p[k].len);
    assert ReachFrom(e, room, 0) == 1 + ReachFrom(p[k + 1..], room - 1, p[k].base + p[k].len);
  }

  lemma InReachAtLeast(p: seq<Iov>, room: nat, i: nat)
    requires i < Reach(p, room)
    ensures InReach(p, room) >= p[i].len
  {
    TotalAtLeast(p[..Reach(p, room)], i);
  }

  lemma EmptiedTwice(p: seq<Iov>, j: nat, k: nat)
    requires j < k < |p|
    ensures k - j < |Emptied(p, j)| && Emptied(p, j)[k - j] == p[k] && Emptied(Emptied(p, j), k - j) == Emptied(p, k)
  {
    assert Emptied(p, j)[k - j + 1..] == p[k + 1..];
  }

  /** A round that reaches bytes neither makes nor breaks the condition. */
  lemma ClearKept(p: seq<Iov>, room: nat)
    requires Placed(p) && InReach(p, room) > 0
    ensures Clear(p, room) <==> Clear(Dropped(p, InReach(p, room)), room)
  {
    var j := RoundEmpties(p, room);
    var q := Emptied(p, j);
    hide Open, Dropped, InReach, Reach;
    assert Open(p, room) by { OpenWhenReached(p, room); }
    assert q[0].len == 0;
    forall k | 0 <= k < |p| && p[k].len > 0
      ensures k < j ==> Open(Emptied(p, k), room)
      ensures k > j ==> k - j < |q| && q[k - j] == p[k] && Emptied(q, k - j) == Emptied(p, k)
    {
      if k < j { OpenBefore(p, room, k, j); }
      if k > j { EmptiedTwice(p, j, k); }
    }
    if Clear(p, room) {
      forall i | 0 <= i < |q| && q[i].len > 0
        ensures Open(Emptied(q, i), room)
      {
        assert p[i + j].len > 0;
        EmptiedTwice(p, j, i + j);
      }
    }
    if Clear(q, room) {
      forall k | 0 <= k < |p| && p[k].len > 0
        ensures Open(Emptied(p, k), room)
      {
        if k > j { assert q[k - j].len > 0; }
      }
    }
  }

  lemma OpenWhenReached(p: seq<Iov>, room: nat)
    requires InReach(p, room) > 0
    ensures Open(p, room)
  {
  }

  /** A round goes past no buffer behind which nothing is in reach. */
  lemma OpenBefore(p: seq<Iov>, room: nat, k: nat, j: nat)
    requires Placed(p) && k < j < Reach(p, room) && p[j].len > 0
    ensures Open(Emptied(p, k), room)
  {
    ReachAgain(p, room, k);
    InReachAtLeast(Emptied(p, k), room, j - k);
    EmptiedTwice(p, k, j);
  }

  lemma NothingIsClear(p: seq<Iov>, room: nat)
    requires Total(p) == 0
    ensures Clear(p, room)
  {
    forall k | 0 <= k < |p|
      ensures p[k].len == 0
    {
      TotalAtLeast(p, k);
    }
  }

  lemma {:induction false} SentAllClear(p: seq<Iov>, room: nat, answers: seq<Answer>)
    requires Placed(p) && Sending(p, room, answers).sent == Total(p)
    ensures Clear(p, room)
    decreases |answers|
  {
    hide Clear, Dropped, Reach;
    var size := InReach(p, room);
    InReachAtMost(p, room);
    if Total(p) == 0 {
      NothingIsClear(p, room);
    } else if answers[0] == WouldBlock {
      SentAllClear(p, room, answers[1..]);
    } else {
      DroppedTotal(p, size);
      SentAllClear(Dropped(p, size), room, answers[1..]);
      if size > 0 { ClearKept(p, room); } else { assert Dropped(p, 0) == p by { DroppedNothing(p); } }
    }
  }

  lemma DroppedNothing(p: seq<Iov>)
    ensures Dropped(p, 0) == p
  {
  }

  /** Full rounds send everything. */
  lemma {:induction false} ClearIsSent(p: seq<Iov>, room: nat) returns (answers: seq<Answer>)
    requires Placed(p) && Clear(p, room)
    ensures AllTake(answers) && Sending(p, room, answers).end == Looping && Sending(p, room, answers).sent == Total(p)
    decreases Total(p)
  {
    if Total(p) == 0 {
      answers := [];
    } else {
      var size := InReach(p, room);
      InReachAtMost(p, room);
      assert size > 0;
      hide Clear, Dropped, InReach;
      ClearKept(p, room);
      DroppedTotal(p, size);
      var rest := ClearIsSent(Dropped(p, size), room);
      answers := [Takes(size)] + rest;
      Cons(Takes(size), rest);
    }
  }

  /** Some answers of the system make the loop send the whole chain exactly when bytes stay in reach. */
  lemma SendsAllIffClear(p: seq<Iov>, room: nat)
    requires Placed(p)
    ensures (exists answers :: Sending(p, room, answers).sent == Total(p)) <==> Clear(p, room)
  {
    if answers :| Sending(p, room, answers).sent == Total(p) {
      SentAllClear(p, room, answers);
    }
    if Clear(p, room) {
      var answers := ClearIsSent(p, room);
    }
  }

  /** With room for two entries, a chain without empty buffers can always be sent. */
  lemma NoEmptyBuffersIsClear(p: seq<Iov>, room: nat)
    requires Placed(p) && room >= 2 && forall i | 0 <= i < |p| :: p[i].len > 0
    ensures Clear(p, room)
  {
    if p != [] { InReachAtLeast(p, room, 0); }
    forall k | 0 <= k < |p|
      ensures Open(Emptied(p, k), room)
    {
      var e := Emptied(p, k);
      assert e[1..] == p[k + 1..];
      if k + 1 < |p| {
        assert p[k].base > 0 && e[1] == p[k + 1];
        assert Reach(e, room) == 1 + ReachFrom(e[1..], room - 1, e[0].base);
        InReachAtLeast(e, room, 1);
      } else {
        assert Total(e) == 0;
      }
    }
  }

  /** A chain that is stuck with a byte left: as many empty buffers, none adjoining the next, as the
      vector has entries. */
  lemma EmptyBuffersBlock(room: nat) returns (p: seq<Iov>)
    ensures Placed(p) && Total(p) == 1 && Stuck(p, room) && !Clear(p, room)
  {
    p := EmptyBuffers(room, 1);
    EmptyBuffersReach(room, 1, 0);
    StuckIffNothingInReach(p, room);
  }

  ghost function EmptyBuffers(n: nat, base: nat): seq<Iov> {
    if n == 0 then [Iov(base, 1)] else [Iov(base, 0)] + EmptyBuffers(n - 1, base + 1)
  }

  lemma {:induction false} EmptyBuffersReach(n: nat, base: nat, end: nat)
    requires end < base
    ensures var p := EmptyBuffers(n, base);
      Placed(p) && Total(p) == 1 && ReachFrom(p, n, end) == n < |p| && Total(p[..n]) == 0
  {
    if n > 0 {
      var rest := EmptyBuffers(n - 1, base + 1);
      EmptyBuffersReach(n - 1, base + 1, base);
      Cons(Iov(base, 0), rest);
      var p := EmptyBuffers(n, base);
      assert p[..n][1..] == rest[..n - 1] && p[..n][0] == p[0];
      assert forall i | 0 < i < |p| :: p[i] == rest[i - 1];
    } else {
      assert [Iov(base, 1)][1..] == [];
    }
  }
}
