/** The chain of output buffers: gathering it into an I/O vector, and dropping what was sent. */
module OutputChain {
  import opened Bytes
  import opened OutputRuns
  import opened Sequences
  import opened Wrappers

  /** A buffer: the bytes of memory from `pos` up to `last` are still to be sent. */
  class Buf {
    var pos: nat
    var last: nat
  }

  class Chain {
    const buf: Buf
    const next: Chain?

    constructor (buf: Buf, next: Chain?)
      ensures this.buf == buf && this.next == next
    {
      this.buf, this.next := buf, next;
    }
  }

  class Iovec {
    const iovs: array<Iov>
    var count: nat
    var size: nat

    constructor (nalloc: nat)
      ensures fresh(iovs) && iovs.Length == nalloc
    {
      iovs := new Iov[nalloc](_ => Iov(0, 0));
      count, size := 0, 0;
    }
  }

  // ---------- contents ----------

  /** The nodes of the chain that starts with `out`. */
  ghost predicate IsChain(out: Chain?, nodes: seq<Chain>) {
    if nodes == [] then out == null else out == nodes[0] && IsChain(nodes[0].next, nodes[1..])
  }

  ghost function Bufs(nodes: seq<Chain>): set<Buf> { set n | n in nodes :: n.buf }

  /** The buffers of the nodes cover the stretches `p` of memory, none of which is at its start. */
  ghost predicate Covers(nodes: seq<Chain>, p: seq<Iov>)
    reads Bufs(nodes)
  {
    && |p| == |nodes|
    && forall i | 0 <= i < |nodes| :: 0 < nodes[i].buf.pos == p[i].base && nodes[i].buf.last == p[i].base + p[i].len
  }

  /** The nodes have buffers of their own. */
  ghost predicate Separate(nodes: seq<Chain>) {
    forall i, j | 0 <= i < j < |nodes| :: nodes[i].buf != nodes[j].buf
  }

  /** The bytes of stretches of memory, one behind the other. */
  ghost function BytesOf(p: seq<Iov>, memory: seq<Byte>): seq<Byte>
    requires InMemory(p, memory)
  {
    if p == [] then [] else memory[p[0].base..p[0].base + p[0].len] + BytesOf(p[1..], memory)
  }

  ghost predicate InMemory(v: seq<Iov>, memory: seq<Byte>) {
    forall i | 0 <= i < |v| :: v[i].base + v[i].len <= |memory|
  }

  lemma {:induction false} BytesTotal(p: seq<Iov>, memory: seq<Byte>)
    requires InMemory(p, memory)
    ensures |BytesOf(p, memory)| == Total(p)
  {
    if p != [] { BytesTotal(p[1..], memory); }
  }

  /** No stretch begins where the one in front of it ends: adjacent buffers share a stretch. */
  ghost predicate Merged(v: seq<Iov>) {
    forall i | 0 < i < |v| :: v[i - 1].base + v[i - 1].len != v[i].base
  }

  lemma InMemoryCons(x: Iov, p: seq<Iov>, memory: seq<Byte>)
    requires InMemory([x] + p, memory)
    ensures x.base + x.len <= |memory| && InMemory(p, memory)
  {
    assert ([x] + p)[0] == x;
    forall i | 0 <= i < |p|
      ensures p[i].base + p[i].len <= |memory|
    {
      assert ([x] + p)[i + 1] == p[i];
    }
  }

  lemma BytesCons(x: Iov, p: seq<Iov>, memory: seq<Byte>)
    requires InMemory([x] + p, memory)
    ensures x.base + x.len <= |memory| && InMemory(p, memory)
    ensures BytesOf([x] + p, memory) == memory[x.base..x.base + x.len] + BytesOf(p, memory)
  {
    hide InMemory;
    InMemoryCons(x, p, memory);
    Cons(x, p);
    assert [x] + p != [];
  }

  lemma {:induction false} BytesConcat(p: seq<Iov>, q: seq<Iov>, memory: seq<Byte>)
    requires InMemory(p, memory) && InMemory(q, memory)
    ensures InMemory(p + q, memory) && BytesOf(p + q, memory) == BytesOf(p, memory) + BytesOf(q, memory)
  {
    assert InMemory(p + q, memory);
    hide BytesOf, InMemory;
    if p == [] {
      NothingGathered(memory);
      assert p + q == q;
    } else {
      var x, r := p[0], p[1..];
      assert p == [x] + r && p + q == [x] + (r + q);
      BytesCons(x, r, memory);
      BytesConcat(r, q, memory);
      BytesCons(x, r + q, memory);
      Grouped(memory[x.base..x.base + x.len], BytesOf(r, memory), BytesOf(q, memory));
    }
  }

  lemma BytesOne(x: Iov, memory: seq<Byte>)
    requires x.base + x.len <= |memory|
    ensures BytesOf([x], memory) == memory[x.base..x.base + x.len]
  {
  }

  lemma {:induction false} Appended(p: seq<Iov>, x: Iov, memory: seq<Byte>)
    requires InMemory(p, memory) && x.base + x.len <= |memory|
    ensures InMemory(p + [x], memory) && BytesOf(p + [x], memory) == BytesOf(p, memory) + memory[x.base..x.base + x.len]
  {
    BytesOne(x, memory);
    BytesConcat(p, [x], memory);
  }

  lemma Adjoining(memory: seq<Byte>, a: nat, b: nat, c: nat)
    requires a <= b <= c <= |memory|
    ensures memory[a..b] + memory[b..c] == memory[a..c]
  {
  }

  /** Making the last stretch longer adds the bytes behind it. */
  lemma {:induction false} Extended(f: seq<Iov>, x: Iov, more: nat, memory: seq<Byte>)
    requires InMemory(f, memory) && x.base + x.len + more <= |memory|
    ensures var p, q := f + [x], f + [Iov(x.base, x.len + more)]; var e := x.base + x.len;
      InMemory(p, memory) && InMemory(q, memory) && BytesOf(q, memory) == BytesOf(p, memory) + memory[e..e + more]
  {
    hide BytesOf, InMemory;
    Appended(f, x, memory);
    Appended(f, Iov(x.base, x.len + more), memory);
    Adjoining(memory, x.base, x.base + x.len, x.base + x.len + more);
    Grouped(BytesOf(f, memory), memory[x.base..x.base + x.len], memory[x.base + x.len..x.base + x.len + more]);
  }

  lemma LastExtended(p: seq<Iov>, more: nat, memory: seq<Byte>)
    requires |p| > 0 && InMemory(p, memory) && p[|p| - 1].base + p[|p| - 1].len + more <= |memory|
    ensures var x := p[|p| - 1]; var w := p[..|p| - 1] + [Iov(x.base, x.len + more)]; var e := x.base + x.len;
      InMemory(w, memory) && BytesOf(w, memory) == BytesOf(p, memory) + memory[e..e + more]
  {
    assert InMemory(p[..|p| - 1], memory);
    hide BytesOf, InMemory;
    assert p == p[..|p| - 1] + [p[|p| - 1]];
    Extended(p[..|p| - 1], p[|p| - 1], more, memory);
  }

  /** The stretches in front of `k`, and the one at `k`. */
  lemma {:induction false} BytesUpTo(p: seq<Iov>, k: nat, memory: seq<Byte>)
    requires InMemory(p, memory) && k < |p|
    ensures InMemory(p[..k], memory) && InMemory(p[..k + 1], memory) && p[k].base + p[k].len <= |memory|
    ensures BytesOf(p[..k + 1], memory) == BytesOf(p[..k], memory) + memory[p[k].base..p[k].base + p[k].len]
  {
    assert p[..k + 1] == p[..k] + [p[k]];
    Appended(p[..k], p[k], memory);
  }

  lemma ChainNext(out: Chain?, nodes: seq<Chain>, k: nat)
    requires k <= |nodes| && IsChain(out, nodes[k..])
    ensures out == null <==> k == |nodes|
    ensures k < |nodes| ==> out == nodes[k] && IsChain(nodes[k].next, nodes[k + 1..])
  {
    if k < |nodes| { assert nodes[k..][0] == nodes[k] && nodes[k..][1..] == nodes[k + 1..]; }
  }

  // ---------- gathering ----------

  /** Adds a buffer to the `n` stretches of a vector; `prevLast` is where the last one ends. */
  method AddStretch(v: array<Iov>, n: nat, prevLast: nat, pos: nat, size: nat, ghost memory: seq<Byte>) returns (m: nat)
    requires n < v.Length && InMemory(v[..n], memory)
      && prevLast == (if n == 0 then 0 else v[n - 1].base + v[n - 1].len)
    requires 0 < pos && pos + size <= |memory| && Merged(v[..n])
    modifies v
    ensures m == if prevLast == pos then n else n + 1
    ensures 0 < m <= v.Length && Merged(v[..m]) && InMemory(v[..m], memory)
      && v[m - 1].base + v[m - 1].len == pos + size
    ensures BytesOf(v[..m], memory) == old(BytesOf(v[..n], memory)) + memory[pos..pos + size]
  {
    hide BytesOf, InMemory;
    ghost var before := v[..n];
    m := n;
    if prevLast == pos {
      LastExtended(before, size, memory);
      v[m - 1] := v[m - 1].(len := v[m - 1].len + size);
      assert v[..m] == before[..m - 1] + [v[m - 1]];
    } else {
      Appended(before, Iov(pos, size), memory);
      v[m] := Iov(pos, size);
      m := m + 1;
      assert v[..m] == before + [v[m - 1]];
    }
  }

  /** Describes the buffers of the chain, which cover the stretches `p`, in the vector, as far as it
      has room; adjacent buffers share a stretch.  The result is the rest of the chain; `k` nodes have
      been gathered. */
  method Gather(vec: Iovec, chain: Chain?, ghost nodes: seq<Chain>, ghost p: seq<Iov>, ghost memory: seq<Byte>)
    returns (out: Chain?, ghost k: nat)
    requires IsChain(chain, nodes) && Covers(nodes, p) && InMemory(p, memory)
    modifies vec, vec.iovs
    ensures vec.count <= vec.iovs.Length && k <= |nodes| == |p| && IsChain(out, nodes[k..])
    ensures InMemory(vec.iovs[..vec.count], memory) && InMemory(p[..k], memory)
    ensures BytesOf(vec.iovs[..vec.count], memory) == BytesOf(p[..k], memory) && vec.size == |BytesOf(p[..k], memory)|
    ensures k == Reach(p, vec.iovs.Length) && vec.size == InReach(p, vec.iovs.Length)
    ensures k < |nodes| ==> vec.count == vec.iovs.Length
    ensures Merged(vec.iovs[..vec.count]) && Covers(nodes, p)
  {
    hide IsChain, BytesOf, InMemory, Reaching, Reach, InReach;
    var n: nat, total: nat, prevLast: nat := 0, 0, 0;
    var v := vec.iovs;
    out, k := chain, 0;
    assert nodes[0..] == nodes && v[..0] == p[..0] == [];
    ReachStarts(p, v.Length);
    NothingGathered(memory);
    ChainNext(out, nodes, 0);
    while out != null
      invariant n <= v.Length && k <= |nodes| && IsChain(out, nodes[k..]) && (out == null <==> k == |nodes|)
      invariant InMemory(v[..n], memory) && InMemory(p[..k], memory)
      invariant Merged(v[..n])
      invariant Reaching(p, v.Length, k, n, prevLast)
      invariant BytesOf(v[..n], memory) == BytesOf(p[..k], memory) && total == |BytesOf(p[..k], memory)|
      invariant prevLast == if n == 0 then 0 else v[n - 1].base + v[n - 1].len
      decreases |nodes| - k
    {
      if n == v.Length {
        break;
      }
      ChainNext(out, nodes, k);
      ReachNext(p, v.Length, k, n, prevLast);
      BytesUpTo(p, k, memory);
      var size := out.buf.last - out.buf.pos;
      n := AddStretch(v, n, prevLast, out.buf.pos, size, memory);
      prevLast := out.buf.pos + size;
      total := total + size;
      out := out.next;
      k := k + 1;
      ChainNext(out, nodes, k);
    }
    ReachStops(p, v.Length, k, n, prevLast);
    BytesTotal(p[..k], memory);
    vec.count := n;
    vec.size := total;
  }

  /** With `k` buffers in the `n` entries of a vector, what it can take besides is still in reach. */
  ghost predicate Reaching(p: seq<Iov>, room: nat, k: nat, n: nat, end: nat) {
    k <= |p| && n <= room && Reach(p, room) == k + ReachFrom(p[k..], room - n, end)
  }

  lemma ReachStarts(p: seq<Iov>, room: nat)
    ensures Reaching(p, room, 0, 0, 0)
  {
    assert p[0..] == p;
  }

  lemma ReachNext(p: seq<Iov>, room: nat, k: nat, n: nat, end: nat)
    requires Reaching(p, room, k, n, end) && k < |p| && n < room
    ensures Reaching(p, room, k + 1, if end == p[k].base then n else n + 1, p[k].base + p[k].len)
  {
    assert p[k..][0] == p[k] && p[k..][1..] == p[k + 1..];
  }

  lemma ReachStops(p: seq<Iov>, room: nat, k: nat, n: nat, end: nat)
    requires Reaching(p, room, k, n, end) && (k == |p| || n == room)
    ensures k == Reach(p, room) && Total(p[..k]) == InReach(p, room)
  {
  }

  lemma NothingGathered(memory: seq<Byte>)
    ensures InMemory([], memory) && BytesOf([], memory) == []
  {
  }

  // ---------- dropping what was sent ----------

  /** What is left of the stretches when the ones in front of `k` and `n` bytes of the one at `k` are gone. */
  ghost function Left(p: seq<Iov>, k: nat, n: nat): seq<Iov>
    requires k < |p| && n <= p[k].len
  {
    [Iov(p[k].base + n, p[k].len - n)] + p[k + 1..]
  }

  /** The bytes of what is left are the bytes without the ones sent. */
  lemma {:induction false} DroppedBytes(p: seq<Iov>, n: nat, memory: seq<Byte>)
    requires InMemory(p, memory)
    ensures var q := Dropped(p, n);
      InMemory(q, memory) && BytesOf(q, memory) == if n <= |BytesOf(p, memory)| then BytesOf(p, memory)[n..] else []
  {
    if n == 0 {
      DroppedNothing(p);
    } else if p == [] {
      NothingGathered(memory);
    } else {
      var x, r := p[0], p[1..];
      assert Dropped(p, n) == if n <= x.len then [Iov(x.base + n, x.len - n)] + r else Dropped(r, n - x.len);
      assert x.base + x.len <= |memory| && InMemory(r, memory);
      assert n <= x.len ==> InMemory([Iov(x.base + n, x.len - n)] + r, memory);
      hide BytesOf, InMemory, Dropped;
      FirstApart(p);
      BytesCons(x, r, memory);
      if n <= x.len {
        BytesCons(Iov(x.base + n, x.len - n), r, memory);
        DroppedInside(memory, x, BytesOf(r, memory), n);
      } else {
        DroppedBytes(r, n - x.len, memory);
        if n <= x.len + |BytesOf(r, memory)| {
          DroppedBehind(memory[x.base..x.base + x.len], BytesOf(r, memory), n);
        }
      }
    }
  }

  lemma DroppedInside(memory: seq<Byte>, x: Iov, b: seq<Byte>, n: nat)
    requires x.base + x.len <= |memory| && n <= x.len
    ensures (memory[x.base..x.base + x.len] + b)[n..] == memory[x.base + n..x.base + x.len] + b
  {
  }

  lemma DroppedBehind(a: seq<Byte>, b: seq<Byte>, n: nat)
    requires |a| <= n <= |a| + |b|
    ensures (a + b)[n..] == b[n - |a|..]
  {
  }

  /** The stretches from `k` on are still the ones of the nodes. */
  ghost predicate CoversFrom(nodes: seq<Chain>, p: seq<Iov>, k: nat)
    reads Bufs(nodes)
  {
    && |p| == |nodes|
    && forall i | k <= i < |nodes| :: 0 < nodes[i].buf.pos == p[i].base && nodes[i].buf.last == p[i].base + p[i].len
  }

  /** Moves the buffer of the node at `k` on by `n` bytes. */
  method Advance(node: Chain, n: nat, ghost nodes: seq<Chain>, ghost p: seq<Iov>, ghost k: nat)
    requires k < |nodes| && node == nodes[k] && CoversFrom(nodes, p, k) && Separate(nodes) && n <= p[k].len
    modifies node.buf
    ensures CoversFrom(nodes, p, k + 1) && Covers(nodes[k..], Left(p, k, n))
  {
    node.buf.pos := node.buf.pos + n;
    ghost var q, rest := Left(p, k, n), nodes[k..];
    assert forall i {:trigger rest[i]} | 0 <= i < |rest| :: rest[i] == nodes[k + i];
    assert forall i {:trigger q[i]} | 0 < i < |q| :: q[i] == p[k + i];
  }

  /** Moves the buffers past the first `sent` bytes. */
  method Update(chain: Chain?, sent: nat, ghost nodes: seq<Chain>, ghost p: seq<Iov>, ghost memory: seq<Byte>)
    returns (out: Chain?, ghost k: nat, ghost q: seq<Iov>)
    requires IsChain(chain, nodes) && Covers(nodes, p) && InMemory(p, memory) && Separate(nodes)
    modifies Bufs(nodes)
    ensures k <= |nodes| && IsChain(out, nodes[k..]) && Covers(nodes[k..], q) && InMemory(q, memory)
    ensures q == Dropped(p, sent)
    ensures BytesOf(q, memory) == if sent <= |BytesOf(p, memory)| then BytesOf(p, memory)[sent..] else []
  {
    hide IsChain, BytesOf, InMemory, Left, Separate, CoversFrom, Covers, Dropped, Dropping;
    out, k, q := chain, 0, p;
    CoveredAll(nodes, p);
    assert nodes[0..] == nodes;
    DroppingStarts(p, sent);
    DroppedBytes(p, sent, memory);
    if sent == 0 {
      DroppedNothing(p);
      return;
    }
    var left: nat := sent;
    ChainNext(out, nodes, 0);
    while out != null
      invariant k <= |nodes| && IsChain(out, nodes[k..]) && (out == null <==> k == |nodes|)
      invariant CoversFrom(nodes, p, k) && Dropping(p, sent, k, left) && left > 0
      decreases |nodes| - k
    {
      ChainNext(out, nodes, k);
      CoveredSize(nodes, p, k);
      var size := out.buf.last - out.buf.pos;
      size := if left > size then size else left;
      DroppingNext(p, sent, k, left);
      Advance(out, size, nodes, p, k);
      left := left - size;
      if left == 0 {
        q := Left(p, k, size);
        return;
      }
      out := out.next;
      k := k + 1;
      ChainNext(out, nodes, k);
    }
    assert nodes[k..] == [];
    DroppingEnds(p, sent, left);
    q := [];
    CoversNothing();
  }

  /** With the buffers in front of `k` behind, there are `n` bytes to go. */
  ghost predicate Dropping(p: seq<Iov>, sent: nat, k: nat, n: nat) {
    k <= |p| && Dropped(p, sent) == Dropped(p[k..], n)
  }

  lemma DroppingStarts(p: seq<Iov>, sent: nat)
    ensures Dropping(p, sent, 0, sent)
  {
    assert p[0..] == p;
  }

  lemma DroppingNext(p: seq<Iov>, sent: nat, k: nat, n: nat)
    requires Dropping(p, sent, k, n) && k < |p| && n > 0
    ensures if n <= p[k].len then Dropped(p, sent) == Left(p, k, n) else Dropping(p, sent, k + 1, n - p[k].len)
  {
    assert p[k..][0] == p[k] && p[k..][1..] == p[k + 1..];
  }

  lemma DroppingEnds(p: seq<Iov>, sent: nat, n: nat)
    requires Dropping(p, sent, |p|, n)
    ensures Dropped(p, sent) == []
  {
  }

  lemma CoveredAll(nodes: seq<Chain>, p: seq<Iov>)
    requires Covers(nodes, p)
    ensures CoversFrom(nodes, p, 0) && |p| == |nodes|
  {
  }

  lemma CoveredSize(nodes: seq<Chain>, p: seq<Iov>, k: nat)
    requires k < |nodes| == |p| && CoversFrom(nodes, p, k)
    ensures nodes[k].buf.last - nodes[k].buf.pos == p[k].len
  {
  }

  lemma CoversNothing()
    ensures Covers([], [])
  {
  }

  // ---------- sending ----------

  /** The state of a connection that the sender looks at and changes. */
  class Connection {
    var ready: bool
    var error: bool
    var sentSize: nat
  }

  /** A call of the system on `size` bytes, made again for as long as it would block: `Some(n)` when `n`
      bytes have been taken, `None` after an error.  The answers in front of `i` have been used; with
      none left over there is no result yet. */
  method WriteV(size: nat, answers: seq<Answer>, i: nat, ghost nodes: seq<Chain>, ghost q: seq<Iov>)
    returns (done: bool, n: Option<nat>, j: nat)
    requires i <= |answers| && Covers(nodes, q)
    ensures Covers(nodes, q)
    ensures if done then i < j <= |answers| else j == |answers|
    ensures done ==> match answers[j - 1]
      case WouldBlock => false
      case Fails => n == None
      case Takes(most) => n == Some(if most < size then most else size)
    ensures forall p, room ::
      Sending(p, room, answers[i..]) == Sending(p, room, if done then [answers[j - 1]] + answers[j..] else [])
  {
    j := i;
    while j < |answers| && answers[j] == WouldBlock
      invariant i <= j <= |answers|
      invariant forall p, room :: Sending(p, room, answers[i..]) == Sending(p, room, answers[j..])
    {
      assert answers[j..][0] == WouldBlock && answers[j..][1..] == answers[j + 1..];
      j := j + 1;
    }
    done, n := j < |answers|, None;
    if done {
      FirstApart(answers[j..]);
      assert answers[j..][1..] == answers[j + 1..];
      if answers[j].Takes? { n := Some(if answers[j].n < size then answers[j].n else size); }
      j := j + 1;
    }
  }

  /** Takes down the result of a round. */
  method Note(c: Connection, n: nat, end: End, ghost nodes: seq<Chain>, ghost p: seq<Iov>)
    requires Covers(nodes, p)
    modifies c
    ensures Covers(nodes, p) && c.sentSize == old(c.sentSize) + n
    ensures c.ready == (old(c.ready) && end != ShortWrite) && c.error == (old(c.error) || end == Error)
  {
    c.sentSize := c.sentSize + n;
    if end == ShortWrite {
      c.ready := false;
    }
    if end == Error {
      c.error := true;
    }
  }

  /** One round of the sender. */
  method SendRound(c: Connection, vec: Iovec, chain: Chain?, answers: seq<Answer>, i: nat, ghost nodes: seq<Chain>,
          ghost p: seq<Iov>, ghost memory: seq<Byte>)
    returns (out: Chain?, end: End, j: nat, ghost n: nat, ghost k: nat, ghost q: seq<Iov>)
    requires IsChain(chain, nodes) && Covers(nodes, p) && InMemory(p, memory) && Separate(nodes) && i < |answers|
    modifies c, vec, vec.iovs, Bufs(nodes)
    ensures k <= |nodes| && IsChain(out, nodes[k..]) && Covers(nodes[k..], q) && InMemory(q, memory)
    ensures n <= |BytesOf(p, memory)| && BytesOf(q, memory) == BytesOf(p, memory)[n..]
    ensures c.sentSize == old(c.sentSize) + n
    ensures c.ready == (old(c.ready) && end != ShortWrite) && c.error == (old(c.error) || end == Error)
    ensures i < j <= |answers| && var room := vec.iovs.Length;
      Sending(p, room, answers[i..]) ==
        Before(n, if end == Looping then Sending(q, room, answers[j..]) else Run(q, 0, end))
  {
    hide IsChain, BytesOf, InMemory, Covers, Separate, Sending, Dropped, Reach;
    ghost var room := vec.iovs.Length;
    assert nodes[0..] == nodes;
    ghost var gathered;
    out, gathered := Gather(vec, chain, nodes, p, memory);
    Prefix(p, gathered, memory);
    out, end, n, k, q := chain, Looping, 0, 0, p;
    var done, answer;
    done, answer, j := WriteV(vec.size, answers, i, nodes, p);
    if !done {
      assert answers[j..] == [];
      return;
    }
    SendingNext(p, room, answers[j - 1], answers[j..]);
    if answer.None? {
      end := Error;
    } else {
      n := answer.value;
      out, k, q := Update(chain, answer.value, nodes, p, memory);
      end := if vec.size != answer.value then ShortWrite else Looping;
    }
    Note(c, if answer.None? then 0 else answer.value, end, nodes[k..], q);
  }

  /** The loop of the sender, with the answers of the system to its calls.  On a connection that is not
      ready it is not entered. */
  method SendChain(c: Connection, vec: Iovec, chain: Chain?, answers: seq<Answer>, ghost nodes: seq<Chain>,
          ghost p: seq<Iov>, ghost memory: seq<Byte>)
    returns (out: Chain?, end: End, ghost taken: seq<Byte>, ghost k: nat, ghost q: seq<Iov>)
    requires IsChain(chain, nodes) && Covers(nodes, p) && InMemory(p, memory) && Separate(nodes)
    modifies c, vec, vec.iovs, Bufs(nodes)
    ensures k <= |nodes| && IsChain(out, nodes[k..]) && Covers(nodes[k..], q) && InMemory(q, memory)
    ensures taken + BytesOf(q, memory) == BytesOf(p, memory) && c.sentSize == old(c.sentSize) + |taken|
    ensures Run(q, |taken|, end) ==
      if old(c.ready) then Sending(p, vec.iovs.Length, answers) else Run(p, 0, Looping)
    ensures c.ready == (old(c.ready) && end != ShortWrite) && c.error == (old(c.error) || end == Error)
  {
    hide IsChain, BytesOf, InMemory, Covers, Separate, Sending;
    out, end, taken, k, q := chain, Looping, [], 0, p;
    assert nodes[0..] == nodes;
    if !c.ready {
      return;
    }
    ghost var room := vec.iovs.Length;
    var i := 0;
    assert answers[0..] == answers;
    SendingNothing(q, room);
    while i < |answers| && end == Looping
      invariant k <= |nodes| && IsChain(out, nodes[k..]) && Covers(nodes[k..], q) && InMemory(q, memory)
        && Separate(nodes[k..])
      invariant taken + BytesOf(q, memory) == BytesOf(p, memory) && c.sentSize == old(c.sentSize) + |taken|
      invariant i <= |answers| && c.ready == (end != ShortWrite) && c.error == (old(c.error) || end == Error)
      invariant Sending(p, room, answers) ==
        Before(|taken|, if end == Looping then Sending(q, room, answers[i..]) else Run(q, 0, end))
    {
      ghost var bytes, n, m := BytesOf(q, memory), 0, 0;
      out, end, i, n, m, q := SendRound(c, vec, out, answers, i, nodes[k..], q, memory);
      Halves(bytes, n);
      Grouped(taken, bytes[..n], bytes[n..]);
      taken := taken + bytes[..n];
      Suffix(nodes, k, m);
      k := k + m;
    }
    if end == Looping {
      assert answers[i..] == [];
      SendingNothing(q, room);
    }
  }

  /** A run behind rounds that have sent `n` bytes. */
  ghost function Before(n: nat, r: Run): Run { Run(r.rest, n + r.sent, r.end) }

  lemma SendingNothing(p: seq<Iov>, room: nat)
    ensures Sending(p, room, []) == Run(p, 0, Looping)
  {
  }

  lemma SendingNext(p: seq<Iov>, room: nat, a: Answer, rest: seq<Answer>)
    requires a != WouldBlock
    ensures Sending(p, room, [a] + rest) == match a
      case Fails => Run(p, 0, Error)
      case Takes(n) =>
        var size := InReach(p, room);
        if n < size then Run(Dropped(p, n), n, ShortWrite) else Before(size, Sending(Dropped(p, size), room, rest))
  {
    Cons(a, rest);
  }

  lemma {:induction false} Prefix(p: seq<Iov>, k: nat, memory: seq<Byte>)
    requires k <= |p| && InMemory(p, memory)
    ensures InMemory(p[..k], memory) && |BytesOf(p[..k], memory)| <= |BytesOf(p, memory)|
  {
    assert p == p[..k] + p[k..];
    BytesConcat(p[..k], p[k..], memory);
  }

  lemma Suffix(nodes: seq<Chain>, k: nat, m: nat)
    requires k <= |nodes| && m <= |nodes[k..]| && Separate(nodes[k..])
    ensures nodes[k..][m..] == nodes[k + m..] && Separate(nodes[k + m..])
  {
    assert forall i {:trigger nodes[k + m..][i]} | 0 <= i < |nodes[k + m..]| :: nodes[k + m..][i] == nodes[k..][m + i];
  }
}
